/** TCP.serialize and deserialize of java/packet/TCP.java (section 3.1 of
    RFC 793), with a payload of raw data. */
module TcpSegment {
  import opened Bytes
  import opened Checksum
  import opened Sequences
  import IPv4Packet

  datatype Options = NoOptions | Options(bytes: seq<Byte>)

  datatype Header = Header(
    sourcePort: Short, destinationPort: Short, sequence: Word, acknowledge: Word, dataOffset: Byte,
    flags: Short, windowSize: Short, urgentPointer: Short, options: Options)

  const TCP_PROTOCOL: Byte := 6

  /** serialize replaces a data offset of 0 by the default. */
  function Defaulted(h: Header): Header {
    if h.dataOffset == 0 then h.(dataOffset := 5) else h
  }

  /** The headers serialize can write: the data offset leaves room for 20 bytes
      and for the options, which have to be there when it leaves room for more.
      For any other header what is written outgrows the buffer, or is null. */
  predicate Fits(h: Header) {
    h.dataOffset == 5
    || (5 < h.dataOffset < 128 && h.options.Options? && |h.options.bytes| <= 4 * h.dataOffset - 20)
  }

  /** a | b */
  function Or(a: nat, b: nat): (r: nat)
    ensures a < 2 && b < 2 ==> r < 2
    ensures a < 4 && b < 4 ==> r < 4
    ensures a < 8 && b < 8 ==> r < 8
    ensures a < 16 && b < 16 ==> r < 16
  {
    if a == 0 then b
    else if b == 0 then a
    else 2 * Or(a / 2, b / 2) + (if a % 2 == 1 || b % 2 == 1 then 1 else 0)
  }

  /** (short) (flags | (dataOffset << 12)) */
  function OffsetAndFlags(h: Header): Short {
    0x1000 * Or(h.flags / 0x1000, h.dataOffset % 16) + h.flags % 0x1000
  }

  /** The 16 bytes before the checksum. */
  function Front(h: Header): (bs: seq<Byte>)
    ensures |bs| == 16
  {
    ShortBytes(h.sourcePort) + ShortBytes(h.destinationPort) + WordBytes(h.sequence) + WordBytes(h.acknowledge)
    + ShortBytes(OffsetAndFlags(h)) + ShortBytes(h.windowSize)
  }

  function PaddedOptions(h: Header): (bs: seq<Byte>)
    requires Fits(h)
    ensures |bs| == 4 * h.dataOffset - 20
  {
    if h.dataOffset == 5 then []
    else h.options.bytes + Zeros(4 * h.dataOffset - 20 - |h.options.bytes|)
  }

  /** The whole segment. */
  function SegmentBytes(h: Header, checksum: Short, payload: seq<Byte>): (bs: seq<Byte>)
    requires Fits(h)
    ensures |bs| == 4 * h.dataOffset + |payload|
  {
    Front(h) + ShortBytes(checksum) + (ShortBytes(h.urgentPointer) + (PaddedOptions(h) + payload))
  }

  function Halves(w: Word): nat {
    w / 0x1_0000 + w % 0x1_0000
  }

  /** The words of the pseudo header; there is none without an IPv4 parent. */
  datatype Pseudo = NoParent | Pseudo(source: Word, destination: Word)

  function PseudoSum(p: Pseudo, length: nat): Word {
    if p.NoParent? then 0
    else Halves(p.source) + Halves(p.destination) + TCP_PROTOCOL + length % 0x1_0000
  }

  /** It is the sum of the pseudo header of section 3.1 of RFC 793: the two addresses, a
      zero, the protocol TCP, which is 6, and the length of the segment. */
  lemma PseudoIsSummed(source: Word, destination: Word, length: Short)
    ensures PseudoSum(Pseudo(source, destination), length)
            == WordSum(WordBytes(source) + WordBytes(destination) + [0, 6] + ShortBytes(length))
  {
    hide ShortAt;
    var bs := WordBytes(source) + WordBytes(destination) + [0, 6] + ShortBytes(length);
    PseudoWords(source, destination, length);
    hide WordBytes, ShortBytes;
    WordSumStep(bs, 0);
    WordSumStep(bs, 1);
    WordSumStep(bs, 2);
    WordSumStep(bs, 3);
    WordSumStep(bs, 4);
    WordSumStep(bs, 5);
    assert bs[2 * 0..] == bs && bs[2 * 6..] == [];
  }

  lemma PseudoWords(source: Word, destination: Word, length: Short)
    ensures var bs := WordBytes(source) + WordBytes(destination) + [0, 6] + ShortBytes(length);
            && |bs| == 12 && ShortAt(bs, 8) == 6 && ShortAt(bs, 10) == length
            && ShortAt(bs, 0) == source / 0x1_0000 && ShortAt(bs, 2) == source % 0x1_0000
            && ShortAt(bs, 4) == destination / 0x1_0000 && ShortAt(bs, 6) == destination % 0x1_0000
  {
  }

  function SegmentSum(p: Pseudo, h: Header, payload: seq<Byte>): nat
    requires Fits(h)
  {
    PseudoSum(p, 4 * h.dataOffset + |payload|) + WordSum(SegmentBytes(h, 0, payload))
  }

  function SegmentChecksum(p: Pseudo, h: Header, payload: seq<Byte>): Short
    requires Fits(h)
  {
    ChecksumOf(SegmentSum(p, h, payload) % INT)
  }

  /** What a receiver adds up: the pseudo header and the segment as received. */
  function ReceivedSum(p: Pseudo, bs: seq<Byte>): nat {
    PseudoSum(p, |bs|) + WordSum(bs)
  }

  lemma SegmentWithChecksum(h: Header, c: Short, payload: seq<Byte>)
    requires Fits(h)
    ensures var zero := SegmentBytes(h, 0, payload);
            zero[16] == 0 == zero[17] && SegmentBytes(h, c, payload) == zero[16 := c / 0x100][17 := c % 0x100]
  {
    PatchMiddle(Front(h), ShortBytes(h.urgentPointer) + (PaddedOptions(h) + payload), c);
  }

  /** For every header and payload, of any length and with or without a pseudo
      header, the serialized segment checks exactly when the bits lost by the
      32-bit accumulator and the carry lost by the single fold cancel out. */
  lemma SegmentChecks(p: Pseudo, h: Header, payload: seq<Byte>)
    requires Fits(h)
    ensures var total := SegmentSum(p, h, payload);
            FoldAll(ReceivedSum(p, SegmentBytes(h, SegmentChecksum(p, h, payload), payload))) == 0xffff
            <==> (total / INT + FoldOnce(total % INT) / 0x1_0000) % 0xffff == 0
  {
    hide FoldAll, SegmentBytes, WordSum, FoldOnce;
    var c, zero := SegmentChecksum(p, h, payload), SegmentBytes(h, 0, payload);
    SegmentWithChecksum(h, c, payload);
    SumWithField(zero, 16, c);
    ChecksumExact(SegmentSum(p, h, payload));
  }

  /** A segment whose length fits the 16 bits of the pseudo header checks exactly
      when the high half plus the low half of the sum is at most 0xffff, although
      the accumulator, an int, may have turned negative. */
  lemma ShortSegmentChecks(p: Pseudo, h: Header, payload: seq<Byte>)
    requires Fits(h) && 4 * h.dataOffset + |payload| < 0x1_0000
    ensures var total := SegmentSum(p, h, payload);
            && total < INT
            && (FoldAll(ReceivedSum(p, SegmentBytes(h, SegmentChecksum(p, h, payload), payload))) == 0xffff
                <==> total / 0x1_0000 + total % 0x1_0000 <= 0xffff)
  {
    var total := SegmentSum(p, h, payload);
    WordSumBound(SegmentBytes(h, 0, payload));
    hide FoldAll, SegmentBytes, WordSum;
    SegmentChecks(p, h, payload);
    NothingLost(total);
  }

  const SAMPLE := Header(0xffff, 0, 0, 0, 5, 0, 0xb000, 0, NoOptions)

  /** A segment that does not check: without payload and parent, from port 0xffff
      and with window 0xb000. */
  lemma SomeSegmentFails()
    ensures Fits(SAMPLE)
    ensures FoldAll(ReceivedSum(NoParent, SegmentBytes(SAMPLE, SegmentChecksum(NoParent, SAMPLE, []), []))) != 0xffff
  {
    SampleSum();
    ShortSegmentChecks(NoParent, SAMPLE, []);
  }

  lemma SampleSum()
    ensures SegmentSum(NoParent, SAMPLE, []) == 0x1_ffff
  {
    var a, bs := Front(SAMPLE), SegmentBytes(SAMPLE, 0, []);
    FrontAt(SAMPLE);
    PlacesIn(a, 0, 0, PaddedOptions(SAMPLE) + []);
    FrontIn(a, bs);
    assert OffsetAndFlags(SAMPLE) == 0x5000;
    SumOf20(bs);
    assert ShortAt(bs, 4) == 0 && ShortAt(bs, 6) == 0 && ShortAt(bs, 8) == 0 && ShortAt(bs, 10) == 0 by {
      assert WordAt(a, 4) == 0 && WordAt(a, 8) == 0;
    }
  }

  lemma FrontIn(a: seq<Byte>, bs: seq<Byte>)
    requires |a| == 16 <= |bs| && forall i :: 0 <= i < 16 ==> bs[i] == a[i]
    ensures forall i :: 0 <= i <= 14 ==> ShortAt(bs, i) == ShortAt(a, i)
  {
  }

  datatype Parsed = Segment(header: Header, checksum: Short, payload: seq<Byte>) | Failure

  /** What deserialize reads from these bytes into a segment whose options were
      these before: without room for options it leaves them alone. */
  function Parse(bs: seq<Byte>, before: Options): Parsed {
    if |bs| < 20 || bs[12] / 16 < 5 then Failure
    else
      var offset := bs[12] / 16;
      var end := if 4 * offset <= |bs| then 4 * offset else |bs|;
      Segment(ParseHeader(bs, if offset == 5 then before else Options(bs[20..end])), ShortAt(bs, 16), bs[end..])
  }

  /** Reading fails exactly below 20 bytes and for a data offset below 5; options and
      payload that are cut off are what there is of them. */
  lemma ParseFailsExactly(bs: seq<Byte>, before: Options)
    ensures Parse(bs, before).Failure? <==> |bs| < 20 || bs[12] as int < 0x50
    ensures !Parse(bs, before).Failure? && bs[12] as int >= 0x60 ==>
              Parse(bs, before).header.options.Options?
              && Parse(bs, before).header.options.bytes + Parse(bs, before).payload == bs[20..]
              && (|Parse(bs, before).header.options.bytes| == 4 * (bs[12] as int / 16) - 20
                  || Parse(bs, before).payload == [])
  {
  }

  function ParseHeader(bs: seq<Byte>, options: Options): Header
    requires |bs| >= 20
  {
    Header(ShortAt(bs, 0), ShortAt(bs, 2), WordAt(bs, 4), WordAt(bs, 8), bs[12] / 16,
           ShortAt(bs, 12) % 0x200, ShortAt(bs, 14), ShortAt(bs, 18), options)
  }

  /** Where the fields are in the segment. */
  lemma FrontAt(h: Header)
    ensures var a := Front(h);
            && ShortAt(a, 0) == h.sourcePort && ShortAt(a, 2) == h.destinationPort
            && WordAt(a, 4) == h.sequence && WordAt(a, 8) == h.acknowledge
            && ShortAt(a, 12) == OffsetAndFlags(h) && ShortAt(a, 14) == h.windowSize
  {
  }

  lemma PlacesIn(a: seq<Byte>, c: Short, u: Short, rest: seq<Byte>)
    requires |a| == 16
    ensures var bs := a + ShortBytes(c) + (ShortBytes(u) + rest);
            && (forall i :: 0 <= i < 16 ==> bs[i] == a[i])
            && ShortAt(bs, 16) == c && ShortAt(bs, 18) == u && bs[20..] == rest
  {
  }

  /** The segment byte by byte, most significant bytes first. */
  lemma SegmentLayout(h: Header, c: Short, payload: seq<Byte>)
    requires Fits(h) && h.flags < 0x1000 && h.dataOffset < 16
    ensures var bs := SegmentBytes(h, c, payload);
            && 256 * (bs[0] as int) + bs[1] == h.sourcePort && 256 * (bs[2] as int) + bs[3] == h.destinationPort
            && 0x100_0000 * (bs[4] as int) + 0x1_0000 * (bs[5] as int) + 0x100 * (bs[6] as int) + bs[7]
               == h.sequence
            && 0x100_0000 * (bs[8] as int) + 0x1_0000 * (bs[9] as int) + 0x100 * (bs[10] as int) + bs[11]
               == h.acknowledge
            && bs[12] / 16 == h.dataOffset && 256 * (bs[12] as int % 16) + bs[13] == h.flags
            && 256 * (bs[14] as int) + bs[15] == h.windowSize && 256 * (bs[16] as int) + bs[17] == c
            && 256 * (bs[18] as int) + bs[19] == h.urgentPointer
            && bs[20..] == PaddedOptions(h) + payload
            && PaddedOptions(h) == (if h.dataOffset == 5 then []
                                    else h.options.bytes + Zeros(4 * h.dataOffset - 20 - |h.options.bytes|))
  {
    var bs := SegmentBytes(h, c, payload);
    FrontLayout(h);
    PlacesIn(Front(h), c, h.urgentPointer, PaddedOptions(h) + payload);
    assert bs == Front(h) + ShortBytes(c) + (ShortBytes(h.urgentPointer) + (PaddedOptions(h) + payload));
    hide SegmentBytes, Front;
  }

  lemma FrontLayout(h: Header)
    requires h.flags < 0x1000 && h.dataOffset < 16
    ensures var a := Front(h);
            && 256 * (a[0] as int) + a[1] == h.sourcePort && 256 * (a[2] as int) + a[3] == h.destinationPort
            && 0x100_0000 * (a[4] as int) + 0x1_0000 * (a[5] as int) + 0x100 * (a[6] as int) + a[7]
               == h.sequence
            && 0x100_0000 * (a[8] as int) + 0x1_0000 * (a[9] as int) + 0x100 * (a[10] as int) + a[11]
               == h.acknowledge
            && a[12] / 16 == h.dataOffset && 256 * (a[12] as int % 16) + a[13] == h.flags
            && 256 * (a[14] as int) + a[15] == h.windowSize
  {
    FrontAt(h);
    var a := Front(h);
    assert OffsetAndFlags(h) == 0x1000 * h.dataOffset + h.flags;
    hide Front, OffsetAndFlags;
    SplitOffset(h.dataOffset, h.flags, a[12], a[13]);
  }

  /** Headers that are written as they are: deserialize finds the same data offset
      and payload, flags cut to nine bits, and options padded with zeros. */
  lemma ParseSegment(h: Header, c: Short, payload: seq<Byte>, before: Options)
    requires Fits(h) && h.flags < 0x1000 && h.dataOffset < 16
    ensures Parse(SegmentBytes(h, c, payload), before)
            == Segment(h.(flags := h.flags % 0x200,
                          options := if h.dataOffset == 5 then before else Options(PaddedOptions(h))), c, payload)
  {
    FrontAt(h);
    PlacesIn(Front(h), c, h.urgentPointer, PaddedOptions(h) + payload);
    ParseAt(h, c, PaddedOptions(h), payload, SegmentBytes(h, c, payload), before);
  }

  /** The places of the fields in these bytes. */
  ghost predicate At(h: Header, c: Short, bs: seq<Byte>) {
    && |bs| >= 20
    && ShortAt(bs, 0) == h.sourcePort && ShortAt(bs, 2) == h.destinationPort
    && WordAt(bs, 4) == h.sequence && WordAt(bs, 8) == h.acknowledge
    && ShortAt(bs, 12) == OffsetAndFlags(h) && ShortAt(bs, 14) == h.windowSize
    && ShortAt(bs, 16) == c && ShortAt(bs, 18) == h.urgentPointer
  }

  lemma ParseAt(h: Header, c: Short, options: seq<Byte>, payload: seq<Byte>, bs: seq<Byte>, before: Options)
    requires h.flags < 0x1000 && 5 <= h.dataOffset < 16 && |options| == 4 * h.dataOffset - 20
    requires |bs| == 4 * h.dataOffset + |payload| && bs[20..] == options + payload && At(h, c, bs)
    ensures Parse(bs, before)
            == Segment(h.(flags := h.flags % 0x200,
                          options := if h.dataOffset == 5 then before else Options(options)), c, payload)
  {
    HeaderAt(h, c, bs, if h.dataOffset == 5 then before else Options(options));
    var n := 4 * h.dataOffset;
    assert bs[20..n] == bs[20..][..n - 20] == options;
    assert bs[n..] == bs[20..][n - 20..] == payload;
  }

  lemma HeaderAt(h: Header, c: Short, bs: seq<Byte>, options: Options)
    requires h.flags < 0x1000 && h.dataOffset < 16 && At(h, c, bs)
    ensures bs[12] / 16 == h.dataOffset
    ensures ParseHeader(bs, options) == h.(flags := h.flags % 0x200, options := options)
  {
    SplitOffset(h.dataOffset, h.flags, bs[12], bs[13]);
    assert OffsetAndFlags(h) == 0x1000 * h.dataOffset + h.flags;
    hide OffsetAndFlags, WordAt;
  }

  lemma SplitOffset(offset: nat, flags: nat, high: Byte, low: Byte)
    requires 0x1000 * offset + flags == 0x100 * (high as int) + low && flags < 0x1000
    ensures high / 16 == offset && (0x1000 * offset + flags) % 0x200 == flags % 0x200
  {
  }

  /** Exactly the headers with nine bits of flags, a data offset of four bits and
      options that fill the room it leaves come back as they went out; one without
      room for options only into an object that has the same options already. */
  lemma RoundTripExact(h: Header, c: Short, payload: seq<Byte>, before: Options)
    requires Fits(h)
    ensures Parse(SegmentBytes(h, c, payload), before) == Segment(h, c, payload)
            <==> h.flags < 0x200 && h.dataOffset < 16
                 && (h.dataOffset > 5 ==> |h.options.bytes| == 4 * h.dataOffset - 20)
                 && (h.dataOffset == 5 ==> before == h.options)
  {
    hide SegmentBytes;
    ParseIsNarrow(SegmentBytes(h, c, payload), before);
    hide Parse;
    if h.flags < 0x200 && h.dataOffset < 16 {
      ParseSegment(h, c, payload, before);
      if h.dataOffset > 5 {
        assert |h.options.bytes| == 4 * h.dataOffset - 20 ==> PaddedOptions(h) == h.options.bytes;
      }
    }
  }

  lemma ParseIsNarrow(bs: seq<Byte>, before: Options)
    ensures var p := Parse(bs, before);
            p.Segment? ==> p.header.flags < 0x200 && p.header.dataOffset < 16
  {
  }

  class TCP {
    var header: Header
    var checksum: Short
    var payload: seq<Byte>
    var parent: IPv4Packet.IPv4?

    constructor (header: Header, checksum: Short, payload: seq<Byte>, parent: IPv4Packet.IPv4?)
      ensures this.header == header && this.checksum == checksum && this.payload == payload && this.parent == parent
    {
      this.header, this.checksum, this.payload, this.parent := header, checksum, payload, parent;
    }

    ghost function Surrounding(): Pseudo
      reads this, parent
    {
      if parent == null then NoParent else Pseudo(parent.fields.source, parent.fields.destination)
    }

    /** serialize. null stands for an exception. A checksum that is not 0 is sent
        as it is. The protocol of an IPv4 parent becomes TCP. */
    method Serialize() returns (data: array?<Byte>)
      modifies this, parent
      ensures header == Defaulted(old(header)) && payload == old(payload) && parent == old(parent)
      ensures data == null <==> !Fits(header)
      ensures data != null && parent != null ==> parent.fields == old(parent.fields).(protocol := TCP_PROTOCOL)
      ensures data != null ==>
                && checksum == (if old(checksum) == 0 then SegmentChecksum(Surrounding(), header, payload)
                                else old(checksum))
                && data[..] == SegmentBytes(header, checksum, payload)
    {
      if header.dataOffset == 0 {
        header := header.(dataOffset := 5);
      }
      if !Fits(header) {
        return null;
      }
      data := new Byte[4 * header.dataOffset + |payload|](_ => 0);
      WriteTo(data);
      Finish(data);
    }

    /** The part of serialize that follows the writing: it sets the protocol of the
        parent and a missing checksum. */
    method Finish(data: array<Byte>)
      requires Fits(header) && data[..] == SegmentBytes(header, checksum, payload)
      modifies this`checksum, parent, data
      ensures parent != null ==> parent.fields == old(parent.fields).(protocol := TCP_PROTOCOL)
      ensures checksum == (if old(checksum) == 0 then SegmentChecksum(Surrounding(), header, payload)
                           else old(checksum))
      ensures data[..] == SegmentBytes(header, checksum, payload)
    {
      if parent != null {
        parent.fields := parent.fields.(protocol := TCP_PROTOCOL);
      }
      if checksum == 0 {
        var start := AddPseudoHeader(data.Length);
        FillChecksum(data, start);
      }
    }

    /** The part of serialize that adds up the pseudo header. */
    method AddPseudoHeader(length: nat) returns (accumulation: Word)
      requires parent != null ==> parent.fields.protocol == TCP_PROTOCOL
      ensures accumulation == PseudoSum(Surrounding(), length)
    {
      accumulation := 0;
      if parent != null {
        accumulation := accumulation + Halves(parent.fields.source);
        accumulation := accumulation + Halves(parent.fields.destination);
        accumulation := accumulation + parent.fields.protocol;
        accumulation := accumulation + length % 0x1_0000;
      }
    }

    /** The part of serialize that computes a missing checksum. */
    method FillChecksum(data: array<Byte>, start: Word)
      requires Fits(header) && data[..] == SegmentBytes(header, 0, payload)
      modifies this`checksum, data
      ensures checksum == ChecksumOf((start + WordSum(SegmentBytes(header, 0, payload))) % INT)
      ensures data[..] == SegmentBytes(header, checksum, payload)
    {
      var accumulation := Accumulate(start, data[..]);
      checksum := ChecksumOf(accumulation);
      SegmentWithChecksum(header, checksum, payload);
      data[16], data[17] := checksum / 0x100, checksum % 0x100;
    }

    /** The part of serialize that fills the buffer. */
    method WriteTo(data: array<Byte>)
      requires Fits(header) && data.Length == 4 * header.dataOffset + |payload|
      modifies data
      ensures data[..] == SegmentBytes(header, checksum, payload)
    {
      var bb := new ByteBuffer(data);
      WriteFront(bb);
      bb.PutShort(checksum);
      ghost var before := bb.Before();
      bb.PutShort(header.urgentPointer);
      if header.dataOffset > 5 {
        WriteOptions(bb);
      }
      assert bb.Before() == before + ShortBytes(header.urgentPointer) + PaddedOptions(header);
      bb.PutAll(payload);
      assert bb.Before() == data[..];
      Associates(before + ShortBytes(header.urgentPointer), PaddedOptions(header), payload);
      Associates(before, ShortBytes(header.urgentPointer), PaddedOptions(header) + payload);
    }

    method WriteFront(bb: ByteBuffer)
      requires bb.Valid() && bb.pos == 0 && bb.data.Length >= 16
      modifies bb`pos, bb.data
      ensures bb.Valid() && bb.pos == 16 && bb.Before() == Front(header)
    {
      hide ShortBytes, WordBytes, OffsetAndFlags, ByteBuffer.RestUnchanged;
      assert bb.Before() == [];
      hide ByteBuffer.Before;
      bb.PutShort(header.sourcePort);
      bb.PutShort(header.destinationPort);
      bb.PutInt(header.sequence);
      bb.PutInt(header.acknowledge);
      bb.PutShort(OffsetAndFlags(header));
      bb.PutShort(header.windowSize);
    }

    method WriteOptions(bb: ByteBuffer)
      requires Fits(header) && header.dataOffset > 5
      requires bb.Valid() && bb.pos + 4 * header.dataOffset - 20 <= bb.data.Length
      modifies bb`pos, bb.data
      ensures bb.Valid() && bb.pos == old(bb.pos) + 4 * header.dataOffset - 20
      ensures bb.Before() == old(bb.Before()) + PaddedOptions(header)
    {
      bb.PutAll(header.options.bytes);
      ghost var before := bb.Before();
      var padding := 4 * header.dataOffset - 20 - |header.options.bytes|;
      var i := 0;
      while i < padding
        invariant 0 <= i <= padding && bb.Valid() && bb.pos == |before| + i
        invariant bb.Before() == before + Zeros(i)
      {
        bb.Put(0);
        i := i + 1;
        assert Zeros(i) == Zeros(i - 1) + [0];
      }
      assert before + Zeros(padding) == old(bb.Before()) + PaddedOptions(header);
    }

    /** deserialize; false stands for an exception. */
    method Deserialize(data: array<Byte>) returns (ok: bool)
      modifies this
      ensures var p := Parse(data[..], old(header.options));
              && ok == p.Segment?
              && (ok ==> header == p.header && checksum == p.checksum && payload == p.payload)
    {
      if data.Length < 20 {
        return false;
      }
      var bb := new ByteBuffer(data);
      ok := ReadFront(bb);
      if !ok {
        return;
      }
      if header.dataOffset > 5 {
        var optLength := 4 * header.dataOffset - 20;
        if data.Length < bb.pos + optLength {
          optLength := data.Length - bb.pos;
        }
        var options := bb.GetBytes(optLength);
        header := header.(options := Options(options));
      }
      payload := data[bb.pos..];
    }

    method ReadFront(bb: ByteBuffer) returns (ok: bool)
      requires bb.Valid() && bb.pos == 0 && bb.data.Length >= 20
      modifies this`header, this`checksum, bb`pos
      ensures var bs := bb.data[..];
              && ok == (bs[12] / 16 >= 5)
              && (ok ==> bb.Valid() && bb.pos == 20 && checksum == ShortAt(bs, 16)
                         && header == ParseHeader(bs, old(header.options)))
    {
      var sourcePort := bb.GetShort();
      var destinationPort := bb.GetShort();
      var sequence := bb.GetInt();
      var acknowledge := bb.GetInt();
      var flags := bb.GetShort();
      var dataOffset := flags / 0x1000;
      if dataOffset < 5 {
        return false;
      }
      flags := flags % 0x200;
      var windowSize := bb.GetShort();
      checksum := bb.GetShort();
      var urgentPointer := bb.GetShort();
      header := Header(sourcePort, destinationPort, sequence, acknowledge, dataOffset,
                       flags, windowSize, urgentPointer, header.options);
      return true;
    }
  }
}
