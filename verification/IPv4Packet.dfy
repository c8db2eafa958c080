/** IPv4.serialize and deserialize of java/packet/IPv4.java (section 3.1 of
    RFC 791), with a payload of raw data. */
module IPv4Packet {
  import opened Bytes
  import opened Checksum

  /** The fields a caller sets. */
  datatype Fields = Fields(
    version: Byte, diffServ: Byte, identification: Short, flags: Byte, fragmentOffset: Short,
    ttl: Byte, protocol: Byte, source: Word, destination: Word, options: seq<Byte>)

  /** What setOptions accepts, with a header length that fits its byte. */
  predicate GoodOptions(options: seq<Byte>) {
    |options| % 4 == 0 && |options| / 4 <= 122
  }

  function HeaderWords(f: Fields): int
    requires GoodOptions(f.options)
  {
    5 + |f.options| / 4
  }

  function FlagsAndOffset(f: Fields): Short {
    f.flags % 8 * 0x2000 + f.fragmentOffset % 0x2000
  }

  /** The ten bytes of the header before the checksum. */
  function Front(f: Fields, words: int, totalLength: Short): (bs: seq<Byte>)
    ensures |bs| == 10
  {
    [f.version % 16 * 16 + words % 16, f.diffServ]
    + ShortBytes(totalLength) + ShortBytes(f.identification) + ShortBytes(FlagsAndOffset(f)) + [f.ttl, f.protocol]
  }

  /** The addresses, which follow it. */
  function Addresses(f: Fields): (bs: seq<Byte>)
    ensures |bs| == 8
  {
    WordBytes(f.source) + WordBytes(f.destination)
  }

  /** The header, options included, as bytes. */
  function HeaderBytes(f: Fields, totalLength: Short, checksum: Short): (bs: seq<Byte>)
    requires GoodOptions(f.options)
    ensures |bs| == 4 * HeaderWords(f)
  {
    Front(f, HeaderWords(f), totalLength) + ShortBytes(checksum) + Addresses(f) + f.options
  }

  /** The checksum serialize computes for a header. */
  function HeaderChecksum(f: Fields, totalLength: Short): Short
    requires GoodOptions(f.options)
  {
    ChecksumOf(WordSum(HeaderBytes(f, totalLength, 0)) % INT)
  }

  lemma HeaderWithChecksum(f: Fields, totalLength: Short, c: Short)
    requires GoodOptions(f.options)
    ensures var zero := HeaderBytes(f, totalLength, 0);
            zero[10] == 0 == zero[11] && HeaderBytes(f, totalLength, c) == zero[10 := c / 0x100][11 := c % 0x100]
  {
    var a, b := Front(f, HeaderWords(f), totalLength), Addresses(f) + f.options;
    PatchMiddle(a, b, c);
    assert forall k: Short :: a + ShortBytes(k) + Addresses(f) + f.options == a + ShortBytes(k) + b;
  }

  lemma HeaderSumFits(f: Fields, totalLength: Short)
    requires GoodOptions(f.options)
    ensures WordSum(HeaderBytes(f, totalLength, 0)) < INT
  {
    WordSumBound(HeaderBytes(f, totalLength, 0));
  }

  /** What a receiver takes for the header: as many words as the low four bits of the
      first byte say. */
  function Received(bs: seq<Byte>): seq<Byte>
    requires bs != []
  {
    var n := 4 * (bs[0] % 16);
    if n <= |bs| then bs[..n] else bs
  }

  /** It is the header that was written exactly when there are at most 40 bytes of
      options; with more, the four bits do not hold the length. */
  lemma LengthCoversHeader(f: Fields, totalLength: Short, c: Short)
    requires GoodOptions(f.options)
    ensures Received(HeaderBytes(f, totalLength, c)) == HeaderBytes(f, totalLength, c) <==> |f.options| <= 40
  {
    var bs := HeaderBytes(f, totalLength, c);
    assert bs[0] == f.version % 16 * 16 + HeaderWords(f) % 16;
    hide HeaderBytes;
    assert bs[0] % 16 == HeaderWords(f) % 16;
  }

  /** The whole header as serialized checks exactly when the single fold of the sum of
      its words leaves no carry. LengthCoversHeader says when a receiver sums it. */
  lemma HeaderChecks(f: Fields, totalLength: Short)
    requires GoodOptions(f.options)
    ensures var total := WordSum(HeaderBytes(f, totalLength, 0));
            && total < INT
            && (FoldAll(WordSum(HeaderBytes(f, totalLength, HeaderChecksum(f, totalLength)))) == 0xffff
                <==> total / 0x1_0000 + total % 0x1_0000 <= 0xffff)
  {
    hide FoldAll, WordSum, FoldOnce;
    HeaderSumFits(f, totalLength);
    var zero := HeaderBytes(f, totalLength, 0);
    var total := WordSum(zero);
    assert HeaderChecksum(f, totalLength) == ChecksumOf(total);
    HeaderWithChecksum(f, totalLength, ChecksumOf(total));
    FieldChecks(zero, 10, 0, total);
  }

  const SAMPLE := Fields(4, 0, 0xffff, 0, 0, 0, 0, 47852, 0, [])

  /** The words of the sample header. */
  ghost predicate IsSample(h: seq<Byte>) {
    && |h| == 20
    && ShortAt(h, 0) == 0x4500 && ShortAt(h, 2) == 20 && ShortAt(h, 4) == 0xffff && ShortAt(h, 6) == 0
    && ShortAt(h, 8) == 0 && ShortAt(h, 10) == 0 && ShortAt(h, 12) == 0 && ShortAt(h, 14) == 47852
    && ShortAt(h, 16) == 0 && ShortAt(h, 18) == 0
  }

  lemma SampleBytes()
    ensures IsSample(HeaderBytes(SAMPLE, 20, 0))
  {
    SamplePlaces();
    PlacesIn(Front(SAMPLE, 5, 20), 0, Addresses(SAMPLE), SAMPLE.options);
  }

  lemma SamplePlaces()
    ensures var a, b := Front(SAMPLE, 5, 20), Addresses(SAMPLE);
            && a[0] == 0x45 && a[1] == 0 && ShortAt(a, 2) == 20 && ShortAt(a, 4) == 0xffff && ShortAt(a, 6) == 0
            && a[8] == 0 && a[9] == 0 && WordAt(b, 0) == 47852 && WordAt(b, 4) == 0
  {
    FrontAt(SAMPLE, 5, 20);
    AddressesAt(SAMPLE);
  }

  lemma SampleSum(h: seq<Byte>)
    requires IsSample(h)
    ensures WordSum(h) == 0x1_ffff
  {
    SumOf20(h);
  }

  /** A header that does not check: version 4, length 20, identification 0xffff,
      and a source address whose low half is 47852. */
  lemma SomeHeaderFails()
    ensures FoldAll(WordSum(HeaderBytes(SAMPLE, 20, HeaderChecksum(SAMPLE, 20)))) != 0xffff
  {
    SampleBytes();
    SampleSum(HeaderBytes(SAMPLE, 20, 0));
    HeaderChecks(SAMPLE, 20);
  }

  datatype Parsed = Packet(fields: Fields, totalLength: Short, checksum: Short, payload: seq<Byte>) | Failure

  /** The fields in the first 20 bytes of a packet, and its options. */
  function ParseFields(bs: seq<Byte>, options: seq<Byte>): Fields
    requires |bs| >= 20
  {
    Fields(bs[0] / 16, bs[1], ShortAt(bs, 4), ShortAt(bs, 6) / 0x2000, ShortAt(bs, 6) % 0x2000,
           bs[8], bs[9], WordAt(bs, 12), WordAt(bs, 16), options)
  }

  /** A short as Java reads it. */
  function Signed(s: Short): int {
    if s < 0x8000 then s else s - 0x1_0000
  }

  /** What deserialize reads from these bytes into a packet whose options were these
      before: it fails on a buffer that ends too early, on a version other than 4, and
      on a total length below the header. A header without options leaves the options
      of the object alone. */
  function Parse(bs: seq<Byte>, before: seq<Byte>): Parsed {
    if |bs| < 20 || bs[0] / 16 != 4 then Failure
    else
      var words := bs[0] % 16;
      var end := if words > 5 then 4 * words else 20;
      var wanted := Signed(ShortAt(bs, 2)) - 4 * words;
      if |bs| < end || wanted < 0 then Failure
      else
        var rest := bs[end..];
        Packet(ParseFields(bs, if words > 5 then bs[20..end] else before), ShortAt(bs, 2), ShortAt(bs, 10),
               if wanted <= |rest| then rest[..wanted] else rest)
  }

  /** Where the fields are in the header. */
  lemma FrontAt(f: Fields, words: int, totalLength: Short)
    requires 0 <= words < 16
    ensures var a := Front(f, words, totalLength);
            && a[0] / 16 == f.version % 16 && a[0] % 16 == words && a[1] == f.diffServ
            && ShortAt(a, 2) == totalLength && ShortAt(a, 4) == f.identification
            && ShortAt(a, 6) == FlagsAndOffset(f) && a[8] == f.ttl && a[9] == f.protocol
  {
    var a := Front(f, words, totalLength);
    assert a[2] == totalLength / 0x100 && a[3] == totalLength % 0x100;
    assert a[4] == f.identification / 0x100 && a[5] == f.identification % 0x100;
    assert a[6] == FlagsAndOffset(f) / 0x100 && a[7] == FlagsAndOffset(f) % 0x100;
  }

  lemma AddressesAt(f: Fields)
    ensures WordAt(Addresses(f), 0) == f.source && WordAt(Addresses(f), 4) == f.destination
  {
  }

  /** The same places in the whole packet. */
  lemma PlacesIn(a: seq<Byte>, c: Short, b: seq<Byte>, rest: seq<Byte>)
    requires |a| == 10 && |b| == 8
    ensures var bs := a + ShortBytes(c) + b + rest;
            && bs[0] == a[0] && bs[1] == a[1] && bs[8] == a[8] && bs[9] == a[9]
            && ShortAt(bs, 2) == ShortAt(a, 2) && ShortAt(bs, 4) == ShortAt(a, 4) && ShortAt(bs, 6) == ShortAt(a, 6)
            && ShortAt(bs, 10) == c && WordAt(bs, 12) == WordAt(b, 0) && WordAt(bs, 16) == WordAt(b, 4)
            && bs[20..] == rest
  {
  }

  /** Parsing what was serialized gives back total length, checksum and payload,
      and gives back the fields exactly when they fit their bits. */
  lemma RoundTrip(f: Fields, c: Short, payload: seq<Byte>, bs: seq<Byte>, total: Short, before: seq<Byte>)
    requires GoodOptions(f.options) && |f.options| <= 40 && f.version % 16 == 4
    requires total == 20 + |f.options| + |payload| < 0x8000
    requires bs == HeaderBytes(f, total, c) + payload
    ensures var p := Parse(bs, before);
            && p.Packet? && p.totalLength == total && p.checksum == c && p.payload == payload
            && (p.fields == f
                <==> f.version == 4 && f.flags < 8 && f.fragmentOffset < 0x2000 && (f.options == [] ==> before == []))
  {
    hide HeaderBytes, Parse, At, FlagsAndOffset;
    PlacesOf(f, c, payload, bs, total);
    ParseAt(f, c, payload, bs, total, before);
  }

  /** The places of the fields in these bytes. */
  ghost predicate At(f: Fields, c: Short, bs: seq<Byte>, words: int, total: Short) {
    && |bs| >= 20
    && bs[0] / 16 == 4 && bs[0] % 16 == words && bs[1] == f.diffServ
    && ShortAt(bs, 2) == total && ShortAt(bs, 4) == f.identification && ShortAt(bs, 6) == FlagsAndOffset(f)
    && bs[8] == f.ttl && bs[9] == f.protocol && ShortAt(bs, 10) == c
    && WordAt(bs, 12) == f.source && WordAt(bs, 16) == f.destination
  }

  lemma PlacesOf(f: Fields, c: Short, payload: seq<Byte>, bs: seq<Byte>, total: Short)
    requires GoodOptions(f.options) && |f.options| <= 40 && f.version % 16 == 4
    requires bs == HeaderBytes(f, total, c) + payload
    ensures At(f, c, bs, HeaderWords(f), total) && bs[20..] == f.options + payload
  {
    var a, b, rest := Front(f, HeaderWords(f), total), Addresses(f), f.options + payload;
    assert bs == a + ShortBytes(c) + b + rest;
    FrontAt(f, HeaderWords(f), total);
    AddressesAt(f);
    hide Front, Addresses, HeaderBytes, FlagsAndOffset, ShortAt, WordAt;
    PlacesIn(a, c, b, rest);
  }

  lemma FieldsAt(f: Fields, c: Short, bs: seq<Byte>, words: int, total: Short, options: seq<Byte>)
    requires At(f, c, bs, words, total)
    ensures ParseFields(bs, options)
            == f.(version := 4, flags := f.flags % 8, fragmentOffset := f.fragmentOffset % 0x2000, options := options)
  {
  }

  lemma ParseAt(f: Fields, c: Short, payload: seq<Byte>, bs: seq<Byte>, total: Short, before: seq<Byte>)
    requires |f.options| <= 40 && |f.options| % 4 == 0 && f.version % 16 == 4
    requires total == 20 + |f.options| + |payload| < 0x8000 && |bs| == total
    requires At(f, c, bs, 5 + |f.options| / 4, total) && bs[20..] == f.options + payload
    ensures Parse(bs, before)
            == Packet(f.(version := 4, flags := f.flags % 8, fragmentOffset := f.fragmentOffset % 0x2000,
                         options := if f.options == [] then before else f.options), total, c, payload)
  {
    var n := 20 + |f.options|;
    FieldsAt(f, c, bs, 5 + |f.options| / 4, total, if f.options == [] then before else f.options);
    hide ParseFields, FlagsAndOffset;
    assert bs[20..n] == bs[20..][..|f.options|] == f.options;
    assert bs[n..] == bs[20..][|f.options|..] == payload;
    assert payload[..|payload|] == payload;
  }

  /** The header byte by byte, most significant bytes first (section 3.1 of RFC 791). */
  lemma HeaderLayout(f: Fields, total: Short, c: Short)
    requires GoodOptions(f.options)
    ensures var bs := HeaderBytes(f, total, c);
            && bs[0] / 16 == f.version % 16 && bs[0] % 16 == (5 + |f.options| / 4) % 16 && bs[1] == f.diffServ
            && 256 * (bs[2] as int) + bs[3] == total && 256 * (bs[4] as int) + bs[5] == f.identification
            && bs[6] / 32 == f.flags % 8 && 256 * (bs[6] as int % 32) + bs[7] == f.fragmentOffset % 0x2000
            && bs[8] == f.ttl && bs[9] == f.protocol && 256 * (bs[10] as int) + bs[11] == c
            && 0x100_0000 * (bs[12] as int) + 0x1_0000 * (bs[13] as int) + 0x100 * (bs[14] as int) + bs[15] == f.source
            && 0x100_0000 * (bs[16] as int) + 0x1_0000 * (bs[17] as int) + 0x100 * (bs[18] as int) + bs[19]
               == f.destination
            && bs[20..] == f.options
  {
    var a, b := Front(f, HeaderWords(f), total), Addresses(f);
    FrontLayout(f, HeaderWords(f), total);
    AddressesAt(f);
    PlacesIn(a, c, b, f.options);
    assert HeaderBytes(f, total, c) == a + ShortBytes(c) + b + f.options;
    var bs := HeaderBytes(f, total, c);
    assert WordAt(bs, 12) == f.source && WordAt(bs, 16) == f.destination;
    assert ShortAt(bs, 2) == total && ShortAt(bs, 4) == f.identification && ShortAt(bs, 6) == ShortAt(a, 6);
    hide HeaderBytes, Front, Addresses;
    SplitFlags(bs[6], bs[7], f.flags % 8, f.fragmentOffset % 0x2000);
  }

  lemma FrontLayout(f: Fields, words: int, total: Short)
    requires 0 <= words
    ensures var a := Front(f, words, total);
            && a[0] / 16 == f.version % 16 && a[0] % 16 == words % 16 && a[1] == f.diffServ
            && ShortAt(a, 2) == total && ShortAt(a, 4) == f.identification
            && ShortAt(a, 6) == 0x2000 * (f.flags % 8) + f.fragmentOffset % 0x2000
            && a[8] == f.ttl && a[9] == f.protocol
  {
    FrontAt(f, words % 16, total);
    assert Front(f, words, total) == Front(f, words % 16, total);
    hide Front;
  }

  lemma SplitFlags(high: Byte, low: Byte, flags: nat, offset: nat)
    requires 256 * (high as int) + low == 0x2000 * flags + offset && offset < 0x2000
    ensures high / 32 == flags && 256 * (high as int % 32) + low == offset
  {
  }

  /** Bytes behind the packet, as an Ethernet frame has to fill it up, are not taken for payload. */
  lemma PaddingIsCut(bs: seq<Byte>, padding: seq<Byte>, before: seq<Byte>)
    requires Parse(bs, before).Packet? && bs[0] % 16 >= 5 && 256 * (bs[2] as int) + bs[3] == |bs| < 0x8000
    ensures Parse(bs + padding, before) == Parse(bs, before)
  {
    var all, words := bs + padding, bs[0] % 16;
    var end := if words > 5 then 4 * words else 20;
    assert forall i :: 0 <= i < 20 ==> all[i] == bs[i];
    SameShorts(bs, all);
    assert all[20..end] == bs[20..end] && all[end..][..|bs| - end] == bs[end..];
    assert bs[end..][..|bs| - end] == bs[end..];
  }

  /** Reading fails exactly below 20 bytes, on another version, when the header is cut off,
      and when the total length, as a signed short, is below the header length. */
  lemma ParseFailsExactly(bs: seq<Byte>, before: seq<Byte>)
    ensures Parse(bs, before).Failure?
            <==> |bs| < 20 || bs[0] / 16 != 4 || |bs| < 4 * (bs[0] as int % 16)
                 || var t := 256 * (bs[2] as int) + bs[3];
                    (if t < 0x8000 then t else t - 0x1_0000) < 4 * (bs[0] as int % 16)
  {
  }

  /** Of a packet cut off behind its header, what there is of the payload is kept. */
  lemma CutOffIsKept(bs: seq<Byte>, n: nat, before: seq<Byte>)
    requires Parse(bs, before).Packet? && 20 <= n <= |bs| && 4 * (bs[0] as int % 16) <= n
    ensures var p := Parse(bs, before);
            var there := n - if bs[0] % 16 > 5 then 4 * (bs[0] as int % 16) else 20;
            Parse(bs[..n], before) == p.(payload := if there <= |p.payload| then p.payload[..there] else p.payload)
  {
    var cut, end := bs[..n], if bs[0] % 16 > 5 then 4 * (bs[0] as int % 16) else 20;
    SameShorts(bs, cut);
    CutSlices(bs, n, end);
    hide ShortAt, ParseFields;
  }

  lemma CutSlices(bs: seq<Byte>, n: nat, end: nat)
    requires 20 <= end <= n <= |bs|
    ensures bs[..n][20..end] == bs[20..end] && bs[..n][end..] == bs[end..][..n - end]
    ensures forall k :: 0 <= k <= |bs| - end ==>
              bs[end..][..k][..if n - end <= k then n - end else k] == bs[end..][..if n - end <= k then n - end else k]
    ensures forall k :: 0 <= k <= n - end ==> bs[end..][..n - end][..k] == bs[end..][..k]
  {
  }

  lemma SameShorts(bs: seq<Byte>, all: seq<Byte>)
    requires |bs| >= 20 && |all| >= 20 && forall i :: 0 <= i < 20 ==> all[i] == bs[i]
    ensures forall options :: ParseFields(all, options) == ParseFields(bs, options)
    ensures ShortAt(all, 2) == ShortAt(bs, 2) && ShortAt(all, 10) == ShortAt(bs, 10)
  {
  }

  /** What deserialize yields always is version 4, with at most 40 bytes of options if
      it read any. */
  lemma ParseIsNarrow(bs: seq<Byte>, before: seq<Byte>)
    ensures var p := Parse(bs, before);
            p.Packet? ==> p.fields.version == 4 && p.fields.flags < 8 && p.fields.fragmentOffset < 0x2000
                          && (p.fields.options == before || 0 < |p.fields.options| <= 40)
  {
  }

  /** Exactly the headers whose fields fit their bits, with at most 40 bytes of
      options, come back as they went out; one without options only into an object
      that has none. */
  lemma RoundTripExact(f: Fields, c: Short, payload: seq<Byte>, bs: seq<Byte>, total: Short, before: seq<Byte>)
    requires GoodOptions(f.options) && total == 20 + |f.options| + |payload| < 0x8000
    requires bs == HeaderBytes(f, total, c) + payload
    ensures Parse(bs, before) == Packet(f, total, c, payload)
            <==> f.version == 4 && f.flags < 8 && f.fragmentOffset < 0x2000 && |f.options| <= 40
                 && (f.options == [] ==> before == [])
  {
    ParseIsNarrow(bs, before);
    if f.version == 4 && |f.options| <= 40 {
      RoundTrip(f, c, payload, bs, total, before);
    }
  }

  class IPv4 {
    var fields: Fields
    var headerLength: int
    var totalLength: Short
    var checksum: Short
    var payload: seq<Byte>

    constructor (fields: Fields, checksum: Short, payload: seq<Byte>)
      ensures this.fields == fields && this.checksum == checksum && this.payload == payload
    {
      this.fields, this.checksum, this.payload := fields, checksum, payload;
      headerLength, totalLength := 0, 0;
    }

    /** serialize. null stands for the exception a total length beyond a positive
        short leads to. A checksum that is not 0 is sent as it is. */
    method Serialize() returns (data: array?<Byte>)
      requires GoodOptions(fields.options)
      modifies this
      ensures fields == old(fields) && payload == old(payload) && headerLength == HeaderWords(fields)
      ensures data == null <==> 4 * HeaderWords(fields) + |payload| >= 0x8000
      ensures data != null ==>
                && totalLength == 4 * HeaderWords(fields) + |payload|
                && checksum == (if old(checksum) == 0 then HeaderChecksum(fields, totalLength) else old(checksum))
                && data[..] == HeaderBytes(fields, totalLength, checksum) + payload
    {
      headerLength := 5 + |fields.options| / 4;
      totalLength := (4 * headerLength + |payload|) % 0x1_0000;
      if 4 * headerLength + |payload| >= 0x8000 {
        return null;
      }
      data := new Byte[totalLength](_ => 0);
      WriteTo(data);
      if checksum == 0 {
        FillChecksum(data);
      }
    }

    /** The part of serialize that computes a missing checksum. */
    method FillChecksum(data: array<Byte>)
      requires GoodOptions(fields.options) && headerLength == HeaderWords(fields)
      requires data[..] == HeaderBytes(fields, totalLength, 0) + payload
      modifies this`checksum, data
      ensures checksum == HeaderChecksum(fields, totalLength)
      ensures data[..] == HeaderBytes(fields, totalLength, checksum) + payload
    {
      hide WordSum, FoldAll;
      ghost var zero := HeaderBytes(fields, totalLength, 0);
      assert data[..4 * headerLength] == zero;
      var accumulation := Accumulate(0, data[..4 * headerLength]);
      checksum := ChecksumOf(accumulation);
      data[10], data[11] := checksum / 0x100, checksum % 0x100;
      HeaderWithChecksum(fields, totalLength, checksum);
      assert data[..] == zero[10 := checksum / 0x100][11 := checksum % 0x100] + payload;
    }

    /** The part of serialize that fills the buffer. */
    method WriteTo(data: array<Byte>)
      requires GoodOptions(fields.options) && headerLength == HeaderWords(fields)
      requires data.Length == totalLength == 4 * headerLength + |payload|
      modifies data
      ensures data[..] == HeaderBytes(fields, totalLength, checksum) + payload
    {
      var bb := new ByteBuffer(data);
      WriteFront(bb);
      WriteAddresses(bb);
      assert bb.Before() == Front(fields, headerLength, totalLength) + ShortBytes(checksum) + Addresses(fields);
      bb.PutAll(fields.options);
      assert bb.Before() == HeaderBytes(fields, totalLength, checksum);
      bb.PutAll(payload);
      assert bb.Before() == data[..];
    }

    method WriteFront(bb: ByteBuffer)
      requires bb.Valid() && bb.pos == 0 && bb.data.Length >= 10
      modifies bb`pos, bb.data
      ensures bb.Valid() && bb.pos == 10 && bb.Before() == Front(fields, headerLength, totalLength)
    {
      hide ShortBytes, ByteBuffer.RestUnchanged;
      assert bb.Before() == [];
      hide ByteBuffer.Before;
      bb.PutTwo(fields.version % 16 * 16 + headerLength % 16, fields.diffServ);
      bb.PutShort(totalLength);
      bb.PutShort(fields.identification);
      bb.PutShort(fields.flags % 8 * 0x2000 + fields.fragmentOffset % 0x2000);
      bb.PutTwo(fields.ttl, fields.protocol);
    }

    method WriteAddresses(bb: ByteBuffer)
      requires bb.Valid() && bb.pos + 10 <= bb.data.Length
      modifies bb`pos, bb.data
      ensures bb.Valid() && bb.pos == old(bb.pos) + 10
      ensures bb.Before() == old(bb.Before()) + ShortBytes(checksum) + Addresses(fields)
    {
      bb.PutShort(checksum);
      ghost var before := bb.Before();
      bb.PutInt(fields.source);
      bb.PutInt(fields.destination);
      assert bb.Before() == before + Addresses(fields);
    }

    /** deserialize; false stands for an exception. */
    method Deserialize(data: array<Byte>) returns (ok: bool)
      modifies this
      ensures var p := Parse(data[..], old(fields.options));
              && ok == p.Packet?
              && (ok ==> fields == p.fields && totalLength == p.totalLength && checksum == p.checksum
                         && payload == p.payload)
    {
      hide ParseFields, ShortAt;
      if data.Length < 20 {
        return false;
      }
      ghost var before := fields.options;
      var bb := new ByteBuffer(data);
      ok := ReadFields(bb);
      if !ok {
        return;
      }
      ok := ReadOptions(bb, before);
      if !ok {
        return;
      }
      var payloadLength := Signed(totalLength) - headerLength * 4;
      var remLength := data.Length - bb.pos;
      if remLength < payloadLength {
        payloadLength := remLength;
      }
      if payloadLength < 0 {
        return false;
      }
      payload := data[bb.pos..bb.pos + payloadLength];
      return true;
    }

    method ReadOptions(bb: ByteBuffer, ghost before: seq<Byte>) returns (ok: bool)
      requires bb.Valid() && bb.pos == 20
      requires fields == ParseFields(bb.data[..], before)
      modifies this`fields, bb`pos
      ensures ok == (headerLength <= 5 || 4 * headerLength <= bb.data.Length)
      ensures ok ==>
                && bb.Valid() && bb.pos == (if headerLength > 5 then 4 * headerLength else 20)
                && fields == ParseFields(bb.data[..], if headerLength > 5 then bb.data[..][20..4 * headerLength]
                                                      else before)
    {
      if headerLength > 5 {
        if bb.data.Length < 4 * headerLength {
          return false;
        }
        var options := bb.GetBytes((headerLength - 5) * 4);
        fields := fields.(options := options);
      }
      return true;
    }

    /** The part of deserialize that reads the fixed fields. */
    method ReadFields(bb: ByteBuffer) returns (ok: bool)
      requires bb.Valid() && bb.pos == 0 && bb.data.Length >= 20
      modifies this`fields, this`headerLength, this`totalLength, this`checksum, bb`pos
      ensures var bs := bb.data[..];
              && ok == (bs[0] / 16 == 4)
              && (ok ==> bb.Valid() && bb.pos == 20 && headerLength == bs[0] % 16
                         && totalLength == ShortAt(bs, 2) && checksum == ShortAt(bs, 10)
                         && fields == ParseFields(bs, old(fields.options)))
    {
      var version := bb.Get();
      headerLength := version % 16;
      version := version / 16;
      if version != 4 {
        return false;
      }
      var diffServ := bb.Get();
      totalLength := bb.GetShort();
      var identification := bb.GetShort();
      var scratch := bb.GetShort();
      var ttl := bb.Get();
      var protocol := bb.Get();
      checksum := bb.GetShort();
      var source := bb.GetInt();
      var destination := bb.GetInt();
      fields := Fields(version, diffServ, identification, scratch / 0x2000, scratch % 0x2000,
                       ttl, protocol, source, destination, fields.options);
      return true;
    }
  }
}
