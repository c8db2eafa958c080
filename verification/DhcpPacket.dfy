/** DHCP.serialize and deserialize of java/packet/DHCP.java. The two names are
    the 64 and 128 bytes they occupy: the decoding and trimming of strings is left
    out. */
module DhcpPacket {
  import opened Bytes
  import opened DhcpOptions
  import opened Sequences

  datatype Header = Header(
    opCode: Byte, hardwareType: Byte, hardwareAddressLength: Byte, hops: Byte, transactionId: Word,
    seconds: Short, flags: Short, clientIP: Word, yourIP: Word, serverIP: Word, gatewayIP: Word,
    clientHardwareAddress: seq<Byte>, serverName: seq<Byte>, bootFileName: seq<Byte>)

  const COOKIE: seq<Byte> := [0x63, 0x82, 0x53, 0x63]
  const MIN_HEADER_LENGTH := 240

  /** Cut or padded with zeros to n bytes. */
  function Field(bs: seq<Byte>, n: nat): (r: seq<Byte>)
    ensures |r| == n
  {
    if |bs| >= n then bs[..n] else bs + Zeros(n - |bs|)
  }

  /** The hardware address, padded to 16 bytes but never cut. */
  function AddressField(h: Header): (r: seq<Byte>)
    ensures |r| == 16 + Excess(|h.clientHardwareAddress|)
  {
    if |h.clientHardwareAddress| >= 16 then h.clientHardwareAddress else Field(h.clientHardwareAddress, 16)
  }

  function Excess(hardwareAddressLength: nat): nat {
    if hardwareAddressLength > 16 then hardwareAddressLength - 16 else 0
  }

  /** The 28 bytes before the hardware address. */
  function Front(h: Header): (bs: seq<Byte>)
    ensures |bs| == 28
  {
    [h.opCode, h.hardwareType, h.hardwareAddressLength, h.hops] + WordBytes(h.transactionId)
    + ShortBytes(h.seconds) + ShortBytes(h.flags) + WordBytes(h.clientIP) + WordBytes(h.yourIP)
    + WordBytes(h.serverIP) + WordBytes(h.gatewayIP)
  }

  function HeadBytes(h: Header): (bs: seq<Byte>)
    ensures |bs| == MIN_HEADER_LENGTH + Excess(|h.clientHardwareAddress|)
  {
    Front(h) + AddressField(h) + Field(h.serverName, 64) + Field(h.bootFileName, 128) + COOKIE
  }

  /** The room for options is padded to 60 bytes. */
  function Room(os: seq<DhcpOption>): nat {
    if Reserved(os) < 60 then 60 else Reserved(os)
  }

  /** serialize does not run out of the buffer it allocates. */
  predicate Fits(h: Header, os: seq<DhcpOption>) {
    AllWritable(os) && Excess(|h.clientHardwareAddress|) + |ListBytes(os)| <= Room(os)
  }

  function PacketBytes(h: Header, os: seq<DhcpOption>): (bs: seq<Byte>)
    requires Fits(h, os)
    ensures |bs| == MIN_HEADER_LENGTH + Room(os)
  {
    HeadBytes(h) + (ListBytes(os) + Zeros(Room(os) - Excess(|h.clientHardwareAddress|) - |ListBytes(os)|))
  }

  /** The packet byte by byte (section 2 of RFC 2131, and the magic cookie of section 3),
      with a hardware address that fits its field. */
  lemma PacketLayout(h: Header, os: seq<DhcpOption>)
    requires Fits(h, os) && |h.clientHardwareAddress| <= 16
    ensures var bs := PacketBytes(h, os);
            && |bs| >= 300
            && bs[0] == h.opCode && bs[1] == h.hardwareType && bs[2] == h.hardwareAddressLength && bs[3] == h.hops
            && WordAt(bs, 4) == h.transactionId && ShortAt(bs, 8) == h.seconds && ShortAt(bs, 10) == h.flags
            && WordAt(bs, 12) == h.clientIP && WordAt(bs, 16) == h.yourIP && WordAt(bs, 20) == h.serverIP
            && WordAt(bs, 24) == h.gatewayIP
            && bs[28..44] == h.clientHardwareAddress + Zeros(16 - |h.clientHardwareAddress|)
            && bs[44..108] == Field(h.serverName, 64) && bs[108..236] == Field(h.bootFileName, 128)
            && bs[236..240] == [0x63, 0x82, 0x53, 0x63]
            && bs[240..] == ListBytes(os) + Zeros(|bs| - 240 - |ListBytes(os)|)
  {
    hide HeadBytes, PacketBytes, ListBytes, Front, WordAt, ShortAt, AddressField, Field;
    var bs := PacketBytes(h, os);
    PacketParts(h, os);
    FrontAt(h);
    InFront(Front(h), bs);
  }

  lemma PacketParts(h: Header, os: seq<DhcpOption>)
    requires Fits(h, os) && |h.clientHardwareAddress| <= 16
    ensures var bs := PacketBytes(h, os);
            && |bs| >= 300 && bs[..28] == Front(h)
            && bs[28..44] == h.clientHardwareAddress + Zeros(16 - |h.clientHardwareAddress|)
            && bs[44..108] == Field(h.serverName, 64) && bs[108..236] == Field(h.bootFileName, 128)
            && bs[236..240] == COOKIE && bs[240..] == ListBytes(os) + Zeros(|bs| - 240 - |ListBytes(os)|)
  {
    var a, b, c, d := Front(h), AddressField(h), Field(h.serverName, 64), Field(h.bootFileName, 128);
    var rest := ListBytes(os) + Zeros(Room(os) - |ListBytes(os)|);
    assert b == h.clientHardwareAddress + Zeros(16 - |h.clientHardwareAddress|);
    assert PacketBytes(h, os) == a + b + c + d + COOKIE + rest;
    hide HeadBytes, PacketBytes, ListBytes, Front, AddressField, Field;
    Cut(a, b, c, d, COOKIE, rest);
    CookieIs(a + b + c + d, rest);
  }

  lemma CookieIs(a: seq<Byte>, rest: seq<Byte>)
    ensures (a + COOKIE + rest)[|a|..|a| + 4] == COOKIE
  {
  }

  lemma InFront(a: seq<Byte>, bs: seq<Byte>)
    requires |a| == 28 <= |bs| && bs[..28] == a
    ensures forall i :: 0 <= i < 28 ==> bs[i] == a[i]
    ensures forall i :: 0 <= i <= 26 ==> ShortAt(bs, i) == ShortAt(a, i)
    ensures forall i :: 0 <= i <= 24 ==> WordAt(bs, i) == WordAt(a, i)
  {
    assert forall i :: 0 <= i < 28 ==> bs[i] == bs[..28][i] == a[i];
  }

  /** With a hardware address of at most 16 bytes, faithful options always fit. */
  lemma FaithfulPacketFits(h: Header, os: seq<DhcpOption>)
    requires Faithful(os) && |h.clientHardwareAddress| <= 16
    ensures Fits(h, os)
  {
    FaithfulFits(os);
  }

  /** deserialize ignores a buffer below 240 bytes, and fails on one that a long
      hardware address leads beyond. */
  datatype Parsed = Ignored | Underflow | Packet(header: Header, options: seq<DhcpOption>)

  function ParsePacket(bs: seq<Byte>): Parsed {
    if |bs| < MIN_HEADER_LENGTH then Ignored
    else if |bs| < MIN_HEADER_LENGTH + Excess(bs[2]) then Underflow
    else
      var names := 44 + Excess(bs[2]);
      Packet(ParseHeader(bs, bs[28..28 + bs[2]], bs[names..names + 64], bs[names + 64..names + 192]),
             Parse(bs[names + 196..]))
  }

  function ParseHeader(bs: seq<Byte>, address: seq<Byte>, serverName: seq<Byte>, bootFileName: seq<Byte>): Header
    requires |bs| >= 28
  {
    Header(bs[0], bs[1], bs[2], bs[3], WordAt(bs, 4), ShortAt(bs, 8), ShortAt(bs, 10), WordAt(bs, 12),
           WordAt(bs, 16), WordAt(bs, 20), WordAt(bs, 24), address, serverName, bootFileName)
  }

  /** The header that comes back: with its names cut or padded. */
  function Padded(h: Header): Header {
    h.(serverName := Field(h.serverName, 64), bootFileName := Field(h.bootFileName, 128))
  }

  lemma FrontAt(h: Header)
    ensures var a := Front(h);
            && a[0] == h.opCode && a[1] == h.hardwareType && a[2] == h.hardwareAddressLength && a[3] == h.hops
            && WordAt(a, 4) == h.transactionId && ShortAt(a, 8) == h.seconds && ShortAt(a, 10) == h.flags
            && WordAt(a, 12) == h.clientIP && WordAt(a, 16) == h.yourIP && WordAt(a, 20) == h.serverIP
            && WordAt(a, 24) == h.gatewayIP
  {
  }

  /** Taking a concatenation apart again. */
  lemma Cut(a: seq<Byte>, b: seq<Byte>, c: seq<Byte>, d: seq<Byte>, e: seq<Byte>, f: seq<Byte>)
    ensures var bs := a + b + c + d + e + f;
            && bs[..|a|] == a
            && bs[|a|..|a| + |b|] == b
            && bs[|a| + |b|..|a| + |b| + |c|] == c
            && bs[|a| + |b| + |c|..|a| + |b| + |c| + |d|] == d
            && bs[|a| + |b| + |c| + |d| + |e|..] == f
  {
    var bs, rest := a + b + c + d + e + f, c + d + e + f;
    Associates(a + b, c, d);
    Associates(a + b, c + d, e);
    Associates(a + b, c + d + e, f);
    Associates(c + d, e, f);
    CutFront(a, b, rest);
    CutFront(c, d, e + f);
    SliceOfRest(bs, |a| + |b|, 0, |c|);
    SliceOfRest(bs, |a| + |b|, |c|, |c| + |d|);
    CutFront(a + b + c + d, e, f);
  }

  lemma CutFront(a: seq<Byte>, b: seq<Byte>, rest: seq<Byte>)
    ensures var bs := a + b + rest;
            bs[..|a|] == a && bs[|a|..|a| + |b|] == b && bs[|a| + |b|..] == rest
  {
  }

  lemma SliceOfRest(bs: seq<Byte>, k: nat, i: nat, j: nat)
    requires i <= j && k + j <= |bs|
    ensures bs[k..][i..j] == bs[k + i..k + j]
  {
  }

  lemma ParseFromParts(h: Header, bs: seq<Byte>, rest: seq<Byte>)
    requires h.hardwareAddressLength == |h.clientHardwareAddress|
    requires bs == HeadBytes(h) + rest
    ensures ParsePacket(bs) == Packet(Padded(h), Parse(rest))
  {
    Cut(Front(h), AddressField(h), Field(h.serverName, 64), Field(h.bootFileName, 128), COOKIE, rest);
    FrontAt(h);
    FieldsFromFront(Front(h), bs);
    AddressFromField(h, bs);
  }

  lemma FieldsFromFront(a: seq<Byte>, bs: seq<Byte>)
    requires |a| == 28 <= |bs| && bs[..28] == a
    ensures forall address, n, m :: ParseHeader(bs, address, n, m) == ParseHeader(a, address, n, m)
  {
    assert forall i :: 0 <= i < 28 ==> bs[i] == bs[..28][i] == a[i];
  }

  lemma AddressFromField(h: Header, bs: seq<Byte>)
    requires |bs| >= 28 + |AddressField(h)| && bs[28..28 + |AddressField(h)|] == AddressField(h)
    ensures bs[28..28 + |h.clientHardwareAddress|] == h.clientHardwareAddress
  {
    var n := |h.clientHardwareAddress|;
    assert AddressField(h)[..n] == h.clientHardwareAddress;
    SliceOfSlice(bs, 28, |AddressField(h)|, n);
  }

  lemma SliceOfSlice(bs: seq<Byte>, i: nat, m: nat, n: nat)
    requires n <= m && i + m <= |bs|
    ensures bs[i..i + n] == bs[i..i + m][..n]
  {
  }

  /** The address read always is as long as its length byte says, and the options
      are faithful. */
  lemma ParsedIsConsistent(bs: seq<Byte>)
    ensures var p := ParsePacket(bs);
            p.Packet? ==> && |p.header.clientHardwareAddress| == p.header.hardwareAddressLength
                          && Faithful(p.options)
  {
    if |bs| >= MIN_HEADER_LENGTH && |bs| >= MIN_HEADER_LENGTH + Excess(bs[2]) {
      ParsedIsFaithful(bs[240 + Excess(bs[2])..]);
    }
  }

  /** Exactly the packets with a true hardware address length and faithful options
      come back as they went out. */
  lemma RoundTripExact(h: Header, os: seq<DhcpOption>)
    requires Fits(h, os)
    ensures ParsePacket(PacketBytes(h, os)) == Packet(Padded(h), os)
            <==> h.hardwareAddressLength == |h.clientHardwareAddress| && Faithful(os)
  {
    var n := Room(os) - Excess(|h.clientHardwareAddress|) - |ListBytes(os)|;
    ParsedIsConsistent(PacketBytes(h, os));
    if h.hardwareAddressLength == |h.clientHardwareAddress| {
      ParseFromParts(h, PacketBytes(h, os), ListBytes(os) + Zeros(n));
      RoundTrip(os, n);
    }
  }

  class DHCP {
    var header: Header
    var options: seq<DhcpOption>

    constructor (header: Header, options: seq<DhcpOption>)
      ensures this.header == header && this.options == options
    {
      this.header, this.options := header, options;
    }

    /** serialize. null stands for an exception: the buffer is too small, or an
        option that needs data has none. */
    method Serialize() returns (data: array?<Byte>)
      ensures data == null <==> !Fits(header, options)
      ensures data != null ==> data[..] == PacketBytes(header, options)
    {
      var optionsLength := 0;
      var i := 0;
      while i < |options|
        invariant 0 <= i <= |options| && optionsLength + Reserved(options[i..]) == Reserved(options)
      {
        ReservedStep(options, i);
        optionsLength := optionsLength + (if Bare(options[i]) then 1 else 2 + options[i].length);
        i := i + 1;
      }
      var optionsPadLength := if optionsLength < 60 then 60 - optionsLength else 0;
      var bytes := new Byte[MIN_HEADER_LENGTH + optionsLength + optionsPadLength](_ => 0);
      var bb := new ByteBuffer(bytes);
      var ok := WriteHead(bb);
      if !ok {
        return null;
      }
      ok := WriteOptions(bb);
      if !ok {
        return null;
      }
      PaddedOut(bytes, bb.pos, HeadBytes(header), ListBytes(options));
      return bytes;
    }

    /** What was not written is zero. */
    ghost predicate RestIsZero(bb: ByteBuffer)
      reads bb, bb.data
    {
      bb.Valid() && forall i :: bb.pos <= i < bb.data.Length ==> bb.data[i] == 0
    }

    method WriteHead(bb: ByteBuffer) returns (ok: bool)
      requires RestIsZero(bb) && bb.pos == 0 && bb.data.Length >= MIN_HEADER_LENGTH
      modifies bb`pos, bb.data
      ensures ok <==> MIN_HEADER_LENGTH + Excess(|header.clientHardwareAddress|) <= bb.data.Length
      ensures ok ==> RestIsZero(bb) && bb.Before() == HeadBytes(header)
    {
      WriteFront(bb);
      if MIN_HEADER_LENGTH + Excess(|header.clientHardwareAddress|) > bb.data.Length {
        return false;
      }
      bb.PutAll(header.clientHardwareAddress);
      if |header.clientHardwareAddress| < 16 {
        WriteZeros(bb, 16 - |header.clientHardwareAddress|);
      }
      assert bb.Before() == Front(header) + AddressField(header);
      WriteField(bb, header.serverName, 64);
      WriteField(bb, header.bootFileName, 128);
      bb.PutAll(COOKIE);
      return true;
    }

    method WriteFront(bb: ByteBuffer)
      requires RestIsZero(bb) && bb.pos == 0 && bb.data.Length >= 28
      modifies bb`pos, bb.data
      ensures RestIsZero(bb) && bb.pos == 28 && bb.Before() == Front(header)
    {
      bb.Put(header.opCode);
      bb.Put(header.hardwareType);
      bb.Put(header.hardwareAddressLength);
      bb.Put(header.hops);
      assert bb.Before() == [header.opCode, header.hardwareType, header.hardwareAddressLength, header.hops];
      bb.PutInt(header.transactionId);
      bb.PutShort(header.seconds);
      bb.PutShort(header.flags);
      bb.PutInt(header.clientIP);
      bb.PutInt(header.yourIP);
      bb.PutInt(header.serverIP);
      bb.PutInt(header.gatewayIP);
    }

    /** writeString, for a string of these bytes. */
    method WriteField(bb: ByteBuffer, bytes: seq<Byte>, maxLength: nat)
      requires RestIsZero(bb) && bb.pos + maxLength <= bb.data.Length
      modifies bb`pos, bb.data
      ensures RestIsZero(bb) && bb.pos == old(bb.pos) + maxLength
      ensures bb.Before() == old(bb.Before()) + Field(bytes, maxLength)
    {
      var writeLength := |bytes|;
      if writeLength > maxLength {
        writeLength := maxLength;
      }
      bb.PutAll(bytes[..writeLength]);
      WriteZeros(bb, maxLength - writeLength);
      assert old(bb.Before()) + bytes[..writeLength] + Zeros(maxLength - writeLength)
          == old(bb.Before()) + Field(bytes, maxLength);
    }

    method WriteZeros(bb: ByteBuffer, n: nat)
      requires RestIsZero(bb) && bb.pos + n <= bb.data.Length
      modifies bb`pos, bb.data
      ensures RestIsZero(bb) && bb.pos == old(bb.pos) + n
      ensures bb.Before() == old(bb.Before()) + Zeros(n)
    {
      var i := 0;
      while i < n
        invariant 0 <= i <= n && RestIsZero(bb) && bb.pos == old(bb.pos) + i
        invariant bb.Before() == old(bb.Before()) + Zeros(i)
      {
        bb.Put(0);
        i := i + 1;
        assert Zeros(i) == Zeros(i - 1) + [0];
      }
    }

    method WriteOptions(bb: ByteBuffer) returns (ok: bool)
      requires RestIsZero(bb)
      modifies bb`pos, bb.data
      ensures ok <==> AllWritable(options) && old(bb.pos) + |ListBytes(options)| <= bb.data.Length
      ensures ok ==> RestIsZero(bb) && bb.Before() == old(bb.Before()) + ListBytes(options)
    {
      var i := 0;
      while i < |options|
        invariant 0 <= i <= |options| && RestIsZero(bb) && AllWritable(options[..i])
        invariant AllWritable(options) ==>
                    old(bb.Before()) + ListBytes(options) == bb.Before() + ListBytes(options[i..])
      {
        if !Writable(options[i]) {
          return false;
        }
        if AllWritable(options) {
          ListBytesStep(options, i, bb.Before());
        }
        if bb.pos + (if Bare(options[i]) then 1 else 2 + |options[i].data.bytes|) > bb.data.Length {
          return false;
        }
        WriteOption(bb, options[i]);
        i := i + 1;
      }
      return true;
    }

    method WriteOption(bb: ByteBuffer, option: DhcpOption)
      requires Writable(option) && RestIsZero(bb) && bb.pos + |OptionBytes(option)| <= bb.data.Length
      modifies bb`pos, bb.data
      ensures RestIsZero(bb) && bb.Before() == old(bb.Before()) + OptionBytes(option)
    {
      bb.Put(option.code);
      if option.code != PAD && option.code != END {
        bb.Put(option.length);
        bb.PutAll(option.data.bytes);
      }
    }

    /** deserialize; false stands for an exception. The options read are added to
        those that are there. */
    method Deserialize(data: array<Byte>) returns (ok: bool)
      modifies this
      ensures var p := ParsePacket(data[..]);
              && ok == !p.Underflow?
              && (p.Ignored? ==> header == old(header) && options == old(options))
              && (p.Packet? ==> header == p.header && options == old(options) + p.options)
    {
      hide Parse, ShortAt, WordAt;
      if data.Length < MIN_HEADER_LENGTH {
        return true;
      }
      var bb := new ByteBuffer(data);
      ReadFront(bb);
      if MIN_HEADER_LENGTH + Excess(header.hardwareAddressLength) > data.Length {
        return false;
      }
      ReadAddressAndNames(bb);
      var cookie := bb.GetBytes(4);
      ReadOptions(bb);
      return true;
    }

    method ReadAddressAndNames(bb: ByteBuffer)
      requires bb.Valid() && bb.pos == 28
      requires MIN_HEADER_LENGTH + Excess(header.hardwareAddressLength) <= bb.data.Length
      modifies this`header, bb`pos
      ensures var n := old(header.hardwareAddressLength);
              var names := 44 + Excess(n);
              && bb.Valid() && bb.pos == names + 192
              && header == old(header).(clientHardwareAddress := bb.data[28..28 + n],
                                        serverName := bb.data[names..names + 64],
                                        bootFileName := bb.data[names + 64..names + 192])
    {
      var hardwareAddressLength := header.hardwareAddressLength;
      var address := bb.GetBytes(hardwareAddressLength);
      if hardwareAddressLength < 16 {
        var skipped := bb.GetBytes(16 - hardwareAddressLength);
      }
      var serverName := bb.GetBytes(64);
      var bootFileName := bb.GetBytes(128);
      header := header.(clientHardwareAddress := address, serverName := serverName, bootFileName := bootFileName);
    }

    method ReadFront(bb: ByteBuffer)
      requires bb.Valid() && bb.pos == 0 && bb.data.Length >= 28
      modifies this`header, bb`pos
      ensures bb.Valid() && bb.pos == 28
      ensures header == ParseHeader(bb.data[..], [], [], [])
    {
      var opCode := bb.Get();
      var hardwareType := bb.Get();
      var hardwareAddressLength := bb.Get();
      var hops := bb.Get();
      var transactionId := bb.GetInt();
      var seconds := bb.GetShort();
      var flags := bb.GetShort();
      var clientIP := bb.GetInt();
      var yourIP := bb.GetInt();
      var serverIP := bb.GetInt();
      var gatewayIP := bb.GetInt();
      header := Header(opCode, hardwareType, hardwareAddressLength, hops, transactionId, seconds, flags,
                       clientIP, yourIP, serverIP, gatewayIP, [], [], []);
    }

    /** The option loop: it ends, and reads within the buffer, whatever the bytes. */
    method ReadOptions(bb: ByteBuffer)
      requires bb.Valid()
      modifies this`options, bb`pos
      ensures options == old(options) + Parse(bb.data[old(bb.pos)..])
    {
      hide Parse, OptionAt;
      ghost var bs := bb.data[..];
      ghost var all := options + Parse(bs[bb.pos..]);
      while bb.pos < bb.data.Length
        invariant bb.Valid() && options + Parse(bs[bb.pos..]) == all
        decreases bb.data.Length - bb.pos
      {
        ghost var pos := bb.pos;
        ParseStep(bs, pos);
        var option, taken := ReadOption(bb);
        if taken {
          Associates(options, [option], if option.code == END then [] else Parse(bs[bb.pos..]));
          options := options + [option];
          if option.code == END {
            return;
          }
        }
      }
      NothingLeft(bs, options);
    }

    /** The body of the loop; taken is false for a Pad, which is skipped. */
    method ReadOption(bb: ByteBuffer) returns (option: DhcpOption, taken: bool)
      requires bb.Valid() && bb.pos < bb.data.Length
      modifies bb`pos
      ensures bb.Valid() && old(bb.pos) < bb.pos
      ensures taken <==> bb.data[old(bb.pos)] != PAD
      ensures taken ==> option == OptionAt(bb.data[..], old(bb.pos))
      ensures !taken ==> bb.pos == old(bb.pos) + 1
      ensures taken && option.code != END ==> bb.pos == old(bb.pos) + 2 + option.length
    {
      option := DhcpOption(0, 0, Null);
      var code := bb.Get();
      option := option.(code := code);
      if code == PAD {
        return option, false;
      } else if code != END {
        if bb.pos < bb.data.Length {
          var l := bb.Get();
          option := option.(length := l);
          if bb.data.Length - bb.pos >= l {
            var optionData := bb.GetBytes(l);
            option := option.(data := Data(optionData));
          } else {
            option := option.(code := END, length := 0);
          }
        } else {
          option := option.(code := END, length := 0);
        }
      }
      return option, true;
    }
  }

  lemma NothingLeft(bs: seq<Byte>, options: seq<DhcpOption>)
    ensures options + Parse(bs[|bs|..]) == options
  {
  }

  lemma PaddedOut(data: array<Byte>, pos: nat, head: seq<Byte>, options: seq<Byte>)
    requires pos <= data.Length && data[..pos] == head + options
    requires forall i :: pos <= i < data.Length ==> data[i] == 0
    ensures data[..] == head + (options + Zeros(data.Length - |head| - |options|))
  {
    assert data[..] == data[..pos] + Zeros(data.Length - pos);
  }
}
