/** The option list of java/packet/DHCP.java (sections 2, 3.1 and 3.2 of
    RFC 2132), as bytes and as the values deserialize keeps. */
module DhcpOptions {
  import opened Bytes
  import opened Sequences

  datatype Data = Null | Data(bytes: seq<Byte>)
  datatype DhcpOption = DhcpOption(code: Byte, length: Byte, data: Data)

  const PAD: Byte := 0
  const END: Byte := 255
  const END_OPTION := DhcpOption(END, 0, Null)

  /** Pad and End have neither length nor data. */
  predicate Bare(o: DhcpOption) {
    o.code == PAD || o.code == END
  }

  /** serialize does not fail on the option for want of data. */
  predicate Writable(o: DhcpOption) {
    Bare(o) || o.data.Data?
  }

  predicate AllWritable(os: seq<DhcpOption>) {
    forall i :: 0 <= i < |os| ==> Writable(os[i])
  }

  function OptionBytes(o: DhcpOption): (bs: seq<Byte>)
    requires Writable(o)
  {
    if Bare(o) then [o.code] else [o.code, o.length] + o.data.bytes
  }

  function ListBytes(os: seq<DhcpOption>): seq<Byte>
    requires AllWritable(os)
  {
    if os == [] then [] else OptionBytes(os[0]) + ListBytes(os[1..])
  }

  /** On the wire (section 2 of RFC 2132): codes 0 and 255 stand alone, every other is
      followed by its length byte and its data. */
  lemma OptionLayout(o: DhcpOption, rest: seq<DhcpOption>)
    requires AllWritable([o] + rest) && (o.code != 0 && o.code != 255 ==> o.data.Data?)
    ensures AllWritable(rest)
    ensures ListBytes([o] + rest)
            == (if o.code == 0 || o.code == 255 then [o.code] else [o.code, o.length] + o.data.bytes) + ListBytes(rest)
  {
    var all := [o] + rest;
    assert all[1..] == rest && all[0] == o && Writable(all[0]);
    assert forall i :: 0 <= i < |rest| ==> rest[i] == all[i + 1];
  }

  /** The size serialize reserves, going by the length bytes. */
  function Reserved(os: seq<DhcpOption>): nat {
    if os == [] then 0
    else (if Bare(os[0]) then 1 else 2 + os[0].length) + Reserved(os[1..])
  }

  /** The option loop of deserialize. */
  function Parse(bs: seq<Byte>): (os: seq<DhcpOption>) {
    if bs == [] then []
    else if bs[0] == PAD then Parse(bs[1..])
    else if bs[0] == END || |bs| < 2 || |bs| - 2 < bs[1] then [END_OPTION]
    else [DhcpOption(bs[0], bs[1], Data(bs[2..2 + bs[1]]))] + Parse(bs[2 + bs[1]..])
  }

  /** What reading makes of any bytes: Pad is skipped, End ends the list, an option is
      taken with its data, and one that is cut off, in whatever place, reads as End. */
  lemma ParseByCases(code: Byte, length: Byte, data: seq<Byte>, rest: seq<Byte>)
    ensures Parse([]) == []
    ensures Parse([0] + rest) == Parse(rest) && Parse([255] + rest) == [DhcpOption(255, 0, Null)]
    ensures code != 0 && code != 255 ==>
              && Parse([code]) == [DhcpOption(255, 0, Null)]
              && (|data| < length ==> Parse([code, length] + data) == [DhcpOption(255, 0, Null)])
              && (|data| == length ==>
                    Parse([code, length] + data + rest) == [DhcpOption(code, length, Data(data))] + Parse(rest))
  {
    assert ([0] + rest)[1..] == rest;
    if code != 0 && code != 255 && |data| == length {
      ParseFirst(DhcpOption(code, length, Data(data)), rest);
    }
  }

  /** The lists that stand for themselves: no Pad, End bare and in last place only,
      and every other option with as much data as its length byte says. */
  predicate Faithful(os: seq<DhcpOption>) {
    forall i :: 0 <= i < |os| ==>
      && os[i].code != PAD
      && (os[i].code == END ==> i == |os| - 1 && os[i] == END_OPTION)
      && (os[i].code != END ==> os[i].data.Data? && |os[i].data.bytes| == os[i].length)
  }

  lemma FaithfulTail(os: seq<DhcpOption>)
    requires Faithful(os) && os != []
    ensures Faithful(os[1..])
  {
    assert forall i :: 0 <= i < |os| - 1 ==> os[1..][i] == os[i + 1];
  }

  lemma FaithfulCons(o: DhcpOption, os: seq<DhcpOption>)
    requires Faithful(os) && !Bare(o) && o.data.Data? && |o.data.bytes| == o.length
    ensures Faithful([o] + os)
  {
    assert forall i :: 0 < i < |os| + 1 ==> ([o] + os)[i] == os[i - 1];
  }

  /** On arbitrary bytes: whatever deserialize keeps is faithful; in particular
      every option that bears data has as much as its length byte says. */
  lemma {:induction false} ParsedIsFaithful(bs: seq<Byte>)
    ensures Faithful(Parse(bs))
    decreases |bs|
  {
    if bs != [] {
      if bs[0] == PAD {
        ParsedIsFaithful(bs[1..]);
      } else if bs[0] != END && |bs| >= 2 && |bs| - 2 >= bs[1] {
        ParsedIsFaithful(bs[2 + bs[1]..]);
        FaithfulCons(DhcpOption(bs[0], bs[1], Data(bs[2..2 + bs[1]])), Parse(bs[2 + bs[1]..]));
      }
    }
  }

  /** Padding is skipped. */
  lemma {:induction false} ParsePadding(n: nat)
    ensures Parse(Zeros(n)) == []
  {
    if n > 0 {
      assert Zeros(n)[1..] == Zeros(n - 1);
      ParsePadding(n - 1);
    }
  }

  lemma ParseFirst(o: DhcpOption, rest: seq<Byte>)
    requires !Bare(o) && o.data.Data? && |o.data.bytes| == o.length
    ensures Parse(OptionBytes(o) + rest) == [o] + Parse(rest)
  {
    var bs := OptionBytes(o) + rest;
    assert bs[0] == o.code && bs[1] == o.length;
    assert bs[2..2 + bs[1]] == o.data.bytes && bs[2 + bs[1]..] == rest;
  }

  lemma {:induction false} ParseList(os: seq<DhcpOption>, n: nat)
    requires Faithful(os) && AllWritable(os)
    ensures Parse(ListBytes(os) + Zeros(n)) == os
    decreases |os|
  {
    if os == [] {
      assert ListBytes(os) + Zeros(n) == Zeros(n);
      ParsePadding(n);
    } else if os[0].code == END {
      assert os == [END_OPTION];
      assert (ListBytes(os) + Zeros(n))[0] == END;
    } else {
      FaithfulTail(os);
      ParseList(os[1..], n);
      var rest := ListBytes(os[1..]) + Zeros(n);
      assert ListBytes(os) + Zeros(n) == OptionBytes(os[0]) + rest;
      ParseFirst(os[0], rest);
      assert [os[0]] + os[1..] == os;
    }
  }

  /** Whatever the padding, exactly the faithful lists come back as they went out,
      with or without an End. */
  lemma RoundTrip(os: seq<DhcpOption>, n: nat)
    requires AllWritable(os)
    ensures Parse(ListBytes(os) + Zeros(n)) == os <==> Faithful(os)
  {
    ParsedIsFaithful(ListBytes(os) + Zeros(n));
    if Faithful(os) {
      ParseList(os, n);
    }
  }

  /** Options that were read can be written and read again without change. */
  lemma Reread(bs: seq<Byte>, n: nat)
    ensures AllWritable(Parse(bs)) && Parse(ListBytes(Parse(bs)) + Zeros(n)) == Parse(bs)
  {
    ParsedIsFaithful(bs);
    RoundTrip(Parse(bs), n);
  }

  /** A faithful list takes exactly the room serialize reserves for it. */
  lemma {:induction false} FaithfulFits(os: seq<DhcpOption>)
    requires Faithful(os)
    ensures AllWritable(os) && |ListBytes(os)| == Reserved(os)
    decreases |os|
  {
    if os != [] {
      FaithfulTail(os);
      FaithfulFits(os[1..]);
    }
  }

  /** One step of the loop that writes the options. */
  lemma ListBytesStep(os: seq<DhcpOption>, i: nat, written: seq<Byte>)
    requires i < |os| && AllWritable(os)
    ensures written + ListBytes(os[i..]) == written + OptionBytes(os[i]) + ListBytes(os[i + 1..])
  {
    assert os[i..][1..] == os[i + 1..];
    Associates(written, OptionBytes(os[i]), ListBytes(os[i + 1..]));
  }

  /** One step of the loop that adds up the reserved room. */
  lemma ReservedStep(os: seq<DhcpOption>, i: nat)
    requires i < |os|
    ensures Reserved(os[i..]) == (if Bare(os[i]) then 1 else 2 + os[i].length) + Reserved(os[i + 1..])
  {
    assert os[i..][1..] == os[i + 1..];
  }

  /** The option that starts at a byte other than Pad: End in place of an option
      that is cut off. */
  function OptionAt(bs: seq<Byte>, i: nat): (o: DhcpOption)
    requires i < |bs| && bs[i] != PAD
    ensures o.code != END ==> i + 2 + o.length <= |bs|
  {
    if bs[i] == END || i + 1 == |bs| || |bs| - i - 2 < bs[i + 1] then END_OPTION
    else DhcpOption(bs[i], bs[i + 1], Data(bs[i + 2..i + 2 + bs[i + 1]]))
  }

  /** One step of the loop that reads the options. */
  lemma ParseStep(bs: seq<Byte>, i: nat)
    requires i < |bs|
    ensures bs[i] == PAD ==> Parse(bs[i..]) == Parse(bs[i + 1..])
    ensures bs[i] != PAD ==>
              var o := OptionAt(bs, i);
              Parse(bs[i..]) == [o] + (if o.code == END then [] else Parse(bs[i + 2 + o.length..]))
  {
    assert bs[i..][1..] == bs[i + 1..];
    if i + 1 < |bs| && |bs| - i - 2 >= bs[i + 1] {
      assert bs[i..][2..2 + bs[i + 1]] == bs[i + 2..i + 2 + bs[i + 1]];
      assert bs[i..][2 + bs[i + 1]..] == bs[i + 2 + bs[i + 1]..];
    }
  }
}
