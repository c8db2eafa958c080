/** The type-length-value elements of java/packet/LLDPTLV.java (section 8.4 of
    IEEE 802.1AB-2009) and the frame java/packet/LLDP.java makes of them, as
    values and as bytes. */
module LldpTlvs {
  import opened Bytes
  import opened Sequences

  type JavaShort = s: int | -0x8000 <= s < 0x8000

  datatype Value = Null | Value(bytes: seq<Byte>)
  datatype Tlv = Tlv(kind: Byte, length: JavaShort, value: Value)
  datatype Optional = None | Some(tlv: Tlv)

  const END := Tlv(0, 0, Null)

  /** serialize does not run out of the 2 + length bytes it allocates. */
  predicate Writable(t: Tlv) {
    0 <= t.length && (t.value.Value? ==> |t.value.bytes| <= t.length)
  }

  /** Seven bits of type and nine of length; a negative length as two's complement. */
  function Packed(t: Tlv): Short {
    t.kind % 0x80 * 0x200 + t.length % 0x200
  }

  function ValueBytes(v: Value): seq<Byte> {
    if v.Null? then [] else v.bytes
  }

  function TlvBytes(t: Tlv): (bs: seq<Byte>)
    requires Writable(t)
    ensures |bs| == 2 + t.length
  {
    ShortBytes(Packed(t)) + (ValueBytes(t.value) + Zeros(t.length - |ValueBytes(t.value)|))
  }

  /** On the wire: the type is the upper seven bits of the first byte, the length its last
      bit and the second byte. */
  lemma TlvLayout(t: Tlv)
    requires Writable(t) && t.kind < 0x80 && t.length < 0x200
    ensures var bs := TlvBytes(t);
            && bs[0] == 2 * t.kind + t.length / 256 && bs[1] == t.length % 256
            && bs[2..] == ValueBytes(t.value) + Zeros(t.length - |ValueBytes(t.value)|)
  {
    PackedBytes(t.kind, t.length);
    assert Packed(t) == t.kind * 0x200 + t.length;
    hide Packed, ValueBytes;
    DropPrefix(ShortBytes(Packed(t)), ValueBytes(t.value) + Zeros(t.length - |ValueBytes(t.value)|));
  }

  lemma PackedBytes(kind: nat, length: nat)
    requires length < 0x200
    ensures (kind * 0x200 + length) / 0x100 == 2 * kind + length / 0x100
    ensures (kind * 0x200 + length) % 0x100 == length % 0x100
  {
  }

  predicate AllWritable(ts: seq<Optional>) {
    ts == [] || ((ts[0].Some? ==> Writable(ts[0].tlv)) && AllWritable(ts[1..]))
  }

  /** Null elements are dropped. */
  function ListBytes(ts: seq<Optional>): seq<Byte>
    requires AllWritable(ts)
  {
    if ts == [] then [] else ElementBytes(ts[0]) + ListBytes(ts[1..])
  }

  function ElementBytes(o: Optional): seq<Byte>
    requires o.Some? ==> Writable(o.tlv)
  {
    if o.None? then [] else TlvBytes(o.tlv)
  }

  /** The length serialize computes for the list, going by the length fields. */
  function ListLength(ts: seq<Optional>): int {
    if ts == [] then 0 else (if ts[0].None? then 0 else 2 + ts[0].tlv.length) + ListLength(ts[1..])
  }

  /** It is the number of bytes written. */
  lemma {:induction false} LengthIsWritten(ts: seq<Optional>)
    requires AllWritable(ts)
    ensures |ListBytes(ts)| == ListLength(ts)
    decreases |ts|
  {
    if ts != [] {
      LengthIsWritten(ts[1..]);
    }
  }

  lemma LengthStep(ts: seq<Optional>, i: nat)
    requires i < |ts|
    ensures ListLength(ts[i..]) == (if ts[i].None? then 0 else 2 + ts[i].tlv.length) + ListLength(ts[i + 1..])
  {
    assert ts[i..][1..] == ts[i + 1..];
  }

  /** What is left to write decides whether all can be written; if so, what was
      written and what is left make up the list. */
  ghost predicate OnTrack(ts: seq<Optional>, i: nat, written: seq<Byte>)
    requires i <= |ts|
  {
    && (AllWritable(ts) <==> AllWritable(ts[i..]))
    && (AllWritable(ts) ==> written + ListBytes(ts[i..]) == ListBytes(ts))
  }

  lemma WriteStart(ts: seq<Optional>)
    ensures OnTrack(ts, 0, [])
  {
    assert ts[0..] == ts;
    assert AllWritable(ts) ==> [] + ListBytes(ts) == ListBytes(ts);
  }

  lemma WriteEnd(ts: seq<Optional>, written: seq<Byte>)
    requires OnTrack(ts, |ts|, written)
    ensures AllWritable(ts) && written == ListBytes(ts)
  {
    assert written + [] == written;
  }

  /** One step of writing a list. */
  lemma WriteStep(ts: seq<Optional>, i: nat, written: seq<Byte>)
    requires i < |ts| && OnTrack(ts, i, written)
    ensures AllWritable(ts) ==>
              && (ts[i].Some? ==> Writable(ts[i].tlv))
              && |written| + |ElementBytes(ts[i])| <= |ListBytes(ts)|
    ensures (ts[i].Some? ==> Writable(ts[i].tlv)) ==> OnTrack(ts, i + 1, written + ElementBytes(ts[i]))
  {
    assert ts[i..][1..] == ts[i + 1..];
    if AllWritable(ts) {
      Associates(written, ElementBytes(ts[i]), ListBytes(ts[i + 1..]));
    }
  }

  /** What the loop of deserialize sees: the elements before the end, and whether
      it runs into a buffer with less than two bytes left. */
  datatype Read = Read(tlvs: seq<Tlv>, failed: bool)

  /** The element at the start of the bytes; null when its value is cut off. */
  function First(bs: seq<Byte>): (o: Optional)
    requires |bs| >= 2
    ensures o.Some? ==> 0 <= o.tlv.length && 2 + o.tlv.length <= |bs|
  {
    var kind, length := ShortAt(bs, 0) / 0x200, ShortAt(bs, 0) % 0x200;
    if |bs| - 2 < length then None
    else Some(Tlv(kind, length, if length > 0 then Value(bs[2..2 + length]) else Null))
  }

  /** In bytes: the value is cut off when there are fewer bytes than its nine bits of
      length say; otherwise it is that many, null for 0. */
  lemma FirstExactly(bs: seq<Byte>)
    requires |bs| >= 2
    ensures var length := 256 * (bs[0] as int % 2) + bs[1];
            First(bs) == if |bs| < 2 + length then None
                         else Some(Tlv(bs[0] / 2, length, if length == 0 then Null else Value(bs[2..2 + length])))
  {
  }

  function Parse(bs: seq<Byte>): Read {
    if |bs| < 2 then Read([], true)
    else
      var first := First(bs);
      if first.None? || first.tlv.kind == 0 then Read([], false)
      else if |bs| == 2 + first.tlv.length then Read([first.tlv], false)
      else
        var rest := Parse(bs[2 + first.tlv.length..]);
        Read([first.tlv] + rest.tlvs, rest.failed)
  }

  /** The elements that stand for themselves: seven bits of type, not the type of
      the end, nine bits of length, and a value of just that length, null for 0. */
  predicate Faithful(t: Tlv) {
    && 0 < t.kind < 0x80
    && 0 <= t.length < 0x200
    && (t.length == 0 <==> t.value.Null?)
    && |ValueBytes(t.value)| == t.length
  }

  predicate AllFaithful(ts: seq<Tlv>) {
    forall i :: 0 <= i < |ts| ==> Faithful(ts[i])
  }

  /** On arbitrary bytes: whatever deserialize keeps is faithful. */
  lemma {:induction false} ParsedIsFaithful(bs: seq<Byte>)
    ensures AllFaithful(Parse(bs).tlvs)
    decreases |bs|
  {
    if |bs| >= 2 && First(bs).Some? && First(bs).tlv.kind != 0 && |bs| != 2 + First(bs).tlv.length {
      ParsedIsFaithful(bs[2 + First(bs).tlv.length..]);
    }
  }

  lemma FirstOf(t: Tlv, rest: seq<Byte>)
    requires Faithful(t)
    ensures First(TlvBytes(t) + rest) == Some(t) && (TlvBytes(t) + rest)[2 + t.length..] == rest
  {
    assert ValueBytes(t.value) + Zeros(0) == ValueBytes(t.value);
    Split(Packed(t), ValueBytes(t.value), rest);
    FirstAt(t, TlvBytes(t) + rest);
  }

  lemma FirstAt(t: Tlv, bs: seq<Byte>)
    requires Faithful(t) && |bs| >= 2 + t.length
    requires ShortAt(bs, 0) == Packed(t) && bs[2..2 + t.length] == ValueBytes(t.value)
    ensures First(bs) == Some(t)
  {
    PackedParts(t.kind, t.length);
    hide ShortAt;
  }

  lemma PackedParts(kind: nat, length: nat)
    requires kind < 0x80 && length < 0x200
    ensures (kind % 0x80 * 0x200 + length % 0x200) / 0x200 == kind
    ensures (kind % 0x80 * 0x200 + length % 0x200) % 0x200 == length
  {
  }

  lemma Split(s: Short, value: seq<Byte>, rest: seq<Byte>)
    ensures var bs := ShortBytes(s) + value + rest;
            && ShortAt(bs, 0) == s
            && bs[2..2 + |value|] == value
            && bs[2 + |value|..] == rest
  {
  }

  lemma ParseFirst(t: Tlv, rest: seq<Byte>)
    requires Faithful(t) && rest != []
    ensures Parse(TlvBytes(t) + rest) == Read([t] + Parse(rest).tlvs, Parse(rest).failed)
  {
    FirstOf(t, rest);
  }

  function Somes(ts: seq<Tlv>): (os: seq<Optional>)
    ensures |os| == |ts| && forall i :: 0 <= i < |ts| ==> os[i] == Some(ts[i])
  {
    if ts == [] then [] else [Some(ts[0])] + Somes(ts[1..])
  }

  /** The list without its null elements. */
  function Present(os: seq<Optional>): seq<Tlv> {
    if os == [] then [] else (if os[0].None? then [] else [os[0].tlv]) + Present(os[1..])
  }

  /** Faithful elements followed by the end are read as they were written, null
      elements left out. */
  lemma {:induction false} ParseList(os: seq<Optional>)
    requires AllWritable(os) && AllFaithful(Present(os))
    ensures Parse(ListBytes(os) + ShortBytes(0)) == Read(Present(os), false)
    decreases |os|
  {
    var bs := ListBytes(os) + ShortBytes(0);
    if os == [] {
      assert bs == [0, 0];
    } else {
      PresentTail(os);
      ParseList(os[1..]);
      if os[0].None? {
        assert ListBytes(os) == ListBytes(os[1..]);
      } else {
        Associates(TlvBytes(os[0].tlv), ListBytes(os[1..]), ShortBytes(0));
        ParseFirst(os[0].tlv, ListBytes(os[1..]) + ShortBytes(0));
      }
    }
  }

  lemma PresentTail(os: seq<Optional>)
    requires os != [] && AllFaithful(Present(os))
    ensures AllFaithful(Present(os[1..])) && (os[0].Some? ==> Faithful(os[0].tlv))
  {
    var rest := Present(os[1..]);
    if os[0].None? {
      assert [] + rest == rest;
    } else {
      FaithfulParts(os[0].tlv, rest);
    }
  }

  lemma FaithfulParts(t: Tlv, ts: seq<Tlv>)
    requires AllFaithful([t] + ts)
    ensures Faithful(t) && AllFaithful(ts)
  {
    assert ([t] + ts)[0] == t;
    assert forall i :: 0 <= i < |ts| ==> ts[i] == ([t] + ts)[i + 1];
  }

  /** The elements an LLDP object holds. */
  datatype Frame = Frame(chassisId: Optional, portId: Optional, ttl: Optional, optional: seq<Optional>)

  const EMPTY := Frame(None, None, None, [])

  /** What deserialize does with one element. */
  function Store(f: Frame, t: Tlv): Frame {
    if t.kind == 1 then f.(chassisId := Some(t))
    else if t.kind == 2 then f.(portId := Some(t))
    else if t.kind == 3 then f.(ttl := Some(t))
    else f.(optional := f.optional + [Some(t)])
  }

  function StoreAll(f: Frame, ts: seq<Tlv>): Frame
    decreases |ts|
  {
    if ts == [] then f else StoreAll(Store(f, ts[0]), ts[1..])
  }

  /** The elements in the order in which they are written. */
  function Elements(f: Frame): seq<Optional> {
    [f.chassisId, f.portId, f.ttl] + f.optional
  }

  predicate Complete(f: Frame) {
    f.chassisId.Some? && f.portId.Some? && f.ttl.Some?
  }

  /** serialize does not fail. */
  predicate FrameWritable(f: Frame) {
    Complete(f) && AllWritable(Elements(f))
  }

  function FrameBytes(f: Frame): seq<Byte>
    requires FrameWritable(f)
  {
    ListBytes(Elements(f)) + ShortBytes(0)
  }

  /** Every element is where an element of its type belongs. */
  predicate WellPlaced(f: Frame) {
    && (f.chassisId.Some? ==> Faithful(f.chassisId.tlv) && f.chassisId.tlv.kind == 1)
    && (f.portId.Some? ==> Faithful(f.portId.tlv) && f.portId.tlv.kind == 2)
    && (f.ttl.Some? ==> Faithful(f.ttl.tlv) && f.ttl.tlv.kind == 3)
    && (forall i :: 0 <= i < |f.optional| && f.optional[i].Some? ==>
          Faithful(f.optional[i].tlv) && 4 <= f.optional[i].tlv.kind)
  }

  /** What deserialize stores is well placed. */
  lemma {:induction false} StoreAllKeeps(f: Frame, ts: seq<Tlv>)
    requires WellPlaced(f) && AllFaithful(ts)
    ensures WellPlaced(StoreAll(f, ts))
    decreases |ts|
  {
    if ts != [] {
      StoreAllKeeps(Store(f, ts[0]), ts[1..]);
    }
  }

  lemma {:induction false} StoreOptional(f: Frame, ts: seq<Tlv>)
    requires forall i :: 0 <= i < |ts| ==> 4 <= ts[i].kind
    ensures StoreAll(f, ts) == f.(optional := f.optional + Somes(ts))
    decreases |ts|
  {
    if ts == [] {
      assert f.optional + [] == f.optional;
    } else {
      StoreOptional(Store(f, ts[0]), ts[1..]);
      assert f.optional + [Some(ts[0])] + Somes(ts[1..]) == f.optional + Somes(ts);
    }
  }

  /** The frame without null elements in its list. */
  function Compact(f: Frame): Frame {
    f.(optional := Somes(Present(f.optional)))
  }

  lemma {:induction false} PresentKeeps(os: seq<Optional>)
    requires forall i :: 0 <= i < |os| && os[i].Some? ==> Faithful(os[i].tlv) && 4 <= os[i].tlv.kind
    ensures AllFaithful(Present(os)) && forall i :: 0 <= i < |Present(os)| ==> 4 <= Present(os)[i].kind
    decreases |os|
  {
    if os != [] {
      PresentKeeps(os[1..]);
    }
  }

  lemma {:induction false} PresentHasAll(os: seq<Optional>, i: nat)
    requires i < |os| && os[i].Some?
    ensures os[i].tlv in Present(os)
    decreases i
  {
    if i > 0 {
      PresentHasAll(os[1..], i - 1);
    }
  }

  lemma StoreElements(f: Frame)
    requires Complete(f) && WellPlaced(f)
    ensures AllFaithful(Present(Elements(f))) && StoreAll(EMPTY, Present(Elements(f))) == Compact(f)
  {
    var three := [f.chassisId.tlv, f.portId.tlv, f.ttl.tlv];
    var rest := Present(f.optional);
    PresentKeeps(f.optional);
    PresentOfElements(f);
    ThreeAreFaithful(f);
    FaithfulConcat(three, rest);
    hide Present, Elements, StoreAll, AllFaithful;
    StoreThree(EMPTY, f.chassisId.tlv, f.portId.tlv, f.ttl.tlv, rest);
    StoreOptional(Frame(f.chassisId, f.portId, f.ttl, []), rest);
    assert [] + Somes(rest) == Somes(rest);
  }

  lemma ThreeAreFaithful(f: Frame)
    requires Complete(f) && WellPlaced(f)
    ensures AllFaithful([f.chassisId.tlv, f.portId.tlv, f.ttl.tlv])
  {
  }

  lemma FaithfulConcat(a: seq<Tlv>, b: seq<Tlv>)
    requires AllFaithful(a) && AllFaithful(b)
    ensures AllFaithful(a + b)
  {
  }

  lemma PresentOfElements(f: Frame)
    requires Complete(f)
    ensures Present(Elements(f)) == [f.chassisId.tlv, f.portId.tlv, f.ttl.tlv] + Present(f.optional)
  {
    PresentCons(f.chassisId, [f.portId, f.ttl] + f.optional);
    PresentCons(f.portId, [f.ttl] + f.optional);
    PresentCons(f.ttl, f.optional);
    assert Elements(f) == [f.chassisId] + ([f.portId, f.ttl] + f.optional);
    assert [f.portId, f.ttl] + f.optional == [f.portId] + ([f.ttl] + f.optional);
  }

  /** Where reading a list stops. */
  lemma ReadStops(f: Frame, bs: seq<Byte>)
    ensures |bs| < 2 ==> Parse(bs).failed
    ensures |bs| >= 2 && (First(bs).None? || First(bs).tlv.kind == 0) ==> !Parse(bs).failed
    ensures |bs| < 2 || First(bs).None? || First(bs).tlv.kind == 0 ==> StoreAll(f, Parse(bs).tlvs) == f
  {
  }

  /** One step of reading a list. */
  lemma ReadStep(f: Frame, bs: seq<Byte>)
    requires |bs| >= 2 && First(bs).Some? && First(bs).tlv.kind != 0
    ensures var t := First(bs).tlv;
            if |bs| == 2 + t.length then StoreAll(f, Parse(bs).tlvs) == Store(f, t) && !Parse(bs).failed
            else
              var rest := Parse(bs[2 + t.length..]);
              StoreAll(f, Parse(bs).tlvs) == StoreAll(Store(f, t), rest.tlvs) && Parse(bs).failed == rest.failed
  {
    var t := First(bs).tlv;
    StoreCons(f, t, []);
    assert [t] + [] == [t];
    if |bs| > 2 + t.length {
      StoreCons(f, t, Parse(bs[2 + t.length..]).tlvs);
    }
  }

  lemma PresentCons(o: Optional, os: seq<Optional>)
    requires o.Some?
    ensures Present([o] + os) == [o.tlv] + Present(os)
  {
    assert ([o] + os)[1..] == os;
  }

  lemma StoreThree(f: Frame, a: Tlv, b: Tlv, c: Tlv, rest: seq<Tlv>)
    requires a.kind == 1 && b.kind == 2 && c.kind == 3
    ensures StoreAll(f, [a, b, c] + rest)
            == StoreAll(f.(chassisId := Some(a), portId := Some(b), ttl := Some(c)), rest)
  {
    StoreCons(f, a, [b, c] + rest);
    StoreCons(f.(chassisId := Some(a)), b, [c] + rest);
    StoreCons(f.(chassisId := Some(a), portId := Some(b)), c, rest);
    assert [a, b, c] + rest == [a] + ([b, c] + rest);
    assert [b, c] + rest == [b] + ([c] + rest);
  }

  lemma StoreCons(f: Frame, t: Tlv, ts: seq<Tlv>)
    ensures StoreAll(f, [t] + ts) == StoreAll(Store(f, t), ts)
  {
    assert ([t] + ts)[1..] == ts;
  }

  /** Read back into an empty frame, exactly the frames whose elements are faithful
      and in their places come back as they went out, null elements dropped. */
  lemma RoundTripExact(f: Frame)
    requires FrameWritable(f)
    ensures var r := Parse(FrameBytes(f));
            (!r.failed && StoreAll(EMPTY, r.tlvs) == Compact(f)) <==> WellPlaced(f)
  {
    var r := Parse(FrameBytes(f));
    if WellPlaced(f) {
      StoreElements(f);
      ParseList(Elements(f));
    }
    if StoreAll(EMPTY, r.tlvs) == Compact(f) {
      ParsedIsFaithful(FrameBytes(f));
      StoreAllKeeps(EMPTY, r.tlvs);
      CompactIsPlaced(f);
    }
  }

  lemma CompactIsPlaced(f: Frame)
    requires WellPlaced(Compact(f))
    ensures WellPlaced(f)
  {
    forall i | 0 <= i < |f.optional| && f.optional[i].Some?
      ensures Faithful(f.optional[i].tlv) && 4 <= f.optional[i].tlv.kind
    {
      PresentHasAll(f.optional, i);
      var k :| 0 <= k < |Present(f.optional)| && Present(f.optional)[k] == f.optional[i].tlv;
      assert Compact(f).optional[k] == Some(f.optional[i].tlv);
    }
  }
}
