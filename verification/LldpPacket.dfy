/** The classes of java/packet/LLDPTLV.java and java/packet/LLDP.java. */
module LldpPacket {
  import opened Bytes
  import opened LldpTlvs

  class LLDPTLV {
    var kind: Byte
    var length: JavaShort
    var value: Value

    constructor ()
      ensures View() == Tlv(0, 0, Null)
    {
      kind, length, value := 0, 0, Null;
    }

    function View(): Tlv
      reads this
    {
      Tlv(kind, length, value)
    }

    /** serialize. null stands for an exception: the buffer has a negative size, or
        is too small for its two leading bytes or for the value. */
    method Serialize() returns (data: array?<Byte>)
      ensures data == null <==> !Writable(View())
      ensures data != null ==> fresh(data) && data[..] == TlvBytes(View())
    {
      if length < 0 || |if value.Value? then value.bytes else []| > length {
        return null;
      }
      var scratch := kind % 0x80 * 0x200 + length % 0x200;
      var bytes := new Byte[2 + length](_ => 0);
      var bb := new ByteBuffer(bytes);
      bb.PutShort(scratch);
      if value.Value? {
        bb.PutAll(value.bytes);
      }
      assert bytes[..] == bb.Before() + Zeros(bytes.Length - bb.pos);
      assert bb.Before() == ShortBytes(Packed(View())) + ValueBytes(value);
      return bytes;
    }

    /** deserialize: ok is false for an exception, found for a null result. */
    method Deserialize(bb: ByteBuffer) returns (ok: bool, found: bool)
      requires bb.Valid()
      modifies this, bb`pos
      ensures bb.Valid() && ok == (old(bb.pos) + 2 <= bb.data.Length)
      ensures ok ==> bb.pos >= old(bb.pos) + 2
      ensures ok ==>
                var first := First(bb.data[old(bb.pos)..]);
                && found == first.Some?
                && (found ==> old(value) == Null ==>
                      View() == first.tlv && bb.pos == old(bb.pos) + 2 + first.tlv.length)
    {
      if bb.pos + 2 > bb.data.Length {
        return false, false;
      }
      ghost var bs := bb.data[bb.pos..];
      var scratch := bb.GetShort();
      assert scratch == ShortAt(bs, 0);
      kind := scratch / 0x200;
      length := scratch % 0x200;
      if length > 0 {
        if bb.data.Length - bb.pos < length {
          return true, false;
        }
        var bytes := bb.GetBytes(length);
        assert bytes == bs[2..2 + length];
        value := Value(bytes);
      }
      return true, true;
    }
  }

  /** What a field or list element that may be null shows. */
  ghost function Shown(o: LLDPTLV?): Optional
    reads o
  {
    if o == null then None else Some(o.View())
  }

  class LLDP {
    var chassisId: LLDPTLV?
    var portId: LLDPTLV?
    var ttl: LLDPTLV?
    var optionalTLVList: seq<LLDPTLV?>

    /** The elements as values; Valid ties them to the objects. */
    ghost var view: Frame

    ghost predicate Valid()
      reads this, chassisId, portId, ttl, optionalTLVList
    {
      && Shown(chassisId) == view.chassisId
      && Shown(portId) == view.portId
      && Shown(ttl) == view.ttl
      && |optionalTLVList| == |view.optional|
      && forall i :: 0 <= i < |optionalTLVList| ==> Shown(optionalTLVList[i]) == view.optional[i]
    }

    constructor ()
      ensures Valid() && view == EMPTY
    {
      chassisId, portId, ttl, optionalTLVList := null, null, null, [];
      view := EMPTY;
    }

    /** serialize. null stands for an exception. */
    method Serialize() returns (data: array?<Byte>)
      requires Valid()
      ensures data == null <==> !FrameWritable(view)
      ensures data != null ==> data[..] == FrameBytes(view)
    {
      if chassisId == null || portId == null || ttl == null {
        return null;
      }
      var length := ComputeLength();
      if length < 0 {
        return null;
      }
      data := new Byte[length](_ => 0);
      var bb := new ByteBuffer(data);
      var ok := WriteAll(bb);
      if !ok {
        return null;
      }
      bb.PutShort(0);
      assert bb.Before() == data[..];
    }

    /** The part of serialize that computes the length of the buffer. */
    method ComputeLength() returns (length: int)
      requires Valid() && chassisId != null && portId != null && ttl != null
      ensures length == ListLength(Elements(view)) + 2
      ensures AllWritable(Elements(view)) ==> length == |ListBytes(Elements(view))| + 2
    {
      length := 2 + chassisId.length + 2 + portId.length + 2 + ttl.length + 2;
      ghost var es := Elements(view);
      LengthStep(es, 0);
      LengthStep(es, 1);
      LengthStep(es, 2);
      assert es[0..] == es;
      var i := 0;
      while i < |optionalTLVList|
        invariant 0 <= i <= |optionalTLVList|
        invariant length + ListLength(es[3 + i..]) == ListLength(es) + 2
      {
        LengthStep(es, 3 + i);
        assert es[3 + i] == Shown(optionalTLVList[i]);
        if optionalTLVList[i] != null {
          length := length + 2 + optionalTLVList[i].length;
        }
        i := i + 1;
      }
      if AllWritable(es) {
        LengthIsWritten(es);
      }
    }

    /** The part of serialize that writes the elements. */
    method WriteAll(bb: ByteBuffer) returns (ok: bool)
      requires Valid() && chassisId != null && portId != null && ttl != null
      requires bb.Valid() && bb.pos == 0
      requires AllWritable(Elements(view)) ==> bb.data.Length == |ListBytes(Elements(view))| + 2
      modifies bb`pos, bb.data
      ensures bb.Valid()
      ensures ok <==> AllWritable(Elements(view))
      ensures ok ==> bb.Before() == ListBytes(Elements(view))
    {
      hide OnTrack, AllWritable, ListBytes;
      ghost var es := Elements(view);
      WriteStart(es);
      assert bb.Before() == [];
      ok := WriteOne(bb, chassisId, es, 0);
      if ok {
        ok := WriteOne(bb, portId, es, 1);
      }
      if ok {
        ok := WriteOne(bb, ttl, es, 2);
      }
      var i := 0;
      while ok && i < |optionalTLVList|
        invariant 0 <= i <= |optionalTLVList| && bb.Valid()
        invariant !ok ==> !AllWritable(es)
        invariant ok ==> OnTrack(es, 3 + i, bb.Before())
      {
        assert es[3 + i] == Shown(optionalTLVList[i]);
        ok := WriteOne(bb, optionalTLVList[i], es, 3 + i);
        i := i + 1;
      }
      if ok {
        WriteEnd(es, bb.Before());
      }
    }

    /** Writes one element, if it is not null. */
    static method WriteOne(bb: ByteBuffer, tlv: LLDPTLV?, ghost es: seq<Optional>, ghost i: nat) returns (ok: bool)
      requires bb.Valid() && i < |es| && es[i] == Shown(tlv) && OnTrack(es, i, bb.Before())
      requires AllWritable(es) ==> bb.data.Length == |ListBytes(es)| + 2
      modifies bb`pos, bb.data
      ensures bb.Valid() && (!ok ==> !AllWritable(es))
      ensures ok ==> OnTrack(es, i + 1, bb.Before())
    {
      ghost var before := bb.Before();
      WriteStep(es, i, before);
      ok := true;
      if tlv != null {
        ok := PutTlv(bb, tlv);
      } else {
        assert bb.Before() == before + [];
      }
    }

    static method PutTlv(bb: ByteBuffer, tlv: LLDPTLV) returns (ok: bool)
      requires bb.Valid()
      modifies bb`pos, bb.data
      ensures bb.Valid()
      ensures ok <==> Writable(tlv.View()) && old(bb.pos) + 2 + tlv.length <= bb.data.Length
      ensures ok ==> bb.Before() == old(bb.Before()) + TlvBytes(tlv.View())
    {
      var bytes := tlv.Serialize();
      if bytes == null || bb.pos + bytes.Length > bb.data.Length {
        return false;
      }
      bb.PutAll(bytes[..]);
      return true;
    }

    /** deserialize; false stands for an exception, which leaves what was read so
        far in place. */
    method Deserialize(data: array<Byte>) returns (ok: bool)
      requires Valid()
      modifies this
      ensures Valid()
      ensures var r := Parse(data[..]);
              ok == !r.failed && view == StoreAll(old(view), r.tlvs)
    {
      hide Parse, First, Store, StoreAll, LLDP.Valid;
      var bb := new ByteBuffer(data);
      ghost var goal := StoreAll(view, Parse(data[..]).tlvs);
      assert data[0..] == data[..];
      while true
        invariant Valid() && bb.Valid() && bb.data == data
        invariant StoreAll(view, Parse(data[bb.pos..]).tlvs) == goal
        invariant Parse(data[bb.pos..]).failed == Parse(data[..]).failed
        decreases data.Length - bb.pos
      {
        ghost var bs := data[bb.pos..];
        ReadStops(view, bs);
        var tlv := new LLDPTLV();
        var found;
        ok, found := tlv.Deserialize(bb);
        if !ok || !found {
          return;
        }
        assert data[bb.pos..] == bs[2 + tlv.length..];
        if tlv.kind != 0 {
          ReadStep(view, bs);
          Add(tlv);
        }
        if tlv.kind == 0 || bb.pos == data.Length {
          return;
        }
      }
    }

    /** The switch on the type. */
    method Add(tlv: LLDPTLV)
      requires Valid()
      modifies this
      ensures Valid() && view == Store(old(view), tlv.View())
    {
      if tlv.kind == 1 {
        chassisId := tlv;
      } else if tlv.kind == 2 {
        portId := tlv;
      } else if tlv.kind == 3 {
        ttl := tlv;
      } else {
        optionalTLVList := optionalTLVList + [tlv];
      }
      view := Store(view, tlv.View());
    }
  }
}
