/** Bytes and java.nio.ByteBuffer, as far as the packet classes of java/packet
    use them. A byte, short or int is its bit pattern, read as unsigned. */
module Bytes {

  type Byte = b: int | 0 <= b < 0x100
  type Short = s: int | 0 <= s < 0x1_0000
  type Word = w: int | 0 <= w < 0x1_0000_0000

  function ShortBytes(s: Short): (bs: seq<Byte>)
    ensures |bs| == 2
  {
    [s / 0x100, s % 0x100]
  }

  function WordBytes(w: Word): (bs: seq<Byte>)
    ensures |bs| == 4
  {
    ShortBytes(w / 0x1_0000) + ShortBytes(w % 0x1_0000)
  }

  function ShortAt(bs: seq<Byte>, i: nat): Short
    requires i + 2 <= |bs|
  {
    0x100 * (bs[i] as int) + bs[i + 1]
  }

  function WordAt(bs: seq<Byte>, i: nat): Word
    requires i + 4 <= |bs|
  {
    0x1_0000 * (ShortAt(bs, i) as int) + ShortAt(bs, i + 2)
  }

  function Zeros(n: nat): (bs: seq<Byte>)
    ensures |bs| == n
  {
    seq(n, _ => 0)
  }

  class ByteBuffer {
    const data: array<Byte>
    var pos: nat

    ghost predicate Valid()
      reads this
    {
      pos <= data.Length
    }

    /** What has been written, or read, so far. */
    ghost function Before(): seq<Byte>
      reads this, data
      requires Valid()
    {
      data[..pos]
    }

    /** The bytes from the position on are as they were. */
    twostate predicate RestUnchanged()
      reads this, data
    {
      forall i :: pos <= i < data.Length ==> data[i] == old(data[i])
    }

    /** ByteBuffer.wrap */
    constructor (data: array<Byte>)
      ensures Valid() && this.data == data && pos == 0
    {
      this.data := data;
      pos := 0;
    }

    /** put of a byte that fits. */
    method Put(b: Byte)
      requires Valid() && pos < data.Length
      modifies this`pos, data
      ensures Valid() && pos == old(pos) + 1
      ensures Before() == old(Before()) + [b] && RestUnchanged()
    {
      data[pos] := b;
      pos := pos + 1;
    }

    /** Two puts. */
    method PutTwo(a: Byte, b: Byte)
      requires Valid() && pos + 2 <= data.Length
      modifies this`pos, data
      ensures Valid() && pos == old(pos) + 2
      ensures Before() == old(Before()) + [a, b] && RestUnchanged()
    {
      Put(a);
      Put(b);
    }

    method PutShort(s: Short)
      requires Valid() && pos + 2 <= data.Length
      modifies this`pos, data
      ensures Valid() && pos == old(pos) + 2
      ensures Before() == old(Before()) + ShortBytes(s) && RestUnchanged()
    {
      Put(s / 0x100);
      Put(s % 0x100);
    }

    method PutInt(w: Word)
      requires Valid() && pos + 4 <= data.Length
      modifies this`pos, data
      ensures Valid() && pos == old(pos) + 4
      ensures Before() == old(Before()) + WordBytes(w) && RestUnchanged()
    {
      PutShort(w / 0x1_0000);
      PutShort(w % 0x1_0000);
    }

    method PutAll(bs: seq<Byte>)
      requires Valid() && pos + |bs| <= data.Length
      modifies this`pos, data
      ensures Valid() && pos == old(pos) + |bs|
      ensures Before() == old(Before()) + bs && RestUnchanged()
    {
      var i := 0;
      while i < |bs|
        invariant 0 <= i <= |bs| && pos == old(pos) + i && Valid()
        invariant Before() == old(Before()) + bs[..i]
        invariant RestUnchanged()
      {
        Put(bs[i]);
        i := i + 1;
      }
    }

    method Get() returns (b: Byte)
      requires Valid() && pos < data.Length
      modifies this`pos
      ensures Valid() && pos == old(pos) + 1
      ensures b == data[old(pos)]
    {
      b := data[pos];
      pos := pos + 1;
    }

    method GetShort() returns (s: Short)
      requires Valid() && pos + 2 <= data.Length
      modifies this`pos
      ensures Valid() && pos == old(pos) + 2
      ensures s == ShortAt(data[..], old(pos))
    {
      s := 0x100 * (data[pos] as int) + data[pos + 1];
      pos := pos + 2;
    }

    method GetInt() returns (w: Word)
      requires Valid() && pos + 4 <= data.Length
      modifies this`pos
      ensures Valid() && pos == old(pos) + 4
      ensures w == WordAt(data[..], old(pos))
    {
      var high := GetShort();
      var low := GetShort();
      w := 0x1_0000 * (high as int) + low;
    }

    method GetBytes(n: nat) returns (bs: seq<Byte>)
      requires Valid() && pos + n <= data.Length
      modifies this`pos
      ensures Valid() && pos == old(pos) + n
      ensures bs == data[old(pos)..pos]
    {
      bs := data[pos..pos + n];
      pos := pos + n;
    }
  }
}
