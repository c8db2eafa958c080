/** The one's-complement checksum (RFC 1071) as IPv4.serialize and TCP.serialize
    of java/packet compute it: a 32-bit accumulator, folded once. */
module Checksum {
  import opened Bytes

  /** The sum of the 16-bit words, an odd last byte padded with zero. */
  function WordSum(bs: seq<Byte>): nat {
    if |bs| == 0 then 0
    else if |bs| == 1 then 0x100 * (bs[0] as int)
    else 0x100 * (bs[0] as int) + bs[1] + WordSum(bs[2..])
  }

  const INT := 0x1_0000_0000

  /** The high half of a 32-bit accumulator plus the low half. */
  function FoldOnce(accumulation: Word): nat {
    accumulation / 0x1_0000 + accumulation % 0x1_0000
  }

  /** (short) (~accumulation & 0xffff) after one fold. */
  function ChecksumOf(accumulation: Word): Short {
    0xffff - FoldOnce(accumulation) % 0x1_0000
  }

  /** The one's-complement sum: carries are folded in until none is left. */
  function FoldAll(n: nat): Short {
    if n < 0x1_0000 then n else FoldAll(n / 0x1_0000 + n % 0x1_0000)
  }

  /** Folding keeps the value modulo 0xffff, and is 0 only for 0. */
  lemma {:induction false} FoldKeeps(n: nat)
    ensures FoldAll(n) % 0xffff == n % 0xffff && (FoldAll(n) == 0 <==> n == 0)
  {
    if n >= 0x1_0000 {
      FoldKeeps(n / 0x1_0000 + n % 0x1_0000);
      assert n == 0xffff * (n / 0x1_0000) + (n / 0x1_0000 + n % 0x1_0000);
      ModAdd(n / 0x1_0000, n / 0x1_0000 + n % 0x1_0000);
    }
  }

  lemma ModAdd(k: int, r: int)
    ensures (0xffff * k + r) % 0xffff == r % 0xffff
  {
  }

  lemma FoldsToOnes(n: nat)
    ensures FoldAll(n) == 0xffff <==> n > 0 && n % 0xffff == 0
  {
    FoldKeeps(n);
  }

  /** What a receiver checks: data whose words sum to total, with the checksum in
      place, sums to all ones exactly when the bits that the 32-bit accumulator
      lost and the carry that the single fold lost cancel out modulo 0xffff. */
  lemma ChecksumExact(total: nat)
    ensures var accumulation := total % INT;
            FoldAll(total + ChecksumOf(accumulation)) == 0xffff
            <==> (total / INT + FoldOnce(accumulation) / 0x1_0000) % 0xffff == 0
  {
    var accumulation := total % INT;
    var folded := FoldOnce(accumulation);
    var sum := total + ChecksumOf(accumulation);
    var lost := total / INT + folded / 0x1_0000;
    FoldsToOnes(sum);
    assert total == INT * (total / INT) + accumulation;
    assert accumulation == 0xffff * (accumulation / 0x1_0000) + folded;
    assert folded + ChecksumOf(accumulation) == 0x1_0000 * (folded / 0x1_0000) + 0xffff;
    assert sum == 0xffff * (0x1_0001 * (total / INT) + accumulation / 0x1_0000 + folded / 0x1_0000 + 1) + lost;
    ModAdd(0x1_0001 * (total / INT) + accumulation / 0x1_0000 + folded / 0x1_0000 + 1, lost);
    assert sum > 0 by {
      assert ChecksumOf(accumulation) == 0 ==> folded % 0x1_0000 == 0xffff;
    }
  }

  /** As long as the words sum to less than 2 to the 32nd, which every segment
      whose length fits 16 bits does, the check succeeds exactly when the single
      fold leaves no carry. The accumulator may be negative as a Java int. */
  lemma ChecksumValid(total: Word)
    ensures FoldAll(total + ChecksumOf(total)) == 0xffff <==> FoldOnce(total) <= 0xffff
  {
    hide FoldAll, ChecksumOf;
    ChecksumExact(total);
    NothingLost(total);
  }

  /** Below 2 to the 32nd nothing is lost but the carry of the single fold. */
  lemma NothingLost(total: Word)
    ensures total % INT == total && total / INT == 0
    ensures (total / INT + FoldOnce(total % INT) / 0x1_0000) % 0xffff == 0 <==> FoldOnce(total) <= 0xffff
  {
    assert total % INT == total && total / INT == 0;
    assert FoldOnce(total) < 0x2_0000;
  }

  /** The bound that lets ChecksumValid apply. */
  lemma {:induction false} WordSumBound(bs: seq<Byte>)
    ensures WordSum(bs) <= 0xffff * ((|bs| + 1) / 2)
    decreases |bs|
  {
    if |bs| >= 2 {
      WordSumBound(bs[2..]);
    }
  }

  /** The sum of the first n bytes, those at even places weighing 256. */
  function PlaceSum(bs: seq<Byte>, n: nat): nat
    requires n <= |bs|
  {
    if n == 0 then 0 else PlaceSum(bs, n - 1) + if n % 2 == 1 then 256 * (bs[n - 1] as int) else bs[n - 1]
  }

  /** Adding words is adding bytes by their places, and a last odd byte is a high one. */
  lemma {:induction false} WordSumIsByPlace(bs: seq<Byte>)
    ensures WordSum(bs) == PlaceSum(bs, |bs|)
    decreases |bs|
  {
    if |bs| == 1 {
      assert PlaceSum(bs, 0) == 0;
    } else if |bs| >= 2 {
      WordSumIsByPlace(bs[2..]);
      PlaceSumFront(bs, |bs|);
    }
  }

  lemma {:induction false} PlaceSumFront(bs: seq<Byte>, n: nat)
    requires 2 <= n <= |bs|
    ensures PlaceSum(bs, n) == 256 * (bs[0] as int) + bs[1] + PlaceSum(bs[2..], n - 2)
  {
    if n == 2 {
      assert PlaceSum(bs, 0) == 0 && PlaceSum(bs, 1) == 256 * (bs[0] as int);
    } else {
      PlaceSumFront(bs, n - 1);
    }
  }

  /** Writing a short over two zero bytes at an even place adds it to the sum. */
  lemma {:induction false} SumWithField(bs: seq<Byte>, at: nat, s: Short)
    requires at % 2 == 0 && at + 2 <= |bs| && bs[at] == 0 == bs[at + 1]
    ensures WordSum(bs[at := s / 0x100][at + 1 := s % 0x100]) == WordSum(bs) + s
    decreases at
  {
    var with := bs[at := s / 0x100][at + 1 := s % 0x100];
    if at == 0 {
      assert with[2..] == bs[2..];
    } else {
      SumWithField(bs[2..], at - 2, s);
      assert with[2..] == bs[2..][at - 2 := s / 0x100][at - 1 := s % 0x100];
    }
  }

  /** Two bytes are all that distinguishes data with a checksum from the same
      data with a zero there. */
  lemma PatchMiddle(a: seq<Byte>, b: seq<Byte>, c: Short)
    ensures var zero := a + ShortBytes(0) + b;
            && zero[|a|] == 0 == zero[|a| + 1]
            && a + ShortBytes(c) + b == zero[|a| := c / 0x100][|a| + 1 := c % 0x100]
  {
  }

  /** Data with its checksum written at an even place checks exactly when the
      single fold of the sum of its words leaves no carry. */
  lemma FieldChecks(zero: seq<Byte>, at: nat, start: Word, total: Word)
    requires at % 2 == 0 && at + 2 <= |zero| && zero[at] == 0 == zero[at + 1] && total == start + WordSum(zero)
    ensures var c := ChecksumOf(total);
            FoldAll(start + WordSum(zero[at := c / 0x100][at + 1 := c % 0x100])) == 0xffff
            <==> total / 0x1_0000 + total % 0x1_0000 <= 0xffff
  {
    SumWithField(zero, at, ChecksumOf(total));
    ChecksumValid(total);
  }

  /** The accumulating loop: words read one after the other, wrapping like an int. */
  method Accumulate(start: Word, bs: seq<Byte>) returns (accumulation: Word)
    ensures accumulation == (start + WordSum(bs)) % INT
  {
    accumulation := start;
    var i := 0;
    while i < |bs| / 2
      invariant 0 <= i <= |bs| / 2
      invariant (accumulation + WordSum(bs[2 * i..])) % INT == (start + WordSum(bs)) % INT
    {
      WordSumStep(bs, i);
      WrapStep(accumulation, ShortAt(bs, 2 * i), WordSum(bs[2 * (i + 1)..]));
      accumulation := (accumulation + ShortAt(bs, 2 * i)) % INT;
      i := i + 1;
    }
    if |bs| % 2 > 0 {
      accumulation := (accumulation + 0x100 * (bs[|bs| - 1] as int)) % INT;
    }
  }

  /** The words of a header of 20 bytes. */
  lemma SumOf20(h: seq<Byte>)
    requires |h| == 20
    ensures WordSum(h) == ShortAt(h, 0) + ShortAt(h, 2) + ShortAt(h, 4) + ShortAt(h, 6) + ShortAt(h, 8)
                          + ShortAt(h, 10) + ShortAt(h, 12) + ShortAt(h, 14) + ShortAt(h, 16) + ShortAt(h, 18)
  {
    WordSumStep(h, 0);
    WordSumStep(h, 1);
    WordSumStep(h, 2);
    WordSumStep(h, 3);
    WordSumStep(h, 4);
    WordSumStep(h, 5);
    WordSumStep(h, 6);
    WordSumStep(h, 7);
    WordSumStep(h, 8);
    WordSumStep(h, 9);
    assert h[2 * 0..] == h && h[2 * 10..] == [];
  }

  lemma WordSumStep(bs: seq<Byte>, i: nat)
    requires 2 * i + 2 <= |bs|
    ensures WordSum(bs[2 * i..]) == ShortAt(bs, 2 * i) + WordSum(bs[2 * (i + 1)..])
  {
    assert bs[2 * i..][2..] == bs[2 * (i + 1)..];
  }

  lemma WrapStep(a: int, b: int, c: int)
    ensures ((a + b) % INT + c) % INT == (a + (b + c)) % INT
  {
  }
}
