/**
 The Internet checksum (sections 1 and 2 of RFC 1071): a 32-bit accumulator with deferred
 carries and a byte-parity flag that survives from one `Add` to the next.
 */
module Checksum {
  import opened MachineTypes

  /** The accumulator as a value. `odd` says that the next byte is the low half of its word. */
  datatype Acc = Acc(sum: UInt32, odd: bool)

  /** What one byte adds at an even or odd offset. */
  function Weight(odd: bool, b: Byte): nat { if odd then b else 0x100 * b }

  /** The exact sum, with no width limit, that the bytes contribute. */
  function Total(odd: bool, data: Text): nat
    decreases data
  {
    if data == [] then 0 else Weight(odd, data[0]) + Total(!odd, data[1..])
  }

  predicate FlipsParity(data: Text) { |data| % 2 == 1 }

  /** The accumulator after `data`: one addition of the exact total, wrapped once. */
  function After(acc: Acc, data: Text): Acc {
    Acc(Wrap32(acc.sum + Total(acc.odd, data)), acc.odd != FlipsParity(data))
  }

  /** The 16-bit one's-complement number congruent to `t` modulo 0xffff; only 0 gives 0. */
  function Ones16(t: nat): UInt16 { if t == 0 then 0 else (t - 1) % 0xffff + 1 }

  /** The checksum of an accumulated sum: the one's complement of its 16-bit residue. */
  function ValueOf(sum: nat): UInt16 { 0xffff - Ones16(sum) }

  /** One round of carry folding. */
  function Fold(t: nat): nat { t / 0x1_0000 + t % 0x1_0000 }

  class InternetChecksum {
    var sum: UInt32
    var parity: bool

    ghost function Value(): Acc reads this { Acc(sum, parity) }

    constructor (initialSum: UInt32)
      ensures Value() == Acc(initialSum, false)
    {
      sum, parity := initialSum, false;
    }

    method Add(data: Text)
      modifies this
      ensures Value() == After(old(Value()), data)
    {
      TotalEmpty(parity);
      var i := 0;
      while i < |data|
        invariant i <= |data|
        invariant Value() == After(old(Value()), data[..i])
      {
        AfterSnoc(old(Value()), data[..i], data[i]);
        assert data[..i + 1] == data[..i] + [data[i]];
        var val: UInt16 := data[i];
        if !parity {
          val := Wrap16(val * 0x100);
        }
        sum := Wrap32(sum + val);
        parity := !parity;
        i := i + 1;
      }
      assert data[..i] == data;
    }

    /** Folding needs at most two rounds, and its outcome is the residue modulo 0xffff. */
    method GetValue() returns (r: UInt16)
      ensures r == ValueOf(sum)
      ensures r == 0xffff - Fold(Fold(sum))
    {
      var ret: UInt32 := sum;
      ghost var rounds := 0;
      FoldTwice(sum);
      while ret > 0xffff
        invariant Ones16(ret) == Ones16(sum)
        invariant 0 <= rounds <= 2 && ret == if rounds == 0 then sum else if rounds == 1 then Fold(sum) else Fold(Fold(sum))
        decreases 2 - rounds
      {
        FoldKeepsResidue(ret);
        ret := ret / 0x1_0000 + ret % 0x1_0000;
        rounds := rounds + 1;
      }
      r := Wrap16(0xffff_ffff - ret);
    }
  }

  lemma TotalEmpty(odd: bool)
    ensures Total(odd, []) == 0
  {
  }

  lemma {:induction false} TotalConcat(odd: bool, a: Text, b: Text)
    ensures Total(odd, a + b) == Total(odd, a) + Total(odd != FlipsParity(a), b)
    decreases a
  {
    if a == [] {
      assert a + b == b;
    } else {
      assert (a + b)[1..] == a[1..] + b;
      TotalConcat(!odd, a[1..], b);
    }
  }

  lemma TotalSnoc(odd: bool, a: Text, b: Byte)
    ensures Total(odd, a + [b]) == Total(odd, a) + Weight(odd != FlipsParity(a), b)
  {
    TotalConcat(odd, a, [b]);
    TotalEmpty(odd);
    TotalEmpty(!odd);
  }

  lemma AfterSnoc(acc: Acc, data: Text, b: Byte)
    ensures var before := After(acc, data);
      After(acc, data + [b]) == Acc(Wrap32(before.sum + Weight(before.odd, b)), !before.odd)
  {
    TotalSnoc(acc.odd, data, b);
    Wrap32Once(acc.sum + Total(acc.odd, data), Weight(acc.odd != FlipsParity(data), b));
  }

  lemma FoldKeepsResidue(t: nat)
    ensures Ones16(Fold(t)) == Ones16(t)
    ensures t > 0xffff ==> Fold(t) < t
  {
  }

  lemma FoldTwice(t: UInt32)
    ensures Fold(Fold(t)) <= 0xffff
    ensures t <= 0xffff ==> Fold(t) == t
  {
  }

  /** Multiples of 0xffff do not matter to a residue. */
  lemma ModShift(a: int, k: int)
    ensures (a + 0xffff * k) % 0xffff == a % 0xffff
  {
  }
}
