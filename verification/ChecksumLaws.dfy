/** What RFC 1071 promises of the checksum, proved of the accumulator in `Checksum`. */
module ChecksumLaws {
  import opened MachineTypes
  import opened Checksum

  // ---------- Splitting the data over several calls ----------

  /** The accumulator after one `Add` per piece. */
  function AfterAll(acc: Acc, pieces: seq<Text>): Acc
    decreases pieces
  {
    if pieces == [] then acc else AfterAll(After(acc, pieces[0]), pieces[1..])
  }

  /** Two calls reach the state of one call on the joined data, odd lengths and wrapping included. */
  lemma AddSplits(acc: Acc, a: Text, b: Text)
    ensures After(After(acc, a), b) == After(acc, a + b)
  {
    TotalConcat(acc.odd, a, b);
    Wrap32Once(acc.sum + Total(acc.odd, a), Total(acc.odd != FlipsParity(a), b));
  }

  /** However the data is cut up, only its concatenation matters. */
  lemma {:induction false} ChunkingIsInvisible(acc: Acc, pieces: seq<Text>)
    ensures AfterAll(acc, pieces) == After(acc, Flatten(pieces))
    decreases pieces
  {
    if pieces == [] {
      TotalEmpty(acc.odd);
    } else {
      ChunkingIsInvisible(After(acc, pieces[0]), pieces[1..]);
      AddSplits(acc, pieces[0], Flatten(pieces[1..]));
    }
  }

  // ---------- Deferred carries refine end-around carries ----------

  /** 16-bit one's-complement addition: the carry out of the top is added back at once. */
  function OnesAdd(a: UInt16, b: UInt16): UInt16 { if a + b > 0xffff then a + b - 0xffff else a + b }

  /** The big-endian 16-bit words of the data, an odd last byte padded with zero. */
  function Words(data: Text): seq<UInt16> {
    if data == [] then []
    else if |data| == 1 then [Word(data[0], 0)]
    else [Word(data[0], data[1])] + Words(data[2..])
  }

  function Word(high: Byte, low: Byte): UInt16 { 0x100 * high + low }

  function EagerSum(acc: UInt16, words: seq<UInt16>): UInt16
    decreases words
  {
    if words == [] then acc else EagerSum(OnesAdd(acc, words[0]), words[1..])
  }

  lemma TotalOfWord(data: Text)
    requires data != []
    ensures Total(false, data) == Words(data)[0] + Total(false, if |data| == 1 then [] else data[2..])
    ensures Words(data)[1..] == Words(if |data| == 1 then [] else data[2..])
  {
  }

  lemma OnesAddIsResidue(t: nat, w: UInt16)
    ensures Ones16(t + w) == OnesAdd(Ones16(t), w)
  {
  }

  lemma {:induction false} EagerIsResidue(t: nat, data: Text)
    ensures EagerSum(Ones16(t), Words(data)) == Ones16(t + Total(false, data))
    decreases data
  {
    if data == [] {
      TotalEmpty(false);
    } else {
      TotalOfWord(data);
      OnesAddIsResidue(t, Words(data)[0]);
      EagerIsResidue(t + Words(data)[0], if |data| == 1 then [] else data[2..]);
    }
  }

  /** Multiples of 2^32 are worth 1 each modulo 0xffff, so lost carries show up as a deficit. */
  lemma WrapDeficit(t: nat)
    ensures (t - t / 0x1_0000_0000) % 0xffff == (Wrap32(t)) % 0xffff
  {
    assert 0x1_0000_0000 - 1 == 0xffff * 65537;
    ModShift(Wrap32(t), 65537 * (t / 0x1_0000_0000));
  }

  lemma OnesByRemainder(t: nat)
    ensures Ones16(t) == if t == 0 then 0 else if t % 0xffff == 0 then 0xffff else t % 0xffff
  {
    var q, r := t / 0xffff, t % 0xffff;
    assert t == r + 0xffff * q;
    if r != 0 {
      ModShift(r - 1, q);
    } else if t != 0 {
      assert t - 1 == 0xfffe + 0xffff * (q - 1);
      ModShift(0xfffe, q - 1);
    }
  }

  lemma SameResidue(a: nat, b: nat)
    ensures Ones16(a) == Ones16(b) <==> (a % 0xffff == b % 0xffff && (a == 0 <==> b == 0))
  {
    OnesByRemainder(a);
    OnesByRemainder(b);
  }

  lemma CarriesVanish(t: nat)
    ensures Ones16(Wrap32(t)) == Ones16(t) <==> (t / 0x1_0000_0000 % 0xffff == 0 && (Wrap32(t) == 0 ==> t == 0))
  {
    SameResidue(Wrap32(t), t);
    WrapDeficit(t);
    DeficitVanishes(t, t / 0x1_0000_0000);
  }

  /**
   The accumulator gives the eagerly carried one's-complement sum exactly when the number of
   lost 32-bit carries is a multiple of 0xffff that does not leave a spurious zero.
   */
  lemma DeferredCarryExact(initial: UInt32, pieces: seq<Text>)
    ensures
      var t := initial + Total(false, Flatten(pieces));
      ValueOf(AfterAll(Acc(initial, false), pieces).sum) == 0xffff - EagerSum(Ones16(initial), Words(Flatten(pieces)))
      <==> (t / 0x1_0000_0000 % 0xffff == 0 && (Wrap32(t) == 0 ==> t == 0))
  {
    var data := Flatten(pieces);
    var t := initial + Total(false, data);
    ChunkingIsInvisible(Acc(initial, false), pieces);
    EagerIsResidue(initial, data);
    CarriesVanish(t);
  }

  lemma DeficitVanishes(t: int, k: nat)
    ensures (t - k) % 0xffff == t % 0xffff <==> k % 0xffff == 0
  {
    SameRemainder(t, t - k);
  }

  lemma SameRemainder(x: int, y: int)
    ensures x % 0xffff == y % 0xffff <==> (x - y) % 0xffff == 0
  {
    var q := x / 0xffff - y / 0xffff;
    assert x - y == x % 0xffff - y % 0xffff + 0xffff * q;
    ModShift(x % 0xffff - y % 0xffff, q);
  }

  lemma NoCarryLost(t: nat)
    requires t < 0x1_0000_0000
    ensures t / 0x1_0000_0000 == 0 && Wrap32(t) == t
  {
  }

  /** Without wrapping, deferring the carries is the same as carrying eagerly. */
  lemma DeferredCarry(initial: UInt32, pieces: seq<Text>)
    requires initial + Total(false, Flatten(pieces)) < 0x1_0000_0000
    ensures ValueOf(AfterAll(Acc(initial, false), pieces).sum)
         == 0xffff - EagerSum(Ones16(initial), Words(Flatten(pieces)))
  {
    NoCarryLost(initial + Total(false, Flatten(pieces)));
    DeferredCarryExact(initial, pieces);
  }

  // ---------- The exact bound on the accumulator ----------

  /** The largest total that `n` bytes can have. */
  function MaxTotal(n: nat): nat { 0xffff * (n / 2) + 0xff00 * (n % 2) }

  function AllOnes(n: nat): Text { seq(n, i => 0xff) }

  lemma {:induction false} TotalBound(data: Text)
    ensures Total(false, data) <= MaxTotal(|data|)
    decreases data
  {
    if data == [] {
      TotalEmpty(false);
    } else {
      TotalOfWord(data);
      TotalBound(if |data| == 1 then [] else data[2..]);
    }
  }

  lemma {:induction false} AllOnesReachBound(n: nat)
    ensures Total(false, AllOnes(n)) == MaxTotal(n)
  {
    var data := AllOnes(n);
    if n > 0 {
      TotalOfWord(data);
      if n == 1 {
        TotalEmpty(false);
      } else {
        assert data[2..] == AllOnes(n - 2);
        AllOnesReachBound(n - 2);
      }
    } else {
      TotalEmpty(false);
    }
  }

  /** No data of length `n` wraps the accumulator if and only if the worst case does not. */
  lemma NoWrapBound(initial: UInt32, n: nat)
    ensures (forall data: Text | |data| == n :: initial + Total(false, data) < 0x1_0000_0000)
       <==> initial + MaxTotal(n) < 0x1_0000_0000
  {
    AllOnesReachBound(n);
    assert |AllOnes(n)| == n;
    forall data: Text | |data| == n
      ensures Total(false, data) <= MaxTotal(n)
    {
      TotalBound(data);
    }
  }

  /** From sum 0 the longest safe length is 131074 bytes, over any number of calls. */
  lemma LongestSafeData(n: nat)
    ensures (forall pieces: seq<Text> | |Flatten(pieces)| == n ::
               AfterAll(Acc(0, false), pieces).sum == Total(false, Flatten(pieces)))
       <==> n <= 131074
  {
    forall pieces: seq<Text> | |Flatten(pieces)| == n
      ensures AfterAll(Acc(0, false), pieces).sum == Wrap32(Total(false, Flatten(pieces)))
      ensures Total(false, Flatten(pieces)) <= MaxTotal(n)
    {
      ChunkingIsInvisible(Acc(0, false), pieces);
      TotalBound(Flatten(pieces));
    }
    var worst := [AllOnes(n)];
    assert Flatten(worst) == AllOnes(n) by { assert Flatten(worst[1..]) == []; }
    AllOnesReachBound(n);
  }

  /** From 131075 bytes of 0xff on, until a second carry is lost, the checksum differs from the eager one. */
  lemma WrapBreaksCarry(n: nat)
    requires 131075 <= n && MaxTotal(n) < 0x2_0000_0000
    ensures ValueOf(AfterAll(Acc(0, false), [AllOnes(n)]).sum) != 0xffff - EagerSum(0, Words(AllOnes(n)))
  {
    AllOnesReachBound(n);
    assert Flatten([AllOnes(n)]) == AllOnes(n) + Flatten([]);
    DeferredCarryExact(0, [AllOnes(n)]);
    assert AllOnes(n) + Flatten([]) == AllOnes(n) && Ones16(0) == 0;
    assert MaxTotal(n) / 0x1_0000_0000 % 0xffff == 1;
  }

  // ---------- Filling in a checksum field and verifying it ----------

  predicate IsField(data: Text, at: nat) { at % 2 == 0 && at + 2 <= |data| }

  /** `data` with its two-byte field at `at` replaced by `v` in network byte order. */
  function WithField(data: Text, at: nat, v: UInt16): Text
    requires IsField(data, at)
  {
    data[..at] + [v / 0x100, v % 0x100] + data[at + 2..]
  }

  /** The checksum of `data` computed afresh from an initial sum. */
  function ChecksumOf(initial: UInt32, data: Text): UInt16 { ValueOf(After(Acc(initial, false), data).sum) }

  lemma UnwrappedChecksum(initial: UInt32, data: Text)
    requires initial + Total(false, data) < 0x1_0000_0000
    ensures ChecksumOf(initial, data) == ValueOf(initial + Total(false, data))
  {
  }

  lemma TotalWithField(data: Text, at: nat, v: UInt16)
    requires IsField(data, at)
    ensures Total(false, WithField(data, at, v)) == Total(false, WithField(data, at, 0)) + v
  {
    FieldContribution(data, at, v);
    FieldContribution(data, at, 0);
  }

  lemma FieldContribution(data: Text, at: nat, v: UInt16)
    requires IsField(data, at)
    ensures Total(false, WithField(data, at, v)) == Total(false, data[..at]) + v + Total(false, data[at + 2..])
  {
    var bytes := [v / 0x100, v % 0x100];
    TotalConcat(false, data[..at] + bytes, data[at + 2..]);
    TotalConcat(false, data[..at], bytes);
    TotalOfPair(v / 0x100, v % 0x100);
  }

  lemma TotalOfPair(a: Byte, b: Byte)
    ensures Total(false, [a, b]) == 0x100 * a + b
  {
    TotalOfWord([a, b]);
    assert [a, b][2..] == [];
    TotalEmpty(false);
  }

  lemma ValueByRemainder(t: nat)
    ensures ValueOf(t) == if t == 0 then 0xffff else if t % 0xffff == 0 then 0 else 0xffff - t % 0xffff
  {
    OnesByRemainder(t);
  }

  lemma VerifiesUnwrapped(s: nat, v: UInt16)
    ensures ValueOf(s + v) == 0 <==> v == ValueOf(s) || (v == 0xffff && s % 0xffff == 0 && 0 < s)
  {
  }

  lemma VerifiesExactly(s: UInt32, v: UInt16)
    ensures ValueOf(Wrap32(s + v)) == 0
       <==> v == ValueOf(s) || (v == 0xffff && s % 0xffff == 0 && 0 < s < 0xffff_ffff)
  {
    if s + v < 0x1_0000_0000 {
      VerifiesUnwrapped(s, v);
    } else {
      WrappedFails(s, v);
    }
  }

  lemma WrappedFails(s: UInt32, v: UInt16)
    requires s + v >= 0x1_0000_0000
    ensures ValueOf(Wrap32(s + v)) != 0 && v != ValueOf(s)
    ensures s % 0xffff == 0 ==> s == 0xffff_ffff
  {
    var x := s + v - 0x1_0000_0000;
    assert Wrap32(s + v) == x && x < 0xffff;
    ValueByRemainder(x);
    var y := s - 0xffff_0000;
    assert s == y + 0xffff * 0x1_0000 && 0 < y <= 0xffff;
    ModShift(y, 0x1_0000);
    ValueByRemainder(s);
  }

  /**
   Writing the checksum into its zeroed field makes a fresh checksum 0, for any data, any initial
   sum and any length, wrapping or not. Exactly one other field value can pass: 0xffff in place
   of 0x0000, when the rest sums to a nonzero multiple of 0xffff other than 2^32 - 1.
   */
  lemma FillThenVerify(initial: UInt32, data: Text, at: nat, v: UInt16)
    requires IsField(data, at)
    ensures
      var rest := WithField(data, at, 0);
      var s := After(Acc(initial, false), rest).sum;
      ChecksumOf(initial, WithField(data, at, v)) == 0
      <==> v == ChecksumOf(initial, rest) || (v == 0xffff && s % 0xffff == 0 && 0 < s < 0x1_0000_0000 - 1)
  {
    TotalWithField(data, at, v);
    var t := initial + Total(false, WithField(data, at, 0));
    Wrap32Once(t, v);
    VerifiesExactly(Wrap32(t), v);
  }

  /** The field that also carries a pseudo-header sum: a 32-bit addition, folded. */
  function FixUp(p: UInt32, c: UInt16): UInt16 { Ones16(Wrap32(p + c)) }

  lemma FixUpDeficit(p: UInt32, c: UInt16)
    ensures FixUp(p, c) % 0xffff == (p + c - (p + c) / 0x1_0000_0000) % 0xffff
  {
    OnesByRemainder(Wrap32(p + c));
    WrapDeficit(p + c);
  }

  lemma RemainderOfSum(x: int, x': int, y: int)
    requires x % 0xffff == x' % 0xffff
    ensures (x + y) % 0xffff == (x' + y) % 0xffff
  {
    SameRemainder(x, x');
    SameRemainder(x + y, x' + y);
  }

  lemma RestDeficit(p: UInt32, c: UInt16, rest: nat)
    ensures var k1, k2 := (p + c) / 0x1_0000_0000, (FixUp(p, c) + rest) / 0x1_0000_0000;
      Wrap32(FixUp(p, c) + rest) % 0xffff == (p + c + rest - (k1 + k2)) % 0xffff
  {
    var q, o := p + c, FixUp(p, c);
    var k1, k2 := q / 0x1_0000_0000, (o + rest) / 0x1_0000_0000;
    FixUpDeficit(p, c);
    RemainderOfSum(o, q - k1, rest - k2);
    WrapDeficit(o + rest);
  }

  /** The carries that the two ways of adding `p`, `c` and the rest lose account for all that can tell them apart. */
  lemma LostCarriesAgree(p: UInt32, c: UInt16, rest: nat)
    ensures var k := (p + c + rest) / 0x1_0000_0000;
      var k' := (p + c) / 0x1_0000_0000 + (FixUp(p, c) + rest) / 0x1_0000_0000;
      Wrap32(p + c + rest) % 0xffff == Wrap32(FixUp(p, c) + rest) % 0xffff <==> (k' - k) % 0xffff == 0
  {
    var t, k := p + c + rest, (p + c + rest) / 0x1_0000_0000;
    var k' := (p + c) / 0x1_0000_0000 + (FixUp(p, c) + rest) / 0x1_0000_0000;
    WrapDeficit(t);
    RestDeficit(p, c, rest);
    SameRemainder(t - k, t - k');
    assert t - k - (t - k') == k' - k;
  }

  /**
   Moving a pseudo-header sum `p` into the field keeps the checksum exactly when both ways lose the
   same number of carries modulo 0xffff, and both sums or neither wrap to 0.
   */
  lemma PseudoHeaderExact(p: UInt32, data: Text, at: nat, c: UInt16)
    requires IsField(data, at)
    ensures
      var rest := Total(false, WithField(data, at, 0));
      var k := (p + c + rest) / 0x1_0000_0000;
      var k' := (p + c) / 0x1_0000_0000 + (FixUp(p, c) + rest) / 0x1_0000_0000;
      ChecksumOf(p, WithField(data, at, c)) == ChecksumOf(0, WithField(data, at, FixUp(p, c)))
      <==> (k' - k) % 0xffff == 0 && (Wrap32(p + c + rest) == 0 <==> Wrap32(FixUp(p, c) + rest) == 0)
  {
    var rest := Total(false, WithField(data, at, 0));
    TotalWithField(data, at, c);
    TotalWithField(data, at, FixUp(p, c));
    SameResidue(Wrap32(p + c + rest), Wrap32(FixUp(p, c) + rest));
    LostCarriesAgree(p, c, rest);
  }

  /**
   A segment checked with a pseudo-header sum `p` has the checksum, and so passes exactly when, the
   segment whose field also carries the folded `p` does without it, as long as nothing wraps.
   */
  lemma PseudoHeaderRemoval(p: UInt32, data: Text, at: nat, c: UInt16)
    requires IsField(data, at)
    requires p + Total(false, WithField(data, at, c)) < 0x1_0000_0000
    ensures ChecksumOf(p, WithField(data, at, c)) == ChecksumOf(0, WithField(data, at, FixUp(p, c)))
  {
    var rest := Total(false, WithField(data, at, 0));
    TotalWithField(data, at, c);
    EagerLaw(p + c, rest);
    NoCarryLost(p + c + rest);
    NoCarryLost(p + c);
    NoCarryLost(FixUp(p, c) + rest);
    PseudoHeaderExact(p, data, at, c);
  }

  lemma SmallSegmentTotal(v: UInt16)
    ensures Total(false, WithField([0, 0, 0xff, 0xff, 0, 1], 0, v)) == 0x1_0000 + v
  {
    var data: Text := [0, 0, 0xff, 0xff, 0, 1];
    FieldContribution(data, 0, v);
    assert data[..0] == [] && data[2..] == [0xff, 0xff] + [0, 1];
    TotalEmpty(false);
    TotalConcat(false, [0xff, 0xff], [0, 1]);
    TotalOfPair(0xff, 0xff);
    TotalOfPair(0, 1);
  }

  /** A segment that passes with a pseudo-header sum of 2^32 - 1, loses a carry on the way, and fails without it. */
  lemma WrapBreaksPseudoHeader()
    ensures var data := [0, 0, 0xff, 0xff, 0, 1];
      && ChecksumOf(0xffff_ffff, WithField(data, 0, 0)) == 0
      && ChecksumOf(0, WithField(data, 0, FixUp(0xffff_ffff, 0))) != 0
  {
    SmallSegmentTotal(0);
    SmallSegmentTotal(0xffff);
    assert FixUp(0xffff_ffff, 0) == 0xffff;
    ValueByRemainder(Wrap32(0x1_0000_ffff));
    ValueByRemainder(0x1_ffff);
  }

  lemma EagerLaw(t: nat, rest: nat)
    ensures Ones16(Ones16(t) + rest) == Ones16(t + rest)
    ensures Ones16(t) <= t
  {
  }

  // ---------- Byte order ----------

  function Swap16(w: UInt16): UInt16 { w % 0x100 * 0x100 + w / 0x100 }

  /** The data with the two bytes of every word exchanged, an odd last byte padded first. */
  function SwapBytes(data: Text): Text {
    if data == [] then []
    else if |data| == 1 then [0, data[0]]
    else [data[1], data[0]] + SwapBytes(data[2..])
  }

  /** Swapping multiplies the total by 0x100 modulo 0xffff. */
  lemma {:induction false} SwapScalesTotal(data: Text) returns (k: int)
    ensures 0x100 * Total(false, data) == Total(false, SwapBytes(data)) + 0xffff * k
    ensures Total(false, data) == 0 <==> Total(false, SwapBytes(data)) == 0
    decreases |data|
  {
    if data == [] {
      TotalEmpty(false);
      k := 0;
    } else {
      var tail := if |data| == 1 then [] else data[2..];
      assert |tail| < |data|;
      k := SwapScalesTotal(tail);
      TotalOfWord(data);
      TotalOfWord(SwapBytes(data));
      assert SwapBytes(data)[2..] == SwapBytes(tail);
      k := k + data[0];
    }
  }

  lemma ResidueOfScaled(t: nat, t': nat, k: int)
    requires 0x100 * t == t' + 0xffff * k
    requires t == 0 <==> t' == 0
    ensures Ones16(t') == Swap16(Ones16(t))
  {
    if t > 0 {
      var r, q := Ones16(t), (t - 1) / 0xffff;
      assert t == r + 0xffff * q;
      assert t' - 1 == (Swap16(r) - 1) + 0xffff * (0x100 * q + r / 0x100 - k);
      ModShift(Swap16(r) - 1, 0x100 * q + r / 0x100 - k);
    }
  }

  lemma SwapComplement(w: UInt16)
    ensures 0xffff - Swap16(w) == Swap16(0xffff - w)
  {
  }

  lemma ScaledDeficit(t: nat, t': nat, j: int)
    requires 0x100 * t == t' + 0xffff * j
    ensures (0x100 * Wrap32(t)) % 0xffff == (t' - 0x100 * (t / 0x1_0000_0000)) % 0xffff
  {
    var k := t / 0x1_0000_0000;
    assert Wrap32(t) == t - 0x1_0000_0000 * k;
    assert 0x100 * Wrap32(t) == t' - 0x100 * k + 0xffff * (j - 0x100 * 65537 * k);
    ModShift(t' - 0x100 * k, j - 0x100 * 65537 * k);
  }

  lemma LostCarriesSwap(t: nat, t': nat, j: int)
    requires 0x100 * t == t' + 0xffff * j
    ensures Wrap32(t') % 0xffff == (0x100 * Wrap32(t)) % 0xffff
       <==> (t' / 0x1_0000_0000 - 0x100 * (t / 0x1_0000_0000)) % 0xffff == 0
  {
    var k, k' := t / 0x1_0000_0000, t' / 0x1_0000_0000;
    ScaledDeficit(t, t', j);
    WrapDeficit(t');
    SameRemainder(t' - 0x100 * k, t' - k');
    assert t' - 0x100 * k - (t' - k') == k' - 0x100 * k;
  }

  lemma SwappedExactly(w: UInt32, w': UInt32)
    ensures ValueOf(w') == Swap16(ValueOf(w))
       <==> (w' % 0xffff == (0x100 * w) % 0xffff && (w == 0 <==> w' == 0))
  {
    ResidueOfScaled(w, 0x100 * w, 0);
    SwapComplement(Ones16(w));
    SameResidue(w', 0x100 * w);
  }

  /**
   Summing byte-swapped words gives the byte-swapped checksum exactly when the carries lost on
   both sides are themselves in the ratio of the swap, and both sums or neither wrap to 0.
   */
  lemma ByteOrderExact(data: Text)
    ensures
      var t, t' := Total(false, data), Total(false, SwapBytes(data));
      ChecksumOf(0, SwapBytes(data)) == Swap16(ChecksumOf(0, data))
      <==> (t' / 0x1_0000_0000 - 0x100 * (t / 0x1_0000_0000)) % 0xffff == 0 && (Wrap32(t) == 0 <==> Wrap32(t') == 0)
  {
    var t, t' := Total(false, data), Total(false, SwapBytes(data));
    var j := SwapScalesTotal(data);
    SwappedExactly(Wrap32(t), Wrap32(t'));
    LostCarriesSwap(t, t', j);
  }

  lemma {:induction false} SwapAllOnes(n: nat)
    requires n % 2 == 0
    ensures SwapBytes(AllOnes(n)) == AllOnes(n)
  {
    var data := AllOnes(n);
    if n > 0 {
      assert data[2..] == AllOnes(n - 2) && data == [0xff, 0xff] + data[2..];
      SwapAllOnes(n - 2);
    }
  }

  /** From 131076 bytes of 0xff on, until a second carry is lost, the order of the bytes does matter. */
  lemma WrapBreaksByteOrder(n: nat)
    requires n % 2 == 0 && 131076 <= n && MaxTotal(n) < 0x2_0000_0000
    ensures ChecksumOf(0, SwapBytes(AllOnes(n))) != Swap16(ChecksumOf(0, AllOnes(n)))
  {
    SwapAllOnes(n);
    AllOnesReachBound(n);
    ByteOrderExact(AllOnes(n));
    assert MaxTotal(n) / 0x1_0000_0000 == 1;
  }

  /** Byte order does not matter as long as nothing wraps. */
  lemma ByteOrderIndependence(data: Text)
    requires Total(false, data) < 0x1_0000_0000 && Total(false, SwapBytes(data)) < 0x1_0000_0000
    ensures ChecksumOf(0, SwapBytes(data)) == Swap16(ChecksumOf(0, data))
  {
    var t, t' := Total(false, data), Total(false, SwapBytes(data));
    NoCarryLost(t);
    NoCarryLost(t');
    assert t' / 0x1_0000_0000 - 0x100 * (t / 0x1_0000_0000) == 0;
    var j := SwapScalesTotal(data);
    ByteOrderExact(data);
  }

  // ---------- Error detection ----------

  lemma TotalAt(odd: bool, data: Text, i: nat, b: Byte)
    requires i < |data|
    ensures Total(odd, data[i := b]) - Total(odd, data)
         == (if odd != (i % 2 == 1) then b - data[i] else 0x100 * (b - data[i]))
  {
    var before, after := data[..i], data[i + 1..];
    assert data == before + [data[i]] + after;
    assert data[i := b] == before + [b] + after;
    TotalConcat(odd, before + [data[i]], after);
    TotalConcat(odd, before + [b], after);
    TotalSnoc(odd, before, data[i]);
    TotalSnoc(odd, before, b);
  }

  lemma SmallChangeShows(s: UInt32, d: int)
    requires -0xffff < d < 0xffff && d != 0
    ensures ValueOf(Wrap32(s + d)) != ValueOf(s)
  {
  }

  /** Changing any one byte always changes the checksum, whether or not the sum wraps. */
  lemma SingleByteErrorDetected(initial: UInt32, data: Text, i: nat, b: Byte)
    requires i < |data| && b != data[i]
    ensures ChecksumOf(initial, data[i := b]) != ChecksumOf(initial, data)
  {
    TotalAt(false, data, i, b);
    var t := initial + Total(false, data);
    var d := Total(false, data[i := b]) - Total(false, data);
    Wrap32Once(t, d);
    SmallChangeShows(Wrap32(t), d);
  }

  /** The bytes at even offsets, and those at odd offsets. */
  function Evens(data: Text): Text
    decreases |data|
  {
    if data == [] then [] else [data[0]] + Odds(data[1..])
  }

  function Odds(data: Text): Text
    decreases |data|
  {
    if data == [] then [] else Evens(data[1..])
  }

  function Sum(bytes: Text): nat { if bytes == [] then 0 else bytes[0] + Sum(bytes[1..]) }

  lemma {:induction false} TotalByParity(data: Text)
    ensures Total(false, data) == 0x100 * Sum(Evens(data)) + Sum(Odds(data))
    ensures Total(true, data) == Sum(Evens(data)) + 0x100 * Sum(Odds(data))
    decreases data
  {
    if data != [] {
      TotalByParity(data[1..]);
      assert Evens(data)[1..] == Odds(data[1..]);
    }
  }

  lemma {:induction false} SumRemove(bytes: Text, i: nat)
    requires i < |bytes|
    ensures Sum(bytes) == bytes[i] + Sum(bytes[..i] + bytes[i + 1..])
  {
    var less := bytes[..i] + bytes[i + 1..];
    if i == 0 {
      assert less == bytes[1..];
    } else {
      assert less[1..] == bytes[1..][..i - 1] + bytes[1..][i..];
      SumRemove(bytes[1..], i - 1);
    }
  }

  lemma MultisetRemove(bytes: Text, i: nat)
    requires i < |bytes|
    ensures multiset(bytes[..i] + bytes[i + 1..]) == multiset(bytes) - multiset{bytes[i]}
  {
    assert bytes == bytes[..i] + [bytes[i]] + bytes[i + 1..];
  }

  lemma Find(bytes: Text, b: Byte) returns (i: nat)
    requires b in multiset(bytes)
    ensures i < |bytes| && bytes[i] == b
  {
    i :| 0 <= i < |bytes| && bytes[i] == b;
  }

  lemma SameWithout(a: Text, b: Text, i: nat)
    requires multiset(a) == multiset(b) && a != [] && i < |b| && b[i] == a[0]
    ensures multiset(a[1..]) == multiset(b[..i] + b[i + 1..])
  {
    MultisetRemove(a, 0);
    MultisetRemove(b, i);
    assert a[1..] == a[..0] + a[1..];
  }

  lemma {:induction false} SumIsOrderFree(a: Text, b: Text)
    requires multiset(a) == multiset(b)
    ensures Sum(a) == Sum(b)
    decreases |a|
  {
    if a == [] {
      assert |multiset(b)| == 0;
    } else {
      var i := Find(b, a[0]);
      SameWithout(a, b, i);
      SumRemove(b, i);
      SumIsOrderFree(a[1..], b[..i] + b[i + 1..]);
    }
  }

  /** Rearranging bytes among offsets of equal parity never changes the accumulator. */
  lemma ReorderingUndetected(acc: Acc, a: Text, b: Text)
    requires multiset(Evens(a)) == multiset(Evens(b)) && multiset(Odds(a)) == multiset(Odds(b))
    ensures After(acc, a) == After(acc, b)
  {
    assert |a| == |b| && Total(acc.odd, a) == Total(acc.odd, b) by {
      SumIsOrderFree(Evens(a), Evens(b));
      SumIsOrderFree(Odds(a), Odds(b));
      assert |multiset(Evens(a))| == |multiset(Evens(b))| && |multiset(Odds(a))| == |multiset(Odds(b))|;
      TotalByParity(a);
      TotalByParity(b);
      LengthByParity(a);
      LengthByParity(b);
    }
  }

  lemma {:induction false} LengthByParity(data: Text)
    ensures |data| == |Evens(data)| + |Odds(data)|
    decreases data
  {
    if data != [] {
      LengthByParity(data[1..]);
    }
  }
}
