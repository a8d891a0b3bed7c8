/** Fixed-width integers, bytes and the exceptions of the modelled C++ code. */
module MachineTypes {
  type Byte = x: int | 0 <= x < 256
  type UInt16 = x: int | 0 <= x < 0x1_0000
  type UInt32 = x: int | 0 <= x < 0x1_0000_0000
  type SizeT = x: int | 0 <= x < 0x1_0000_0000_0000_0000
  type SSizeT = x: int | -0x8000_0000_0000_0000 <= x < 0x8000_0000_0000_0000

  /** Conversion to an unsigned type keeps the low bits. */
  function Wrap16(x: int): UInt16 { x % 0x1_0000 }
  function Wrap32(x: int): UInt32 { x % 0x1_0000_0000 }
  function Wrap64(x: int): SizeT { x % 0x1_0000_0000_0000_0000 }

  lemma Wrap32Once(x: int, y: int)
    ensures Wrap32(Wrap32(x) + y) == Wrap32(x + y)
  {
  }

  lemma Wrap64Once(x: int, y: int)
    ensures Wrap64(Wrap64(x) + y) == Wrap64(x + y)
  {
  }

  /** A string of bytes: the contents of a std::string or a std::string_view. */
  type Text = seq<Byte>

  /** A std::string, whose size is a size_t. */
  type StdString = s: Text | |s| < 0x1_0000_0000_0000_0000

  /** What a C++ call does: return a value, or throw. */
  datatype Result<+T> = Returned(value: T) | Threw(error: Exception)

  datatype Exception = OutOfRange | RuntimeError | UnixError(errno: int)

  function Min(x: int, y: int): int { if x <= y then x else y }

  predicate Distinct<T(==)>(s: seq<T>) { forall i, j :: 0 <= i < j < |s| ==> s[i] != s[j] }

  lemma InitAndLast<T>(s: seq<T>)
    requires s != []
    ensures s == s[..|s| - 1] + [s[|s| - 1]]
  {
  }

  lemma TakeOneMore<T>(s: seq<T>, t: seq<T>, i: nat)
    requires i < |t|
    ensures t[..i + 1] == t[..i] + [t[i]]
    ensures s + t[..i + 1] == s + t[..i] + [t[i]]
  {
  }

  lemma HeadAndTail<T>(s: seq<T>)
    requires s != []
    ensures s == [s[0]] + s[1..]
  {
  }

  lemma TwiceDropped<T>(s: seq<T>, m: nat, n: nat)
    requires m + n <= |s|
    ensures s[m..][n..] == s[m + n..]
  {
  }

  lemma TakenInTwo<T>(s: seq<T>, m: nat, n: nat)
    requires m + n <= |s|
    ensures s[..m + n] == s[..m] + s[m..][..n]
  {
  }

  lemma TakenTwice<T>(s: seq<T>, n: nat, m: nat)
    requires m <= n <= |s|
    ensures s[..n][..m] == s[..m]
    ensures s[..n][m..] + s[n..] == s[m..]
  {
  }

  lemma PlusAssociates<T>(s: seq<T>, t: seq<T>, u: seq<T>)
    ensures s + t + u == s + (t + u)
  {
  }

  lemma NothingBefore<T>(s: seq<T>)
    ensures [] + s == s
  {
  }

  /** The flat text of a list of pieces. */
  function Flatten(pieces: seq<Text>): Text {
    if pieces == [] then [] else pieces[0] + Flatten(pieces[1..])
  }

  lemma {:induction false} FlattenConcat(a: seq<Text>, b: seq<Text>)
    ensures Flatten(a + b) == Flatten(a) + Flatten(b)
  {
    if a == [] {
      assert a + b == b;
    } else {
      assert (a + b)[1..] == a[1..] + b;
      FlattenConcat(a[1..], b);
    }
  }
}
