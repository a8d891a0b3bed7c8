/** Network-byte-order integers: the parser with its error state, and the unparser. */
module Parsing {
  import opened MachineTypes
  import opened Buffers

  datatype ParseResult =
    NoError | BadChecksum | PacketTooShort | WrongIPVersion | HeaderTooShort | TruncatedPacket | Unsupported

  /** The integer types that the parser is instantiated at. */
  datatype Field = U8 | U16 | U32 {
    function Size(): (n: nat)
      ensures n > 0
    {
      match this case U8 => 1 case U16 => 2 case U32 => 4
    }

    function Limit(): nat {
      match this case U8 => 0x100 case U16 => 0x1_0000 case U32 => 0x1_0000_0000
    }

    /** Arithmetic in the field's type keeps the low bytes. */
    function Truncate(v: nat): nat { v % Limit() }

    predicate Holds(v: int) { 0 <= v < Limit() }
  }

  /** The number that the bytes spell, most significant byte first. */
  function BigEndian(bytes: Text): nat {
    if bytes == [] then 0 else 0x100 * BigEndian(bytes[..|bytes| - 1]) + bytes[|bytes| - 1]
  }

  function Pow256(n: nat): (p: nat)
    ensures p > 0
  {
    if n == 0 then 1 else 0x100 * Pow256(n - 1)
  }

  lemma LimitIsPower(f: Field)
    ensures f.Limit() == Pow256(f.Size())
  {
    assert Pow256(1) == 0x100 && Pow256(2) == 0x1_0000;
    assert Pow256(3) == 0x100_0000 && Pow256(4) == 0x1_0000_0000;
  }

  lemma {:induction false} PowMonotone(i: nat, n: nat)
    requires i <= n
    ensures Pow256(i) <= Pow256(n)
    decreases n - i
  {
    if i < n {
      PowMonotone(i + 1, n);
    }
  }

  lemma BigEndianSnoc(bytes: Text, b: Byte)
    ensures BigEndian(bytes + [b]) == 0x100 * BigEndian(bytes) + b
  {
  }

  lemma {:induction false} BigEndianBound(bytes: Text)
    ensures BigEndian(bytes) < Pow256(|bytes|)
  {
    if bytes != [] {
      BigEndianBound(bytes[..|bytes| - 1]);
    }
  }

  /** Shifting in one byte more never overflows the type that the field is parsed at. */
  lemma ShiftIn(f: Field, text: Text, i: nat)
    requires i < f.Size() <= |text|
    ensures var shifted := f.Truncate(0x100 * BigEndian(text[..i]));
      f.Truncate(shifted + text[i]) == BigEndian(text[..i + 1]) && f.Holds(BigEndian(text[..i + 1]))
  {
    assert text[..i + 1] == text[..i] + [text[i]];
    BigEndianSnoc(text[..i], text[i]);
    BigEndianBound(text[..i + 1]);
    PowMonotone(i + 1, f.Size());
    LimitIsPower(f);
    TruncateSmall(f, BigEndian(text[..i + 1]));
    TruncateSmall(f, 0x100 * BigEndian(text[..i]));
  }

  lemma TruncateSmall(f: Field, v: nat)
    requires f.Holds(v)
    ensures f.Truncate(v) == v
  {
  }

  /** Different byte strings of one length spell different numbers. */
  lemma {:induction false} BigEndianInjective(a: Text, b: Text)
    requires |a| == |b| && BigEndian(a) == BigEndian(b)
    ensures a == b
  {
    if a != [] {
      var n := |a| - 1;
      BigEndianInjective(a[..n], b[..n]);
      assert a == a[..n] + [a[n]] && b == b[..n] + [b[n]];
    }
  }

  // ---------- The parser ----------

  /** A parser as a value: the bytes still to parse, and the result so far. */
  datatype Parser = Parser(rest: Text, error: ParseResult) {
    function Checked(size: nat): Parser {
      if size > |rest| then this.(error := PacketTooShort) else this
    }

    /** Any error, old or new, stops a skip before it consumes anything. */
    function Skip(n: nat): Parser {
      var p := Checked(n);
      if p.error != NoError then p else p.(rest := p.rest[n..])
    }

    /** The value of the next field, or 0 when there is any error. */
    function Next(f: Field): nat {
      if Checked(f.Size()).error != NoError then 0 else BigEndian(rest[..f.Size()])
    }
  }

  class NetParser {
    const buffer: Buffer
    var error: ParseResult

    ghost predicate Valid() reads this, buffer { buffer.Valid() }

    ghost function Value(): Parser
      reads this, buffer
      requires Valid()
    {
      Parser(buffer.Str(), error)
    }

    /** The parser works on its own copy of the buffer. */
    constructor (source: Buffer)
      requires source.Valid()
      ensures Valid() && fresh(buffer) && Value() == Parser(source.Str(), NoError)
    {
      buffer := new Buffer.CopyOf(source);
      error := NoError;
    }

    method SetError(e: ParseResult)
      requires Valid()
      modifies this
      ensures Valid() && Value() == old(Value()).(error := e)
    {
      error := e;
    }

    method CheckSize(size: SizeT)
      requires Valid()
      modifies this
      ensures Valid() && Value() == old(Value()).Checked(size)
    {
      if size > buffer.View().length {
        SetError(PacketTooShort);
      }
    }

    method RemovePrefix(n: SizeT)
      requires Valid()
      modifies this, buffer
      ensures Valid() && Value() == old(Value()).Skip(n)
    {
      CheckSize(n);
      if error != NoError {
        return;
      }
      var ok := buffer.RemovePrefix(n);
    }

    method ParseInt(f: Field) returns (ret: nat)
      requires Valid()
      modifies this, buffer
      ensures Valid() && Value() == old(Value()).Skip(f.Size())
      ensures ret == old(Value()).Next(f) && f.Holds(ret)
    {
      CheckSize(f.Size());
      if error != NoError {
        return 0;
      }
      ghost var text := buffer.Str();
      ret := 0;
      for i := 0 to f.Size()
        invariant Valid() && Value() == Parser(text, NoError) && f.Size() <= |text|
        invariant ret == BigEndian(text[..i])
        invariant f.Holds(ret)
      {
        var b := buffer.At(i);
        ShiftIn(f, text, i);
        ret := f.Truncate(0x100 * ret);
        ret := f.Truncate(ret + b.value);
      }
      var ok := buffer.RemovePrefix(f.Size());
    }
  }

  // ---------- The unparser ----------

  /** The `n` big-endian bytes of `v`. */
  function Encode(v: nat, n: nat): (s: Text)
    ensures |s| == n
    ensures v < Pow256(n) ==> BigEndian(s) == v
  {
    if n == 0 then []
    else
      BigEndianSnoc(Encode(v / 0x100, n - 1), v % 0x100);
      Encode(v / 0x100, n - 1) + [v % 0x100]
  }

  /** `v` shifted right by `n` bytes. */
  function ShiftRight(v: nat, n: nat): nat {
    if n == 0 then v else ShiftRight(v / 0x100, n - 1)
  }

  /** Byte `i` of the encoding is what a shift by the bytes after it leaves in the lowest place. */
  lemma {:induction false} EncodedByte(v: nat, n: nat, i: nat)
    requires i < n
    ensures Encode(v, n)[i] == ShiftRight(v, n - i - 1) % 0x100
  {
    if i < n - 1 {
      EncodedByte(v / 0x100, n - 1, i);
    }
  }

  lemma EncodeSpells(s: Text, f: Field, v: nat)
    requires f.Holds(v)
    ensures BigEndian((s + Encode(v, f.Size()))[|s|..]) == v
  {
    LimitIsPower(f);
    assert (s + Encode(v, f.Size()))[|s|..] == Encode(v, f.Size());
  }

  /** Appends the bytes that spell `v`, and only those. */
  method UnparseInt(s: Text, f: Field, v: nat) returns (r: Text)
    requires f.Holds(v)
    ensures r == s + Encode(v, f.Size())
    ensures BigEndian(r[|s|..]) == v
  {
    ghost var code := Encode(v, f.Size());
    r := s;
    for i := 0 to f.Size()
      invariant r == s + code[..i]
    {
      var theByte := ShiftRight(v, f.Size() - i - 1) % 0x100;
      EncodedByte(v, f.Size(), i);
      TakeOneMore(s, code, i);
      r := r + [theByte];
    }
    assert code[..f.Size()] == code;
    EncodeSpells(s, f, v);
  }
}
