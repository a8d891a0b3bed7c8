/** Schemas of fields: round trips, truncated input, sticky errors, and the tie to the checksum. */
module ParsingLaws {
  import opened MachineTypes
  import opened Parsing
  import opened Checksum
  import opened ChecksumLaws

  // ---------- Parsing and unparsing a whole schema ----------

  function Width(schema: seq<Field>): nat { if schema == [] then 0 else schema[0].Size() + Width(schema[1..]) }

  function ParseAll(p: Parser, schema: seq<Field>): (r: (seq<nat>, Parser))
    ensures |r.0| == |schema|
    decreases schema
  {
    if schema == [] then ([], p)
    else
      var (values, q) := ParseAll(p.Skip(schema[0].Size()), schema[1..]);
      ([p.Next(schema[0])] + values, q)
  }

  predicate AllHold(schema: seq<Field>, values: seq<nat>) {
    |values| == |schema| && forall i | 0 <= i < |schema| :: schema[i].Holds(values[i])
  }

  function UnparseAll(schema: seq<Field>, values: seq<nat>): Text
    requires |values| == |schema|
  {
    if schema == [] then [] else Encode(values[0], schema[0].Size()) + UnparseAll(schema[1..], values[1..])
  }

  lemma ParseOneMore(p: Parser, schema: seq<Field>, i: nat, values: seq<nat>)
    requires i < |schema|
    ensures var r, r' := ParseAll(p, schema[i..]), ParseAll(p.Skip(schema[i].Size()), schema[i + 1..]);
      values + r.0 == values + [p.Next(schema[i])] + r'.0 && r.1 == r'.1
  {
    assert schema[i..][1..] == schema[i + 1..];
  }

  /** A run of parser calls is the run of the parser as a value. */
  method ParseFields(p: NetParser, schema: seq<Field>) returns (values: seq<nat>)
    requires p.Valid()
    modifies p, p.buffer
    ensures p.Valid() && values == ParseAll(old(p.Value()), schema).0 && p.Value() == ParseAll(old(p.Value()), schema).1
  {
    values := [];
    var i := 0;
    while i < |schema|
      invariant i <= |schema| && p.Valid()
      invariant ParseAll(old(p.Value()), schema).0 == values + ParseAll(p.Value(), schema[i..]).0
      invariant ParseAll(old(p.Value()), schema).1 == ParseAll(p.Value(), schema[i..]).1
    {
      ParseOneMore(p.Value(), schema, i, values);
      var v := p.ParseInt(schema[i]);
      values, i := values + [v], i + 1;
    }
    assert schema[i..] == [];
  }

  method UnparseFields(s: Text, schema: seq<Field>, values: seq<nat>) returns (r: Text)
    requires AllHold(schema, values)
    ensures r == s + UnparseAll(schema, values)
  {
    r := s;
    var i := 0;
    while i < |schema|
      invariant i <= |schema|
      invariant s + UnparseAll(schema, values) == r + UnparseAll(schema[i..], values[i..])
    {
      assert schema[i..][1..] == schema[i + 1..] && values[i..][1..] == values[i + 1..];
      r := UnparseInt(r, schema[i], values[i]);
      i := i + 1;
    }
    assert schema[i..] == [];
  }

  // ---------- What the field types are ----------

  lemma BigEndianOfTwo(a: Byte, b: Byte)
    ensures BigEndian([a, b]) == 0x100 * a + b
  {
    BigEndianSnoc([], a);
    BigEndianSnoc([a], b);
    assert [] + [a] == [a] && [a] + [b] == [a, b];
  }

  lemma BigEndianOfFour(a: Byte, b: Byte, c: Byte, d: Byte)
    ensures BigEndian([a, b, c, d]) == 0x100_0000 * a + 0x1_0000 * b + 0x100 * c + d
  {
    BigEndianOfTwo(a, b);
    BigEndianSnoc([a, b], c);
    BigEndianSnoc([a, b, c], d);
    assert [a, b] + [c] == [a, b, c] && [a, b, c] + [d] == [a, b, c, d];
  }

  /** A u8 is the next byte. */
  lemma ReadsU8(text: Text)
    ensures var p := Parser(text, NoError); var q := p.Skip(U8.Size());
      if |text| >= 1 then p.Next(U8) == text[0] && q == Parser(text[1..], NoError)
      else p.Next(U8) == 0 && q == Parser(text, PacketTooShort)
  {
    if |text| >= 1 {
      BigEndianSnoc([], text[0]);
      assert text[..1] == [text[0]] && [] + [text[0]] == [text[0]];
    }
  }

  /** A u16 is the next two bytes, the first of them the high one. */
  lemma ReadsU16(text: Text)
    ensures var p := Parser(text, NoError); var q := p.Skip(U16.Size());
      if |text| >= 2 then p.Next(U16) == 0x100 * (text[0] as int) + text[1] && q == Parser(text[2..], NoError)
      else p.Next(U16) == 0 && q == Parser(text, PacketTooShort)
  {
    if |text| >= 2 {
      BigEndianOfTwo(text[0], text[1]);
      assert text[..2] == [text[0], text[1]];
    }
  }

  /** A u32 is the next four bytes, from the highest to the lowest. */
  lemma ReadsU32(text: Text)
    ensures var p := Parser(text, NoError); var q := p.Skip(U32.Size());
      if |text| >= 4 then
        && p.Next(U32) == 0x100_0000 * (text[0] as int) + 0x1_0000 * (text[1] as int) + 0x100 * (text[2] as int) + text[3]
        && q == Parser(text[4..], NoError)
      else p.Next(U32) == 0 && q == Parser(text, PacketTooShort)
  {
    if |text| >= 4 {
      BigEndianOfFour(text[0], text[1], text[2], text[3]);
      assert text[..4] == [text[0], text[1], text[2], text[3]];
    }
  }

  lemma EncodeSnoc(v: nat, n: nat, s: Text, b: Byte)
    requires Encode(v, n) == s
    ensures Encode(0x100 * v + b, n + 1) == s + [b]
  {
    assert (0x100 * v + b) / 0x100 == v && (0x100 * v + b) % 0x100 == b;
  }

  /** The unparser appends one byte for a u8, two for a u16 and four for a u32, the highest first. */
  lemma WritesU8(v: Byte)
    ensures U8.Holds(v) && Encode(v, U8.Size()) == [v]
  {
    EncodeSnoc(0, 0, [], v);
    assert [] + [v] == [v];
  }

  lemma WritesU16(a: Byte, b: Byte)
    ensures var v := 0x100 * a + b; U16.Holds(v) && Encode(v, U16.Size()) == [a, b]
  {
    WritesU8(a);
    EncodeSnoc(a, 1, [a], b);
    assert [a] + [b] == [a, b];
  }

  lemma WritesU32(a: Byte, b: Byte, c: Byte, d: Byte)
    ensures var v := 0x100_0000 * a + 0x1_0000 * b + 0x100 * c + d; U32.Holds(v) && Encode(v, U32.Size()) == [a, b, c, d]
  {
    WritesU16(a, b);
    EncodeSnoc(0x100 * a + b, 2, [a, b], c);
    EncodeSnoc(0x100 * (0x100 * a + b) + c, 3, [a, b, c], d);
    assert [a, b] + [c] == [a, b, c] && [a, b, c] + [d] == [a, b, c, d];
  }

  // ---------- Round trips ----------

  lemma FieldRoundTrip(f: Field, v: nat, rest: Text)
    requires f.Holds(v)
    ensures var p := Parser(Encode(v, f.Size()) + rest, NoError);
      p.Next(f) == v && p.Skip(f.Size()) == Parser(rest, NoError)
  {
    LimitIsPower(f);
    var text := Encode(v, f.Size()) + rest;
    assert text[..f.Size()] == Encode(v, f.Size()) && text[f.Size()..] == rest;
  }

  lemma {:induction false} ParseUndoesUnparse(schema: seq<Field>, values: seq<nat>, rest: Text)
    requires AllHold(schema, values)
    ensures ParseAll(Parser(UnparseAll(schema, values) + rest, NoError), schema) == (values, Parser(rest, NoError))
    decreases schema
  {
    if schema == [] {
      assert UnparseAll(schema, values) + rest == rest;
    } else {
      var tail := UnparseAll(schema[1..], values[1..]) + rest;
      ParseUndoesUnparse(schema[1..], values[1..], rest);
      PlusAssociates(Encode(values[0], schema[0].Size()), UnparseAll(schema[1..], values[1..]), rest);
      FieldRoundTrip(schema[0], values[0], tail);
      HeadAndTail(values);
    }
  }

  /** Unparsing after any prefix, skipping the prefix and parsing gives back every value. */
  lemma RoundTrip(prefix: Text, schema: seq<Field>, values: seq<nat>, rest: Text)
    requires AllHold(schema, values)
    ensures ParseAll(Parser(prefix + UnparseAll(schema, values) + rest, NoError).Skip(|prefix|), schema)
         == (values, Parser(rest, NoError))
  {
    var text := prefix + UnparseAll(schema, values) + rest;
    assert text[|prefix|..] == UnparseAll(schema, values) + rest;
    ParseUndoesUnparse(schema, values, rest);
  }

  lemma EncodeUndoesBigEndian(bytes: Text)
    ensures Encode(BigEndian(bytes), |bytes|) == bytes
  {
    BigEndianBound(bytes);
    BigEndianInjective(Encode(BigEndian(bytes), |bytes|), bytes);
  }

  lemma NextHolds(p: Parser, f: Field)
    ensures f.Holds(p.Next(f))
  {
    LimitIsPower(f);
    if f.Size() <= |p.rest| {
      BigEndianBound(p.rest[..f.Size()]);
    }
  }

  /** Whatever the input and the error state, every value fits the type it is parsed at. */
  lemma {:induction false} ParsedValuesHold(p: Parser, schema: seq<Field>)
    ensures AllHold(schema, ParseAll(p, schema).0)
    ensures forall i | 0 <= i < |schema| ::
      ParseAll(p, schema).0[i] < if schema[i] == U8 then 0x100 else if schema[i] == U16 then 0x1_0000 else 0x1_0000_0000
    decreases schema
  {
    if schema != [] {
      NextHolds(p, schema[0]);
      ParsedValuesHold(p.Skip(schema[0].Size()), schema[1..]);
    }
  }

  lemma ParseAllCons(p: Parser, schema: seq<Field>)
    requires schema != []
    ensures var r, r' := ParseAll(p, schema), ParseAll(p.Skip(schema[0].Size()), schema[1..]);
      r.0[0] == p.Next(schema[0]) && r.0[1..] == r'.0 && r.1 == r'.1
  {
  }

  /** Parsing bytes that suffice and unparsing the values gives back exactly the bytes consumed. */
  lemma {:induction false} UnparseUndoesParse(text: Text, schema: seq<Field>)
    requires Width(schema) <= |text|
    ensures var (values, p) := ParseAll(Parser(text, NoError), schema);
      UnparseAll(schema, values) == text[..Width(schema)] && p == Parser(text[Width(schema)..], NoError)
    decreases schema
  {
    if schema != [] {
      var n, w := schema[0].Size(), Width(schema[1..]);
      ParseAllCons(Parser(text, NoError), schema);
      UnparseUndoesParse(text[n..], schema[1..]);
      EncodeUndoesBigEndian(text[..n]);
      TakenInTwo(text, n, w);
      TwiceDropped(text, n, w);
    }
  }

  // ---------- Sticky errors ----------

  /** A call that consumes input: parse a field, or skip some bytes, which yields no value and is logged as 0. */
  datatype Call = Parse(f: Field) | Skip(n: nat) {
    function Size(): nat { if Parse? then f.Size() else n }

    function Value(p: Parser): nat { if Parse? then p.Next(f) else 0 }
  }

  function CallAll(p: Parser, calls: seq<Call>): (r: (seq<nat>, Parser))
    ensures |r.0| == |calls|
    decreases calls
  {
    if calls == [] then ([], p)
    else
      var (values, q) := CallAll(p.Skip(calls[0].Size()), calls[1..]);
      ([calls[0].Value(p)] + values, q)
  }

  /**
   After an error no call consumes a byte, yields a value or clears the error; the error that is
   reported becomes PacketTooShort exactly when some call asks for more than is left.
   */
  lemma {:induction false} ErrorsAreSticky(p: Parser, calls: seq<Call>)
    requires p.error != NoError
    ensures var (values, q) := CallAll(p, calls);
      && (forall i | 0 <= i < |calls| :: values[i] == 0)
      && q == Parser(p.rest, if exists c | c in calls :: c.Size() > |p.rest| then PacketTooShort else p.error)
    decreases calls
  {
    if calls != [] {
      assert forall c :: c in calls <==> c == calls[0] || c in calls[1..];
      ErrorsAreSticky(p.Skip(calls[0].Size()), calls[1..]);
    }
  }

  /** A concrete parse that turns a bad checksum into a short packet. */
  lemma ShortPacketOverwrites()
    ensures CallAll(Parser([], BadChecksum), [Parse(U8)]).1.error == PacketTooShort
  {
    ErrorsAreSticky(Parser([], BadChecksum), [Parse(U8)]);
  }

  // ---------- Truncated input ----------

  /** How many bytes the calls ask for. */
  function Reach(calls: seq<Call>): nat { if calls == [] then 0 else calls[0].Size() + Reach(calls[1..]) }

  /** How many calls are served by `n` bytes, counted up to the first that is not. */
  function Fitting(calls: seq<Call>, n: nat): (k: nat)
    ensures k <= |calls|
    decreases calls
  {
    if calls == [] || calls[0].Size() > n then 0 else 1 + Fitting(calls[1..], n - calls[0].Size())
  }

  lemma ReachShift(calls: seq<Call>, i: nat)
    requires 0 < i <= |calls|
    ensures Reach(calls[..i]) == calls[0].Size() + Reach(calls[1..][..i - 1])
  {
    assert calls[..i][1..] == calls[1..][..i - 1];
  }

  /** The bytes of call `i` are there, right after those of the calls before it, and a parsed field spells `v`. */
  predicate ServedFrom(text: Text, calls: seq<Call>, i: nat, v: nat)
    requires i < |calls|
  {
    var from, size := Reach(calls[..i]), calls[i].Size();
    from + size <= |text| && v == if calls[i].Parse? then BigEndian(text[from..][..size]) else 0
  }

  lemma ServedFromShift(text: Text, calls: seq<Call>, i: nat, v: nat)
    requires 0 < i < |calls| && calls[0].Size() <= |text|
    ensures ServedFrom(text[calls[0].Size()..], calls[1..], i - 1, v) <==> ServedFrom(text, calls, i, v)
  {
    ReachShift(calls, i);
    var n, w := calls[0].Size(), Reach(calls[1..][..i - 1]);
    if n + w <= |text| {
      TwiceDropped(text, n, w);
    }
  }

  /** `k` calls were served, each from its own bytes, and the later ones yielded nothing. */
  predicate ServedUpTo(text: Text, calls: seq<Call>, values: seq<nat>, k: nat)
    requires |values| == |calls|
  {
    forall i | 0 <= i < |calls| :: if i < k then ServedFrom(text, calls, i, values[i]) else values[i] == 0
  }

  lemma ServedCons(text: Text, calls: seq<Call>, values: seq<nat>, k: nat)
    requires |values| == |calls| > 0 && calls[0].Size() <= |text|
    requires values[0] == calls[0].Value(Parser(text, NoError))
    requires ServedUpTo(text[calls[0].Size()..], calls[1..], values[1..], k)
    ensures ServedUpTo(text, calls, values, k + 1)
  {
    forall i | 0 <= i < |calls|
      ensures if i < k + 1 then ServedFrom(text, calls, i, values[i]) else values[i] == 0
    {
      if i == 0 {
        assert calls[..0] == [] && text[0..] == text;
      } else {
        assert values[1..][i - 1] == values[i];
        ServedFromShift(text, calls, i, values[i]);
      }
    }
  }

  /** The parser that is left when `k` calls were served: a short packet unless they were all of them. */
  predicate LeftAfter(text: Text, calls: seq<Call>, k: nat, p: Parser)
    requires k <= |calls|
  {
    var n := Reach(calls[..k]);
    n <= |text| && p == Parser(text[n..], if k == |calls| then NoError else PacketTooShort)
  }

  lemma NothingFits(text: Text, calls: seq<Call>)
    requires Fitting(calls, |text|) == 0
    ensures var r := CallAll(Parser(text, NoError), calls); ServedUpTo(text, calls, r.0, 0) && LeftAfter(text, calls, 0, r.1)
  {
    assert calls[..0] == [] && text[0..] == text;
    if calls != [] {
      var values := CallAll(Parser(text, NoError), calls).0;
      ErrorsAreSticky(Parser(text, NoError).Skip(calls[0].Size()), calls[1..]);
      assert forall i | 0 < i < |calls| :: values[i] == values[1..][i - 1];
    }
  }

  /**
   On input of any length the calls that fit come first, each served from its own bytes; every later
   field is 0 even if it would fit alone, nothing more is consumed, and the parser reports a short
   packet exactly when some call did not fit.
   */
  lemma {:induction false} TruncatedCalls(text: Text, calls: seq<Call>)
    ensures var r, k := CallAll(Parser(text, NoError), calls), Fitting(calls, |text|);
      ServedUpTo(text, calls, r.0, k) && LeftAfter(text, calls, k, r.1)
    decreases calls
  {
    var start, k := Parser(text, NoError), Fitting(calls, |text|);
    var values := CallAll(start, calls).0;
    if k == 0 {
      NothingFits(text, calls);
    } else {
      var n := calls[0].Size();
      TruncatedCalls(text[n..], calls[1..]);
      ServedCons(text, calls, values, k - 1);
      ReachShift(calls, k);
      TwiceDropped(text, n, Reach(calls[1..][..k - 1]));
    }
  }

  function AsCalls(schema: seq<Field>): (calls: seq<Call>)
    ensures |calls| == |schema|
  {
    if schema == [] then [] else [Parse(schema[0])] + AsCalls(schema[1..])
  }

  lemma {:induction false} SchemaIsCalls(p: Parser, schema: seq<Field>)
    ensures ParseAll(p, schema) == CallAll(p, AsCalls(schema))
    decreases schema
  {
    if schema != [] {
      assert AsCalls(schema)[1..] == AsCalls(schema[1..]);
      SchemaIsCalls(p.Skip(schema[0].Size()), schema[1..]);
    }
  }

  /** The same of a schema of fields. */
  lemma TruncatedParse(text: Text, schema: seq<Field>)
    ensures var calls, r := AsCalls(schema), ParseAll(Parser(text, NoError), schema);
      var k := Fitting(calls, |text|);
      ServedUpTo(text, calls, r.0, k) && LeftAfter(text, calls, k, r.1)
  {
    SchemaIsCalls(Parser(text, NoError), schema);
    TruncatedCalls(text, AsCalls(schema));
  }

  // ---------- Parsed integers and the checksum ----------

  /** What a parsed field is worth as 16-bit words. */
  function WordsOf(f: Field, v: nat): nat { if f == U32 then v / 0x1_0000 + v % 0x1_0000 else v }

  function WordTotal(schema: seq<Field>, values: seq<nat>): nat
    requires |values| == |schema|
  {
    if schema == [] then 0 else WordsOf(schema[0], values[0]) + WordTotal(schema[1..], values[1..])
  }

  /** Every field is a whole number of 16-bit words. */
  predicate WordFields(schema: seq<Field>) { schema == [] || (schema[0] != U8 && WordFields(schema[1..])) }

  lemma BigEndianOfPair(s: Text)
    requires |s| >= 2
    ensures BigEndian(s) == 0x1_0000 * BigEndian(s[..|s| - 2]) + 0x100 * (s[|s| - 2] as int) + s[|s| - 1]
  {
    var s' := s[..|s| - 1];
    assert s'[..|s'| - 1] == s[..|s| - 2];
  }

  lemma ShortTotal(bytes: Text)
    requires |bytes| == 2
    ensures Total(false, bytes) == BigEndian(bytes)
  {
    assert bytes == [bytes[0], bytes[1]] && bytes[..0] == [];
    TotalOfPair(bytes[0], bytes[1]);
    BigEndianOfPair(bytes);
  }

  lemma LongTotal(bytes: Text)
    requires |bytes| == 4
    ensures Total(false, bytes) == BigEndian(bytes) / 0x1_0000 + BigEndian(bytes) % 0x1_0000
  {
    var high, low := bytes[..2], bytes[2..];
    assert bytes == high + low;
    TotalConcat(false, high, low);
    ShortTotal(high);
    ShortTotal(low);
    BigEndianOfHalves(bytes);
    Halves(BigEndian(high), BigEndian(low));
  }

  lemma BigEndianOfHalves(bytes: Text)
    requires |bytes| == 4
    ensures BigEndian(bytes) == 0x1_0000 * BigEndian(bytes[..2]) + BigEndian(bytes[2..]) && BigEndian(bytes[2..]) < 0x1_0000
  {
    BigEndianOfPair(bytes);
    BigEndianOfPair(bytes[2..]);
    assert bytes[2..][..0] == [];
  }

  lemma Halves(high: nat, low: nat)
    requires low < 0x1_0000
    ensures (0x1_0000 * high + low) / 0x1_0000 == high && (0x1_0000 * high + low) % 0x1_0000 == low
  {
  }

  lemma FieldTotal(f: Field, bytes: Text)
    requires f != U8 && |bytes| == f.Size()
    ensures Total(false, bytes) == WordsOf(f, BigEndian(bytes))
  {
    if f == U16 {
      ShortTotal(bytes);
    } else {
      LongTotal(bytes);
    }
  }

  lemma WordTotalCons(p: Parser, schema: seq<Field>)
    requires schema != []
    ensures WordTotal(schema, ParseAll(p, schema).0)
         == WordsOf(schema[0], p.Next(schema[0])) + WordTotal(schema[1..], ParseAll(p.Skip(schema[0].Size()), schema[1..]).0)
  {
  }

  lemma {:induction false} WidthIsEven(schema: seq<Field>)
    requires WordFields(schema)
    ensures Width(schema) % 2 == 0
    decreases schema
  {
    if schema != [] {
      WidthIsEven(schema[1..]);
    }
  }

  lemma SplitTotal(text: Text, n: nat, w: nat)
    requires n % 2 == 0 && n + w <= |text|
    ensures Total(false, text[..n + w]) == Total(false, text[..n]) + Total(false, text[n..][..w])
  {
    TakenInTwo(text, n, w);
    TotalConcat(false, text[..n], text[n..][..w]);
  }

  lemma {:induction false} ParsedTotal(text: Text, schema: seq<Field>)
    requires Width(schema) <= |text| && WordFields(schema)
    ensures Total(false, text[..Width(schema)]) == WordTotal(schema, ParseAll(Parser(text, NoError), schema).0)
    decreases schema
  {
    if schema == [] {
      assert text[..0] == [];
      TotalEmpty(false);
    } else {
      var n, w := schema[0].Size(), Width(schema[1..]);
      SplitTotal(text, n, w);
      FieldTotal(schema[0], text[..n]);
      ParsedTotal(text[n..], schema[1..]);
      WordTotalCons(Parser(text, NoError), schema);
    }
  }

  /**
   Reading bytes as 16-bit and 32-bit fields and adding up the words, each half of a 32-bit field
   apart, gives the accumulator that the checksum reaches on the same bytes, wrapping included.
   */
  lemma ParserAndChecksumAgree(initial: UInt32, text: Text, schema: seq<Field>)
    requires Width(schema) <= |text| && WordFields(schema)
    ensures After(Acc(initial, false), text[..Width(schema)])
         == Acc(Wrap32(initial + WordTotal(schema, ParseAll(Parser(text, NoError), schema).0)), false)
  {
    ParsedTotal(text, schema);
    WidthIsEven(schema);
  }

  /** Filling the checksum field in with the unparser is what the checksum laws call `WithField`. */
  lemma UnparserFillsField(initial: UInt32, data: Text, at: nat)
    requires IsField(data, at)
    ensures var zeroed := data[..at] + Encode(0, 2) + data[at + 2..];
      var filled := data[..at] + Encode(ChecksumOf(initial, zeroed), 2) + data[at + 2..];
      ChecksumOf(initial, filled) == 0
  {
    var zeroed := WithField(data, at, 0);
    var v := ChecksumOf(initial, zeroed);
    EncodePair(0);
    EncodePair(v);
    FillThenVerify(initial, data, at, v);
  }

  lemma EncodePair(v: UInt16)
    ensures Encode(v, 2) == [v / 0x100, v % 0x100]
  {
  }
}
