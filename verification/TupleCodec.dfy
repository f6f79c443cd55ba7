/**
  The byte form of tuples: integers as eight little-endian bytes in two's complement, strings
  as 32 bytes padded with NULs on the right.
 */
module TupleCodec {
  import opened Values

  const StringLength: nat := 32

  // ---- Integers ----

  /** 256 to the power `width`. */
  function Span(width: nat): (n: nat)
    ensures n > 0
  {
    if width == 0 then 1 else 256 * Span(width - 1)
  }

  function LittleEndian(n: nat, width: nat): (b: Bytes)
    ensures |b| == width
  {
    if width == 0 then [] else [n % 256] + LittleEndian(n / 256, width - 1)
  }

  function FromLittleEndian(b: Bytes): (n: nat)
    ensures n < Span(|b|)
  {
    if b == [] then 0 else b[0] + 256 * FromLittleEndian(b[1..])
  }

  lemma {:induction false} UnsignedRoundTrip(n: nat, width: nat)
    requires n < Span(width)
    ensures FromLittleEndian(LittleEndian(n, width)) == n
  {
    if width > 0 {
      UnsignedRoundTrip(n / 256, width - 1);
    }
  }

  lemma Digits(low: Byte, high: nat)
    ensures (low + 256 * high) % 256 == low && (low + 256 * high) / 256 == high
  {
  }

  lemma {:induction false} BytesRoundTrip(b: Bytes)
    ensures LittleEndian(FromLittleEndian(b), |b|) == b
  {
    if b != [] {
      var low, high := b[0], FromLittleEndian(b[1..]);
      BytesRoundTrip(b[1..]);
      Digits(low, high);
      assert LittleEndian(low + 256 * high, |b|) == [low] + LittleEndian(high, |b| - 1);
    }
  }

  predicate InRange(v: int, width: nat) {
    0 <= 2 * v + Span(width) < 2 * Span(width)
  }

  /** Two's complement. */
  function IntBytes(v: int, width: nat): (b: Bytes)
    requires InRange(v, width)
    ensures |b| == width
  {
    LittleEndian(if v < 0 then v + Span(width) else v, width)
  }

  function BytesInt(b: Bytes): (v: int)
    ensures InRange(v, |b|)
  {
    var n := FromLittleEndian(b);
    if 2 * n >= Span(|b|) then n - Span(|b|) else n
  }

  lemma IntRoundTrip(v: int, width: nat)
    requires InRange(v, width)
    ensures BytesInt(IntBytes(v, width)) == v
  {
    UnsignedRoundTrip(if v < 0 then v + Span(width) else v, width);
  }

  lemma BytesIntRoundTrip(b: Bytes)
    ensures IntBytes(BytesInt(b), |b|) == b
  {
    BytesRoundTrip(b);
  }

  lemma Spans()
    ensures Span(8) == 0x1_0000_0000_0000_0000 && Span(4) == 0x1_0000_0000
  {
    assert Span(4) == 0x1_0000_0000;
    assert Span(6) == 0x1_0000_0000_0000;
  }

  lemma Int64InRange(v: int)
    ensures InRange(v, 8) <==> -0x8000_0000_0000_0000 <= v < 0x8000_0000_0000_0000
  {
    Spans();
  }

  function Int64Bytes(v: Int64): (b: Bytes)
    ensures |b| == 8
  {
    Int64InRange(v);
    IntBytes(v, 8)
  }

  function BytesInt64(b: Bytes): Int64
    requires |b| == 8
  {
    Int64InRange(BytesInt(b));
    BytesInt(b)
  }

  // ---- The bytes in numbers, lowest first ----

  lemma LowestFirst(n: nat, width: nat)
    ensures LittleEndian(n, width + 1) == [n % 256] + LittleEndian(n / 256, width)
    ensures LittleEndian(n, 0) == []
  {
  }

  lemma FourBytes(n: nat)
    ensures LittleEndian(n, 4) == [n % 256, n / 0x100 % 256, n / 0x1_0000 % 256, n / 0x100_0000 % 256]
  {
    hide LittleEndian;
    var a, b, c := n / 0x100, n / 0x1_0000, n / 0x100_0000;
    assert a / 256 == b && b / 256 == c;
    LowestFirst(n, 3);
    LowestFirst(a, 2);
    LowestFirst(b, 1);
    LowestFirst(c, 0);
    LowestFirst(c / 256, 0);
  }

  lemma EightBytes(n: nat)
    requires n < 0x1_0000_0000_0000_0000
    ensures LittleEndian(n, 8) ==
      [n % 256, n / 0x100 % 256, n / 0x1_0000 % 256, n / 0x100_0000 % 256,
       n / 0x1_0000_0000 % 256, n / 0x100_0000_0000 % 256, n / 0x1_0000_0000_0000 % 256, n / 0x100_0000_0000_0000 % 256]
  {
    var high := n / 0x1_0000_0000;
    LowAndHigh(n);
    FourBytes(n);
    FourBytes(high);
    Quotients(n, high);
  }

  /** The four lower bytes come first. */
  lemma LowAndHigh(n: nat)
    ensures LittleEndian(n, 8) == LittleEndian(n, 4) + LittleEndian(n / 0x1_0000_0000, 4)
  {
    hide LittleEndian;
    var a, b, c, d := n / 0x100, n / 0x1_0000, n / 0x100_0000, n / 0x1_0000_0000;
    assert a / 256 == b && b / 256 == c && c / 256 == d;
    LowestFirst(n, 7);
    LowestFirst(a, 6);
    LowestFirst(b, 5);
    LowestFirst(c, 4);
    FourBytes(n);
    assert LittleEndian(n, 8) == [n % 256, a % 256, b % 256, c % 256] + LittleEndian(d, 4);
  }

  lemma Quotients(n: nat, high: nat)
    requires high == n / 0x1_0000_0000
    ensures high / 0x100 == n / 0x100_0000_0000 && high / 0x1_0000 == n / 0x1_0000_0000_0000
    ensures high / 0x100_0000 == n / 0x100_0000_0000_0000
  {
  }

  /** Byte `i` of an integer is digit `i` of its two's complement to the base 256, the lowest first. */
  lemma Int64BytesAre(v: Int64)
    ensures var u := if v < 0 then v + 0x1_0000_0000_0000_0000 else v;
      Int64Bytes(v) ==
      [u % 256, u / 0x100 % 256, u / 0x1_0000 % 256, u / 0x100_0000 % 256,
       u / 0x1_0000_0000 % 256, u / 0x100_0000_0000 % 256, u / 0x1_0000_0000_0000 % 256, u / 0x100_0000_0000_0000 % 256]
  {
    hide LittleEndian;
    Spans();
    Int64InRange(v);
    EightBytes(if v < 0 then v + 0x1_0000_0000_0000_0000 else v);
  }

  lemma FourWeights(b: Bytes)
    requires |b| == 4
    ensures FromLittleEndian(b) == b[0] as int + 0x100 * (b[1] as int) + 0x1_0000 * (b[2] as int) + 0x100_0000 * (b[3] as int)
  {
    assert FromLittleEndian(b[3..]) == b[3];
    assert b[2..][1..] == b[3..] && b[1..][1..] == b[2..];
    assert FromLittleEndian(b[2..]) == b[2] as int + 256 * (b[3] as int);
    assert FromLittleEndian(b[1..]) == b[1] as int + 256 * (b[2] as int + 256 * (b[3] as int));
  }

  lemma EightWeights(b: Bytes)
    requires |b| == 8
    ensures FromLittleEndian(b) ==
      b[0] as int + 0x100 * (b[1] as int) + 0x1_0000 * (b[2] as int) + 0x100_0000 * (b[3] as int) +
      0x1_0000_0000 * (b[4] as int) + 0x100_0000_0000 * (b[5] as int) + 0x1_0000_0000_0000 * (b[6] as int) + 0x100_0000_0000_0000 * (b[7] as int)
  {
    FourWeights(b[4..]);
    assert b[1..][1..] == b[2..] && b[2..][1..] == b[3..] && b[3..][1..] == b[4..];
    assert FromLittleEndian(b[3..]) == b[3] + 256 * FromLittleEndian(b[4..]);
    assert FromLittleEndian(b[2..]) == b[2] + 256 * FromLittleEndian(b[3..]);
    assert FromLittleEndian(b[1..]) == b[1] + 256 * FromLittleEndian(b[2..]);
  }

  /** Eight bytes are the integer with these digits, less 2^64 if the last byte is at least 128. */
  lemma BytesInt64Is(b: Bytes)
    requires |b| == 8
    ensures BytesInt64(b) ==
      b[0] as int + 0x100 * (b[1] as int) + 0x1_0000 * (b[2] as int) + 0x100_0000 * (b[3] as int) +
      0x1_0000_0000 * (b[4] as int) + 0x100_0000_0000 * (b[5] as int) + 0x1_0000_0000_0000 * (b[6] as int) + 0x100_0000_0000_0000 * (b[7] as int)
      - if b[7] >= 128 then 0x1_0000_0000_0000_0000 else 0
  {
    hide FromLittleEndian;
    Spans();
    EightWeights(b);
  }

  // ---- Strings ----

  function Zeros(n: nat): (z: Bytes)
    ensures |z| == n
  {
    seq(n, i => 0)
  }

  /** Drop every NUL at the end. */
  function TrimNuls(b: Bytes): (t: Bytes)
    ensures |t| <= |b|
  {
    if b != [] && b[|b| - 1] == 0 then TrimNuls(b[..|b| - 1]) else b
  }

  predicate EndsInNul(b: Bytes) {
    b != [] && b[|b| - 1] == 0
  }

  lemma {:induction false} TrimIsPrefix(b: Bytes)
    ensures TrimNuls(b) + Zeros(|b| - |TrimNuls(b)|) == b
    ensures !EndsInNul(TrimNuls(b))
    ensures TrimNuls(b) == b <==> !EndsInNul(b)
  {
    if EndsInNul(b) {
      TrimIsPrefix(b[..|b| - 1]);
    }
  }

  lemma {:induction false} TrimPadded(b: Bytes, n: nat)
    ensures TrimNuls(b + Zeros(n)) == TrimNuls(b)
    decreases n
  {
    var p := b + Zeros(n);
    if n > 0 {
      assert p[..|p| - 1] == b + Zeros(n - 1);
      TrimPadded(b, n - 1);
    } else {
      assert p == b;
    }
  }

  // ---- Fields ----

  function FieldSize(t: DBType): nat {
    if t.IntType? then 8 else StringLength
  }

  /** Padding panics on a longer string. */
  predicate FieldFits(v: Value) {
    v.StringField? ==> |v.s| <= StringLength
  }

  function FieldBytes(v: Value): (b: Bytes)
    requires FieldFits(v)
    ensures |b| == FieldSize(TypeOf(v))
  {
    match v
    case IntField(i) => Int64Bytes(i)
    case StringField(s) => s + Zeros(StringLength - |s|)
  }

  function ParseField(b: Bytes, t: DBType): (v: Value)
    requires |b| == FieldSize(t)
    ensures TypeOf(v) == t && FieldFits(v)
  {
    if t.IntType? then IntField(BytesInt64(b)) else StringField(TrimNuls(b))
  }

  /** A string is its bytes and then NULs up to 32 bytes. */
  lemma StringBytesAre(s: Bytes)
    requires |s| <= 32
    ensures FieldFits(StringField(s)) && |FieldBytes(StringField(s))| == 32
    ensures forall i | 0 <= i < 32 :: FieldBytes(StringField(s))[i] == if i < |s| then s[i] else 0
  {
  }

  /** What a field looks like once it has been stored. */
  function Stored(v: Value): Value {
    if v.StringField? then StringField(TrimNuls(v.s)) else v
  }

  lemma FieldRoundTrip(v: Value)
    requires FieldFits(v)
    ensures ParseField(FieldBytes(v), TypeOf(v)) == Stored(v)
  {
    match v
    case IntField(i) =>
      Int64InRange(i);
      IntRoundTrip(i, 8);
    case StringField(s) =>
      TrimPadded(s, StringLength - |s|);
  }

  lemma FieldBytesRoundTrip(b: Bytes, t: DBType)
    requires |b| == FieldSize(t)
    ensures FieldBytes(ParseField(b, t)) == b
  {
    match t
    case IntType => BytesIntRoundTrip(b);
    case StringType => TrimIsPrefix(b);
  }

  // ---- Tuples ----

  /** Every string is short enough to be padded. */
  predicate Fits(row: Row) {
    forall v | v in row :: FieldFits(v)
  }

  function RowTypes(row: Row): (d: Desc)
    ensures |d| == |row|
  {
    seq(|row|, i requires 0 <= i < |row| => TypeOf(row[i]))
  }

  /** The row has the types of the descriptor and can be written. */
  predicate Conforms(row: Row, desc: Desc) {
    RowTypes(row) == desc && Fits(row)
  }

  function StoredRow(row: Row): (r: Row)
    ensures |r| == |row|
  {
    seq(|row|, i requires 0 <= i < |row| => Stored(row[i]))
  }

  predicate NoTrailingNuls(row: Row) {
    forall v | v in row :: v.StringField? ==> !EndsInNul(v.s)
  }

  function TupleSize(desc: Desc): nat {
    if desc == [] then 0 else FieldSize(desc[0]) + TupleSize(desc[1..])
  }

  function RowBytes(row: Row): (b: Bytes)
    requires Fits(row)
  {
    if row == [] then [] else FieldBytes(row[0]) + RowBytes(row[1..])
  }

  function ParseRow(b: Bytes, desc: Desc): (row: Row)
    requires |b| == TupleSize(desc)
  {
    if desc == [] then [] else
    var n := FieldSize(desc[0]);
    [ParseField(b[..n], desc[0])] + ParseRow(b[n..], desc[1..])
  }

  /** Fields are written one after another, the first one first. */
  lemma {:induction false} RowBytesConcat(a: Row, b: Row)
    requires Fits(a) && Fits(b)
    ensures Fits(a + b) && RowBytes(a + b) == RowBytes(a) + RowBytes(b)
  {
    hide FieldBytes;
    if a == [] {
      assert a + b == b;
    } else {
      assert (a + b)[1..] == a[1..] + b && (a + b)[0] == a[0];
      RowBytesConcat(a[1..], b);
    }
  }

  /** A row of one field is that field. */
  lemma RowBytesOne(v: Value)
    requires FieldFits(v)
    ensures Fits([v]) && RowBytes([v]) == FieldBytes(v)
    ensures v.IntField? ==> FieldBytes(v) == Int64Bytes(v.i)
  {
    assert RowBytes([v][1..]) == [];
  }

  /** The bytes of field `k` stand behind those of the fields before it. */
  lemma FieldAt(row: Row, k: nat)
    requires Fits(row) && k < |row|
    ensures Fits(row[..k]) && FieldFits(row[k])
    ensures var at, n := |RowBytes(row[..k])|, |FieldBytes(row[k])|;
      at + n <= |RowBytes(row)| && RowBytes(row)[at..at + n] == FieldBytes(row[k])
    ensures |FieldBytes(row[k])| == if row[k].IntField? then 8 else 32
  {
    hide FieldBytes, RowBytes, FieldFits;
    var a, b, c := row[..k], [row[k]], row[k + 1..];
    assert row == a + b + c;
    assert row[k] in row;
    RowBytesConcat(a, b);
    RowBytesConcat(a + b, c);
    RowBytesOne(row[k]);
  }

  lemma ConformsTail(row: Row, desc: Desc)
    requires Conforms(row, desc) && row != []
    ensures desc != [] && TypeOf(row[0]) == desc[0] && FieldFits(row[0]) && Conforms(row[1..], desc[1..])
  {
    assert RowTypes(row)[0] == TypeOf(row[0]);
    assert RowTypes(row[1..]) == RowTypes(row)[1..];
  }

  lemma NoFields(row: Row, desc: Desc)
    requires Conforms(row, desc)
    ensures Fits(row) && (row == [] <==> desc == [])
  {
  }

  lemma {:induction false} RowBytesSize(row: Row, desc: Desc)
    requires Conforms(row, desc)
    ensures |RowBytes(row)| == TupleSize(desc)
  {
    if row != [] {
      ConformsTail(row, desc);
      RowBytesSize(row[1..], desc[1..]);
    }
  }

  /** Reading back a written row gives the row with trailing NULs cut from its strings. */
  lemma {:induction false} RowRoundTrip(row: Row, desc: Desc)
    requires Conforms(row, desc)
    ensures |RowBytes(row)| == TupleSize(desc) && ParseRow(RowBytes(row), desc) == StoredRow(row)
  {
    hide Conforms, FieldBytes, ParseField, Stored, Fits, FieldFits, TypeOf, FieldSize;
    RowBytesSize(row, desc);
    NoFields(row, desc);
    if row != [] {
      ConformsTail(row, desc);
      RowRoundTrip(row[1..], desc[1..]);
      FieldRoundTrip(row[0]);
      var n := FieldSize(desc[0]);
      assert RowBytes(row)[..n] == FieldBytes(row[0]) && RowBytes(row)[n..] == RowBytes(row[1..]);
      assert StoredRow(row) == [Stored(row[0])] + StoredRow(row[1..]);
    }
  }

  /** Every byte string of the right length is the written form of the row read from it. */
  lemma {:induction false} RowBytesRoundTrip(b: Bytes, desc: Desc)
    requires |b| == TupleSize(desc)
    ensures Conforms(ParseRow(b, desc), desc) && RowBytes(ParseRow(b, desc)) == b
  {
    if desc != [] {
      var n := FieldSize(desc[0]);
      RowBytesRoundTrip(b[n..], desc[1..]);
      FieldBytesRoundTrip(b[..n], desc[0]);
      var row := ParseRow(b, desc);
      assert row[1..] == ParseRow(b[n..], desc[1..]);
      assert RowTypes(row) == [TypeOf(row[0])] + RowTypes(row[1..]);
      assert Fits(row) by {
        assert row == [row[0]] + row[1..];
      }
      assert b == b[..n] + b[n..];
    }
  }

  /** A row survives storage unchanged exactly when no string ends in a NUL. */
  lemma RowSurvives(row: Row, desc: Desc)
    requires Conforms(row, desc)
    ensures |RowBytes(row)| == TupleSize(desc)
    ensures ParseRow(RowBytes(row), desc) == row <==> NoTrailingNuls(row)
  {
    RowRoundTrip(row, desc);
    forall i | 0 <= i < |row|
      ensures StoredRow(row)[i] == row[i] <==> (row[i].StringField? ==> !EndsInNul(row[i].s))
    {
      if row[i].StringField? {
        TrimIsPrefix(row[i].s);
      }
    }
    if StoredRow(row) == row {
      forall v | v in row
        ensures v.StringField? ==> !EndsInNul(v.s)
      {
        var i :| 0 <= i < |row| && row[i] == v;
        assert StoredRow(row)[i] == row[i];
      }
    }
  }

  // ---- The buffer operations ----

  /** `writeTo`: append the fields to the buffer; false where padding would panic. */
  method WriteTo(row: Row, buf: Bytes) returns (ok: bool, buf': Bytes)
    ensures ok <==> Fits(row)
    ensures ok ==> buf' == buf + RowBytes(row)
  {
    buf' := buf;
    for i := 0 to |row|
      invariant Fits(row[..i])
      invariant Fits(row) ==> Fits(row[i..]) && buf' + RowBytes(row[i..]) == buf + RowBytes(row)
    {
      var field := row[i];
      if !FieldFits(field) {
        return false, buf';
      }
      assert row[..i + 1] == row[..i] + [field];
      assert row[i..] == [field] + row[i + 1..];
      if Fits(row) {
        assert row[i..][1..] == row[i + 1..];
        assert buf' + (FieldBytes(field) + RowBytes(row[i + 1..])) == (buf' + FieldBytes(field)) + RowBytes(row[i + 1..]);
      }
      buf' := buf' + FieldBytes(field);
    }
    assert row[..|row|] == row && row[|row|..] == [];
    ok := true;
  }

  /** `readTupleFrom`: take one tuple off the front of the buffer, or fail when it is too short. */
  method ReadTupleFrom(buf: Bytes, desc: Desc) returns (row: Option<Row>, rest: Bytes)
    ensures row.Some? <==> |buf| >= TupleSize(desc)
    ensures row.Some? ==> row.value == ParseRow(buf[..TupleSize(desc)], desc) && rest == buf[TupleSize(desc)..]
  {
    rest := buf;
    var fields: Row := [];
    var size := TupleSize(desc);
    for i := 0 to |desc|
      invariant |rest| <= |buf| && |buf| - |rest| + TupleSize(desc[i..]) == size
      invariant rest == buf[|buf| - |rest|..]
      invariant |buf| >= size ==> fields + ParseRow(rest[..TupleSize(desc[i..])], desc[i..]) == ParseRow(buf[..size], desc)
    {
      assert desc[i..][1..] == desc[i + 1..];
      var n := FieldSize(desc[i]);
      if |rest| < n {
        return None, rest;
      }
      if |buf| >= size {
        ParseStep(rest[..TupleSize(desc[i..])], desc[i..], fields);
        assert rest[..TupleSize(desc[i..])][n..] == rest[n..][..TupleSize(desc[i + 1..])];
        assert rest[..TupleSize(desc[i..])][..n] == rest[..n];
      }
      fields := fields + [ParseField(rest[..n], desc[i])];
      rest := rest[n..];
    }
    row := Some(fields);
  }

  lemma ParseStep(b: Bytes, desc: Desc, fields: Row)
    requires |b| == TupleSize(desc) && desc != []
    ensures var n := FieldSize(desc[0]);
      && n <= |b|
      && fields + ParseRow(b, desc) == fields + [ParseField(b[..n], desc[0])] + ParseRow(b[n..], desc[1..])
  {
  }
}
