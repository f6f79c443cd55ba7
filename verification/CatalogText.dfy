/**
  The text form of a catalog: one line per table, `name (field type, field type)`.  Text is a
  sequence of Unicode characters; how characters beyond ASCII are lower-cased is a parameter.
 */
module CatalogText {
  import opened Values

  datatype Field = Field(name: string, ftype: DBType)

  datatype Table = Table(name: string, fields: seq<Field>)

  // ---- Strings ----

  function Split(s: string, sep: char): (parts: seq<string>)
    ensures |parts| >= 1
  {
    if s == "" then [""] else
    var rest := Split(s[1..], sep);
    if s[0] == sep then [""] + rest else [[s[0]] + rest[0]] + rest[1..]
  }

  lemma {:induction false} SplitWhole(s: string, sep: char)
    requires sep !in s
    ensures Split(s, sep) == [s]
  {
    if s != "" {
      SplitWhole(s[1..], sep);
      assert s == [s[0]] + s[1..];
    }
  }

  lemma {:induction false} SplitFirst(a: string, sep: char, b: string)
    requires sep !in a
    ensures Split(a + [sep] + b, sep) == [a] + Split(b, sep)
  {
    var s := a + [sep] + b;
    if a == "" {
      assert s[1..] == b;
    } else {
      assert s[1..] == a[1..] + [sep] + b && s[0] == a[0];
      SplitFirst(a[1..], sep, b);
      assert a == [a[0]] + a[1..];
    }
  }

  /** Cut characters that satisfy `cut` off both ends. */
  function Trim(s: string, cut: char -> bool): (t: string)
    ensures |t| <= |s|
    decreases |s|
  {
    if s != "" && cut(s[0]) then Trim(s[1..], cut)
    else if s != "" && cut(s[|s| - 1]) then Trim(s[..|s| - 1], cut)
    else s
  }

  function IsParen(c: char): bool {
    c == '(' || c == ')'
  }

  /** The white space of Unicode. */
  function IsSpace(c: char): bool {
    var n := c as int;
    9 <= n <= 13 || n == 32 || n == 0x85 || n == 0xA0 || n == 0x1680 || 0x2000 <= n <= 0x200A ||
    n == 0x2028 || n == 0x2029 || n == 0x202F || n == 0x205F || n == 0x3000
  }

  function AsciiLower(c: char): char {
    if 'A' <= c <= 'Z' then c + 32 as char else c
  }

  /** A lower-casing that does the known thing on ASCII. */
  ghost predicate LowersAscii(lower: char -> char) {
    forall c: char | c as int < 128 :: lower(c) == AsciiLower(c)
  }

  function ToLower(s: string, lower: char -> char): (t: string)
    ensures |t| == |s|
  {
    seq(|s|, i requires 0 <= i < |s| => lower(s[i]))
  }

  /** The bytes of a text in UTF-8. */
  function ByteSize(s: string): nat {
    if s == "" then 0 else
    var n := s[0] as int;
    (if n < 0x80 then 1 else if n < 0x800 then 2 else if n < 0x10000 then 3 else 4) + ByteSize(s[1..])
  }

  /** The scanner gives up at a line of this many bytes. */
  const MaxLine: nat := 65536

  function LineEnd(s: string): (i: nat)
    ensures i <= |s|
  {
    if s == "" || s[0] == '\n' then 0 else 1 + LineEnd(s[1..])
  }

  function DropReturn(s: string): string {
    if s != "" && s[|s| - 1] == '\r' then s[..|s| - 1] else s
  }

  /** The lines that `bufio.Scanner` delivers. */
  function Lines(s: string): (ls: seq<string>) {
    var i := LineEnd(s);
    if s == "" || ByteSize(s[..i]) >= MaxLine then []
    else [DropReturn(s[..i])] + if i < |s| then Lines(s[i + 1..]) else []
  }

  // ---- Printing ----

  function TypeName(t: DBType): string {
    if t.IntType? then "int" else "string"
  }

  function FieldText(f: Field): string {
    f.name + " " + TypeName(f.ftype)
  }

  function MoreFields(fields: seq<Field>): string {
    if fields == [] then "" else ", " + FieldText(fields[0]) + MoreFields(fields[1..])
  }

  function FieldsText(fields: seq<Field>): string {
    if fields == [] then "" else FieldText(fields[0]) + MoreFields(fields[1..])
  }

  /** The line of a table, without its newline. */
  function TableText(t: Table): string {
    t.name + " " + "(" + FieldsText(t.fields) + ")"
  }

  function Text(tables: seq<Table>): string {
    if tables == [] then "" else TableText(tables[0]) + "\n" + Text(tables[1..])
  }

  // ---- Parsing ----

  function ParseField(part: string): Option<Field> {
    var nameType := Split(Trim(part, IsSpace), ' ');
    if |nameType| != 2 then None
    else if nameType[1] in ["int", "integer"] then Some(Field(nameType[0], IntType))
    else if nameType[1] in ["string", "varchar", "text"] then Some(Field(nameType[0], StringType))
    else None
  }

  function ParseFields(parts: seq<string>): Option<seq<Field>> {
    if parts == [] then Some([]) else
    var f, fs := ParseField(parts[0]), ParseFields(parts[1..]);
    if f.None? || fs.None? then None else Some([f.value] + fs.value)
  }

  function ParseLine(line: string, lower: char -> char): Option<Table> {
    var sep := Split(ToLower(line, lower), '(');
    if |sep| != 2 then None else
    var fields := ParseFields(Split(Trim(sep[1], IsParen), ','));
    if fields.None? then None else Some(Table(Trim(sep[0], IsSpace), fields.value))
  }

  function ParseLines(lines: seq<string>, lower: char -> char): Option<seq<Table>> {
    if lines == [] then Some([]) else
    var t, ts := ParseLine(lines[0], lower), ParseLines(lines[1..], lower);
    if t.None? || ts.None? then None else Some([t.value] + ts.value)
  }

  function Parse(text: string, lower: char -> char): Option<seq<Table>> {
    ParseLines(Lines(text), lower)
  }

  // ---- Cutting text up ----

  /** Every separator makes one more part. */
  lemma {:induction false} SplitCount(s: string, sep: char)
    ensures |Split(s, sep)| == multiset(s)[sep] + 1
  {
    if s != "" {
      SplitCount(s[1..], sep);
      assert s == [s[0]] + s[1..];
    }
  }

  /** Trimming cuts a prefix and a suffix of such characters, and as many as there are. */
  lemma {:induction false} TrimMeans(s: string, cut: char -> bool) returns (i: nat, j: nat)
    ensures i <= j <= |s| && Trim(s, cut) == s[i..j]
    ensures (forall k | 0 <= k < i :: cut(s[k])) && (forall k | j <= k < |s| :: cut(s[k]))
    ensures i < j ==> !cut(s[i]) && !cut(s[j - 1])
    decreases |s|
  {
    if s != "" && cut(s[0]) {
      i, j := TrimMeans(s[1..], cut);
      assert s[1..][i..j] == s[i + 1..j + 1];
      assert forall k | 0 <= k < |s| - 1 :: s[1..][k] == s[k + 1];
      i, j := i + 1, j + 1;
      assert forall k | 1 <= k < |s| :: s[k] == s[1..][k - 1];
    } else if s != "" && cut(s[|s| - 1]) {
      i, j := TrimMeans(s[..|s| - 1], cut);
      assert s[..|s| - 1][i..j] == s[i..j];
      assert forall k | 0 <= k < |s| - 1 :: s[..|s| - 1][k] == s[k];
    } else {
      i, j := 0, |s|;
      assert s[0..|s|] == s;
    }
  }

  /** White space and lower-casing on ASCII. */
  lemma AsciiIs(c: char)
    requires c as int < 128
    ensures IsSpace(c) <==> c == ' ' || c == '\t' || c == '\n' || c == '\r' || c as int == 11 || c as int == 12
    ensures AsciiLower(c) as int == if 'A' <= c <= 'Z' then c as int + 32 else c as int
  {
  }

  /** A line ends at a newline, loses one carriage return, and stops the scanner if it is too long. */
  lemma LinesAre(line: string, rest: string)
    requires '\n' !in line
    ensures Lines(line + "\n" + rest) ==
      if ByteSize(line) >= 65536 then []
      else [if line != "" && line[|line| - 1] == '\r' then line[..|line| - 1] else line] + Lines(rest)
    ensures Lines("") == []
  {
    hide ByteSize, LineEnd;
    LineEndOf(line, rest);
    var s := line + "\n" + rest;
    assert s[..|line|] == line && s[|line| + 1..] == rest;
  }

  /** A line is read only if it has one opening parenthesis, and a field only if it has one blank inside. */
  lemma ReadOnlyIf(line: string, part: string, lower: char -> char)
    ensures ParseLine(line, lower).Some? ==> multiset(ToLower(line, lower))['('] == 1
    ensures ParseField(part).Some? ==> multiset(Trim(part, IsSpace))[' '] == 1
  {
    SplitCount(ToLower(line, lower), '(');
    SplitCount(Trim(part, IsSpace), ' ');
    hide Split, Trim, ToLower, ParseFields;
  }

  // ---- The words and the layout ----

  /** The type read for each of the five words, and that no other word is one. */
  lemma TypeWords(part: string, name: string, word: string)
    requires Split(Trim(part, IsSpace), ' ') == [name, word]
    ensures word == "int" || word == "integer" ==> ParseField(part) == Some(Field(name, IntType))
    ensures word == "string" || word == "varchar" || word == "text" ==> ParseField(part) == Some(Field(name, StringType))
    ensures word != "int" && word != "integer" && word != "string" && word != "varchar" && word != "text" ==>
              ParseField(part) == None
  {
    hide Split, Trim;
  }

  /** Each further field stands behind a comma and a blank. */
  lemma FieldsTextSnoc(fields: seq<Field>, f: Field)
    requires fields != []
    ensures FieldsText(fields + [f]) == FieldsText(fields) + (", " + FieldText(f))
    ensures FieldText(f) == f.name + " " + if f.ftype.IntType? then "int" else "string"
  {
    FieldTextIs(f);
    hide MoreFields, FieldText;
    assert (fields + [f])[1..] == fields[1..] + [f];
    MoreFieldsSnoc(fields[1..], f);
    Joined(FieldText(fields[0]), MoreFields(fields[1..]), ", " + FieldText(f));
  }

  lemma FieldTextIs(f: Field)
    ensures FieldText(f) == f.name + " " + if f.ftype.IntType? then "int" else "string"
  {
  }

  lemma Joined(a: string, b: string, c: string)
    ensures a + (b + c) == a + b + c
  {
  }

  lemma {:induction false} MoreFieldsSnoc(fields: seq<Field>, f: Field)
    ensures MoreFields(fields + [f]) == MoreFields(fields) + (", " + FieldText(f))
  {
    hide FieldText;
    if fields == [] {
      assert fields + [f] == [f] && [f][1..] == [];
      assert MoreFields([f]) == ", " + FieldText(f) + MoreFields([]);
    } else {
      assert (fields + [f])[1..] == fields[1..] + [f] && (fields + [f])[0] == fields[0];
      MoreFieldsSnoc(fields[1..], f);
      Joined(", " + FieldText(fields[0]), MoreFields(fields[1..]), ", " + FieldText(f));
    }
  }

  /** A table of one field, and a table without fields. */
  lemma TableTextIs(name: string, f: Field)
    ensures TableText(Table(name, [f])) == name + " (" + f.name + " " + (if f.ftype.IntType? then "int" else "string") + ")"
    ensures TableText(Table(name, [])) == name + " ()"
    ensures MaxLine == 65536
  {
    assert MoreFields([f][1..]) == "";
  }

  // ---- Names that survive ----

  /** Not empty, lower-case, and free of white space, commas and parentheses. */
  predicate ValidName(name: string, lower: char -> char) {
    name != "" && forall c | c in name :: NameChar(c, lower)
  }

  predicate NameChar(c: char, lower: char -> char) {
    lower(c) == c && !IsSpace(c) && c != '(' && c != ')' && c != ','
  }

  predicate ValidFields(fields: seq<Field>, lower: char -> char) {
    forall f | f in fields :: ValidName(f.name, lower)
  }

  predicate ValidNames(t: Table, lower: char -> char) {
    ValidName(t.name, lower) && ValidFields(t.fields, lower)
  }

  lemma {:induction false} TrimNothing(s: string, cut: char -> bool)
    requires s != "" && !cut(s[0]) && !cut(s[|s| - 1])
    ensures Trim(s, cut) == s
  {
  }

  lemma TrimEnd(s: string, c: char, cut: char -> bool)
    requires s != "" && !cut(s[0]) && !cut(s[|s| - 1]) && cut(c)
    ensures Trim(s + [c], cut) == s
  {
    var t := s + [c];
    assert t[0] == s[0] && t[..|t| - 1] == s;
    TrimNothing(s, cut);
  }

  lemma TrimStart(s: string, c: char, cut: char -> bool)
    requires s != "" && !cut(s[0]) && !cut(s[|s| - 1]) && cut(c)
    ensures Trim([c] + s, cut) == s
  {
    assert ([c] + s)[1..] == s;
    TrimNothing(s, cut);
  }

  // ---- Fields ----

  /** The characters of a printed field. */
  predicate FieldChar(c: char, lower: char -> char) {
    NameChar(c, lower) || c == ' '
  }

  lemma TypeNameChars(t: DBType, lower: char -> char)
    requires LowersAscii(lower)
    ensures ValidName(TypeName(t), lower) && ' ' !in TypeName(t)
  {
    forall c | c in TypeName(t)
      ensures NameChar(c, lower) && c != ' '
    {
      assert lower(c) == AsciiLower(c);
    }
  }

  lemma NameHasNoSpace(name: string, lower: char -> char)
    requires ValidName(name, lower)
    ensures ' ' !in name && ',' !in name && '(' !in name && '\n' !in name
  {
  }

  lemma FieldTextEnds(f: Field, lower: char -> char)
    requires LowersAscii(lower) && ValidName(f.name, lower)
    ensures var s := FieldText(f);
      && s != "" && NameChar(s[0], lower) && NameChar(s[|s| - 1], lower)
      && forall c | c in s :: FieldChar(c, lower)
  {
    hide NameChar;
    var s, n := FieldText(f), TypeName(f.ftype);
    TypeNameChars(f.ftype, lower);
    assert s[0] == f.name[0] && f.name[0] in f.name;
    assert s[|s| - 1] == n[|n| - 1] && n[|n| - 1] in n;
  }

  lemma SplitField(f: Field, lower: char -> char)
    requires LowersAscii(lower) && ValidName(f.name, lower)
    ensures Split(FieldText(f), ' ') == [f.name, TypeName(f.ftype)]
  {
    hide Split, ValidName, LowersAscii;
    NameHasNoSpace(f.name, lower);
    TypeNameChars(f.ftype, lower);
    SplitFirst(f.name, ' ', TypeName(f.ftype));
    SplitWhole(TypeName(f.ftype), ' ');
    assert FieldText(f) == f.name + [' '] + TypeName(f.ftype);
  }

  lemma TrimField(f: Field, lower: char -> char)
    requires LowersAscii(lower) && ValidName(f.name, lower)
    ensures Trim(FieldText(f), IsSpace) == FieldText(f) && Trim([' '] + FieldText(f), IsSpace) == FieldText(f)
  {
    hide Trim, FieldText, ValidName, LowersAscii;
    FieldTextEnds(f, lower);
    TrimNothing(FieldText(f), IsSpace);
    TrimStart(FieldText(f), ' ', IsSpace);
  }

  lemma ParseType(name: string, t: DBType, part: string)
    requires Split(Trim(part, IsSpace), ' ') == [name, TypeName(t)]
    ensures ParseField(part) == Some(Field(name, t))
  {
    hide Split, Trim;
  }

  /** A printed field, with or without a space before it, is read back. */
  lemma ParsePrintedField(f: Field, lower: char -> char)
    requires LowersAscii(lower) && ValidName(f.name, lower)
    ensures ParseField(FieldText(f)) == Some(f) && ParseField([' '] + FieldText(f)) == Some(f)
  {
    hide *;
    SplitField(f, lower);
    TrimField(f, lower);
    ParseType(f.name, f.ftype, FieldText(f));
    ParseType(f.name, f.ftype, [' '] + FieldText(f));
  }

  /** What `Split` finds between the commas. */
  function Parts(fields: seq<Field>): (ps: seq<string>)
    ensures |ps| == |fields|
  {
    seq(|fields|, i requires 0 <= i < |fields| => [' '] + FieldText(fields[i]))
  }

  lemma ValidTail(fields: seq<Field>, lower: char -> char)
    requires ValidFields(fields, lower) && fields != []
    ensures ValidName(fields[0].name, lower) && ValidFields(fields[1..], lower)
  {
    hide ValidName;
  }

  lemma NoComma(f: Field, lower: char -> char)
    requires LowersAscii(lower) && ValidName(f.name, lower)
    ensures ',' !in FieldText(f) && ',' !in [' '] + FieldText(f)
  {
    hide FieldText, ValidName, LowersAscii;
    FieldTextEnds(f, lower);
  }

  lemma {:induction false} SplitFields(first: string, fields: seq<Field>, lower: char -> char)
    requires LowersAscii(lower) && ',' !in first && ValidFields(fields, lower)
    ensures Split(first + MoreFields(fields), ',') == [first] + Parts(fields)
    decreases |fields|
  {
    hide Split, FieldText, ValidFields, ValidName, LowersAscii;
    if fields == [] {
      assert first + MoreFields(fields) == first;
      SplitWhole(first, ',');
    } else {
      var f, rest := fields[0], fields[1..];
      var next := [' '] + FieldText(f);
      ValidTail(fields, lower);
      NoComma(f, lower);
      SplitFields(next, rest, lower);
      SplitFirst(first, ',', next + MoreFields(rest));
      assert first + MoreFields(fields) == first + [','] + (next + MoreFields(rest));
      assert Parts(fields) == [next] + Parts(rest);
    }
  }

  lemma ParseCons(part: string, parts: seq<string>, f: Field, fields: seq<Field>)
    requires ParseField(part) == Some(f) && ParseFields(parts) == Some(fields)
    ensures ParseFields([part] + parts) == Some([f] + fields)
  {
    hide ParseField;
    assert ([part] + parts)[1..] == parts;
  }

  lemma {:induction false} ParseParts(fields: seq<Field>, lower: char -> char)
    requires LowersAscii(lower) && ValidFields(fields, lower)
    ensures ParseFields(Parts(fields)) == Some(fields)
  {
    hide FieldText, ValidFields, ValidName, LowersAscii, ParseField;
    if fields != [] {
      var f, rest := fields[0], fields[1..];
      ValidTail(fields, lower);
      ParsePrintedField(f, lower);
      ParseParts(rest, lower);
      ParseCons([' '] + FieldText(f), Parts(rest), f, rest);
      assert Parts(fields) == [[' '] + FieldText(f)] + Parts(rest) && fields == [f] + rest;
    }
  }

  lemma ParsePrintedFields(fields: seq<Field>, lower: char -> char)
    requires LowersAscii(lower) && fields != [] && ValidFields(fields, lower)
    ensures ParseFields(Split(FieldsText(fields), ',')) == Some(fields)
  {
    hide Split, FieldText, ValidFields, ValidName, LowersAscii, ParseField, ParseFields, MoreFields, Parts;
    var f, rest := fields[0], fields[1..];
    ValidTail(fields, lower);
    NoComma(f, lower);
    SplitFields(FieldText(f), rest, lower);
    ParsePrintedField(f, lower);
    ParseParts(rest, lower);
    ParseCons(FieldText(f), Parts(rest), f, rest);
    assert fields == [f] + rest;
  }

  // ---- Lines ----

  predicate LineChar(c: char, lower: char -> char) {
    FieldChar(c, lower) || c == ',' || c == '(' || c == ')'
  }

  /** The characters inside the parentheses. */
  predicate ListChar(c: char, lower: char -> char) {
    FieldChar(c, lower) || c == ','
  }

  lemma {:induction false} MoreFieldsChars(fields: seq<Field>, lower: char -> char)
    requires LowersAscii(lower) && ValidFields(fields, lower)
    ensures var s := MoreFields(fields);
      && (forall c | c in s :: ListChar(c, lower))
      && (s != "" ==> NameChar(s[|s| - 1], lower))
  {
    hide FieldText, ValidFields, ValidName, LowersAscii, NameChar;
    if fields != [] {
      ValidTail(fields, lower);
      FieldTextEnds(fields[0], lower);
      MoreFieldsChars(fields[1..], lower);
    }
  }

  lemma FieldsTextChars(fields: seq<Field>, lower: char -> char)
    requires LowersAscii(lower) && ValidFields(fields, lower)
    ensures var s := FieldsText(fields);
      && (forall c | c in s :: ListChar(c, lower))
      && (fields != [] ==> s != "" && NameChar(s[0], lower) && NameChar(s[|s| - 1], lower))
  {
    hide FieldText, ValidFields, ValidName, LowersAscii, NameChar, MoreFields;
    if fields != [] {
      ValidTail(fields, lower);
      FieldTextEnds(fields[0], lower);
      MoreFieldsChars(fields[1..], lower);
    }
  }

  lemma LineCharLower(c: char, lower: char -> char)
    requires LowersAscii(lower) && LineChar(c, lower)
    ensures lower(c) == c && c != '\n' && c != '\r'
  {
    assert lower(' ') == AsciiLower(' ') && lower(',') == AsciiLower(',');
    assert lower('(') == AsciiLower('(') && lower(')') == AsciiLower(')');
  }

  lemma TableTextChars(t: Table, lower: char -> char)
    requires LowersAscii(lower) && ValidNames(t, lower)
    ensures forall c | c in TableText(t) :: LineChar(c, lower)
    ensures TableText(t) != "" && TableText(t)[|TableText(t)| - 1] == ')'
  {
    hide LowersAscii, ValidFields, NameChar, FieldsText;
    FieldsTextChars(t.fields, lower);
  }

  /** A printed line is one line, is lower-case, and does not end in a carriage return. */
  lemma TableTextIsLine(t: Table, lower: char -> char)
    requires LowersAscii(lower) && ValidNames(t, lower)
    ensures ToLower(TableText(t), lower) == TableText(t) && '\n' !in TableText(t)
    ensures TableText(t) != "" && DropReturn(TableText(t)) == TableText(t)
  {
    hide LowersAscii, ValidNames, TableText, LineChar;
    TableTextChars(t, lower);
    var s := TableText(t);
    forall i | 0 <= i < |s|
      ensures lower(s[i]) == s[i] && s[i] != '\n'
    {
      assert s[i] in s;
      LineCharLower(s[i], lower);
    }
  }

  lemma SplitLine(t: Table, lower: char -> char)
    requires LowersAscii(lower) && ValidNames(t, lower)
    ensures Split(ToLower(TableText(t), lower), '(') == [t.name + [' '], FieldsText(t.fields) + [')']]
  {
    hide Split, ToLower, FieldsText, LowersAscii, ValidFields, ValidName;
    var head, body := t.name + [' '], FieldsText(t.fields) + [')'];
    TableTextIsLine(t, lower);
    NameHasNoSpace(t.name, lower);
    FieldsTextChars(t.fields, lower);
    assert '(' !in body;
    assert TableText(t) == head + ['('] + body;
    SplitFirst(head, '(', body);
    SplitWhole(body, '(');
  }

  lemma TrimName(name: string, lower: char -> char)
    requires ValidName(name, lower)
    ensures Trim(name + [' '], IsSpace) == name
  {
    hide Trim;
    assert name[0] in name && name[|name| - 1] in name;
    TrimEnd(name, ' ', IsSpace);
  }

  lemma TrimFields(fields: seq<Field>, lower: char -> char)
    requires LowersAscii(lower) && fields != [] && ValidFields(fields, lower)
    ensures Trim(FieldsText(fields) + [')'], IsParen) == FieldsText(fields)
  {
    hide FieldsText, ValidFields, LowersAscii, Trim;
    FieldsTextChars(fields, lower);
    TrimEnd(FieldsText(fields), ')', IsParen);
  }

  /** A printed table is read back exactly when it has a field; without one the line is refused. */
  lemma ParsePrintedLine(t: Table, lower: char -> char)
    requires LowersAscii(lower) && ValidNames(t, lower)
    ensures ParseLine(TableText(t), lower) == if t.fields == [] then None else Some(t)
  {
    hide Split, Trim, FieldsText, ParseFields, TableText, ValidName, ValidFields, LowersAscii, ToLower;
    SplitLine(t, lower);
    if t.fields == [] {
      NoFieldsText();
      EmptyBody();
    } else {
      TrimFields(t.fields, lower);
      ParsePrintedFields(t.fields, lower);
      TrimName(t.name, lower);
    }
  }

  lemma NoFieldsText()
    ensures FieldsText([]) + [')'] == ")"
  {
  }

  lemma EmptyBody()
    ensures ParseFields(Split(Trim(")", IsParen), ',')) == None
  {
    assert ")"[1..] == "";
    assert Trim("", IsParen) == "";
    assert Trim("", IsSpace) == "";
    assert Split("", ' ') == [""];
    assert Split("", ',') == [""];
    assert ParseField("") == None;
  }

  lemma {:induction false} LineEndOf(line: string, rest: string)
    requires '\n' !in line
    ensures LineEnd(line + "\n" + rest) == |line|
  {
    var s := line + "\n" + rest;
    if line != "" {
      assert s[1..] == line[1..] + "\n" + rest;
      LineEndOf(line[1..], rest);
    }
  }

  lemma LinesOfText(tables: seq<Table>, lower: char -> char)
    requires LowersAscii(lower) && tables != [] && ValidNames(tables[0], lower)
    ensures Lines(Text(tables)) ==
      if ByteSize(TableText(tables[0])) >= MaxLine then [] else [TableText(tables[0])] + Lines(Text(tables[1..]))
  {
    hide TableText, ValidNames, LowersAscii, DropReturn, ByteSize, LineEnd;
    var line, rest := TableText(tables[0]), Text(tables[1..]);
    TableTextIsLine(tables[0], lower);
    LineEndOf(line, rest);
    var s := Text(tables);
    assert s == line + "\n" + rest;
    assert s[..|line|] == line && s[|line| + 1..] == rest;
  }

  // ---- Round trip ----

  predicate Survives(t: Table) {
    t.fields != [] && ByteSize(TableText(t)) < MaxLine
  }

  lemma ParseLinesCons(line: string, lines: seq<string>, lower: char -> char)
    ensures ParseLines([line] + lines, lower) ==
      var t, ts := ParseLine(line, lower), ParseLines(lines, lower);
      if t.None? || ts.None? then None else Some([t.value] + ts.value)
  {
    hide ParseLine;
    assert ([line] + lines)[1..] == lines;
  }

  /**
    Parsing a printed catalog returns the same tables exactly when each has a field and a line
    short enough for the scanner.
   */
  lemma {:induction false} CatalogRoundTrip(tables: seq<Table>, lower: char -> char)
    requires LowersAscii(lower) && forall t | t in tables :: ValidNames(t, lower)
    ensures Parse(Text(tables), lower) == Some(tables) <==> forall t | t in tables :: Survives(t)
    ensures Parse(Text(tables), lower).Some? ==> |Parse(Text(tables), lower).value| <= |tables|
  {
    if tables == [] {
      assert Lines("") == [];
    } else {
      hide LowersAscii, ValidNames, TableText, ParseLine, Lines, ByteSize;
      var t, rest := tables[0], tables[1..];
      assert tables == [t] + rest;
      LinesOfText(tables, lower);
      ParsePrintedLine(t, lower);
      CatalogRoundTrip(rest, lower);
      if Survives(t) {
        ParseLinesCons(TableText(t), Lines(Text(rest)), lower);
      } else {
        assert t in tables;
        if t.fields == [] && ByteSize(TableText(t)) < MaxLine {
          ParseLinesCons(TableText(t), Lines(Text(rest)), lower);
        }
      }
    }
  }
}
