/** The catalog object: its table list and name index, and saving and loading it as text. */
module CatalogObject {
  import opened Values
  import opened CatalogText

  // ---- The loops of the printer and the parser ----

  method PrintFields(fields: seq<Field>) returns (fieldStr: string)
    ensures fieldStr == "(" + FieldsText(fields)
  {
    hide *;
    fieldStr := "(";
    AllLeft(fields);
    for i := 0 to |fields|
      invariant fieldStr + Left(fields, i) == "(" + FieldsText(fields)
    {
      ghost var before := fieldStr;
      LeftAt(fields, i);
      if i != 0 {
        fieldStr := fieldStr + ", ";
      }
      fieldStr := fieldStr + FieldText(fields[i]);
      Reassociate(before, if i == 0 then "" else ", ", FieldText(fields[i]), Left(fields, i + 1));
    }
    NothingLeft(fields);
  }

  /** What is still to be printed before field `i`. */
  ghost function Left(fields: seq<Field>, i: nat): string
    requires i <= |fields|
  {
    if i == 0 then FieldsText(fields) else MoreFields(fields[i..])
  }

  lemma LeftAt(fields: seq<Field>, i: nat)
    requires i < |fields|
    ensures Left(fields, i) == (if i == 0 then "" else ", ") + FieldText(fields[i]) + Left(fields, i + 1)
  {
    hide FieldText;
    assert fields[i..][1..] == fields[i + 1..] && (i == 0 ==> fields[i..] == fields);
  }

  lemma AllLeft(fields: seq<Field>)
    ensures Left(fields, 0) == FieldsText(fields)
  {
  }

  lemma NothingLeft(fields: seq<Field>)
    ensures Left(fields, |fields|) == ""
  {
    assert fields[|fields|..] == [];
  }

  lemma Reassociate(a: string, b: string, c: string, d: string)
    ensures a + (b + c + d) == a + b + c + d
  {
  }

  method ParseFieldList(parts: seq<string>) returns (r: Option<seq<Field>>)
    ensures r == ParseFields(parts)
  {
    hide ParseField;
    var fields: seq<Field> := [];
    assert parts[0..] == parts;
    PrependEmpty(fields, ParseFields(parts));
    for i := 0 to |parts|
      invariant ParseFields(parts) == Prepend(fields, ParseFields(parts[i..]))
    {
      assert parts[i..][1..] == parts[i + 1..];
      var f := ParseField(parts[i]);
      if f.None? {
        return None;
      }
      PrependMore(fields, f.value, ParseFields(parts[i + 1..]));
      fields := fields + [f.value];
    }
    assert parts[|parts|..] == [];
    PrependEmpty(fields, Some([]));
    r := Some(fields);
  }

  function Prepend<T>(front: seq<T>, rest: Option<seq<T>>): Option<seq<T>> {
    if rest.None? then None else Some(front + rest.value)
  }

  lemma PrependEmpty<T>(front: seq<T>, rest: Option<seq<T>>)
    ensures Prepend([], rest) == rest && Prepend(front, Some([])) == Some(front)
  {
    assert front + [] == front;
    if rest.Some? {
      assert [] + rest.value == rest.value;
    }
  }

  lemma PrependMore<T>(front: seq<T>, x: T, rest: Option<seq<T>>)
    ensures Prepend(front, Prepend([x], rest)) == Prepend(front + [x], rest)
  {
    if rest.Some? {
      assert front + ([x] + rest.value) == front + [x] + rest.value;
    }
  }

  /** `parseCatalogFile`, from the text of the file: one table per scanned line. */
  method ParseCatalog(text: string, lower: char -> char) returns (r: Option<seq<Table>>)
    ensures r == Parse(text, lower)
  {
    hide ParseLine, LineEnd, DropReturn, ByteSize;
    var tables: seq<Table> := [];
    var rest := text;
    PrependEmpty(tables, Parse(text, lower));
    while rest != "" && ByteSize(rest[..LineEnd(rest)]) < MaxLine
      invariant Parse(text, lower) == Prepend(tables, ParseLines(Lines(rest), lower))
      decreases |rest|
    {
      var end := LineEnd(rest);
      var line := DropReturn(rest[..end]);
      var next := if end < |rest| then rest[end + 1..] else "";
      assert Lines(rest) == [line] + Lines(next);
      var t := ParseTable(line, lower);
      if t.None? {
        return None;
      }
      PrependMore(tables, t.value, ParseLines(Lines(next), lower));
      assert Lines(rest)[1..] == Lines(next);
      tables, rest := tables + [t.value], next;
    }
    PrependEmpty(tables, Some([]));
    r := Some(tables);
  }

  method ParseTable(line: string, lower: char -> char) returns (r: Option<Table>)
    ensures r == ParseLine(line, lower)
  {
    var sep := Split(ToLower(line, lower), '(');
    if |sep| != 2 {
      return None;
    }
    var fields := ParseFieldList(Split(Trim(sep[1], IsParen), ','));
    if fields.None? {
      return None;
    }
    return Some(Table(Trim(sep[0], IsSpace), fields.value));
  }

  // ---- Distinct names ----

  predicate DistinctNames(tables: seq<Table>) {
    forall i, j | 0 <= i < j < |tables| :: tables[i].name != tables[j].name
  }

  predicate HasName(tables: seq<Table>, name: string) {
    exists t | t in tables :: t.name == name
  }

  ghost predicate Without(tables: seq<Table>, rest: seq<Table>, name: string) {
    exists i :: 0 <= i < |tables| && tables[i].name == name && rest == tables[..i] + tables[i + 1..]
  }

  /** The tables that stay when each one whose name is taken is refused. */
  function Admitted(tables: seq<Table>): seq<Table> {
    if tables == [] then [] else
    var front, t := Admitted(tables[..|tables| - 1]), tables[|tables| - 1];
    if HasName(front, t.name) then front else front + [t]
  }

  lemma {:induction false} AdmittedAll(tables: seq<Table>)
    requires DistinctNames(tables)
    ensures Admitted(tables) == tables
  {
    hide HasName, DistinctNames;
    if tables != [] {
      var front, t := tables[..|tables| - 1], tables[|tables| - 1];
      LastNameIsNew(tables);
      AdmittedAll(front);
      assert tables == front + [t];
    }
  }

  lemma LastNameIsNew(tables: seq<Table>)
    requires DistinctNames(tables) && tables != []
    ensures var front, t := tables[..|tables| - 1], tables[|tables| - 1]; DistinctNames(front) && !HasName(front, t.name)
  {
  }

  class Catalog {
    var tables: seq<Table>
    var tableMap: map<string, Option<Table>>

    /** The name index leads to exactly the listed tables, and no two share a name. */
    ghost predicate Valid()
      reads this
    {
      && DistinctNames(tables)
      && (forall t | t in tables :: t.name in tableMap && tableMap[t.name] == Some(t))
      && (forall n | n in tableMap && tableMap[n].Some? :: tableMap[n].value in tables && tableMap[n].value.name == n)
    }

    constructor ()
      ensures Valid() && tables == []
    {
      tables, tableMap := [], map[];
    }

    method GetTable(name: string) returns (t: Option<Table>)
      requires Valid()
      ensures t.Some? <==> HasName(tables, name)
      ensures t.Some? ==> t.value in tables && t.value.name == name
    {
      t := if name in tableMap then tableMap[name] else None;
    }

    /** Add a table, or refuse exactly when its name is taken. */
    method AddTable(t: Table) returns (ok: bool)
      requires Valid()
      modifies this
      ensures Valid()
      ensures ok <==> !HasName(old(tables), t.name)
      ensures tables == if ok then old(tables) + [t] else old(tables)
    {
      var found := GetTable(t.name);
      if found.Some? {
        return false;
      }
      assert forall u | u in tables :: u.name != t.name;
      tables := tables + [t];
      tableMap := tableMap[t.name := Some(t)];
      return true;
    }

    /** Take the table with this name out of the list, keeping the others in order. */
    method DropTable(name: string) returns (ok: bool)
      requires Valid()
      modifies this
      ensures Valid()
      ensures ok <==> HasName(old(tables), name)
      ensures !ok ==> tables == old(tables)
      ensures ok ==> !HasName(tables, name) && Without(old(tables), tables, name)
    {
      for i := 0 to |tables|
        invariant tables == old(tables) && tableMap == old(tableMap)
        invariant forall k | 0 <= k < i :: tables[k].name != name
      {
        if tables[i].name == name {
          RemovedAt(tables, i);
          tableMap := tableMap[name := None];
          tables := tables[..i] + tables[i + 1..];
          return true;
        }
      }
      return false;
    }

    /** The text of the catalog. */
    method CatalogString() returns (out: string)
      ensures out == Text(tables)
    {
      hide TableText;
      out := "";
      for i := 0 to |tables|
        invariant out + Text(tables[i..]) == Text(tables)
      {
        assert tables[i..][1..] == tables[i + 1..];
        var fieldStr := PrintFields(tables[i].fields);
        LineIs(tables[i], fieldStr);
        var line := tables[i].name + " " + fieldStr + ")" + "\n";
        assert out + (line + Text(tables[i + 1..])) == (out + line) + Text(tables[i + 1..]);
        out := out + line;
      }
      assert tables[|tables|..] == [];
    }
  }

  lemma LineIs(t: Table, fieldStr: string)
    requires fieldStr == "(" + FieldsText(t.fields)
    ensures t.name + " " + fieldStr + ")" == TableText(t)
  {
  }

  lemma RemovedAt(tables: seq<Table>, i: nat)
    requires DistinctNames(tables) && i < |tables|
    ensures var rest := tables[..i] + tables[i + 1..];
      && DistinctNames(rest)
      && forall t :: t in rest <==> t in tables && t.name != tables[i].name
  {
    var rest := tables[..i] + tables[i + 1..];
    forall t | t in tables && t.name != tables[i].name
      ensures t in rest
    {
      var k :| 0 <= k < |tables| && tables[k] == t;
      assert rest[if k < i then k else k - 1] == t;
    }
  }

  /** `NewCatalogFromFile`, from the text of the file. */
  method LoadCatalog(text: string, lower: char -> char) returns (c: Catalog?)
    ensures c == null <==> Parse(text, lower).None?
    ensures c != null ==> fresh(c) && c.Valid() && c.tables == Admitted(Parse(text, lower).value)
  {
    var parsed := ParseCatalog(text, lower);
    if parsed.None? {
      return null;
    }
    hide HasName;
    var ts := parsed.value;
    c := new Catalog();
    for i := 0 to |ts|
      invariant c.Valid() && fresh(c) && c.tables == Admitted(ts[..i])
    {
      assert ts[..i + 1][..i] == ts[..i];
      var ok := c.AddTable(ts[i]);
    }
    assert ts[..|ts|] == ts;
  }

  /** Saving a catalog and loading the text gives the same tables. */
  method SaveAndLoad(c: Catalog, lower: char -> char) returns (d: Catalog?)
    requires LowersAscii(lower) && c.Valid() && forall t | t in c.tables :: ValidNames(t, lower) && Survives(t)
    ensures d != null && fresh(d) && d.Valid() && d.tables == c.tables
  {
    var text := c.CatalogString();
    CatalogRoundTrip(c.tables, lower);
    AdmittedAll(c.tables);
    d := LoadCatalog(text, lower);
  }
}
