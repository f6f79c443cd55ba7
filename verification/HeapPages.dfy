/**
  Slotted heap pages and their 4096-byte form: a header with the number of slots and the number
  of tuples, then the tuples of the occupied slots back to back, then NULs.
 */
module HeapPages {
  import opened Values
  import opened TupleCodec

  const PageSize: nat := 4096
  const HeaderSize: nat := 8

  type Int32 = i: int | -0x8000_0000 <= i < 0x8000_0000

  datatype RecordID = RecordID(pageNo: nat, slotNo: nat)

  datatype Tuple = Tuple(row: Row, rid: Option<RecordID>)

  type Slots = seq<Option<Tuple>>

  // ---- Slots ----

  /** The rows of the occupied slots, in slot order. */
  function Occupied(slots: Slots): (rows: seq<Row>)
    ensures |rows| <= |slots|
  {
    if slots == [] then [] else
    (if slots[0].Some? then [slots[0].value.row] else []) + Occupied(slots[1..])
  }

  /** Every stored tuple knows the page and slot it is in. */
  predicate Numbered(slots: Slots, pageNo: nat) {
    forall i | 0 <= i < |slots| && slots[i].Some? :: slots[i].value.rid == Some(RecordID(pageNo, i))
  }

  /** The first empty slot, or the number of slots. */
  function FirstFree(slots: Slots): (k: nat)
    ensures k <= |slots|
    ensures k < |slots| ==> slots[k].None?
    ensures forall i | 0 <= i < k :: slots[i].Some?
  {
    if slots == [] || slots[0].None? then 0 else 1 + FirstFree(slots[1..])
  }

  lemma {:induction false} OccupiedConcat(a: Slots, b: Slots)
    ensures Occupied(a + b) == Occupied(a) + Occupied(b)
  {
    if a == [] {
      assert a + b == b;
    } else {
      var c := a + b;
      assert c[1..] == a[1..] + b && c[0] == a[0];
      OccupiedConcat(a[1..], b);
      var first := if a[0].Some? then [a[0].value.row] else [];
      assert Occupied(c) == first + (Occupied(a[1..]) + Occupied(b));
    }
  }

  /** The row of an occupied slot stands behind the rows of the occupied slots before it, and empty slots give none. */
  lemma {:induction false} OccupiedAt(slots: Slots, i: nat)
    requires i < |slots|
    ensures |Occupied(slots[..i + 1])| == |Occupied(slots[..i])| + if slots[i].Some? then 1 else 0
    ensures slots[i].Some? ==>
      |Occupied(slots[..i])| < |Occupied(slots)| && Occupied(slots)[|Occupied(slots[..i])|] == slots[i].value.row
  {
    hide Occupied;
    OccupiedUpdate(slots, i, slots[i]);
    OccupiedConcat(slots[..i], [slots[i]]);
    OccupiedOne(slots[i]);
    assert slots[..i + 1] == slots[..i] + [slots[i]];
  }

  /** A page has a free slot exactly when it holds fewer tuples than slots. */
  lemma {:induction false} FullIffCounted(slots: Slots)
    ensures FirstFree(slots) == |slots| <==> |Occupied(slots)| == |slots|
  {
    if slots != [] {
      FullIffCounted(slots[1..]);
    }
  }

  lemma OccupiedAround(a: Slots, v: Option<Tuple>, b: Slots)
    ensures Occupied(a + [v] + b) == Occupied(a) + (if v.Some? then [v.value.row] else []) + Occupied(b)
  {
    hide Occupied;
    OccupiedConcat(a + [v], b);
    OccupiedConcat(a, [v]);
    OccupiedOne(v);
  }

  lemma OccupiedOne(v: Option<Tuple>)
    ensures Occupied([v]) == if v.Some? then [v.value.row] else []
  {
    assert Occupied([v][1..]) == [];
  }

  lemma SlotsAround(slots: Slots, k: nat, v: Option<Tuple>)
    requires k < |slots|
    ensures slots == slots[..k] + [slots[k]] + slots[k + 1..]
    ensures slots[k := v] == slots[..k] + [v] + slots[k + 1..]
  {
  }

  /** Filling or clearing slot `k` changes the rows only at that place. */
  lemma OccupiedUpdate(slots: Slots, k: nat, v: Option<Tuple>)
    requires k < |slots|
    ensures var a, b := Occupied(slots[..k]), Occupied(slots[k + 1..]);
      && Occupied(slots) == a + (if slots[k].Some? then [slots[k].value.row] else []) + b
      && Occupied(slots[k := v]) == a + (if v.Some? then [v.value.row] else []) + b
  {
    hide Occupied;
    SlotsAround(slots, k, v);
    OccupiedAround(slots[..k], slots[k], slots[k + 1..]);
    OccupiedAround(slots[..k], v, slots[k + 1..]);
  }

  /** Tuples for `rows` in the first slots of page `pageNo`. */
  function Filed(rows: seq<Row>, pageNo: nat): (slots: Slots)
    ensures |slots| == |rows|
  {
    seq(|rows|, i requires 0 <= i < |rows| => Some(Tuple(rows[i], Some(RecordID(pageNo, i)))))
  }

  function Empty(n: nat): (slots: Slots)
    ensures |slots| == n
  {
    seq(n, i => None)
  }

  lemma {:induction false} OccupiedAll(slots: Slots, rows: seq<Row>)
    requires |slots| == |rows| && forall i | 0 <= i < |rows| :: slots[i].Some? && slots[i].value.row == rows[i]
    ensures Occupied(slots) == rows
  {
    if rows != [] {
      OccupiedAll(slots[1..], rows[1..]);
    }
  }

  lemma {:induction false} OccupiedEmpty(n: nat)
    ensures Occupied(Empty(n)) == []
  {
    if n > 0 {
      assert Empty(n)[1..] == Empty(n - 1);
      OccupiedEmpty(n - 1);
    }
  }

  /** A page loaded densely holds exactly the given rows. */
  lemma OccupiedFiled(rows: seq<Row>, pageNo: nat, n: nat)
    ensures Occupied(Filed(rows, pageNo) + Empty(n)) == rows
  {
    OccupiedConcat(Filed(rows, pageNo), Empty(n));
    OccupiedAll(Filed(rows, pageNo), rows);
    OccupiedEmpty(n);
  }

  // ---- Bytes ----

  predicate AllFit(rows: seq<Row>) {
    forall r | r in rows :: Fits(r)
  }

  predicate AllConform(rows: seq<Row>, desc: Desc) {
    forall r | r in rows :: Conforms(r, desc)
  }

  function RowsBytes(rows: seq<Row>): (b: Bytes)
    requires AllFit(rows)
  {
    if rows == [] then [] else RowBytes(rows[0]) + RowsBytes(rows[1..])
  }

  /** The bytes taken by `n` tuples of the given size. */
  function Area(n: nat, size: nat): nat {
    if n == 0 then 0 else size + Area(n - 1, size)
  }

  lemma {:induction false} AreaIsProduct(n: nat, size: nat)
    ensures Area(n, size) == n * size
  {
    if n > 0 {
      AreaIsProduct(n - 1, size);
      assert n * size == (n - 1) * size + size;
    }
  }

  function ParseRows(b: Bytes, desc: Desc, n: nat): (rows: seq<Row>)
    requires |b| >= Area(n, TupleSize(desc))
    ensures |rows| == n
  {
    if n == 0 then [] else
    var size := TupleSize(desc);
    [ParseRow(b[..size], desc)] + ParseRows(b[size..], desc, n - 1)
  }

  lemma ParseRowsCons(b: Bytes, desc: Desc, n: nat)
    requires |b| >= Area(n, TupleSize(desc)) && n > 0
    ensures var size := TupleSize(desc);
      ParseRows(b, desc, n) == [ParseRow(b[..size], desc)] + ParseRows(b[size..], desc, n - 1)
  {
  }

  lemma Int32InRange(v: int)
    ensures InRange(v, 4) <==> -0x8000_0000 <= v < 0x8000_0000
  {
    Spans();
  }

  function Int32Bytes(v: Int32): (b: Bytes)
    ensures |b| == 4
  {
    Int32InRange(v);
    IntBytes(v, 4)
  }

  function BytesInt32(b: Bytes): Int32
    requires |b| == 4
  {
    Int32InRange(BytesInt(b));
    BytesInt(b)
  }

  lemma Int32RoundTrip(v: Int32)
    ensures BytesInt32(Int32Bytes(v)) == v
  {
    Int32InRange(v);
    IntRoundTrip(v, 4);
  }

  /** A header field is its four digits to the base 256 in two's complement, the lowest first. */
  lemma Int32BytesAre(v: Int32)
    ensures var u := if v < 0 then v + 0x1_0000_0000 else v;
      Int32Bytes(v) == [u % 256, u / 0x100 % 256, u / 0x1_0000 % 256, u / 0x100_0000 % 256]
  {
    hide LittleEndian;
    Spans();
    Int32InRange(v);
    FourBytes(if v < 0 then v + 0x1_0000_0000 else v);
  }

  lemma BytesInt32Is(b: Bytes)
    requires |b| == 4
    ensures BytesInt32(b) == b[0] as int + 0x100 * (b[1] as int) + 0x1_0000 * (b[2] as int) + 0x100_0000 * (b[3] as int)
                             - if b[3] >= 128 then 0x1_0000_0000 else 0
  {
    hide FromLittleEndian;
    Spans();
    FourWeights(b);
  }

  /** The rows stand one after another, the first one first. */
  lemma {:induction false} RowsBytesConcat(a: seq<Row>, b: seq<Row>)
    requires AllFit(a) && AllFit(b)
    ensures AllFit(a + b) && RowsBytes(a + b) == RowsBytes(a) + RowsBytes(b)
  {
    hide Fits, RowBytes;
    if a == [] {
      assert a + b == b;
    } else {
      assert (a + b)[1..] == a[1..] + b && (a + b)[0] == a[0];
      RowsBytesConcat(a[1..], b);
    }
  }

  lemma RowsBytesOne(row: Row)
    requires Fits(row)
    ensures AllFit([row]) && RowsBytes([row]) == RowBytes(row)
  {
    hide Fits, RowBytes;
    assert RowsBytes([row][1..]) == [];
  }

  /** The bytes of a page with these header fields and rows. */
  function PageBytes(total: Int32, used: Int32, rows: seq<Row>): (b: Bytes)
    requires AllFit(rows) && HeaderSize + |RowsBytes(rows)| <= PageSize
    ensures |b| == PageSize
  {
    Int32Bytes(total) + Int32Bytes(used) + RowsBytes(rows) + Zeros(PageSize - HeaderSize - |RowsBytes(rows)|)
  }

  lemma NoRows(desc: Desc)
    ensures AllConform([], desc) && AllFit([]) && RowsBytes([]) == []
  {
  }

  lemma RowsBytesCons(row: Row, tail: seq<Row>)
    ensures AllFit([row] + tail) <==> Fits(row) && AllFit(tail)
    ensures AllFit([row] + tail) ==> RowsBytes([row] + tail) == RowBytes(row) + RowsBytes(tail)
  {
    hide Fits, RowBytes;
    var rows := [row] + tail;
    assert rows[1..] == tail && rows[0] == row;
  }

  lemma AllConformCons(row: Row, tail: seq<Row>, desc: Desc)
    ensures AllConform([row] + tail, desc) <==> Conforms(row, desc) && AllConform(tail, desc)
  {
    hide Conforms;
    var rows := [row] + tail;
    assert rows[1..] == tail && rows[0] == row;
  }

  /** Slot count, tuple count, the rows from byte 8 on, and NULs up to 4096 bytes. */
  lemma PageBytesAre(total: Int32, used: Int32, rows: seq<Row>)
    requires AllFit(rows) && HeaderSize + |RowsBytes(rows)| <= PageSize && total >= 0 && used >= 0
    ensures var b := PageBytes(total, used, rows);
      && |b| == 4096
      && b[..4] == [total % 256, total / 0x100 % 256, total / 0x1_0000 % 256, total / 0x100_0000 % 256]
      && b[4..8] == [used % 256, used / 0x100 % 256, used / 0x1_0000 % 256, used / 0x100_0000 % 256]
      && 8 + |RowsBytes(rows)| <= 4096 && b[8..8 + |RowsBytes(rows)|] == RowsBytes(rows)
      && forall i | 8 + |RowsBytes(rows)| <= i < 4096 :: b[i] == 0
  {
    hide Int32Bytes, RowsBytes, AllFit;
    Int32BytesAre(total);
    Int32BytesAre(used);
  }

  lemma {:induction false} RowsBytesSize(rows: seq<Row>, desc: Desc)
    requires AllConform(rows, desc)
    ensures AllFit(rows) && |RowsBytes(rows)| == Area(|rows|, TupleSize(desc))
  {
    if rows != [] {
      hide Conforms, Fits, AllConform, AllFit, RowsBytes, RowBytes, TupleSize;
      var row, tail := rows[0], rows[1..];
      assert rows == [row] + tail;
      AllConformCons(row, tail, desc);
      RowsBytesCons(row, tail);
      NoFields(row, desc);
      RowsBytesSize(tail, desc);
      RowBytesSize(row, desc);
    }
  }

  function StoredRows(rows: seq<Row>): (s: seq<Row>)
    ensures |s| == |rows|
  {
    seq(|rows|, i requires 0 <= i < |rows| => StoredRow(rows[i]))
  }

  lemma {:induction false} RowsRoundTrip(rows: seq<Row>, desc: Desc, rest: Bytes)
    requires AllConform(rows, desc)
    ensures AllFit(rows) && |RowsBytes(rows) + rest| >= Area(|rows|, TupleSize(desc))
    ensures ParseRows(RowsBytes(rows) + rest, desc, |rows|) == StoredRows(rows)
  {
    hide Conforms, Fits, RowBytes, ParseRow, StoredRow, AllConform, AllFit, RowsBytes, TupleSize, ParseRows;
    RowsBytesSize(rows, desc);
    if rows != [] {
      var row, tail, size := rows[0], rows[1..], TupleSize(desc);
      assert rows == [row] + tail;
      AllConformCons(row, tail, desc);
      RowsBytesCons(row, tail);
      NoFields(row, desc);
      RowsRoundTrip(tail, desc, rest);
      RowRoundTrip(row, desc);
      SplitAt(RowBytes(row), RowsBytes(tail), rest);
      var b := RowsBytes(rows) + rest;
      assert |RowBytes(row)| == size && b[..size] == RowBytes(row) && b[size..] == RowsBytes(tail) + rest;
      ParseRowsCons(b, desc, |rows|);
      assert StoredRows(rows) == [StoredRow(row)] + StoredRows(tail);
    }
  }

  lemma SplitAt(a: Bytes, b: Bytes, c: Bytes)
    ensures (a + b + c)[..|a|] == a && (a + b + c)[|a|..] == b + c
  {
  }

  /** Reading any page gives rows that write back to the very bytes they came from. */
  lemma {:induction false} RowsBytesRoundTrip(b: Bytes, desc: Desc, n: nat)
    requires |b| >= Area(n, TupleSize(desc))
    ensures AllConform(ParseRows(b, desc, n), desc) && AllFit(ParseRows(b, desc, n))
    ensures RowsBytes(ParseRows(b, desc, n)) == b[..Area(n, TupleSize(desc))]
  {
    hide Conforms, Fits, RowBytes, ParseRow, AllConform, AllFit, RowsBytes, TupleSize, ParseRows;
    if n == 0 {
      NoRows(desc);
      assert ParseRows(b, desc, n) == [];
    } else {
      var size := TupleSize(desc);
      var row, tail := ParseRow(b[..size], desc), ParseRows(b[size..], desc, n - 1);
      RowsBytesRoundTrip(b[size..], desc, n - 1);
      RowBytesRoundTrip(b[..size], desc);
      NoFields(row, desc);
      ParseRowsCons(b, desc, n);
      AllConformCons(row, tail, desc);
      RowsBytesCons(row, tail);
      assert b[..Area(n, size)] == b[..size] + b[size..][..Area(n - 1, size)];
    }
  }

  /**
    Page round trip: the header and the rows come back, with trailing NULs cut from strings,
    and serialising what came back gives the same bytes.
   */
  lemma PageRoundTrip(total: Int32, rows: seq<Row>, desc: Desc)
    requires AllConform(rows, desc) && HeaderSize + Area(|rows|, TupleSize(desc)) <= PageSize && |rows| <= PageSize
    ensures AllFit(rows) && HeaderSize + |RowsBytes(rows)| <= PageSize
    ensures var b := PageBytes(total, |rows|, rows);
      && BytesInt32(b[..4]) == total && BytesInt32(b[4..8]) == |rows|
      && ParseRows(b[8..], desc, |rows|) == StoredRows(rows)
    ensures AllFit(StoredRows(rows)) && RowsBytes(StoredRows(rows)) == RowsBytes(rows)
  {
    hide AllConform, AllFit, ParseRows, RowsBytes, Int32Bytes, BytesInt32;
    RowsBytesSize(rows, desc);
    var body := RowsBytes(rows);
    var pad := Zeros(PageSize - HeaderSize - |body|);
    var b := PageBytes(total, |rows|, rows);
    Int32RoundTrip(total);
    Int32RoundTrip(|rows|);
    assert b[..4] == Int32Bytes(total) && b[4..8] == Int32Bytes(|rows|) && b[8..] == body + pad;
    RowsRoundTrip(rows, desc, pad);
    RowsBytesRoundTrip(body + pad, desc, |rows|);
    assert (body + pad)[..Area(|rows|, TupleSize(desc))] == body;
  }

  /** Rows come back unchanged exactly when none of their strings ends in a NUL. */
  lemma RowsSurvive(rows: seq<Row>, desc: Desc)
    requires AllConform(rows, desc)
    ensures StoredRows(rows) == rows <==> forall r | r in rows :: NoTrailingNuls(r)
  {
    forall i | 0 <= i < |rows|
      ensures StoredRows(rows)[i] == rows[i] <==> NoTrailingNuls(rows[i])
    {
      assert rows[i] in rows;
      RowSurvives(rows[i], desc);
      RowRoundTrip(rows[i], desc);
    }
    hide StoredRow, Conforms, NoTrailingNuls;
    if StoredRows(rows) == rows {
      forall r | r in rows
        ensures NoTrailingNuls(r)
      {
        var i :| 0 <= i < |rows| && rows[i] == r;
        assert StoredRows(rows)[i] == rows[i];
      }
    }
  }

  // ---- The page object ----

  class HeapPage {
    const desc: Desc
    const pageNo: nat
    var totalSlots: Int32
    var usedSlots: Int32
    var tuples: Slots
    var dirty: bool

    /** The counter equals the number of occupied slots and every tuple has its record id. */
    ghost predicate Valid()
      reads this
    {
      && totalSlots == |tuples| <= PageSize
      && usedSlots == |Occupied(tuples)|
      && Numbered(tuples, pageNo)
    }

    constructor (desc: Desc, pageNo: nat)
      requires TupleSize(desc) > 0
      ensures Valid() && this.desc == desc && this.pageNo == pageNo
      ensures tuples == Empty((PageSize - HeaderSize) / TupleSize(desc)) && !dirty
      ensures |tuples| * TupleSize(desc) <= 4088 < (|tuples| + 1) * TupleSize(desc)
    {
      this.desc, this.pageNo := desc, pageNo;
      var numSlots := (PageSize - HeaderSize) / TupleSize(desc);
      SlotsBound(TupleSize(desc));
      AreaIsProduct(numSlots, TupleSize(desc));
      OneMoreSlot(TupleSize(desc));
      OccupiedEmpty(numSlots);
      totalSlots, usedSlots, tuples, dirty := numSlots, 0, Empty(numSlots), false;
    }

    /** Put the row in the first free slot and say where, or refuse exactly when the page is full. */
    method InsertTuple(row: Row) returns (rid: Option<RecordID>)
      requires Valid()
      modifies this
      ensures Valid() && totalSlots == old(totalSlots)
      ensures rid.None? <==> FirstFree(old(tuples)) == |old(tuples)|
      ensures rid.None? ==> tuples == old(tuples) && dirty == old(dirty)
      ensures rid.Some? ==>
        && rid == Some(RecordID(pageNo, FirstFree(old(tuples)))) && dirty
        && tuples == old(tuples)[FirstFree(old(tuples)) := Some(Tuple(row, rid))]
    {
      FullIffCounted(tuples);
      if usedSlots >= totalSlots {
        return None;
      }
      for i := 0 to |tuples|
        invariant tuples == old(tuples) && usedSlots == old(usedSlots) && dirty == old(dirty) && totalSlots == old(totalSlots)
        invariant i <= FirstFree(tuples)
      {
        if tuples[i].None? {
          rid := Some(RecordID(pageNo, i));
          OccupiedUpdate(tuples, i, Some(Tuple(row, rid)));
          tuples := tuples[i := Some(Tuple(row, rid))];
          usedSlots := usedSlots + 1;
          dirty := true;
          return;
        }
      }
      return None;
    }

    /** Clear the slot that the record id names; refuse exactly when it is not an occupied slot of this page. */
    method DeleteTuple(rid: RecordID) returns (ok: bool)
      requires Valid()
      modifies this
      ensures Valid() && totalSlots == old(totalSlots)
      ensures ok <==> rid.pageNo == pageNo && rid.slotNo < |old(tuples)| && old(tuples)[rid.slotNo].Some?
      ensures ok ==> tuples == old(tuples)[rid.slotNo := None] && dirty
      ensures !ok ==> tuples == old(tuples) && dirty == old(dirty)
    {
      for i := 0 to |tuples|
        invariant tuples == old(tuples) && usedSlots == old(usedSlots) && dirty == old(dirty) && totalSlots == old(totalSlots)
        invariant forall k | 0 <= k < i && tuples[k].Some? :: tuples[k].value.rid != Some(rid)
      {
        if tuples[i].Some? && tuples[i].value.rid == Some(rid) {
          OccupiedUpdate(tuples, i, None);
          tuples := tuples[i := None];
          usedSlots := usedSlots - 1;
          dirty := true;
          return true;
        }
      }
      return false;
    }

    /** The serialised page; none where padding a string or the page would panic. */
    method ToBuffer() returns (r: Option<Bytes>)
      requires Valid()
      ensures var rows := Occupied(tuples);
        && (r.Some? <==> AllFit(rows) && HeaderSize + |RowsBytes(rows)| <= PageSize)
        && (r.Some? ==> r.value == PageBytes(totalSlots, usedSlots, rows) && |r.value| == 4096)
      ensures r.Some? ==>
        && r.value[..4] == [totalSlots % 256, totalSlots / 0x100 % 256, totalSlots / 0x1_0000 % 256, totalSlots / 0x100_0000 % 256]
        && r.value[4..8] == [usedSlots % 256, usedSlots / 0x100 % 256, usedSlots / 0x1_0000 % 256, usedSlots / 0x100_0000 % 256]
    {
      var rows := Occupied(tuples);
      var header := Int32Bytes(totalSlots) + Int32Bytes(usedSlots);
      var ok, buf := WriteSlots(tuples, header);
      if !ok || |buf| > PageSize {
        return None;
      }
      assert buf + Zeros(PageSize - |buf|) == PageBytes(totalSlots, usedSlots, rows);
      PageBytesAre(totalSlots, usedSlots, rows);
      return Some(buf + Zeros(PageSize - |buf|));
    }

    /**
      Fill the page from a buffer.  It fails when the buffer is too short for the header or for
      the tuples it announces, or announces more tuples than there are slots.
     */
    method InitFromBuffer(buf: Bytes) returns (ok: bool)
      modifies this
      ensures dirty == old(dirty)
      ensures ok <==> |buf| >= 8 && Announces(buf, |old(tuples)|, desc)
      ensures ok ==> totalSlots == BytesInt32(buf[..4]) && usedSlots == BytesInt32(buf[4..8])
      ensures ok && usedSlots <= 0 ==> tuples == old(tuples)
      ensures ok && usedSlots > 0 ==>
        tuples == Filed(ParseRows(buf[8..], desc, usedSlots), pageNo) + old(tuples)[usedSlots..]
    {
      if |buf| < 8 {
        return false;
      }
      totalSlots, usedSlots := BytesInt32(buf[..4]), BytesInt32(buf[4..8]);
      if usedSlots <= 0 {
        return true;
      }
      ok, tuples := ReadSlots(buf[8..], desc, usedSlots, pageNo, tuples);
    }
  }

  /** The header of the buffer asks for no more tuples than there are slots and bytes. */
  predicate Announces(buf: Bytes, slots: nat, desc: Desc)
    requires |buf| >= 8
  {
    var used := BytesInt32(buf[4..8]);
    used <= 0 || (used <= slots && |buf| - 8 >= Area(used, TupleSize(desc)))
  }

  lemma SlotsBound(size: nat)
    requires size > 0
    ensures 0 <= (PageSize - HeaderSize) / size <= PageSize
    ensures Area((PageSize - HeaderSize) / size, size) <= PageSize - HeaderSize
  {
    var n := (PageSize - HeaderSize) / size;
    AreaIsProduct(n, size);
    AreaAtLeast(n, size);
  }

  lemma OneMoreSlot(size: nat)
    requires size > 0
    ensures ((PageSize - HeaderSize) / size + 1) * size > 4088
  {
    var n := (PageSize - HeaderSize) / size;
    assert 4088 == size * n + 4088 % size;
    assert (n + 1) * size == size * n + size;
  }

  lemma {:induction false} AreaAtLeast(n: nat, size: nat)
    requires size > 0
    ensures Area(n, size) >= n
  {
    if n > 0 {
      AreaAtLeast(n - 1, size);
    }
  }

  /** Append the occupied slots to the buffer. */
  method WriteSlots(slots: Slots, start: Bytes) returns (ok: bool, buf: Bytes)
    ensures ok <==> AllFit(Occupied(slots))
    ensures ok ==> buf == start + RowsBytes(Occupied(slots))
  {
    hide Fits, RowBytes, AllFit, RowsBytes;
    buf := start;
    for i := 0 to |slots|
      invariant AllFit(Occupied(slots)) <==> AllFit(Occupied(slots[i..]))
      invariant AllFit(Occupied(slots)) ==> buf + RowsBytes(Occupied(slots[i..])) == start + RowsBytes(Occupied(slots))
    {
      assert slots[i..][1..] == slots[i + 1..];
      if slots[i].Some? {
        var row := slots[i].value.row;
        assert Occupied(slots[i..]) == [row] + Occupied(slots[i + 1..]);
        RowsBytesCons(row, Occupied(slots[i + 1..]));
        var more, extended := WriteTo(row, buf);
        if !more {
          return false, buf;
        }
        if AllFit(Occupied(slots)) {
          assert buf + (RowBytes(row) + RowsBytes(Occupied(slots[i + 1..]))) == (buf + RowBytes(row)) + RowsBytes(Occupied(slots[i + 1..]));
        }
        buf := extended;
      } else {
        assert Occupied(slots[i..]) == Occupied(slots[i + 1..]);
      }
    }
    assert slots[|slots|..] == [];
    NoRows([]);
    ok := true;
  }

  /** Read `n` tuples into the first slots. */
  method ReadSlots(buf: Bytes, desc: Desc, n: nat, pageNo: nat, start: Slots) returns (ok: bool, slots: Slots)
    ensures ok <==> n == 0 || (n <= |start| && |buf| >= Area(n, TupleSize(desc)))
    ensures ok && n > 0 ==> slots == Filed(ParseRows(buf, desc, n), pageNo) + start[n..]
  {
    hide ParseRow, ParseRows, TupleSize, Filed, Area;
    NoneFiled(pageNo, start);
    AreaStep(n, TupleSize(desc));
    slots := start;
    var rest, size := buf, TupleSize(desc);
    ghost var done: seq<Row> := [];
    for i := 0 to n
      invariant i <= |start| && |done| == i && |rest| <= |buf|
      invariant slots == Filed(done, pageNo) + start[i..]
      invariant |buf| >= Area(n, size) <==> |rest| >= Area(n - i, size)
      invariant |buf| >= Area(n, size) ==> done + ParseRows(rest, desc, n - i) == ParseRows(buf, desc, n)
    {
      var row, rest' := ReadTupleFrom(rest, desc);
      AreaStep(n - i, size);
      if row.None? || i >= |slots| {
        return false, slots;
      }
      ghost var done' := done + [row.value];
      if |buf| >= Area(n, size) {
        ParseRowsCons(rest, desc, n - i);
        assert done + ([row.value] + ParseRows(rest', desc, n - i - 1)) == done' + ParseRows(rest', desc, n - i - 1);
      }
      FileOne(done, row.value, pageNo, start);
      slots := slots[i := Some(Tuple(row.value, Some(RecordID(pageNo, i))))];
      done, rest := done', rest';
    }
    AreaStep(0, size);
    assert |buf| >= Area(n, size) ==> done == ParseRows(buf, desc, n);
    ok := true;
  }

  lemma AreaStep(n: nat, size: nat)
    ensures Area(n, size) == if n == 0 then 0 else size + Area(n - 1, size)
  {
  }

  lemma NoneFiled(pageNo: nat, start: Slots)
    ensures Filed([], pageNo) + start[0..] == start
  {
  }

  /** Filing one more row in the next slot. */
  lemma FileOne(done: seq<Row>, row: Row, pageNo: nat, start: Slots)
    requires |done| < |start|
    ensures (Filed(done, pageNo) + start[|done|..])[|done| := Some(Tuple(row, Some(RecordID(pageNo, |done|))))] ==
      Filed(done + [row], pageNo) + start[|done| + 1..]
  {
  }
}
