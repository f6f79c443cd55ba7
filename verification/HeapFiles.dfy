/**
  Heap files: pages on disk, first-fit insertion, deletion by record id, and what eviction and
  reloading of a clean page does to the rows of a file.
 */
module HeapFiles {
  import opened Values
  import opened TupleCodec
  import opened HeapPages

  // ---- The file on disk ----

  /** Overwrite from `offset` on; a gap is filled with NULs. */
  function WriteAt(disk: Bytes, offset: nat, data: Bytes): Bytes {
    (if |disk| < offset then disk + Zeros(offset - |disk|) else disk[..offset]) + data +
    (if |disk| > offset + |data| then disk[offset + |data|..] else [])
  }

  function NumPages(disk: Bytes): nat {
    |disk| / PageSize
  }

  function PageAt(disk: Bytes, k: nat): (b: Bytes)
    requires k < NumPages(disk)
    ensures |b| == PageSize
  {
    disk[k * PageSize..(k + 1) * PageSize]
  }

  /** Flushing page `k` replaces that page, keeps the others and appends at most up to `k`. */
  lemma FlushedPage(disk: Bytes, k: nat, data: Bytes)
    requires |disk| % PageSize == 0 && |data| == PageSize
    ensures var disk' := WriteAt(disk, k * PageSize, data);
      && |disk'| % PageSize == 0
      && NumPages(disk') == (if k < NumPages(disk) then NumPages(disk) else k + 1)
      && PageAt(disk', k) == data
      && forall j | 0 <= j < NumPages(disk) && j != k :: PageAt(disk', j) == PageAt(disk, j)
  {
    hide WriteAt;
    var disk' := WriteAt(disk, k * PageSize, data);
    WriteAtSize(disk, k * PageSize, data);
    WriteAtHere(disk, k * PageSize, data);
    assert |disk'| == PageSize * (if k < NumPages(disk) then NumPages(disk) else k + 1);
    forall j | 0 <= j < NumPages(disk) && j != k
      ensures PageAt(disk', j) == PageAt(disk, j)
    {
      UntouchedPage(disk, k, data, j);
    }
  }

  lemma UntouchedPage(disk: Bytes, k: nat, data: Bytes, j: nat)
    requires |disk| % PageSize == 0 && |data| == PageSize && j < NumPages(disk) && j != k
    ensures j < NumPages(WriteAt(disk, k * PageSize, data))
    ensures PageAt(WriteAt(disk, k * PageSize, data), j) == PageAt(disk, j)
  {
    hide WriteAt;
    var disk' := WriteAt(disk, k * PageSize, data);
    WriteAtSize(disk, k * PageSize, data);
    forall q | 0 <= q < PageSize
      ensures PageAt(disk', j)[q] == PageAt(disk, j)[q]
    {
      WriteAtIndex(disk, k * PageSize, data, j * PageSize + q);
    }
  }

  lemma WriteAtSize(disk: Bytes, offset: nat, data: Bytes)
    ensures |WriteAt(disk, offset, data)| == if |disk| < offset + |data| then offset + |data| else |disk|
  {
  }

  lemma WriteAtIndex(disk: Bytes, offset: nat, data: Bytes, i: nat)
    requires i < |disk| && (i < offset || offset + |data| <= i)
    ensures i < |WriteAt(disk, offset, data)| && WriteAt(disk, offset, data)[i] == disk[i]
  {
  }

  lemma WriteAtHere(disk: Bytes, offset: nat, data: Bytes)
    ensures offset + |data| <= |WriteAt(disk, offset, data)|
    ensures WriteAt(disk, offset, data)[offset..offset + |data|] == data
  {
  }

  /** Slots per page, as the page constructor computes them. */
  function SlotsPerPage(desc: Desc): (n: nat)
    requires TupleSize(desc) > 0
  {
    (PageSize - HeaderSize) / TupleSize(desc)
  }

  /** The slots a page gets from its bytes. */
  function LoadedSlots(b: Bytes, desc: Desc, pageNo: nat, n: nat): (slots: Slots)
    requires |b| >= 8 && Announces(b, n, desc)
    ensures |slots| == n
  {
    var used := BytesInt32(b[4..8]);
    if used <= 0 then Empty(n) else Filed(ParseRows(b[8..], desc, used), pageNo) + Empty(n - used)
  }

  /**
    Storing and loading a page keeps its rows in order, packs them into the first slots with
    matching record ids, and a second store writes the same bytes.
   */
  lemma ReloadedPage(rows: seq<Row>, desc: Desc, pageNo: nat)
    requires TupleSize(desc) > 0 && AllConform(rows, desc) && |rows| <= SlotsPerPage(desc)
    ensures AllFit(rows) && HeaderSize + |RowsBytes(rows)| <= PageSize && SlotsPerPage(desc) <= PageSize
    ensures var n := SlotsPerPage(desc);
      var b := PageBytes(n, |rows|, rows);
      && BytesInt32(b[..4]) == n && BytesInt32(b[4..8]) == |rows| && Announces(b, n, desc)
      && var slots := LoadedSlots(b, desc, pageNo, n);
      && slots == Filed(StoredRows(rows), pageNo) + Empty(n - |rows|)
      && (forall i | 0 <= i < n ::
            slots[i] == if i < |rows| then Some(Tuple(StoredRows(rows)[i], Some(RecordID(pageNo, i)))) else None)
      && Numbered(slots, pageNo) && Occupied(slots) == StoredRows(rows)
      && AllFit(Occupied(slots)) && RowsBytes(Occupied(slots)) == RowsBytes(rows)
      && PageBytes(n, |Occupied(slots)|, Occupied(slots)) == b
  {
    var n := SlotsPerPage(desc);
    SlotsBound(TupleSize(desc));
    AreaMonotone(|rows|, n, TupleSize(desc));
    RowsBytesSize(rows, desc);
    hide AllConform, AllFit, ParseRows, RowsBytes, Int32Bytes, BytesInt32, TupleSize, PageBytes, Occupied;
    PageRoundTrip(n, rows, desc);
    var b := PageBytes(n, |rows|, rows);
    var slots := LoadedSlots(b, desc, pageNo, n);
    assert slots == Filed(StoredRows(rows), pageNo) + Empty(n - |rows|);
    OccupiedFiled(StoredRows(rows), pageNo, n - |rows|);
    PageBytesOf(n, rows, StoredRows(rows));
  }

  lemma PageBytesOf(n: Int32, rows: seq<Row>, rows': seq<Row>)
    requires AllFit(rows) && AllFit(rows') && |rows| == |rows'| <= PageSize
    requires RowsBytes(rows) == RowsBytes(rows') && HeaderSize + |RowsBytes(rows)| <= PageSize
    ensures PageBytes(n, |rows|, rows) == PageBytes(n, |rows'|, rows')
  {
  }

  lemma {:induction false} AreaMonotone(n: nat, m: nat, size: nat)
    requires n <= m
    ensures Area(n, size) <= Area(m, size)
  {
    if n < m {
      AreaMonotone(n, m - 1, size);
    }
  }

  /** `flushPage`: write the page at its place and mark it clean; nothing is written on failure. */
  method FlushPage(disk: Bytes, p: HeapPage) returns (ok: bool, disk': Bytes)
    requires p.Valid()
    modifies p`dirty
    ensures ok <==> AllFit(Occupied(p.tuples)) && HeaderSize + |RowsBytes(Occupied(p.tuples))| <= PageSize
    ensures ok ==> !p.dirty && disk' == WriteAt(disk, p.pageNo * PageSize, PageBytes(p.totalSlots, p.usedSlots, Occupied(p.tuples)))
    ensures !ok ==> disk' == disk && p.dirty == old(p.dirty)
  {
    var b := p.ToBuffer();
    if b.None? {
      return false, disk;
    }
    p.dirty := false;
    return true, WriteAt(disk, p.pageNo * PageSize, b.value);
  }

  /** `readPage`: a new page object with the slots stored on disk, or nothing. */
  method ReadPage(disk: Bytes, desc: Desc, pageNo: nat) returns (p: HeapPage?)
    requires TupleSize(desc) > 0
    ensures p != null <==> pageNo < NumPages(disk) && Announces(PageAt(disk, pageNo), SlotsPerPage(desc), desc)
    ensures p != null ==>
      && fresh(p) && p.desc == desc && p.pageNo == pageNo && !p.dirty
      && p.totalSlots == BytesInt32(PageAt(disk, pageNo)[..4]) && p.usedSlots == BytesInt32(PageAt(disk, pageNo)[4..8])
      && p.tuples == LoadedSlots(PageAt(disk, pageNo), desc, pageNo, SlotsPerPage(desc))
  {
    if pageNo >= NumPages(disk) {
      return null;
    }
    var page := new HeapPage(desc, pageNo);
    var ok := page.InitFromBuffer(PageAt(disk, pageNo));
    if !ok {
      return null;
    }
    assert page.usedSlots > 0 ==> Empty(SlotsPerPage(desc))[page.usedSlots..] == Empty(SlotsPerPage(desc) - page.usedSlots);
    p := page;
  }

  // ---- What a file holds ----

  type Layout = seq<Slots>

  /** All rows of the file in page and slot order. */
  function AllRows(file: Layout): seq<Row> {
    if file == [] then [] else Occupied(file[0]) + AllRows(file[1..])
  }

  predicate Full(slots: Slots) {
    FirstFree(slots) == |slots|
  }

  /** The first page where an insert stops: it has a free slot, or getting it fails. */
  function FirstStop(file: Layout, stuck: set<nat>, from: nat): (k: nat)
    requires from <= |file|
    ensures from <= k <= |file|
    ensures forall i | from <= i < k :: Full(file[i]) && i !in stuck
    ensures k < |file| ==> !Full(file[k]) || k in stuck
    decreases |file| - from
  {
    if from == |file| || from in stuck || !Full(file[from]) then from else FirstStop(file, stuck, from + 1)
  }

  function PutRow(slots: Slots, pageNo: nat, row: Row): (slots': Slots)
    ensures |slots'| == |slots|
  {
    var k := FirstFree(slots);
    if k < |slots| then slots[k := Some(Tuple(row, Some(RecordID(pageNo, k))))] else slots
  }

  /** The file after an insert, with `n` slots in a new page, and whether the insert reported success. */
  function Insert(file: Layout, row: Row, stuck: set<nat>, n: nat): (r: (Layout, bool)) {
    var k := FirstStop(file, stuck, 0);
    var file' := if k < |file| then file else file + [Empty(n)];
    if k in stuck then (file', false) else (file'[k := PutRow(file'[k], k, row)], true)
  }

  lemma {:induction false} AllRowsConcat(a: Layout, b: Layout)
    ensures AllRows(a + b) == AllRows(a) + AllRows(b)
  {
    if a == [] {
      assert a + b == b;
    } else {
      assert (a + b)[1..] == a[1..] + b;
      AllRowsConcat(a[1..], b);
      assert AllRows(a + b) == Occupied(a[0]) + (AllRows(a[1..]) + AllRows(b));
    }
  }

  lemma AllRowsUpdate(file: Layout, k: nat, slots: Slots)
    requires k < |file|
    ensures AllRows(file) == AllRows(file[..k]) + Occupied(file[k]) + AllRows(file[k + 1..])
    ensures AllRows(file[k := slots]) == AllRows(file[..k]) + Occupied(slots) + AllRows(file[k + 1..])
  {
    AllRowsSplit(file, k);
    AllRowsSplit(file[k := slots], k);
    assert file[k := slots][..k] == file[..k] && file[k := slots][k + 1..] == file[k + 1..];
  }

  lemma AllRowsSplit(file: Layout, k: nat)
    requires k < |file|
    ensures AllRows(file) == AllRows(file[..k]) + Occupied(file[k]) + AllRows(file[k + 1..])
  {
    hide Occupied, AllRows;
    SplitAround(file, k);
    AllRowsAround(file[..k], file[k], file[k + 1..]);
  }

  lemma SplitAround(file: Layout, k: nat)
    requires k < |file|
    ensures file[..k] + [file[k]] + file[k + 1..] == file
  {
  }

  lemma AllRowsAround(a: Layout, slots: Slots, c: Layout)
    ensures AllRows(a + [slots] + c) == AllRows(a) + Occupied(slots) + AllRows(c)
  {
    hide Occupied, AllRows;
    AllRowsConcat(a + [slots], c);
    AllRowsConcat(a, [slots]);
    AllRowsSingle(slots);
  }

  lemma AllRowsSingle(slots: Slots)
    ensures AllRows([slots]) == Occupied(slots)
  {
    hide Occupied;
    assert AllRows([slots][1..]) == [];
  }

  lemma PutRowAdds(slots: Slots, pageNo: nat, row: Row)
    requires !Full(slots)
    ensures multiset(Occupied(PutRow(slots, pageNo, row))) == multiset(Occupied(slots)) + multiset{row}
  {
    var k := FirstFree(slots);
    var v := Some(Tuple(row, Some(RecordID(pageNo, k))));
    OccupiedUpdate(slots, k, v);
    var a, b := Occupied(slots[..k]), Occupied(slots[k + 1..]);
    assert Occupied(slots) == a + b;
    assert Occupied(slots[k := v]) == a + [row] + b;
    hide Occupied, FirstFree;
  }

  lemma EmptyPageNotFull(n: nat)
    ensures Full(Empty(n)) <==> n == 0
  {
  }

  lemma ExtendKeepsRows(file: Layout, n: nat)
    ensures AllRows(file + [Empty(n)]) == AllRows(file)
  {
    hide Occupied, AllRows;
    AllRowsConcat(file, [Empty(n)]);
    AllRowsSingle(Empty(n));
    OccupiedEmpty(n);
  }

  lemma PutKeepsOthers(file: Layout, k: nat, row: Row)
    requires k < |file|
    ensures multiset(AllRows(file[k := PutRow(file[k], k, row)])) ==
      multiset(AllRows(file)) + (if Full(file[k]) then multiset{} else multiset{row})
  {
    hide Occupied, AllRows, FirstFree;
    var slots := PutRow(file[k], k, row);
    if Full(file[k]) {
      assert file[k := slots] == file;
    } else {
      AllRowsUpdate(file, k, slots);
      PutRowAdds(file[k], k, row);
      MultisetMiddle(AllRows(file[..k]), Occupied(file[k]), Occupied(slots), AllRows(file[k + 1..]), row);
    }
  }

  lemma MultisetMiddle(a: seq<Row>, b: seq<Row>, b': seq<Row>, c: seq<Row>, row: Row)
    requires multiset(b') == multiset(b) + multiset{row}
    ensures multiset(a + b' + c) == multiset(a + b + c) + multiset{row}
  {
  }

  /**
    An insert that reports success adds exactly the row when pages have at least one slot, and
    nothing when they have none; one that reports an error leaves the rows as they were.
   */
  lemma InsertConserves(file: Layout, row: Row, stuck: set<nat>, n: nat)
    requires forall i | 0 <= i < |file| :: |file[i]| == n
    ensures var (file', ok) := Insert(file, row, stuck, n);
      multiset(AllRows(file')) == multiset(AllRows(file)) + (if ok && n > 0 then multiset{row} else multiset{})
  {
    hide Occupied, AllRows, PutRow, FirstFree;
    var k := FirstStop(file, stuck, 0);
    var file' := if k < |file| then file else file + [Empty(n)];
    ExtendKeepsRows(file, n);
    EmptyPageNotFull(n);
    if k !in stuck {
      assert Full(file'[k]) <==> n == 0;
      PutKeepsOthers(file', k, row);
    }
  }

  /**
    Where an insert lands: all pages before `k` are full and handed out; page `k` has a free slot
    or is new; the row goes into its first free slot, if it has one, and nothing else changes.
   */
  ghost predicate Landed(file: Layout, row: Row, stuck: set<nat>, n: nat, file': Layout, ok: bool, k: nat) {
    && k <= |file| && |file'| == (if k == |file| then |file| + 1 else |file|)
    && (forall i | 0 <= i < k :: i !in stuck && forall q | 0 <= q < |file[i]| :: file[i][q].Some?)
    && (forall i | 0 <= i < |file| && i != k :: file'[i] == file[i])
    && (ok <==> k !in stuck)
    && (ok && k < |file| ==> exists q | 0 <= q < |file[k]| :: file[k][q].None?)
    && var page := if k < |file| then file[k] else seq(n, i => None);
    if ok && (n > 0 || k < |file|) then
      exists q: nat ::
        && q < |page| && page[q].None? && (forall i | 0 <= i < q :: page[i].Some?)
        && file'[k] == page[q := Some(Tuple(row, Some(RecordID(k, q))))]
    else
      file'[k] == page
  }

  lemma InsertLands(file: Layout, row: Row, stuck: set<nat>, n: nat)
    ensures var (file', ok) := Insert(file, row, stuck, n); Landed(file, row, stuck, n, file', ok, FirstStop(file, stuck, 0))
  {
    hide FirstStop;
    var k := FirstStop(file, stuck, 0);
    var page := if k < |file| then file[k] else Empty(n);
    assert Empty(n) == seq(n, i => None);
    EmptyPageNotFull(n);
    var q := FirstFree(page);
    forall i | 0 <= i < k
      ensures i !in stuck && forall q | 0 <= q < |file[i]| :: file[i][q].Some?
    {
      assert Full(file[i]);
    }
  }

  /** A success that stores nothing: a descriptor too wide for any slot. */
  lemma InsertCanLoseRows(row: Row)
    ensures var wide := seq(128, i => StringType); TupleSize(wide) > 0 && SlotsPerPage(wide) == 0
    ensures Insert([], row, {}, 0) == ([[]], true) && AllRows([[]]) == []
  {
    TupleSizeOfStrings(128);
    var wide := seq(128, i => StringType);
    assert Empty(0) == [];
    assert Insert([], row, {}, 0).0 == [[]];
  }

  lemma {:induction false} TupleSizeOfStrings(n: nat)
    ensures TupleSize(seq(n, i => StringType)) == 32 * n
  {
    if n > 0 {
      assert seq(n, i => StringType)[1..] == seq((n - 1) as nat, i => StringType);
      TupleSizeOfStrings(n - 1);
    }
  }

  lemma InsertStuck(file: Layout, row: Row, stuck: set<nat>, n: nat)
    requires FirstStop(file, stuck, 0) in stuck
    ensures Insert(file, row, stuck, n) == (if FirstStop(file, stuck, 0) < |file| then file else file + [Empty(n)], false)
  {
  }

  lemma InsertFits(file: Layout, row: Row, stuck: set<nat>, n: nat)
    requires FirstStop(file, stuck, 0) !in stuck
    ensures var k := FirstStop(file, stuck, 0);
      var file' := if k < |file| then file else file + [Empty(n)];
      Insert(file, row, stuck, n) == (file'[k := PutRow(file'[k], k, row)], true)
  {
  }

  lemma PutInFull(file: Layout, i: nat, row: Row)
    requires i < |file| && Full(file[i])
    ensures file[i := PutRow(file[i], i, row)] == file
  {
  }

  lemma WriteAtEnd(disk: Bytes, data: Bytes)
    ensures WriteAt(disk, |disk|, data) == disk + data
  {
  }

  /** The bytes of an empty page load as an empty page. */
  lemma BlankBytes(desc: Desc, k: nat)
    requires TupleSize(desc) > 0
    ensures AllFit([]) && RowsBytes([]) == [] && SlotsPerPage(desc) <= PageSize
    ensures var n := SlotsPerPage(desc);
      var b := PageBytes(n, 0, []);
      && BytesInt32(b[..4]) == n && BytesInt32(b[4..8]) == 0 && Announces(b, n, desc)
      && LoadedSlots(b, desc, k, n) == Empty(n) && Numbered(Empty(n), k)
  {
    hide TupleSize, AllFit, AllConform, RowsBytes, PageBytes, ParseRows, Occupied, BytesInt32, Announces, LoadedSlots, Numbered;
    NoRows(desc);
    ReloadedPage([], desc, k);
    assert Filed(StoredRows([]), k) + Empty(SlotsPerPage(desc)) == Empty(SlotsPerPage(desc));
  }

  /** An empty page can be written behind the last one and comes back empty. */
  lemma BlankPage(desc: Desc, k: nat, disk: Bytes)
    requires TupleSize(desc) > 0 && |disk| == k * PageSize
    ensures AllFit([]) && RowsBytes([]) == [] && SlotsPerPage(desc) <= PageSize
    ensures var n := SlotsPerPage(desc);
      var b := PageBytes(n, 0, []);
      var disk' := WriteAt(disk, k * PageSize, b);
      && |disk'| == (k + 1) * PageSize && PageAt(disk', k) == b && disk' == disk + b
      && BytesInt32(b[..4]) == n && BytesInt32(b[4..8]) == 0 && Announces(b, n, desc)
      && LoadedSlots(b, desc, k, n) == Empty(n) && Numbered(Empty(n), k)
  {
    hide TupleSize, AllFit, RowsBytes, PageBytes, WriteAt, PageAt, BytesInt32, Announces, LoadedSlots, Numbered, SlotsPerPage;
    BlankBytes(desc, k);
    var b := PageBytes(SlotsPerPage(desc), 0, []);
    WriteAtEnd(disk, b);
    FlushedPage(disk, k, b);
  }

  /** Eviction and reload of page `k` keep the rows of the file in order, if none of its strings ends in a NUL. */
  lemma ReloadKeepsRows(file: Layout, k: nat, slots: Slots, desc: Desc)
    requires k < |file| && AllConform(Occupied(file[k]), desc) && Occupied(slots) == StoredRows(Occupied(file[k]))
    ensures |AllRows(file[k := slots])| == |AllRows(file)|
    ensures (forall r | r in Occupied(file[k]) :: NoTrailingNuls(r)) ==> AllRows(file[k := slots]) == AllRows(file)
  {
    hide AllRows, Occupied, AllConform, NoTrailingNuls;
    AllRowsUpdate(file, k, slots);
    RowsSurvive(Occupied(file[k]), desc);
  }

  // ---- The file object ----

  /** `pages[i]` is the page object that the pool hands out for page `i`. */
  class HeapFile {
    const desc: Desc
    var disk: Bytes
    var pages: seq<HeapPage>

    ghost predicate Valid()
      reads this, pages
    {
      && TupleSize(desc) > 0
      && |disk| == |pages| * PageSize
      && (forall i, j | 0 <= i < j < |pages| :: pages[i] != pages[j])
      && (forall i | 0 <= i < |pages| :: PageOk(pages[i], i))
    }

    ghost predicate PageOk(p: HeapPage, i: nat)
      requires TupleSize(desc) > 0
      reads p
    {
      p.Valid() && p.pageNo == i && p.desc == desc && |p.tuples| == SlotsPerPage(desc)
    }

    ghost function Shape(): (file: Layout)
      reads this, pages
      ensures |file| == |pages|
    {
      seq(|pages|, i requires 0 <= i < |pages| reads this, pages => pages[i].tuples)
    }

    constructor (desc: Desc)
      requires TupleSize(desc) > 0
      ensures Valid() && Shape() == [] && this.desc == desc
    {
      this.desc, disk, pages := desc, [], [];
    }

    /** Write an empty page at the end of the file and load it. */
    method Extend()
      requires Valid()
      modifies this
      ensures Valid() && |pages| == |old(pages)| + 1 && pages[..|old(pages)|] == old(pages) && fresh(pages[|old(pages)|])
      ensures Shape() == old(Shape()) + [Empty(SlotsPerPage(desc))]
      ensures |disk| == |old(disk)| + PageSize && disk[..|old(disk)|] == old(disk)
    {
      hide LoadedSlots, Occupied, Announces, RowsBytes, AllFit, AllConform, PageBytes, WriteAt, PageAt, TupleSize;
      var k := NumPages(disk);
      assert k == |pages|;
      OccupiedEmpty(SlotsPerPage(desc));
      BlankPage(desc, k, disk);
      var blank := new HeapPage(desc, k);
      var ok, disk' := FlushPage(disk, blank);
      var page := ReadPage(disk', desc, k);
      assert PageOk(page, k);
      disk, pages := disk', pages + [page];
      assert forall i | 0 <= i < |pages| :: PageOk(pages[i], i);
      assert Shape() == old(Shape()) + [Empty(SlotsPerPage(desc))];
    }

    /**
      Put the row in the first free slot of the first page that has one, or in a new page.
      `stuck` are the pages that the pool refuses to hand out.
     */
    method InsertTuple(row: Row, stuck: set<nat>) returns (ok: bool)
      requires Valid()
      modifies this, pages
      ensures Valid()
      ensures (Shape(), ok) == Insert(old(Shape()), row, stuck, SlotsPerPage(desc))
      ensures |old(disk)| <= |disk| && disk[..|old(disk)|] == old(disk)
      ensures exists k :: Landed(old(Shape()), row, stuck, SlotsPerPage(desc), Shape(), ok, k)
    {
      hide Insert, PutRow, SlotsPerPage, Landed;
      ghost var file := Shape();
      InsertLands(file, row, stuck, SlotsPerPage(desc));
      var numPages := NumPages(disk);
      for i := 0 to numPages
        invariant Valid() && Shape() == file && numPages == |pages| && pages == old(pages) && disk == old(disk)
        invariant i <= FirstStop(file, stuck, 0)
      {
        if i in stuck {
          InsertStuck(file, row, stuck, SlotsPerPage(desc));
          return false;
        }
        var done := InsertInto(i, row);
        if done {
          InsertFits(file, row, stuck, SlotsPerPage(desc));
          return true;
        }
        PutInFull(file, i, row);
      }
      Extend();
      if numPages in stuck {
        InsertStuck(file, row, stuck, SlotsPerPage(desc));
        return false;
      }
      var done := InsertInto(numPages, row);
      InsertFits(file, row, stuck, SlotsPerPage(desc));
      return true;
    }

    /** Try one page. */
    method InsertInto(i: nat, row: Row) returns (done: bool)
      requires Valid() && i < |pages|
      modifies pages[i]
      ensures Valid()
      ensures Shape() == old(Shape())[i := PutRow(old(Shape())[i], i, row)]
      ensures done <==> !Full(old(Shape())[i])
    {
      hide FirstFree, Occupied, Numbered;
      ghost var file := Shape();
      assert PageOk(pages[i], i);
      var rid := pages[i].InsertTuple(row);
      done := rid.Some?;
      assert forall k | 0 <= k < |pages| :: Shape()[k] == file[i := PutRow(file[i], i, row)][k];
    }

    /**
      Drop a clean page from the cache and load it again.  Its rows are packed into the first
      slots and keep their order; all other pages stay.
     */
    method Reload(k: nat)
      requires Valid() && k < |pages| && !pages[k].dirty && Stored(k)
      modifies this`pages
      ensures Valid() && pages == old(pages)[k := pages[k]] && fresh(pages[k]) && Shape() == old(Shape())[k := Shape()[k]]
      ensures Occupied(Shape()[k]) == StoredRows(Occupied(old(Shape())[k]))
    {
      hide LoadedSlots, Announces, RowsBytes, AllFit, AllConform, PageBytes, PageAt, TupleSize, FirstFree;
      assert PageOk(pages[k], k);
      ghost var rows := Occupied(pages[k].tuples);
      ReloadedPage(rows, desc, k);
      var page := ReadPage(disk, desc, k);
      assert page.tuples == Filed(StoredRows(rows), k) + Empty(SlotsPerPage(desc) - |rows|);
      assert PageOk(page, k);
      pages := pages[k := page];
      assert Shape() == old(Shape())[k := page.tuples];
    }

    /** The disk holds the bytes of page `k`, as it does from a flush until the page is next written. */
    ghost predicate Stored(k: nat)
      requires k < |pages| && |disk| == |pages| * PageSize
      reads this, pages
    {
      var p := pages[k];
      var rows := Occupied(p.tuples);
      && AllConform(rows, desc) && AllFit(rows) && HeaderSize + |RowsBytes(rows)| <= PageSize
      && PageAt(disk, k) == PageBytes(p.totalSlots, p.usedSlots, rows)
    }

    /** Clear the slot that the tuple's record id names; it reports success even when that slot is empty. */
    method DeleteTuple(t: Tuple, stuck: set<nat>) returns (ok: bool)
      requires Valid()
      modifies pages
      ensures Valid()
      ensures ok <==> t.rid.Some? && t.rid.value.pageNo < |pages| && t.rid.value.pageNo !in stuck
      ensures Shape() == if ok then Cleared(old(Shape()), t.rid.value) else old(Shape())
      ensures |Shape()| == |old(Shape())| && forall p | 0 <= p < |Shape()| ::
        |Shape()[p]| == |old(Shape())[p]| && forall q | 0 <= q < |Shape()[p]| ::
          Shape()[p][q] == if ok && p == t.rid.value.pageNo && q == t.rid.value.slotNo then None else old(Shape())[p][q]
    {
      if t.rid.None? || t.rid.value.pageNo >= |pages| || t.rid.value.pageNo in stuck {
        return false;
      }
      hide FirstFree, Occupied, Numbered, SlotsPerPage;
      var rid := t.rid.value;
      ghost var file := Shape();
      assert PageOk(pages[rid.pageNo], rid.pageNo);
      var found := pages[rid.pageNo].DeleteTuple(rid);
      assert Shape()[rid.pageNo] == Cleared(file, rid)[rid.pageNo];
      assert forall k | 0 <= k < |pages| :: Shape()[k] == Cleared(file, rid)[k];
      return true;
    }
  }

  function Cleared(file: Layout, rid: RecordID): (file': Layout)
    ensures |file'| == |file|
  {
    if rid.pageNo < |file| && rid.slotNo < |file[rid.pageNo]|
    then file[rid.pageNo := file[rid.pageNo][rid.slotNo := None]] else file
  }
}
