/**
  Deleting the rows of a filtered scan from the file being scanned: the pages change under the
  iterator, and still exactly the rows that satisfy the filter disappear, up to the first page
  that the pool refuses to hand out.
 */
module DeleteScan {
  import opened Values
  import opened HeapPages
  import opened HeapFiles

  predicate Hits(pred: Row -> bool, slot: Option<Tuple>) {
    slot.Some? && pred(slot.value.row)
  }

  /** Slot `q` of page `p` comes before slot `j` of page `i`. */
  predicate Earlier(p: nat, q: nat, i: nat, j: nat) {
    p < i || (p == i && q < j)
  }

  predicate InFile(file: Layout, p: nat, q: nat) {
    p < |file| && q < |file[p]|
  }

  /** No slot from `(i0, j0)` on and before `(i, j)` holds a wanted row. */
  ghost predicate NoHits(file: Layout, pred: Row -> bool, i0: nat, j0: nat, i: nat, j: nat) {
    forall p: nat, q: nat | InFile(file, p, q) && !Earlier(p, q, i0, j0) && Earlier(p, q, i, j) :: !Hits(pred, file[p][q])
  }

  function Anything(row: Row): bool {
    true
  }

  /** The position just behind slot `(i, j - 1)`, which holds `t`. */
  ghost predicate Stands(file: Layout, i: nat, j: nat, t: Tuple) {
    j > 0 && InFile(file, i, j - 1) && file[i][j - 1] == Some(t)
  }

  /** The first page from `from` on that the pool refuses, or the end of the file. */
  function FirstIn(stuck: set<nat>, from: nat, n: nat): (k: nat)
    ensures from <= k && (k < n ==> k in stuck) && (from <= n ==> k <= n)
    ensures forall i | from <= i < k :: i !in stuck && i < n
    decreases if from < n then n - from else 0
  {
    if from >= n || from in stuck then from else FirstIn(stuck, from + 1, n)
  }

  lemma {:induction false} FirstInFrom(stuck: set<nat>, from: nat, i: nat, n: nat)
    requires from <= i <= FirstIn(stuck, from, n)
    ensures FirstIn(stuck, i, n) == FirstIn(stuck, from, n)
    decreases i - from
  {
    if from < i {
      FirstInFrom(stuck, from + 1, i, n);
    }
  }

  /**
    From `(i0, j0)` the first wanted row is `t`, just before `(i, j)`, or there is none before
    page `end`, where the scan stands now.
   */
  ghost predicate Delivered(file: Layout, pred: Row -> bool, end: nat, i0: nat, j0: nat, i: nat, j: nat, t: Option<Tuple>) {
    if t.Some? then
      && Stands(file, i, j, t.value) && pred(t.value.row) && i < end
      && !Earlier(i, j - 1, i0, j0) && NoHits(file, pred, i0, j0, i, j - 1)
    else
      Stopped(end, i0, j0, i, j) && NoHits(file, pred, i0, j0, i, j)
  }

  /** The scan stands at the start of page `end`, unless it was there already. */
  predicate Stopped(end: nat, i0: nat, j0: nat, i: nat, j: nat) {
    i == end && (if i == i0 then j == j0 else j == 0)
  }

  /** `HeapFile.Iterator`: the closure variables are the next page and slot. */
  class FileScan {
    const file: HeapFile
    var i: nat
    var j: nat

    constructor (file: HeapFile)
      ensures this.file == file && i == 0 && j == 0
    {
      this.file, i, j := file, 0, 0;
    }

    /**
      Deliver the next occupied slot, or nothing once every later slot up to the first page of
      `stuck` is empty; it is a failure when there is such a page.
     */
    method Next(stuck: set<nat>) returns (t: Option<Tuple>, failed: bool)
      requires file.Valid()
      modifies this
      ensures Delivered(file.Shape(), Anything, FirstIn(stuck, old(i), |file.pages|), old(i), old(j), i, j, t)
      ensures failed <==> t.None? && i < |file.pages|
    {
      hide NoHits, Earlier, FirstIn;
      ghost var shape, i0, j0 := file.Shape(), i, j;
      NoHitsYet(shape, Anything, i, j);
      var page := NumPages(file.disk);
      while i < page
        invariant i0 <= i <= FirstIn(stuck, i0, page) && (if i == i0 then j == j0 else j == 0)
        invariant !Earlier(i, j, i0, j0) && NoHits(shape, Anything, i0, j0, i, j)
        decreases page - i
      {
        FirstInFrom(stuck, i0, i, page);
        if i in stuck {
          FirstInHere(stuck, i, page);
          return None, true;
        }
        FirstInLater(stuck, i, page);
        var heapPage := file.pages[i];
        assert file.PageOk(heapPage, i) && heapPage.tuples == shape[i];
        ghost var here := i;
        while j < heapPage.totalSlots
          invariant i == here && !Earlier(i, j, i0, j0) && NoHits(shape, Anything, i0, j0, i, j)
        {
          if heapPage.tuples[j].Some? {
            t := heapPage.tuples[j];
            j := j + 1;
            return t, false;
          } else {
            NoHitsSlot(shape, Anything, i0, j0, i, j);
            j := j + 1;
          }
        }
        NoHitsPage(shape, Anything, i0, j0, i, j);
        j := 0;
        i := i + 1;
      }
      FirstInFrom(stuck, i0, i, page);
      FirstInHere(stuck, i, page);
      return None, false;
    }
  }

  lemma FirstInHere(stuck: set<nat>, i: nat, n: nat)
    requires i >= n || i in stuck
    ensures FirstIn(stuck, i, n) == i
  {
  }

  lemma FirstInLater(stuck: set<nat>, i: nat, n: nat)
    requires i < n && i !in stuck
    ensures i + 1 <= FirstIn(stuck, i, n)
  {
  }

  lemma NoHitsYet(file: Layout, pred: Row -> bool, i: nat, j: nat)
    ensures NoHits(file, pred, i, j, i, j) && !Earlier(i, j, i, j)
  {
  }

  lemma NoHitsSlot(file: Layout, pred: Row -> bool, i0: nat, j0: nat, i: nat, j: nat)
    requires NoHits(file, pred, i0, j0, i, j) && !Earlier(i, j, i0, j0) && (InFile(file, i, j) ==> !Hits(pred, file[i][j]))
    ensures NoHits(file, pred, i0, j0, i, j + 1) && !Earlier(i, j + 1, i0, j0)
  {
  }

  lemma NoHitsPage(file: Layout, pred: Row -> bool, i0: nat, j0: nat, i: nat, j: nat)
    requires NoHits(file, pred, i0, j0, i, j) && !Earlier(i, j, i0, j0) && i < |file| && j >= |file[i]|
    ensures NoHits(file, pred, i0, j0, i + 1, 0) && !Earlier(i + 1, 0, i0, j0)
  {
  }

  lemma NoHitsJoin(file: Layout, pred: Row -> bool, i0: nat, j0: nat, i: nat, j: nat, i': nat, j': nat)
    requires NoHits(file, pred, i0, j0, i, j) && NoHits(file, Anything, i, j, i', j')
    ensures NoHits(file, pred, i0, j0, i', j')
  {
    forall p: nat, q: nat | InFile(file, p, q) && !Earlier(p, q, i0, j0) && Earlier(p, q, i', j')
      ensures !Hits(pred, file[p][q])
    {
      if !Earlier(p, q, i, j) {
        assert !Hits(Anything, file[p][q]);
      }
    }
  }

  /** `Filter.Iterator` over a file scan. */
  class FilterScan {
    const scan: FileScan
    const pred: Row -> bool

    constructor (scan: FileScan, pred: Row -> bool)
      ensures this.scan == scan && this.pred == pred
    {
      this.scan, this.pred := scan, pred;
    }

    /**
      Deliver the next row that satisfies the predicate.  A failure of the scan is passed on
      only if it comes first; after a row that was skipped it looks like the end.
     */
    method Next(stuck: set<nat>) returns (t: Option<Tuple>, failed: bool)
      requires scan.file.Valid()
      modifies scan
      ensures Delivered(scan.file.Shape(), pred, FirstIn(stuck, old(scan.i), |scan.file.pages|),
                old(scan.i), old(scan.j), scan.i, scan.j, t)
      ensures failed ==> t.None? && scan.i < |scan.file.pages|
    {
      hide *;
      ghost var shape, i0, j0 := scan.file.Shape(), scan.i, scan.j;
      ghost var end := FirstIn(stuck, i0, |scan.file.pages|);
      t, failed := scan.Next(stuck);
      SeenFirst(shape, pred, end, i0, j0, scan.i, scan.j, t);
      if failed {
        SeenEnd(shape, pred, end, i0, j0, scan.i, scan.j);
        return;
      }
      while t.Some?
        invariant Seen(shape, pred, end, i0, j0, scan.i, scan.j, t)
        decreases end - scan.i, if scan.i < |shape| then |shape[scan.i]| - scan.j else 0, t.Some?
      {
        SeenHit(shape, pred, end, i0, j0, scan.i, scan.j, t.value);
        if pred(t.value.row) {
          return t, false;
        }
        ghost var i, j, last := scan.i, scan.j, t.value;
        FirstInFrom(stuck, i0, i, |scan.file.pages|);
        var error;
        t, error := scan.Next(stuck);
        SeenNext(shape, pred, end, i0, j0, i, j, last, scan.i, scan.j, t);
      }
      SeenEnd(shape, pred, end, i0, j0, scan.i, scan.j);
    }
  }

  /** As `Delivered`, with the predicate not yet decided for `t` itself. */
  ghost predicate Seen(file: Layout, pred: Row -> bool, end: nat, i0: nat, j0: nat, i: nat, j: nat, t: Option<Tuple>) {
    if t.Some? then
      && Stands(file, i, j, t.value) && i < end
      && !Earlier(i, j - 1, i0, j0) && NoHits(file, pred, i0, j0, i, j - 1)
    else
      Stopped(end, i0, j0, i, j) && NoHits(file, pred, i0, j0, i, j)
  }

  lemma SeenFirst(file: Layout, pred: Row -> bool, end: nat, i0: nat, j0: nat, i: nat, j: nat, t: Option<Tuple>)
    requires Delivered(file, Anything, end, i0, j0, i, j, t)
    ensures Seen(file, pred, end, i0, j0, i, j, t)
  {
    hide NoHits;
    NoHitsYet(file, pred, i0, j0);
    NoHitsJoin(file, pred, i0, j0, i0, j0, i, if t.Some? then j - 1 else j);
  }

  lemma SeenHit(file: Layout, pred: Row -> bool, end: nat, i0: nat, j0: nat, i: nat, j: nat, t: Tuple)
    requires Seen(file, pred, end, i0, j0, i, j, Some(t))
    ensures i0 <= i < end && i < |file| && 0 < j <= |file[i]|
    ensures pred(t.row) ==> Delivered(file, pred, end, i0, j0, i, j, Some(t))
  {
    hide NoHits;
  }

  lemma SeenEnd(file: Layout, pred: Row -> bool, end: nat, i0: nat, j0: nat, i: nat, j: nat)
    requires Seen(file, pred, end, i0, j0, i, j, None)
    ensures Delivered(file, pred, end, i0, j0, i, j, None)
  {
    hide NoHits;
  }

  lemma SeenNext(file: Layout, pred: Row -> bool, end: nat, i0: nat, j0: nat, i: nat, j: nat, t: Tuple, i': nat, j': nat, t': Option<Tuple>)
    requires Seen(file, pred, end, i0, j0, i, j, Some(t)) && !pred(t.row) && Delivered(file, Anything, end, i, j, i', j', t')
    ensures Seen(file, pred, end, i0, j0, i', j', t')
    ensures if t'.Some? then i' < end && i' < |file| && j' <= |file[i']| && (i' > i || (i' == i && j' > j)) else i' == end
  {
    hide NoHits;
    NoHitsSlot(file, pred, i0, j0, i, j - 1);
    NoHitsJoin(file, pred, i0, j0, i, j, i', if t'.Some? then j' - 1 else j');
  }

  // ---- What deletion leaves ----

  function Reject(rows: seq<Row>, pred: Row -> bool): seq<Row> {
    if rows == [] then [] else (if pred(rows[0]) then [] else [rows[0]]) + Reject(rows[1..], pred)
  }

  /** The wanted rows before `(i, j)` are gone and everything else is where it was. */
  ghost predicate Swept(file: Layout, file': Layout, pred: Row -> bool, i: nat, j: nat) {
    && |file'| == |file|
    && (forall p: nat | p < |file| :: |file'[p]| == |file[p]|)
    && forall p: nat, q: nat | InFile(file, p, q) ::
         file'[p][q] == if Earlier(p, q, i, j) && Hits(pred, file[p][q]) then None else file[p][q]
  }

  /** Each row that does not satisfy the predicate stays as often as it was there, and no other one stays. */
  lemma {:induction false} RejectCounts(rows: seq<Row>, pred: Row -> bool, r: Row)
    ensures multiset(Reject(rows, pred))[r] == if pred(r) then 0 else multiset(rows)[r]
  {
    if rows != [] {
      RejectCounts(rows[1..], pred, r);
      assert rows == [rows[0]] + rows[1..];
    }
  }

  lemma {:induction false} RejectConcat(a: seq<Row>, b: seq<Row>, pred: Row -> bool)
    ensures Reject(a + b, pred) == Reject(a, pred) + Reject(b, pred)
  {
    if a == [] {
      assert a + b == b;
    } else {
      assert (a + b)[1..] == a[1..] + b;
      RejectConcat(a[1..], b, pred);
    }
  }

  lemma {:induction false} SweptPage(slots: Slots, slots': Slots, pred: Row -> bool)
    requires |slots| == |slots'|
    requires forall q | 0 <= q < |slots| :: slots'[q] == if Hits(pred, slots[q]) then None else slots[q]
    ensures Occupied(slots') == Reject(Occupied(slots), pred)
  {
    if slots != [] {
      SweptPage(slots[1..], slots'[1..], pred);
      assert slots'[0] == if Hits(pred, slots[0]) then None else slots[0];
      var first := if slots[0].Some? then [slots[0].value.row] else [];
      RejectConcat(first, Occupied(slots[1..]), pred);
      assert Reject(first, pred) == if Hits(pred, slots[0]) then [] else first;
    }
  }

  /** A file swept to its end holds exactly the rows that do not satisfy the predicate, in order. */
  lemma {:induction false} SweptFile(file: Layout, file': Layout, pred: Row -> bool)
    requires |file| == |file'|
    requires forall p | 0 <= p < |file| :: Occupied(file'[p]) == Reject(Occupied(file[p]), pred)
    ensures AllRows(file') == Reject(AllRows(file), pred)
  {
    if file != [] {
      SweptFile(file[1..], file'[1..], pred);
      RejectConcat(Occupied(file[0]), AllRows(file[1..]), pred);
      assert Occupied(file'[0]) == Reject(Occupied(file[0]), pred);
    }
  }

  /** A file swept up to page `end` has lost exactly the satisfying rows of the pages before it. */
  lemma SweptUpTo(file: Layout, file': Layout, pred: Row -> bool, end: nat)
    requires Swept(file, file', pred, end, 0) && end <= |file|
    ensures AllRows(file') == Reject(AllRows(file[..end]), pred) + AllRows(file[end..])
  {
    hide AllRows, Reject, Occupied;
    assert |file'[..end]| == end;
    forall p | 0 <= p < end
      ensures Occupied(file'[..end][p]) == Reject(Occupied(file[..end][p]), pred)
    {
      forall q | 0 <= q < |file[p]|
        ensures file'[p][q] == if Hits(pred, file[p][q]) then None else file[p][q]
      {
        assert InFile(file, p, q) && Earlier(p, q, end, 0);
      }
      SweptPage(file[p], file'[p], pred);
    }
    SweptFile(file[..end], file'[..end], pred);
    SweptRest(file, file', pred, end);
    AllRowsConcat(file'[..end], file'[end..]);
    assert file' == file'[..end] + file'[end..];
  }

  lemma SweptRest(file: Layout, file': Layout, pred: Row -> bool, end: nat)
    requires Swept(file, file', pred, end, 0) && end <= |file|
    ensures file'[end..] == file[end..]
  {
    forall p | end <= p < |file|
      ensures file'[p] == file[p]
    {
      forall q | 0 <= q < |file[p]|
        ensures file'[p][q] == file[p][q]
      {
        assert InFile(file, p, q);
      }
    }
  }

  /** Sweeping to the same place twice changes nothing the second time. */
  lemma SweptSame(file: Layout, a: Layout, b: Layout, pred: Row -> bool, i: nat, j: nat)
    requires Swept(file, a, pred, i, j) && Swept(file, b, pred, i, j)
    ensures a == b
  {
    forall p: nat | p < |file|
      ensures a[p] == b[p]
    {
      forall q: nat | q < |file[p]|
        ensures a[p][q] == b[p][q]
      {
        assert InFile(file, p, q);
      }
    }
  }

  /** Clearing an occupied slot removes one row. */
  lemma ClearedRemovesOne(file: Layout, p: nat, q: nat)
    requires InFile(file, p, q) && file[p][q].Some?
    ensures |AllRows(Cleared(file, RecordID(p, q)))| == |AllRows(file)| - 1
  {
    hide Occupied, AllRows;
    AllRowsUpdate(file, p, file[p][q := None]);
    OccupiedUpdate(file[p], q, None);
  }

  /** The scan moves on, perhaps to the end, over rows that are not wanted. */
  lemma SweptFurther(file: Layout, file': Layout, pred: Row -> bool, i0: nat, j0: nat, i: nat, j: nat)
    requires Swept(file, file', pred, i0, j0) && NoHits(file', pred, i0, j0, i, j)
    requires !Earlier(i, j, i0, j0)
    ensures Swept(file, file', pred, i, j)
  {
    forall p: nat, q: nat | InFile(file, p, q)
      ensures file'[p][q] == if Earlier(p, q, i, j) && Hits(pred, file[p][q]) then None else file[p][q]
    {
      assert InFile(file', p, q);
    }
  }

  lemma NothingSwept(file: Layout, pred: Row -> bool)
    ensures Swept(file, file, pred, 0, 0)
  {
  }

  /** The filtered scan has delivered `t` and the file is swept up to that slot, or up to page `end`. */
  ghost predicate Paused(file: Layout, file': Layout, pred: Row -> bool, end: nat, i: nat, j: nat, t: Option<Tuple>) {
    if t.Some? then Stands(file', i, j, t.value) && pred(t.value.row) && i < end && Swept(file, file', pred, i, j - 1)
    else i == end && j == 0 && Swept(file, file', pred, i, j)
  }

  lemma SweptOn(file: Layout, file': Layout, pred: Row -> bool, end: nat, i0: nat, j0: nat, i: nat, j: nat, t: Option<Tuple>)
    requires Swept(file, file', pred, i0, j0) && Delivered(file', pred, end, i0, j0, i, j, t)
    requires i0 <= end && (i0 < end || j0 == 0)
    ensures Paused(file, file', pred, end, i, j, t)
    ensures if t.Some? then i < |file| && j <= |file[i]| && (i > i0 || (i == i0 && j > j0)) else i == end
  {
    if t.Some? {
      SweptFurther(file, file', pred, i0, j0, i, j - 1);
    } else {
      SweptFurther(file, file', pred, i0, j0, i, j);
    }
  }

  lemma PausedAt(file: Layout, file': Layout, pred: Row -> bool, end: nat, i: nat, j: nat, t: Tuple)
    requires Paused(file, file', pred, end, i, j, Some(t))
    ensures |file| == |file'| && i < end && i < |file| && 0 < j <= |file[i]| && InFile(file', i, j - 1) && file'[i][j - 1].Some?
    ensures Stands(file', i, j, t) && Swept(file, file', pred, i, j - 1) && Hits(pred, file'[i][j - 1])
  {
  }

  lemma PausedAtEnd(file: Layout, file': Layout, pred: Row -> bool, end: nat, i: nat, j: nat)
    requires Paused(file, file', pred, end, i, j, None)
    ensures i == end && j == 0 && Swept(file, file', pred, i, j) && |file| == |file'|
  {
  }

  /** Deleting the row just delivered sweeps its slot too. */
  lemma SweptOne(file: Layout, file': Layout, pred: Row -> bool, i: nat, j: nat)
    requires j > 0 && InFile(file', i, j - 1) && Hits(pred, file'[i][j - 1]) && Swept(file, file', pred, i, j - 1)
    ensures Swept(file, Cleared(file', RecordID(i, j - 1)), pred, i, j)
  {
    var file'' := Cleared(file', RecordID(i, j - 1));
    assert InFile(file, i, j - 1);
    forall p: nat, q: nat | InFile(file, p, q)
      ensures file''[p][q] == if Earlier(p, q, i, j) && Hits(pred, file[p][q]) then None else file[p][q]
    {
      assert file'[p][q] == if Earlier(p, q, i, j - 1) && Hits(pred, file[p][q]) then None else file[p][q];
    }
  }

  /** A delivered tuple carries the record id of its slot. */
  lemma DeliveredRid(file: HeapFile, i: nat, j: nat, t: Tuple)
    requires file.Valid() && Stands(file.Shape(), i, j, t)
    ensures t.rid == Some(RecordID(i, j - 1))
  {
    assert file.PageOk(file.pages[i], i);
    assert file.Shape()[i] == file.pages[i].tuples;
  }

  /** `DeleteOp.Iterator` over a filtered scan of the same file. */
  class DeleteOp {
    const file: HeapFile
    const scan: FileScan
    const ite: FilterScan
    var counter: nat

    // The file when the operator was made.
    ghost const start: Layout

    /** The wanted rows before the scan's page are gone and counted, everything else is as it was. */
    ghost predicate Valid()
      reads this, scan, file, file.pages
    {
      && file.Valid() && |start| == |file.pages| && ite.scan == scan && scan.file == file && scan.j == 0 && scan.i <= |file.pages|
      && Swept(start, file.Shape(), ite.pred, scan.i, 0)
      && counter + |AllRows(file.Shape())| == |AllRows(start)|
    }

    constructor (file: HeapFile, pred: Row -> bool)
      requires file.Valid()
      ensures Valid() && this.file == file && ite.pred == pred && start == file.Shape() && scan.i == 0 && counter == 0
      ensures fresh(scan)
    {
      this.file := file;
      var s := new FileScan(file);
      scan := s;
      var filter := new FilterScan(s, pred);
      ite := filter;
      counter := 0;
      start := file.Shape();
      NothingSwept(file.Shape(), pred);
    }

    /**
      Delete every row that the filtered scan delivers and return the count so far.  The scan
      stops at the first page of `stuck`, and that is not reported.  A call that starts there
      changes nothing.
     */
    method Next(stuck: set<nat>) returns (count: nat)
      requires Valid()
      modifies this, scan, file.pages
      ensures Valid() && count == counter
      ensures scan.i == FirstIn(stuck, old(scan.i), |file.pages|)
      ensures scan.i == old(scan.i) ==> file.Shape() == old(file.Shape()) && count == old(counter)
    {
      hide *;
      Opened();
      ghost var end, pred, before := FirstIn(stuck, scan.i, |file.pages|), ite.pred, file.Shape();
      ghost var from := scan.i;
      var t, failed := ite.Next(stuck);
      SweptOn(start, file.Shape(), pred, end, from, 0, scan.i, scan.j, t);
      while t.Some?
        invariant file.Valid() && |file.Shape()| == |start| && counter + |AllRows(file.Shape())| == |AllRows(start)|
        invariant Paused(start, file.Shape(), pred, end, scan.i, scan.j, t) && from <= scan.i
        decreases end - scan.i, if scan.i < |start| then |start[scan.i]| - scan.j else 0, t.Some?
      {
        ghost var here, i, j := file.Shape(), scan.i, scan.j;
        PausedAt(start, here, pred, end, i, j, t.value);
        DeliveredRid(file, i, j, t.value);
        ClearedRemovesOne(here, i, j - 1);
        SweptOne(start, here, pred, i, j);
        FirstInFrom(stuck, from, i, |file.pages|);
        var ok := file.DeleteTuple(t.value, stuck);
        assert ok && file.Shape() == Cleared(here, RecordID(i, j - 1));
        counter := counter + 1;
        t, failed := ite.Next(stuck);
        SweptOn(start, file.Shape(), pred, end, i, j, scan.i, scan.j, t);
      }
      PausedAtEnd(start, file.Shape(), pred, end, scan.i, scan.j);
      if scan.i == from {
        SweptSame(start, before, file.Shape(), pred, from, 0);
      }
      Closed();
      count := counter;
    }

    lemma Opened()
      requires Valid()
      ensures file.Valid() && ite.scan == scan && scan.file == file && scan.j == 0 && scan.i <= |file.pages|
      ensures |start| == |file.pages| && Swept(start, file.Shape(), ite.pred, scan.i, 0)
      ensures counter + |AllRows(file.Shape())| == |AllRows(start)|
    {
      hide Swept, AllRows, HeapFile.Valid;
    }

    lemma Closed()
      requires file.Valid() && ite.scan == scan && scan.file == file && scan.j == 0 && scan.i <= |file.pages|
      requires |start| == |file.pages| && Swept(start, file.Shape(), ite.pred, scan.i, 0)
      requires counter + |AllRows(file.Shape())| == |AllRows(start)|
      ensures Valid()
    {
      hide Swept, AllRows, HeapFile.Valid;
    }
  }

  /**
    DELETE over its own scan: the rows that satisfy the predicate on the pages before the first
    refused one are removed and counted, and every other tuple stays in its slot; without a
    refused page these are all satisfying rows of the file.
   */
  method DeleteMatching(file: HeapFile, pred: Row -> bool, stuck: set<nat>) returns (count: nat)
    requires file.Valid()
    modifies file.pages
    ensures file.Valid() && Swept(old(file.Shape()), file.Shape(), pred, FirstIn(stuck, 0, |file.pages|), 0)
    ensures forall p: nat, q: nat | InFile(old(file.Shape()), p, q) ::
              var slot := old(file.Shape())[p][q];
              InFile(file.Shape(), p, q) &&
              file.Shape()[p][q] == if (forall k | 0 <= k <= p :: k !in stuck) && slot.Some? && pred(slot.value.row) then None else slot
    ensures stuck == {} ==> forall r ::
              multiset(AllRows(file.Shape()))[r] == if pred(r) then 0 else multiset(AllRows(old(file.Shape())))[r]
    ensures var before, end := old(file.Shape()), FirstIn(stuck, 0, |file.pages|);
      AllRows(file.Shape()) == Reject(AllRows(before[..end]), pred) + AllRows(before[end..])
    ensures FirstIn(stuck, 0, |file.pages|) == |file.pages| ==>
      AllRows(file.Shape()) == Reject(AllRows(old(file.Shape())), pred)
    ensures count == |AllRows(old(file.Shape()))| - |AllRows(file.Shape())|
  {
    hide Swept, AllRows, Reject;
    ghost var before := file.Shape();
    var op := new DeleteOp(file, pred);
    count := op.Next(stuck);
    ghost var end := op.scan.i;
    SweptUpTo(before, file.Shape(), pred, end);
    SweptSlots(before, file.Shape(), pred, stuck, end);
    forall r {
      RejectCounts(AllRows(before), pred, r);
    }
    if end == |before| {
      assert before[..end] == before && before[end..] == [];
      NoRowsLeft();
    }
  }

  lemma SweptSlots(file: Layout, file': Layout, pred: Row -> bool, stuck: set<nat>, end: nat)
    requires Swept(file, file', pred, end, 0) && end == FirstIn(stuck, 0, |file|)
    ensures stuck == {} ==> end == |file|
    ensures forall p: nat, q: nat | InFile(file, p, q) ::
              InFile(file', p, q) &&
              file'[p][q] == if (forall k | 0 <= k <= p :: k !in stuck) && file[p][q].Some? && pred(file[p][q].value.row) then None else file[p][q]
  {
    hide FirstIn;
    forall p: nat, q: nat | InFile(file, p, q)
      ensures InFile(file', p, q)
      ensures file'[p][q] == if (forall k | 0 <= k <= p :: k !in stuck) && file[p][q].Some? && pred(file[p][q].value.row) then None else file[p][q]
    {
      assert (forall k | 0 <= k <= p :: k !in stuck) <==> p < end;
    }
  }

  lemma NoRowsLeft()
    ensures AllRows([]) == []
  {
  }
}
