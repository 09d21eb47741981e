/**
  Which timetable entries a syllabus sync takes out when courses have moved to another slot
  (FindSlotConflicts in infra/mysql/course_sync_repository.go).

  Two entries of one user conflict when their courses share year, day and period and their terms
  overlap; a full-year course overlaps both terms, so conflicting is symmetric but not transitive.
  The code walks the conflict rows once and greedily removes entries of moved courses.
 */
module SlotConflicts {
  import opened Sequences
  import opened Wrappers

  /** SemesterFull. */
  const FULL_YEAR := "\U{901A}\U{5E74}"

  datatype Course = Course(year: int, dayOfWeek: string, period: int, semester: string, name: string)

  datatype Entry = Entry(id: int, userID: int, courseID: int)

  /** The tables read: `timetables` in the order of its primary key. */
  datatype Db = Db(timetables: seq<Entry>, courses: map<int, Course>) {
    ghost predicate Keyed() {
      forall i, j :: 0 <= i < j < |timetables| ==> timetables[i].id < timetables[j].id
    }
  }

  function IdSet(ids: seq<int>): set<int> {
    set id | id in ids
  }

  /** One row of the conflict query: `other` stands in the way of `entry`. */
  datatype Pair = Pair(entry: Entry, other: Entry, otherCourseName: string)

  datatype SlotConflict = SlotConflict(
    timetableID: int, userID: int, courseID: int, keptCourseID: int, keptCourseName: string)

  predicate Overlaps(c: Course, oc: Course) {
    && oc.year == c.year && oc.dayOfWeek == c.dayOfWeek && oc.period == c.period
    && (oc.semester == c.semester || oc.semester == FULL_YEAR || c.semester == FULL_YEAR)
  }

  /** The join of the query, without its restriction to moved courses. */
  predicate Conflict(db: Db, t: Entry, o: Entry) {
    && o.userID == t.userID && o.id != t.id
    && t.courseID in db.courses && o.courseID in db.courses
    && Overlaps(db.courses[t.courseID], db.courses[o.courseID])
  }

  // ----- The query

  /** The rows of one entry, at ascending other id. */
  function RowsOf(db: Db, t: Entry, n: nat): (rows: seq<Pair>)
    requires n <= |db.timetables|
    ensures forall p :: p in rows <==>
              p.entry == t && p.other in db.timetables[..n] && Conflict(db, t, p.other)
              && p.otherCourseName == db.courses[p.other.courseID].name
  {
    if n == 0 then [] else
      assert db.timetables[..n] == db.timetables[..n - 1] + [db.timetables[n - 1]];
      var o := db.timetables[n - 1];
      RowsOf(db, t, n - 1) + if Conflict(db, t, o) then [Pair(t, o, db.courses[o.courseID].name)] else []
  }

  /** The query for one chunk of moved courses, ORDER BY t.id, o.id. */
  function Rows(db: Db, chunk: seq<int>, n: nat): seq<Pair>
    requires n <= |db.timetables|
  {
    if n == 0 then [] else
      var t := db.timetables[n - 1];
      Rows(db, chunk, n - 1) + if t.courseID in chunk then RowsOf(db, t, |db.timetables|) else []
  }

  ghost predicate IsRow(db: Db, chunk: seq<int>, p: Pair) {
    && p.entry in db.timetables && p.other in db.timetables
    && p.entry.courseID in chunk && Conflict(db, p.entry, p.other)
    && p.otherCourseName == db.courses[p.other.courseID].name
  }

  lemma {:induction false} RowsAreTheConflicts(db: Db, chunk: seq<int>, n: nat)
    requires n <= |db.timetables|
    ensures forall p :: p in Rows(db, chunk, n) <==> IsRow(db, chunk, p) && p.entry in db.timetables[..n]
  {
    if n > 0 {
      RowsAreTheConflicts(db, chunk, n - 1);
      assert db.timetables[..n] == db.timetables[..n - 1] + [db.timetables[n - 1]];
      assert db.timetables[..|db.timetables|] == db.timetables;
    }
  }

  /** Rows stand in order of the entry that they may remove. */
  ghost predicate ByEntry(pairs: seq<Pair>) {
    forall i, j :: 0 <= i < j < |pairs| ==> pairs[i].entry.id <= pairs[j].entry.id
  }

  /** Rows of later entries may follow. */
  lemma ByEntryOfConcat(before: seq<Pair>, rows: seq<Pair>, id: int)
    requires ByEntry(before) && forall p :: p in before ==> p.entry.id < id
    requires forall p :: p in rows ==> p.entry.id == id
    ensures ByEntry(before + rows)
  {
    var all := before + rows;
    forall i, j | 0 <= i < j < |all|
      ensures all[i].entry.id <= all[j].entry.id
    {
      assert i < |before| ==> before[i] in before;
      assert j >= |before| ==> rows[j - |before|] in rows;
      assert i >= |before| ==> rows[i - |before|] in rows;
    }
  }

  lemma {:induction false} RowsAreByEntry(db: Db, chunk: seq<int>, n: nat)
    requires db.Keyed() && n <= |db.timetables|
    ensures ByEntry(Rows(db, chunk, n))
  {
    if n > 0 {
      RowsAreByEntry(db, chunk, n - 1);
      RowsAreTheConflicts(db, chunk, n - 1);
      var t := db.timetables[n - 1];
      if t.courseID in chunk {
        ByEntryOfConcat(Rows(db, chunk, n - 1), RowsOf(db, t, |db.timetables|), t.id);
      }
    }
  }

  // ----- The greedy loop

  /** The ids that `out` takes out of the timetables. */
  ghost function Removed(out: seq<SlotConflict>): set<int> {
    set c | c in out :: c.timetableID
  }

  /** What row `p` reports when it removes its entry. */
  function ReportOf(p: Pair): SlotConflict {
    SlotConflict(p.entry.id, p.entry.userID, p.entry.courseID, p.other.courseID, p.otherCourseName)
  }

  predicate Reports(p: Pair, c: SlotConflict) {
    c == ReportOf(p)
  }

  /** `other` is left to be removed by its own row. */
  predicate Yields(p: Pair, moved: set<int>) {
    p.other.courseID in moved && p.other.id > p.entry.id
  }

  /** When row `p` is reached after the removals `out`, it removes nothing. */
  ghost predicate Skips(p: Pair, moved: set<int>, out: seq<SlotConflict>) {
    p.entry.id in Removed(out) || p.other.id in Removed(out) || Yields(p, moved)
  }

  /** The removals of one pass over `pairs`: a row removes its entry unless it is skipped when it is reached. */
  ghost function Greedy(pairs: seq<Pair>, moved: set<int>): seq<SlotConflict> {
    if pairs == [] then [] else
      var out, p := Greedy(pairs[..|pairs| - 1], moved), pairs[|pairs| - 1];
      if Skips(p, moved, out) then out else out + [ReportOf(p)]
  }

  lemma GreedyOneMore(pairs: seq<Pair>, moved: set<int>, p: Pair)
    ensures var out := Greedy(pairs, moved);
            Greedy(pairs + [p], moved) == if Skips(p, moved, out) then out else out + [ReportOf(p)]
  {
    assert (pairs + [p])[..|pairs|] == pairs;
  }

  /**
    What one pass over `pairs` achieves: every row is settled, nothing is removed twice, and each
    removal was made by a row (number `at[i]`) whose other entry had not been removed by then.
   */
  ghost predicate Settles(pairs: seq<Pair>, moved: set<int>, out: seq<SlotConflict>, at: seq<nat>) {
    && |at| == |out|
    && (forall i, j :: 0 <= i < j < |at| ==> at[i] < at[j])
    && (forall i :: 0 <= i < |out| ==>
          && at[i] < |pairs| && Reports(pairs[at[i]], out[i])
          && !Yields(pairs[at[i]], moved)
          && pairs[at[i]].other.id !in Removed(out[..i])
          && out[i].timetableID !in Removed(out[..i]))
    && (forall p :: p in pairs ==> Skips(p, moved, out))
  }

  lemma RemovedOneMore(out: seq<SlotConflict>, c: SlotConflict)
    ensures Removed(out + [c]) == Removed(out) + {c.timetableID}
  {
    forall id | id in Removed(out) + {c.timetableID}
      ensures id in Removed(out + [c])
    {
      if id == c.timetableID {
        assert c in out + [c];
      } else {
        var d :| d in out && d.timetableID == id;
        assert d in out + [c];
      }
    }
  }

  /** What was reported before stays justified when rows and reports follow. */
  lemma EarlierStaysJustified(pairs: seq<Pair>, moved: set<int>, out: seq<SlotConflict>, at: seq<nat>,
                              p: Pair, c: SlotConflict, i: nat)
    requires Settles(pairs, moved, out, at) && i < |out|
    ensures at[i] < |pairs| && (pairs + [p])[at[i]] == pairs[at[i]]
    ensures Reports(pairs[at[i]], out[i]) && !Yields(pairs[at[i]], moved)
    ensures (out + [c])[..i] == out[..i]
    ensures pairs[at[i]].other.id !in Removed(out[..i]) && out[i].timetableID !in Removed(out[..i])
  {
  }

  /** Removing the entry of the next row, when neither side is gone and the other does not yield, settles that row. */
  lemma RemovalSettles(pairs: seq<Pair>, moved: set<int>, out: seq<SlotConflict>, at: seq<nat>,
                       p: Pair, c: SlotConflict)
    requires Settles(pairs, moved, out, at) && Reports(p, c)
    requires !Skips(p, moved, out)
    ensures Settles(pairs + [p], moved, out + [c], at + [|pairs|])
  {
    var out', at', pairs' := out + [c], at + [|pairs|], pairs + [p];
    RemovedOneMore(out, c);
    assert out'[..|out|] == out;
    forall i | 0 <= i < |out'|
      ensures at'[i] < |pairs'| && Reports(pairs'[at'[i]], out'[i]) && !Yields(pairs'[at'[i]], moved)
      ensures pairs'[at'[i]].other.id !in Removed(out'[..i]) && out'[i].timetableID !in Removed(out'[..i])
    {
      if i < |out| {
        EarlierStaysJustified(pairs, moved, out, at, p, c, i);
      }
    }
  }

  /** A row with one side gone, or whose other entry yields, is settled already. */
  lemma SkippingSettles(pairs: seq<Pair>, moved: set<int>, out: seq<SlotConflict>, at: seq<nat>, p: Pair)
    requires Settles(pairs, moved, out, at)
    requires Skips(p, moved, out)
    ensures Settles(pairs + [p], moved, out, at)
  {
  }

  lemma RemovedOnce(pairs: seq<Pair>, moved: set<int>, out: seq<SlotConflict>, at: seq<nat>)
    requires Settles(pairs, moved, out, at)
    ensures forall i, j :: 0 <= i < j < |out| ==> out[i].timetableID != out[j].timetableID
  {
    forall i, j | 0 <= i < j < |out|
      ensures out[i].timetableID != out[j].timetableID
    {
      assert out[i] in out[..j];
    }
  }

  lemma OneMoreRowSettles(pairs: seq<Pair>, moved: set<int>, at: seq<nat>, p: Pair) returns (at': seq<nat>)
    requires Settles(pairs, moved, Greedy(pairs, moved), at)
    ensures Settles(pairs + [p], moved, Greedy(pairs + [p], moved), at')
  {
    var out := Greedy(pairs, moved);
    GreedyOneMore(pairs, moved, p);
    if Skips(p, moved, out) {
      SkippingSettles(pairs, moved, out, at, p);
      at' := at;
    } else {
      RemovalSettles(pairs, moved, out, at, p, ReportOf(p));
      at' := at + [|pairs|];
    }
  }

  /** The pass settles every row. */
  lemma {:induction false} GreedySettles(pairs: seq<Pair>, moved: set<int>) returns (at: seq<nat>)
    ensures Settles(pairs, moved, Greedy(pairs, moved), at)
  {
    if pairs == [] {
      at := [];
    } else {
      var before, p := pairs[..|pairs| - 1], pairs[|pairs| - 1];
      assert pairs == before + [p];
      at := GreedySettles(before, moved);
      at := OneMoreRowSettles(before, moved, at, p);
    }
  }

  /** The loop over the collected rows. */
  method RemoveGreedily(pairs: seq<Pair>, moved: set<int>) returns (out: seq<SlotConflict>)
    ensures out == Greedy(pairs, moved)
    ensures exists at :: Settles(pairs, moved, out, at)
    ensures forall i, j :: 0 <= i < j < |out| ==> out[i].timetableID != out[j].timetableID
  {
    out := [];
    var removed: set<int> := {};
    for k := 0 to |pairs|
      invariant removed == Removed(out)
      invariant out == Greedy(pairs[..k], moved)
    {
      var p := pairs[k];
      assert pairs[..k + 1] == pairs[..k] + [p];
      GreedyOneMore(pairs[..k], moved, p);
      if p.entry.id in removed || p.other.id in removed {
        continue;
      }
      if p.other.courseID in moved && p.other.id > p.entry.id {
        continue;
      }
      removed := removed + {p.entry.id};
      var c := SlotConflict(p.entry.id, p.entry.userID, p.entry.courseID, p.other.courseID, p.otherCourseName);
      RemovedOneMore(out, c);
      out := out + [c];
    }
    assert pairs[..|pairs|] == pairs;
    ghost var at := GreedySettles(pairs, moved);
    RemovedOnce(pairs, moved, out, at);
  }

  // ----- FindSlotConflicts

  /** bulkInsertChunkSize(1). */
  const CHUNK_SIZE := 60000

  /** The rows of all chunks, one chunk after the other. */
  function AllRows(db: Db, ids: seq<int>, size: nat): seq<Pair>
    requires size > 0
    decreases |ids|
  {
    if ids == [] then []
    else if |ids| <= size then Rows(db, ids, |db.timetables|)
    else Rows(db, ids[..size], |db.timetables|) + AllRows(db, ids[size..], size)
  }

  lemma {:induction false} AllRowsAreTheConflicts(db: Db, ids: seq<int>, size: nat)
    requires size > 0
    ensures forall p :: p in AllRows(db, ids, size) <==> IsRow(db, ids, p)
    decreases |ids|
  {
    assert db.timetables[..|db.timetables|] == db.timetables;
    if 0 < |ids| <= size {
      RowsAreTheConflicts(db, ids, |db.timetables|);
    } else if |ids| > size {
      RowsAreTheConflicts(db, ids[..size], |db.timetables|);
      AllRowsAreTheConflicts(db, ids[size..], size);
      assert ids == ids[..size] + ids[size..];
    }
  }

  function NumberOfChunks(n: nat, size: nat): nat
    requires size > 0
  {
    if n == 0 then 0 else if n <= size then 1 else 1 + NumberOfChunks(n - size, size)
  }

  /** Chunk `k` begins at `k * size`. */
  lemma {:induction false} ChunkBegins(n: nat, size: nat, k: nat)
    requires size > 0
    ensures k < NumberOfChunks(n, size) <==> k * size < n
    decreases n
  {
    if n > size {
      if k > 0 {
        ChunkBegins(n - size, size, k - 1);
        assert k * size == (k - 1) * size + size;
      }
    } else if k > 0 {
      assert k * size >= size;
    }
  }

  /**
    `fails(k)` says whether the database rejects the query of chunk `k`. `size` is the chunk size
    (CHUNK_SIZE in the code).
   */
  method FindSlotConflicts(db: Db, movedCourseIDs: seq<int>, size: nat, fails: nat -> bool)
    returns (r: Result<seq<SlotConflict>, DbError>)
    requires size > 0
    ensures r.Failure? <==> exists k: nat :: k * size < |movedCourseIDs| && fails(k)
    ensures r.Success? ==> r.value == Greedy(AllRows(db, movedCourseIDs, size), IdSet(movedCourseIDs))
  {
    forall k: nat
      ensures k < NumberOfChunks(|movedCourseIDs|, size) <==> k * size < |movedCourseIDs|
    {
      ChunkBegins(|movedCourseIDs|, size, k);
    }
    if |movedCourseIDs| == 0 {
      return Success([]);
    }
    var moved := IdSet(movedCourseIDs);
    var pairs: seq<Pair> := [];
    var start, k := 0, 0;
    while start < |movedCourseIDs|
      invariant 0 <= start <= |movedCourseIDs|
      invariant pairs + AllRows(db, movedCourseIDs[start..], size) == AllRows(db, movedCourseIDs, size)
      invariant NumberOfChunks(|movedCourseIDs|, size) == k + NumberOfChunks(|movedCourseIDs| - start, size)
      invariant forall j: nat :: j < k ==> !fails(j)
    {
      var end := start + size;
      if end > |movedCourseIDs| {
        end := |movedCourseIDs|;
      }
      if fails(k) {
        return Failure(DbError("query failed"));
      }
      ghost var left := movedCourseIDs[start..];
      assert movedCourseIDs[start..end] == left[..end - start] && movedCourseIDs[end..] == left[end - start..];
      var rows := Rows(db, movedCourseIDs[start..end], |db.timetables|);
      if |left| <= size {
        assert left[..|left|] == left && movedCourseIDs[end..] == [];
      }
      assert AllRows(db, left, size) == rows + AllRows(db, movedCourseIDs[end..], size);
      Associative(pairs, rows, AllRows(db, movedCourseIDs[end..], size));
      pairs := pairs + rows;
      start, k := end, k + 1;
    }
    assert movedCourseIDs[start..] == [] && pairs + [] == pairs;
    assert pairs == AllRows(db, movedCourseIDs, size);
    var out := RemoveGreedily(pairs, moved);
    return Success(out);
  }

  // ----- What the removal achieves, whatever the order of the rows

  ghost predicate Moves(moved: set<int>, e: Entry) {
    e.courseID in moved
  }

  lemma ConflictIsSymmetric(db: Db, t: Entry, o: Entry)
    requires Conflict(db, t, o)
    ensures Conflict(db, o, t)
  {
  }

  /** `pairs` holds every conflict of an entry of a moved course, in any order. */
  ghost predicate CompleteRows(db: Db, moved: set<int>, pairs: seq<Pair>) {
    forall p :: p in pairs <==>
      && p.entry in db.timetables && p.other in db.timetables && Moves(moved, p.entry) && Conflict(db, p.entry, p.other)
      && p.otherCourseName == db.courses[p.other.courseID].name
  }

  function RowFor(db: Db, t: Entry, o: Entry): Pair
    requires Conflict(db, t, o)
  {
    Pair(t, o, db.courses[o.courseID].name)
  }

  lemma QueryIsComplete(db: Db, ids: seq<int>, size: nat)
    requires size > 0
    ensures CompleteRows(db, IdSet(ids), AllRows(db, ids, size))
  {
    AllRowsAreTheConflicts(db, ids, size);
  }

  lemma RemovedPrefix(out: seq<SlotConflict>, i: nat)
    requires i <= |out|
    ensures forall j :: 0 <= j < i ==> out[j].timetableID in Removed(out[..i])
  {
    forall j | 0 <= j < i
      ensures out[j].timetableID in Removed(out[..i])
    {
      assert out[j] in out[..i];
    }
  }

  /** Only entries of moved courses are removed, each once. */
  lemma OnlyMovedAreRemoved(db: Db, moved: set<int>, pairs: seq<Pair>, out: seq<SlotConflict>, at: seq<nat>, e: Entry)
    requires db.Keyed() && CompleteRows(db, moved, pairs) && Settles(pairs, moved, out, at)
    requires e in db.timetables && e.id in Removed(out)
    ensures Moves(moved, e)
    ensures exists i :: 0 <= i < |out| && out[i].timetableID == e.id && pairs[at[i]].entry == e
                        && forall j :: 0 <= j < |out| && out[j].timetableID == e.id ==> j == i
  {
    var c :| c in out && c.timetableID == e.id;
    var i :| 0 <= i < |out| && out[i] == c;
    var p := pairs[at[i]];
    assert p in pairs && Reports(p, out[i]);
    assert p.entry == e by {
      var a :| 0 <= a < |db.timetables| && db.timetables[a] == p.entry;
      var b :| 0 <= b < |db.timetables| && db.timetables[b] == e;
      assert a == b;
    }
    RemovedOnce(pairs, moved, out, at);
  }

  /** Afterwards no user has two entries in one slot of which one is of a moved course. */
  lemma NoConflictRemains(db: Db, moved: set<int>, pairs: seq<Pair>, out: seq<SlotConflict>, at: seq<nat>,
                          t: Entry, o: Entry)
    requires db.Keyed() && CompleteRows(db, moved, pairs) && Settles(pairs, moved, out, at)
    requires t in db.timetables && o in db.timetables && Conflict(db, t, o)
    requires Moves(moved, t) || Moves(moved, o)
    ensures t.id in Removed(out) || o.id in Removed(out)
  {
    ConflictIsSymmetric(db, t, o);
    if Moves(moved, t) {
      assert RowFor(db, t, o) in pairs;
    }
    if Moves(moved, o) {
      assert RowFor(db, o, t) in pairs;
    }
  }

  /** So it is after the whole operation, over any number of chunks; and no unmoved entry is gone. */
  lemma SlotsAreFree(db: Db, ids: seq<int>, size: nat, t: Entry, o: Entry)
    requires db.Keyed() && size > 0 && t in db.timetables && o in db.timetables
    ensures var moved, out := IdSet(ids), Greedy(AllRows(db, ids, size), IdSet(ids));
            && (t.id in Removed(out) ==> Moves(moved, t))
            && (Conflict(db, t, o) && (Moves(moved, t) || Moves(moved, o)) ==>
                  t.id in Removed(out) || o.id in Removed(out))
  {
    var moved, pairs := IdSet(ids), AllRows(db, ids, size);
    var out := Greedy(pairs, moved);
    var at := GreedySettles(pairs, moved);
    QueryIsComplete(db, ids, size);
    if t.id in Removed(out) {
      OnlyMovedAreRemoved(db, moved, pairs, out, at, t);
    }
    if Conflict(db, t, o) && (Moves(moved, t) || Moves(moved, o)) {
      NoConflictRemains(db, moved, pairs, out, at, t, o);
    }
  }

  // ----- The order of registration decides (one query, rows in order)

  /**
    The rule of the documentation: an entry stays unless an unmoved one, or an earlier moved one that
    stays, is in its slot.
   */
  ghost predicate Stays(db: Db, moved: set<int>, k: nat)
    requires k < |db.timetables|
  {
    Moves(moved, db.timetables[k]) ==>
      forall j :: 0 <= j < |db.timetables| && Conflict(db, db.timetables[k], db.timetables[j]) ==>
        Moves(moved, db.timetables[j]) && (j < k ==> !Stays(db, moved, j))
  }

  /** With the rows in order, a removed entry gave way to one that is itself kept. */
  lemma KeptIsKept(db: Db, moved: set<int>, pairs: seq<Pair>, out: seq<SlotConflict>, at: seq<nat>, i: nat)
    requires db.Keyed() && CompleteRows(db, moved, pairs) && ByEntry(pairs) && Settles(pairs, moved, out, at)
    requires i < |out|
    ensures var p := pairs[at[i]];
            && Reports(p, out[i]) && Conflict(db, p.entry, p.other)
            && p.entry in db.timetables && p.other in db.timetables
            && p.entry.userID == p.other.userID
            && p.other.id !in Removed(out)
            && (Moves(moved, p.other) ==> p.other.id < p.entry.id)
  {
    var p := pairs[at[i]];
    assert p in pairs;
    RemovedPrefix(out, i);
    forall j | 0 <= j < |out|
      ensures pairs[at[j]].entry != p.other
    {
      assert pairs[at[j]] in pairs && Reports(pairs[at[j]], out[j]);
      assert i < j ==> at[i] < at[j];
    }
    if p.other.id in Removed(out) {
      OnlyMovedAreRemoved(db, moved, pairs, out, at, p.other);
      assert false;
    }
  }

  /** Up to entry `k`, exactly the entries failing the rule are removed. */
  ghost predicate RuleBefore(db: Db, moved: set<int>, out: seq<SlotConflict>, k: nat)
    requires k <= |db.timetables|
  {
    forall j: nat :: j < k ==> (db.timetables[j].id in Removed(out) <==> !Stays(db, moved, j))
  }

  lemma RemovedFailsTheRule(
      db: Db, moved: set<int>, pairs: seq<Pair>, out: seq<SlotConflict>, at: seq<nat>, k: nat)
    requires db.Keyed() && CompleteRows(db, moved, pairs) && ByEntry(pairs) && Settles(pairs, moved, out, at)
    requires k < |db.timetables| && RuleBefore(db, moved, out, k) && db.timetables[k].id in Removed(out)
    ensures !Stays(db, moved, k)
  {
    var e := db.timetables[k];
    OnlyMovedAreRemoved(db, moved, pairs, out, at, e);
    var i :| 0 <= i < |out| && pairs[at[i]].entry == e;
    KeptIsKept(db, moved, pairs, out, at, i);
    var o := pairs[at[i]].other;
    var j :| 0 <= j < |db.timetables| && db.timetables[j] == o;
    assert Moves(moved, o) ==> j < k;
  }

  lemma KeptFollowsTheRule(
      db: Db, moved: set<int>, pairs: seq<Pair>, out: seq<SlotConflict>, at: seq<nat>, k: nat)
    requires db.Keyed() && CompleteRows(db, moved, pairs) && Settles(pairs, moved, out, at)
    requires k < |db.timetables| && RuleBefore(db, moved, out, k) && db.timetables[k].id !in Removed(out)
    ensures Stays(db, moved, k)
  {
    var e := db.timetables[k];
    if Moves(moved, e) {
      forall j | 0 <= j < |db.timetables| && Conflict(db, e, db.timetables[j])
        ensures Moves(moved, db.timetables[j]) && (j < k ==> !Stays(db, moved, j))
      {
        var o := db.timetables[j];
        assert RowFor(db, e, o) in pairs;
        if o.id in Removed(out) {
          OnlyMovedAreRemoved(db, moved, pairs, out, at, o);
        }
      }
    }
  }

  /** The survivors are exactly those of the rule, and so are determined by the tables alone. */
  lemma {:induction false} SurvivorsFollowTheRule(
      db: Db, moved: set<int>, pairs: seq<Pair>, out: seq<SlotConflict>, at: seq<nat>, k: nat)
    requires db.Keyed() && CompleteRows(db, moved, pairs) && ByEntry(pairs) && Settles(pairs, moved, out, at)
    requires k < |db.timetables|
    ensures db.timetables[k].id in Removed(out) <==> !Stays(db, moved, k)
  {
    forall j: nat | j < k
      ensures db.timetables[j].id in Removed(out) <==> !Stays(db, moved, j)
    {
      SurvivorsFollowTheRule(db, moved, pairs, out, at, j);
    }
    if db.timetables[k].id in Removed(out) {
      RemovedFailsTheRule(db, moved, pairs, out, at, k);
    } else {
      KeptFollowsTheRule(db, moved, pairs, out, at, k);
    }
  }

  /** For this outcome of the pass, exactly the entries failing the rule are removed. */
  ghost predicate FollowsTheRule(db: Db, moved: set<int>, out: seq<SlotConflict>) {
    forall k :: 0 <= k < |db.timetables| ==> (db.timetables[k].id in Removed(out) <==> !Stays(db, moved, k))
  }

  lemma OneQueryFollowsTheRule(db: Db, ids: seq<int>, size: nat)
    requires db.Keyed() && 0 < size && |ids| <= size
    ensures FollowsTheRule(db, IdSet(ids), Greedy(AllRows(db, ids, size), IdSet(ids)))
  {
    var moved, pairs := IdSet(ids), AllRows(db, ids, size);
    var at := GreedySettles(pairs, moved);
    QueryIsComplete(db, ids, size);
    RowsAreByEntry(db, ids, |db.timetables|);
    forall k: nat | k < |db.timetables|
      ensures db.timetables[k].id in Removed(Greedy(pairs, moved)) <==> !Stays(db, moved, k)
    {
      SurvivorsFollowTheRule(db, moved, pairs, Greedy(pairs, moved), at, k);
    }
  }

  /** Report `c` says that entry `t` was taken out because of `o`, which is in the same slot. */
  ghost predicate GaveWay(db: Db, c: SlotConflict, t: Entry, o: Entry) {
    && t in db.timetables && o in db.timetables && Conflict(db, t, o)
    && c == SlotConflict(t.id, o.userID, t.courseID, o.courseID, db.courses[o.courseID].name)
  }

  /** The whole operation, when the moved courses fit one query. */
  method ResolveConflicts(db: Db, movedCourseIDs: seq<int>, size: nat) returns (out: seq<SlotConflict>)
    requires db.Keyed() && size > 0 && |movedCourseIDs| <= size
    ensures FollowsTheRule(db, IdSet(movedCourseIDs), out)
    ensures forall i, j :: 0 <= i < j < |out| ==> out[i].timetableID != out[j].timetableID
    // The course reported as kept is that of a surviving entry in the removed entry's slot:
    // putting the removed entry back would bring back a conflict.
    ensures forall c :: c in out ==> exists t, o :: GaveWay(db, c, t, o) && o.id !in Removed(out)
  {
    var moved := IdSet(movedCourseIDs);
    var r := FindSlotConflicts(db, movedCourseIDs, size, _ => false);
    out := r.value;
    ghost var pairs := AllRows(db, movedCourseIDs, size);
    ghost var at := GreedySettles(pairs, moved);
    OneQueryFollowsTheRule(db, movedCourseIDs, size);
    QueryIsComplete(db, movedCourseIDs, size);
    RowsAreByEntry(db, movedCourseIDs, |db.timetables|);
    RemovedOnce(pairs, moved, out, at);
    forall c | c in out
      ensures exists t, o :: GaveWay(db, c, t, o) && o.id !in Removed(out)
    {
      var i :| 0 <= i < |out| && out[i] == c;
      KeptIsKept(db, moved, pairs, out, at, i);
      assert pairs[at[i]] in pairs;
      assert GaveWay(db, c, pairs[at[i]].entry, pairs[at[i]].other);
    }
  }

  // ----- In terms of timetable cells

  /** One period of one weekday in one term of a year. */
  datatype Cell = Cell(year: int, dayOfWeek: string, period: int, term: string)

  const TERMS := {"\U{524D}\U{671F}", "\U{5F8C}\U{671F}"}

  /** A course takes place in its cell of its own term; a full-year course in that of every term. */
  ghost predicate Occupies(c: Course, cell: Cell) {
    && cell.year == c.year && cell.dayOfWeek == c.dayOfWeek && cell.period == c.period
    && (cell.term == c.semester || c.semester == "\U{901A}\U{5E74}")
  }

  /** Both take place in some cell; if both semesters are known ones, in one of a known term. */
  ghost predicate ShareCell(c: Course, d: Course) {
    exists cell :: Occupies(c, cell) && Occupies(d, cell)
                   && (KnownSemester(c) && KnownSemester(d) ==> cell.term in TERMS)
  }

  ghost predicate KnownSemester(c: Course) {
    c.semester in TERMS || c.semester == "\U{901A}\U{5E74}"
  }

  lemma OverlapsIffShareCell(c: Course, d: Course)
    ensures Overlaps(c, d) <==> ShareCell(c, d)
  {
    if Overlaps(c, d) {
      var term := if c.semester != FULL_YEAR then c.semester
                  else if d.semester != FULL_YEAR then d.semester
                  else "\U{524D}\U{671F}";
      var cell := Cell(c.year, c.dayOfWeek, c.period, term);
      assert Occupies(c, cell) && Occupies(d, cell);
    }
  }

  /** Two entries of one user whose courses both take place in some cell. */
  ghost predicate Clash(db: Db, t: Entry, o: Entry) {
    && t in db.timetables && o in db.timetables && t.id != o.id && t.userID == o.userID
    && t.courseID in db.courses && o.courseID in db.courses
    && ShareCell(db.courses[t.courseID], db.courses[o.courseID])
  }

  lemma ClashIffConflict(db: Db, t: Entry, o: Entry)
    requires t in db.timetables && o in db.timetables
    ensures Clash(db, t, o) <==> Conflict(db, t, o)
  {
    if t.courseID in db.courses && o.courseID in db.courses {
      OverlapsIffShareCell(db.courses[t.courseID], db.courses[o.courseID]);
    }
  }

  /** Entry `t` is taken out by `out`. */
  ghost predicate TakenOut(out: seq<SlotConflict>, t: Entry) {
    exists i :: 0 <= i < |out| && out[i].timetableID == t.id
  }

  lemma TakenOutIffRemoved(out: seq<SlotConflict>, t: Entry)
    ensures TakenOut(out, t) <==> t.id in Removed(out)
  {
    if t.id in Removed(out) {
      var c :| c in out && c.timetableID == t.id;
      var i :| 0 <= i < |out| && out[i] == c;
    }
    if i :| 0 <= i < |out| && out[i].timetableID == t.id {
      assert out[i] in out;
    }
  }

  /**
    What FindSlotConflicts returns, over any number of chunks: an entry is taken out only if it is of a
    moved course and clashes with another one, and afterwards no entry of a moved course clashes.
   */
  method ClearClashes(db: Db, movedCourseIDs: seq<int>, size: nat) returns (out: seq<SlotConflict>)
    requires db.Keyed() && size > 0
    ensures forall t :: t in db.timetables && TakenOut(out, t) ==>
              t.courseID in movedCourseIDs && exists o :: Clash(db, t, o)
    ensures forall t, o ::
              Clash(db, t, o) && t.courseID in movedCourseIDs ==> TakenOut(out, t) || TakenOut(out, o)
  {
    var r := FindSlotConflicts(db, movedCourseIDs, size, _ => false);
    out := r.value;
    forall t | t in db.timetables && TakenOut(out, t)
      ensures t.courseID in movedCourseIDs && exists o :: Clash(db, t, o)
    {
      TakenOutIffRemoved(out, t);
      var o := RemovedClashes(db, movedCourseIDs, size, t);
    }
    forall t, o | Clash(db, t, o) && t.courseID in movedCourseIDs
      ensures TakenOut(out, t) || TakenOut(out, o)
    {
      TakenOutIffRemoved(out, t);
      TakenOutIffRemoved(out, o);
      SlotsAreFree(db, movedCourseIDs, size, t, o);
      ClashIffConflict(db, t, o);
    }
  }

  lemma RemovedClashes(db: Db, ids: seq<int>, size: nat, t: Entry) returns (o: Entry)
    requires db.Keyed() && size > 0 && t in db.timetables
    requires t.id in Removed(Greedy(AllRows(db, ids, size), IdSet(ids)))
    ensures t.courseID in ids && Clash(db, t, o)
  {
    var moved, pairs := IdSet(ids), AllRows(db, ids, size);
    var out := Greedy(pairs, moved);
    var at := GreedySettles(pairs, moved);
    QueryIsComplete(db, ids, size);
    OnlyMovedAreRemoved(db, moved, pairs, out, at, t);
    var i :| 0 <= i < |out| && pairs[at[i]].entry == t;
    o := pairs[at[i]].other;
    assert pairs[at[i]] in pairs;
    ClashIffConflict(db, t, o);
  }

  /** Within one query, putting a removed entry back would clash with one that stayed; and that is the one reported. */
  method ClearClashesInOneQuery(db: Db, movedCourseIDs: seq<int>, size: nat) returns (out: seq<SlotConflict>)
    requires db.Keyed() && size > 0 && |movedCourseIDs| <= size
    ensures forall c :: c in out ==>
              exists t, o :: Clash(db, t, o) && !TakenOut(out, o)
                             && c == SlotConflict(t.id, t.userID, t.courseID, o.courseID, db.courses[o.courseID].name)
  {
    out := ResolveConflicts(db, movedCourseIDs, size);
    forall c | c in out
      ensures exists t, o :: Clash(db, t, o) && !TakenOut(out, o)
                             && c == SlotConflict(t.id, t.userID, t.courseID, o.courseID, db.courses[o.courseID].name)
    {
      var t, o :| GaveWay(db, c, t, o) && o.id !in Removed(out);
      ClashIffConflict(db, t, o);
      TakenOutIffRemoved(out, o);
    }
  }

  // ----- Across chunks the order is lost

  const FIRST_TERM := Entry(1, 7, 10)
  const WHOLE_YEAR := Entry(2, 7, 20)
  const SECOND_TERM := Entry(3, 7, 30)

  /** One user, one slot: a first-term, a full-year and a second-term course, registered in this order. */
  function ThreeTerms(): Db {
    Db([FIRST_TERM, WHOLE_YEAR, SECOND_TERM],
       map[10 := Course(2024, "Mon", 1, "1", "A"), 20 := Course(2024, "Mon", 1, FULL_YEAR, "B"),
           30 := Course(2024, "Mon", 1, "2", "C")])
  }

  lemma ThreeTermsConflicts()
    ensures var db := ThreeTerms();
            && (forall e :: !Conflict(db, e, e))
            && !Conflict(db, SECOND_TERM, FIRST_TERM) && Conflict(db, SECOND_TERM, WHOLE_YEAR)
            && Conflict(db, WHOLE_YEAR, FIRST_TERM) && Conflict(db, WHOLE_YEAR, SECOND_TERM)
  {
    assert "1"[0] == '1' && "2"[0] == '2' && FULL_YEAR[0] == '\U{901A}';
  }

  const ROW_32 := Pair(SECOND_TERM, WHOLE_YEAR, "B")
  const ROW_21 := Pair(WHOLE_YEAR, FIRST_TERM, "A")
  const ROW_23 := Pair(WHOLE_YEAR, SECOND_TERM, "C")

  lemma ThreeTermsRowsOf()
    ensures RowsOf(ThreeTerms(), WHOLE_YEAR, 3) == [ROW_21, ROW_23]
    ensures RowsOf(ThreeTerms(), SECOND_TERM, 3) == [ROW_32]
  {
    var db := ThreeTerms();
    ThreeTermsConflicts();
    assert RowsOf(db, WHOLE_YEAR, 1) == [ROW_21] && RowsOf(db, WHOLE_YEAR, 2) == [ROW_21];
    assert RowsOf(db, SECOND_TERM, 1) == [] && RowsOf(db, SECOND_TERM, 2) == [ROW_32];
  }

  lemma {:induction false} NoRowsOfOthers(db: Db, chunk: seq<int>, n: nat)
    requires n <= |db.timetables| && forall j :: 0 <= j < n ==> db.timetables[j].courseID !in chunk
    ensures Rows(db, chunk, n) == []
  {
    if n > 0 {
      NoRowsOfOthers(db, chunk, n - 1);
    }
  }

  lemma {:induction false} RowsOfOneEntry(db: Db, chunk: seq<int>, k: nat, n: nat)
    requires k < n <= |db.timetables|
    requires forall j :: 0 <= j < n ==> (db.timetables[j].courseID in chunk <==> j == k)
    ensures Rows(db, chunk, n) == RowsOf(db, db.timetables[k], |db.timetables|)
  {
    if n - 1 == k {
      NoRowsOfOthers(db, chunk, k);
    } else {
      RowsOfOneEntry(db, chunk, k, n - 1);
    }
  }

  /** The moved ids: 30 first, 20 last, and courses that nobody has registered between them. */
  function ManyMoved(n: nat): (ids: seq<int>)
    requires n >= 2
    ensures |ids| == n
  {
    [30] + Consecutive(100, n - 2) + [20]
  }

  predicate Distinct(ids: seq<int>) {
    forall i, j :: 0 <= i < j < |ids| ==> ids[i] != ids[j]
  }

  lemma ManyMovedIds(n: nat)
    requires n >= 2
    ensures Distinct(ManyMoved(n))
    ensures 30 in IdSet(ManyMoved(n)) && 20 in IdSet(ManyMoved(n)) && 10 !in IdSet(ManyMoved(n))
  {
    assert ManyMoved(n)[0] == 30 && ManyMoved(n)[n - 1] == 20;
  }

  lemma ThreeTermsKeyed()
    ensures ThreeTerms().Keyed()
  {
  }

  lemma LastChunkRows(n: nat, from: nat, size: nat)
    requires n >= 2 && 1 <= from < n && n - from <= size
    ensures AllRows(ThreeTerms(), ManyMoved(n)[from..], size) == RowsOf(ThreeTerms(), WHOLE_YEAR, 3)
  {
    var db, ids := ThreeTerms(), ManyMoved(n)[from..];
    assert ids[n - from - 1] == 20 && db.timetables[1] == WHOLE_YEAR;
    RowsOfOneEntry(db, ids, 1, 3);
  }

  lemma MiddleChunkRows(n: nat, from: nat, size: nat)
    requires n >= 2 && 1 <= from < n && 0 < size < n - from
    ensures AllRows(ThreeTerms(), ManyMoved(n)[from..], size)
         == AllRows(ThreeTerms(), ManyMoved(n)[from + size..], size)
  {
    var db, ids := ThreeTerms(), ManyMoved(n)[from..];
    NoRowsOfOthers(db, ids[..size], 3);
    assert ids[size..] == ManyMoved(n)[from + size..];
  }

  /** However the rest is cut, its only rows are those of the last course. */
  lemma {:induction false} RowsOfTheRest(n: nat, from: nat, size: nat)
    requires size > 0 && n >= 2 && 1 <= from < n
    ensures AllRows(ThreeTerms(), ManyMoved(n)[from..], size) == RowsOf(ThreeTerms(), WHOLE_YEAR, 3)
    decreases n - from
  {
    if n - from <= size {
      LastChunkRows(n, from, size);
    } else {
      MiddleChunkRows(n, from, size);
      RowsOfTheRest(n, from + size, size);
    }
  }

  lemma FirstAndLastRows(n: nat, size: nat)
    requires 0 < size < n
    ensures var db := ThreeTerms();
            AllRows(db, ManyMoved(n), size) == RowsOf(db, SECOND_TERM, 3) + RowsOf(db, WHOLE_YEAR, 3)
  {
    var db, ids := ThreeTerms(), ManyMoved(n);
    assert ids[..size][0] == 30 && db.timetables[2] == SECOND_TERM;
    RowsOfOneEntry(db, ids[..size], 2, 3);
    RowsOfTheRest(n, size, size);
  }

  lemma ManyMovedRows(n: nat, size: nat)
    requires 0 < size < n
    ensures AllRows(ThreeTerms(), ManyMoved(n), size) == [ROW_32, ROW_21, ROW_23]
  {
    FirstAndLastRows(n, size);
    ThreeTermsRowsOf();
  }

  /** The two removals of the pass over these rows. */
  function ThreeTermsRemovals(): seq<SlotConflict> {
    [SlotConflict(3, 7, 30, 20, "B"), SlotConflict(2, 7, 20, 10, "A")]
  }

  /** Two rows that remove their entries, then another row of the second entry. */
  lemma ThreeRowsPass(a: Pair, b: Pair, c: Pair, moved: set<int>)
    requires !Yields(a, moved) && !Yields(b, moved)
    requires a.entry.id != b.entry.id && a.entry.id != b.other.id && c.entry.id == b.entry.id
    ensures Greedy([a, b, c], moved) == [ReportOf(a), ReportOf(b)]
    ensures Removed([ReportOf(a), ReportOf(b)]) == {a.entry.id, b.entry.id}
  {
    assert Greedy([], moved) == [] && Removed([]) == {};
    assert [] + [a] == [a] && [a] + [b] == [a, b] && [a, b] + [c] == [a, b, c];
    GreedyOneMore([], moved, a);
    assert Greedy([a], moved) == [ReportOf(a)];
    RemovedOneMore([], ReportOf(a));
    assert [] + [ReportOf(a)] == [ReportOf(a)] && [ReportOf(a)] + [ReportOf(b)] == [ReportOf(a), ReportOf(b)];
    GreedyOneMore([a], moved, b);
    RemovedOneMore([ReportOf(a)], ReportOf(b));
    GreedyOneMore([a, b], moved, c);
  }

  /** The pass over these rows removes the second-term entry, then the full-year one. */
  lemma ThreeTermsPass(moved: set<int>)
    requires 20 in moved && 30 in moved && 10 !in moved
    ensures Greedy([ROW_32, ROW_21, ROW_23], moved) == ThreeTermsRemovals()
    ensures Removed(ThreeTermsRemovals()) == {3, 2}
  {
    ThreeRowsPass(ROW_32, ROW_21, ROW_23, moved);
  }

  lemma ThreeTermsStays(moved: set<int>)
    requires 20 in moved && 30 in moved && 10 !in moved
    ensures Stays(ThreeTerms(), moved, 2)
  {
    var db := ThreeTerms();
    ThreeTermsConflicts();
    assert db.timetables[0] == FIRST_TERM && db.timetables[1] == WHOLE_YEAR && db.timetables[2] == SECOND_TERM;
    assert !Stays(db, moved, 1) by {
      assert Conflict(db, db.timetables[1], db.timetables[0]) && !Moves(moved, db.timetables[0]);
    }
  }

  /**
    Whenever the moved courses need more than one query, an entry can be removed for one that is
    removed later: the second-term entry gives way to the full-year one, which gives way to the
    first-term one, although first and second term do not conflict.
   */
  lemma ChunksMayRemoveTooMuch(n: nat, size: nat) returns (db: Db, ids: seq<int>, k: nat)
    requires 0 < size < n
    ensures db.Keyed() && |ids| == n && Distinct(ids)
    ensures k < |db.timetables| && Stays(db, IdSet(ids), k)
    ensures db.timetables[k].id in Removed(Greedy(AllRows(db, ids, size), IdSet(ids)))
  {
    db, ids, k := ThreeTerms(), ManyMoved(n), 2;
    ManyMovedIds(n);
    ThreeTermsKeyed();
    ManyMovedRows(n, size);
    ThreeTermsPass(IdSet(ids));
    ThreeTermsStays(IdSet(ids));
  }

  /** For all tables and any `n` moved courses, the pass removes exactly the entries failing the rule. */
  ghost predicate RuleDecides(n: nat, size: nat)
    requires size > 0
  {
    forall db: Db, ids | db.Keyed() && |ids| == n && Distinct(ids) ::
      FollowsTheRule(db, IdSet(ids), Greedy(AllRows(db, ids, size), IdSet(ids)))
  }

  /** The rule decides exactly as long as one query holds all moved courses. */
  lemma RuleDecidesWithinOneQuery(n: nat, size: nat)
    requires size > 0
    ensures RuleDecides(n, size) <==> n <= size
  {
    if n <= size {
      forall db: Db, ids | db.Keyed() && |ids| == n && Distinct(ids)
        ensures FollowsTheRule(db, IdSet(ids), Greedy(AllRows(db, ids, size), IdSet(ids)))
      {
        OneQueryFollowsTheRule(db, ids, size);
      }
    } else {
      var db, ids, k := ChunksMayRemoveTooMuch(n, size);
      assert !FollowsTheRule(db, IdSet(ids), Greedy(AllRows(db, ids, size), IdSet(ids)));
    }
  }

  /** With the chunk size of the code. */
  lemma RuleDecidesUpTo60000(n: nat)
    ensures RuleDecides(n, CHUNK_SIZE) <==> n <= 60000
  {
    RuleDecidesWithinOneQuery(n, CHUNK_SIZE);
  }
}
