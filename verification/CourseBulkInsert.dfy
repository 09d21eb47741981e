/**
  Creating many courses with their rooms in two chunked bulk inserts
  (SaveCoursesWithRooms in infra/mysql/course_repository.go).

  Rooms (4 columns) and courses (13 columns) are cut into chunks of different sizes. One INSERT gets
  consecutive ids from the first one reported; between inserts, other writers may take any number.
 */
module CourseBulkInsert {
  import opened Sequences
  import opened Wrappers

  datatype Param = Param(dayOfWeek: string, period: int, teacherName: string, courseName: string,
                         year: int, semester: string, dedupKey: string,
                         source: string, sourceRef: string, sourceName: string)

  datatype Room = Room(name: string, kind: string)

  datatype CourseRow = CourseRow(roomID: int, param: Param)

  const COURSE_KIND := "course"
  /** bulkInsertChunkSize(4) and bulkInsertChunkSize(13). */
  const ROOM_CHUNK: nat := 60000 / 4
  const COURSE_CHUNK: nat := 60000 / 13

  /** model.Course: the ids are filled in after the inserts. */
  class Course {
    const param: Param
    var id: int
    var roomID: int

    constructor (param: Param)
      ensures this.param == param
    {
      this.param := param;
    }
  }

  function Min(a: nat, b: nat): nat {
    if a < b then a else b
  }

  /** What the database does during one pass: before its k-th INSERT `taken(k)` ids go to others; it may fail. */
  datatype Pass = Pass(taken: nat -> nat, fails: nat -> bool) {
    /** No INSERT fails while `n` rows are written in chunks. */
    ghost predicate Succeeds(n: nat, chunk: nat) {
      forall k: nat :: k * chunk < n ==> !fails(k)
    }
  }

  /** After `k` INSERTs, none of which failed, `done` of `n` rows are written. */
  ghost predicate Progress(pass: Pass, n: nat, chunk: nat, k: nat, done: nat) {
    done == Min(k * chunk, n) && forall j: nat :: j < k ==> !pass.fails(j)
  }

  lemma MulOrder(a: nat, b: nat, chunk: nat)
    requires a <= b
    ensures a * chunk <= b * chunk
  {
  }

  lemma NextInsert(pass: Pass, n: nat, chunk: nat, k: nat, done: nat)
    requires Progress(pass, n, chunk, k, done) && done < n
    ensures pass.fails(k) ==> !pass.Succeeds(n, chunk)
    ensures !pass.fails(k) ==> Progress(pass, n, chunk, k + 1, Min(done + chunk, n))
  {
    assert k * chunk < n && (k + 1) * chunk == k * chunk + chunk;
  }

  lemma PassIsOver(pass: Pass, n: nat, chunk: nat, k: nat)
    requires Progress(pass, n, chunk, k, n)
    ensures pass.Succeeds(n, chunk)
  {
    forall j: nat | j * chunk < n
      ensures !pass.fails(j)
    {
      if k <= j {
        MulOrder(k, j, chunk);
      }
    }
  }

  // ----- Tables with automatic ids

  /** `ids` are new, distinct keys for `rows`; the rest of the table is as before. */
  ghost predicate Added<R>(table: map<int, R>, before: map<int, R>, ids: seq<int>, rows: seq<R>) {
    && |ids| == |rows|
    && (forall i :: 0 <= i < |ids| ==> ids[i] !in before && ids[i] in table && table[ids[i]] == rows[i])
    && (forall i, j :: 0 <= i < j < |ids| ==> ids[i] != ids[j])
    && (forall k :: k in table ==> k in before || k in ids)
    && (forall k :: k in before ==> k in table && table[k] == before[k])
  }

  /** The rows of one INSERT under consecutive ids. */
  function Block<R>(first: int, rows: seq<R>): (block: map<int, R>)
    ensures forall k :: k in block <==> first <= k < first + |rows|
    ensures forall k :: k in block ==> block[k] == rows[k - first]
  {
    if rows == [] then map[] else
      var n := |rows| - 1;
      Block(first, rows[..n])[first + n := rows[n]]
  }

  /** One more INSERT, above all ids so far. */
  lemma AddChunk<R>(table: map<int, R>, before: map<int, R>, ids: seq<int>, rows: seq<R>, chunk: seq<R>, first: int)
    requires Added(table, before, ids, rows) && forall k :: k in table ==> k < first
    ensures Added(table + Block(first, chunk), before, ids + Consecutive(first, |chunk|), rows + chunk)
  {
    var after, all := table + Block(first, chunk), ids + Consecutive(first, |chunk|);
    forall i | 0 <= i < |all|
      ensures all[i] !in before && all[i] in after && after[all[i]] == (rows + chunk)[i]
      ensures i < |ids| <==> all[i] < first
    {
      if i < |ids| {
        assert all[i] == ids[i];
      } else {
        assert all[i] == first + (i - |ids|) && all[i] in Block(first, chunk);
      }
    }
    forall k | k in after
      ensures k in before || k in all
    {
      if k in Block(first, chunk) {
        assert all[|ids| + (k - first)] == k;
      }
    }
  }

  lemma AddSlice<R>(table: map<int, R>, before: map<int, R>, ids: seq<int>, rows: seq<R>, start: nat, end: nat,
                    first: int)
    requires start <= end <= |rows| && Added(table, before, ids, rows[..start])
    requires forall k :: k in table ==> k < first
    ensures Added(table + Block(first, rows[start..end]), before, ids + Consecutive(first, end - start), rows[..end])
  {
    AddChunk(table, before, ids, rows[..start], rows[start..end], first);
    assert rows[..end] == rows[..start] + rows[start..end];
  }

  class Database {
    var rooms: map<int, Room>
    var courses: map<int, CourseRow>
    var nextRoom: int
    var nextCourse: int

    ghost predicate Valid()
      reads this
    {
      && (forall k :: k in rooms ==> k < nextRoom)
      && (forall k :: k in courses ==> k < nextCourse)
    }

    /** One multi-row INSERT INTO rooms; `taken` ids went to other writers before it. */
    method InsertRooms(rows: seq<Room>, taken: nat) returns (firstID: int)
      requires Valid()
      modifies this`rooms, this`nextRoom
      ensures Valid() && firstID == old(nextRoom) + taken && nextRoom == firstID + |rows|
      ensures rooms == old(rooms) + Block(firstID, rows)
    {
      firstID := nextRoom + taken;
      rooms := rooms + Block(firstID, rows);
      nextRoom := firstID + |rows|;
    }

    /** One multi-row INSERT INTO courses. */
    method InsertCourses(rows: seq<CourseRow>, taken: nat) returns (firstID: int)
      requires Valid()
      modifies this`courses, this`nextCourse
      ensures Valid() && firstID == old(nextCourse) + taken && nextCourse == firstID + |rows|
      ensures courses == old(courses) + Block(firstID, rows)
    {
      firstID := nextCourse + taken;
      courses := courses + Block(firstID, rows);
      nextCourse := firstID + |rows|;
    }
  }

  ghost predicate Distinct(courses: seq<Course>) {
    forall i, j :: 0 <= i < j < |courses| ==> courses[i] != courses[j]
  }

  function RoomsOf(courses: seq<Course>): (rows: seq<Room>)
    ensures |rows| == |courses|
    ensures forall i :: 0 <= i < |rows| ==> rows[i] == Room(courses[i].param.courseName, COURSE_KIND)
  {
    seq(|courses|, i requires 0 <= i < |courses| => Room(courses[i].param.courseName, COURSE_KIND))
  }

  function RowsOf(courses: seq<Course>): (rows: seq<CourseRow>)
    reads courses
    ensures |rows| == |courses|
    ensures forall i :: 0 <= i < |rows| ==> rows[i] == CourseRow(courses[i].roomID, courses[i].param)
  {
    seq(|courses|, i requires 0 <= i < |courses| reads courses => CourseRow(courses[i].roomID, courses[i].param))
  }

  /** Room ids are written back to one chunk, in order. */
  method AssignRoomIDs(courses: seq<Course>, start: nat, end: nat, firstID: int)
    requires Distinct(courses) && start <= end <= |courses|
    modifies courses
    ensures forall i :: 0 <= i < |courses| ==>
              courses[i].roomID == if start <= i < end then firstID + (i - start) else old(courses[i].roomID)
  {
    var chunk := courses[start..end];
    for i := 0 to |chunk|
      invariant forall j :: 0 <= j < |courses| ==>
                  courses[j].roomID == if start <= j < start + i then firstID + (j - start) else old(courses[j].roomID)
    {
      assert chunk[i] == courses[start + i];
      chunk[i].roomID := firstID + i;
    }
  }

  /** Course ids are written back to one chunk, in order. */
  method AssignCourseIDs(courses: seq<Course>, start: nat, end: nat, firstID: int)
    requires Distinct(courses) && start <= end <= |courses|
    modifies courses
    ensures forall i :: 0 <= i < |courses| ==> courses[i].roomID == old(courses[i].roomID)
    ensures forall i :: 0 <= i < |courses| ==>
              courses[i].id == if start <= i < end then firstID + (i - start) else old(courses[i].id)
  {
    var chunk := courses[start..end];
    for i := 0 to |chunk|
      invariant forall j :: 0 <= j < |courses| ==> courses[j].roomID == old(courses[j].roomID)
      invariant forall j :: 0 <= j < |courses| ==>
                  courses[j].id == if start <= j < start + i then firstID + (j - start) else old(courses[j].id)
    {
      assert chunk[i] == courses[start + i];
      chunk[i].id := firstID + i;
    }
  }

  /** One INSERT of the first pass, and its ids. */
  method RoomTurn(db: Database, courses: seq<Course>, rows: seq<Room>, start: nat, end: nat, taken: nat,
                  ghost before: map<int, Room>, ghost ids: seq<int>)
    returns (ghost ids': seq<int>)
    requires db.Valid() && Distinct(courses) && start <= end <= |courses| == |rows|
    requires Added(db.rooms, before, ids, rows[..start])
    requires forall i :: 0 <= i < start ==> courses[i].roomID == ids[i]
    modifies db`rooms, db`nextRoom, courses
    ensures db.Valid() && db.nextRoom >= old(db.nextRoom)
    ensures Added(db.rooms, before, ids', rows[..end])
    ensures forall i :: 0 <= i < end ==> courses[i].roomID == ids'[i]
  {
    ghost var table := db.rooms;
    var firstID := db.InsertRooms(rows[start..end], taken);
    ids' := ids + Consecutive(firstID, end - start);
    assert db.rooms == table + Block(firstID, rows[start..end]);
    AddSlice(table, before, ids, rows, start, end, firstID);
    AssignRoomIDs(courses, start, end, firstID);
  }

  /** The first pass: a room for every course. */
  method InsertAllRooms(db: Database, courses: seq<Course>, pass: Pass)
    returns (ok: bool, ghost ids: seq<int>)
    requires db.Valid() && Distinct(courses)
    modifies db`rooms, db`nextRoom, courses
    ensures db.Valid() && db.nextRoom >= old(db.nextRoom)
    ensures ok <==> pass.Succeeds(|courses|, ROOM_CHUNK)
    ensures ok ==> Added(db.rooms, old(db.rooms), ids, RoomsOf(courses))
    ensures ok ==> forall i :: 0 <= i < |courses| ==> courses[i].roomID == ids[i]
  {
    ghost var before := db.rooms;
    var rows := RoomsOf(courses);
    ids := [];
    var start, k := 0, 0;
    while start < |courses|
      invariant 0 <= start <= |courses| && db.Valid() && db.nextRoom >= old(db.nextRoom)
      invariant Added(db.rooms, before, ids, rows[..start])
      invariant Progress(pass, |courses|, ROOM_CHUNK, k, start)
      invariant forall i :: 0 <= i < start ==> courses[i].roomID == ids[i]
    {
      var end := Min(start + ROOM_CHUNK, |courses|);
      NextInsert(pass, |courses|, ROOM_CHUNK, k, start);
      if pass.fails(k) {
        return false, [];
      }
      ids := RoomTurn(db, courses, rows, start, end, pass.taken(k), before, ids);
      start, k := end, k + 1;
    }
    assert rows[..|courses|] == rows;
    PassIsOver(pass, |courses|, ROOM_CHUNK, k);
    ok := true;
  }

  /** One INSERT of the second pass, and its ids. */
  method CourseTurn(db: Database, courses: seq<Course>, rows: seq<CourseRow>, start: nat, end: nat, taken: nat,
                  ghost before: map<int, CourseRow>, ghost ids: seq<int>)
    returns (ghost ids': seq<int>)
    requires db.Valid() && Distinct(courses) && start <= end <= |courses| == |rows|
    requires Added(db.courses, before, ids, rows[..start])
    requires forall i :: 0 <= i < start ==> courses[i].id == ids[i]
    modifies db`courses, db`nextCourse, courses
    ensures db.Valid() && db.nextCourse >= old(db.nextCourse)
    ensures forall i :: 0 <= i < |courses| ==> courses[i].roomID == old(courses[i].roomID)
    ensures Added(db.courses, before, ids', rows[..end])
    ensures forall i :: 0 <= i < end ==> courses[i].id == ids'[i]
  {
    ghost var table := db.courses;
    var firstID := db.InsertCourses(rows[start..end], taken);
    ids' := ids + Consecutive(firstID, end - start);
    assert db.courses == table + Block(firstID, rows[start..end]);
    AddSlice(table, before, ids, rows, start, end, firstID);
    AssignCourseIDs(courses, start, end, firstID);
  }

  /** The second pass: the courses themselves, each with its room. */
  method InsertAllCourses(db: Database, courses: seq<Course>, pass: Pass)
    returns (ok: bool, ghost ids: seq<int>)
    requires db.Valid() && Distinct(courses)
    modifies db`courses, db`nextCourse, courses
    ensures db.Valid() && db.nextCourse >= old(db.nextCourse)
    ensures forall i :: 0 <= i < |courses| ==> courses[i].roomID == old(courses[i].roomID)
    ensures ok <==> pass.Succeeds(|courses|, COURSE_CHUNK)
    ensures ok ==> Added(db.courses, old(db.courses), ids, old(RowsOf(courses)))
    ensures ok ==> forall i :: 0 <= i < |courses| ==> courses[i].id == ids[i]
  {
    ghost var before := db.courses;
    var rows := RowsOf(courses);
    ids := [];
    var start, k := 0, 0;
    while start < |courses|
      invariant 0 <= start <= |courses| && db.Valid() && db.nextCourse >= old(db.nextCourse)
      invariant forall i :: 0 <= i < |courses| ==> courses[i].roomID == old(courses[i].roomID)
      invariant Added(db.courses, before, ids, rows[..start])
      invariant Progress(pass, |courses|, COURSE_CHUNK, k, start)
      invariant forall i :: 0 <= i < start ==> courses[i].id == ids[i]
    {
      var end := Min(start + COURSE_CHUNK, |courses|);
      NextInsert(pass, |courses|, COURSE_CHUNK, k, start);
      if pass.fails(k) {
        return false, [];
      }
      ids := CourseTurn(db, courses, rows, start, end, pass.taken(k), before, ids);
      start, k := end, k + 1;
    }
    assert rows[..|courses|] == rows;
    PassIsOver(pass, |courses|, COURSE_CHUNK, k);
    ok := true;
  }

  /** One Course object for each parameter, in order. */
  method NewCourses(params: seq<Param>) returns (courses: seq<Course>)
    ensures |courses| == |params| && Distinct(courses)
    ensures forall i :: 0 <= i < |courses| ==> fresh(courses[i]) && courses[i].param == params[i]
  {
    courses := [];
    for i := 0 to |params|
      invariant |courses| == i && Distinct(courses)
      invariant forall j :: 0 <= j < i ==> fresh(courses[j]) && courses[j].param == params[j]
    {
      var c := new Course(params[i]);
      courses := courses + [c];
    }
  }

  function NewRooms(params: seq<Param>): (rows: seq<Room>)
    ensures |rows| == |params| && forall i :: 0 <= i < |rows| ==> rows[i] == Room(params[i].courseName, COURSE_KIND)
  {
    seq(|params|, i requires 0 <= i < |params| => Room(params[i].courseName, COURSE_KIND))
  }

  function NewRows(params: seq<Param>, roomIDs: seq<int>): (rows: seq<CourseRow>)
    requires |roomIDs| == |params|
    ensures |rows| == |params| && forall i :: 0 <= i < |rows| ==> rows[i] == CourseRow(roomIDs[i], params[i])
  {
    seq(|params|, i requires 0 <= i < |params| => CourseRow(roomIDs[i], params[i]))
  }

  /** How a COMMIT ends: done, refused, or done while the answer is lost. */
  datatype Commit = Done | Refused | Unanswered

  /** The database during one call: BEGIN, the two passes and COMMIT, each independent of the others. */
  datatype Transaction = Transaction(begins: bool, roomPass: Pass, coursePass: Pass, commit: Commit) {
    /** Everything up to COMMIT works for `n` courses. */
    ghost predicate ReachesCommit(n: nat) {
      begins && roomPass.Succeeds(n, ROOM_CHUNK) && coursePass.Succeeds(n, COURSE_CHUNK)
    }
  }

  /**
    SaveCoursesWithRooms, in a transaction of its own. Each returned course (in the caller's order)
    carries the id of its own new course row, which refers to its own new room of the course's name;
    no other rows were added or changed. It fails exactly when BEGIN, some INSERT or COMMIT does. Then
    both tables are as they were, unless COMMIT took effect without an answer: all rows are stored.
   */
  method SaveCoursesWithRooms(db: Database, params: seq<Param>, tx: Transaction)
    returns (r: Result<seq<Course>, DbError>, ghost courseIDs: seq<int>, ghost roomIDs: seq<int>)
    requires db.Valid()
    modifies db
    ensures db.Valid()
    ensures r.Success? <==> params == [] || (tx.ReachesCommit(|params|) && tx.commit.Done?)
    // 15000 rooms or 4615 courses go into one INSERT.
    ensures params != [] ==> (r.Success? <==>
              && tx.begins && tx.commit.Done?
              && (forall k: nat :: k * 15000 < |params| ==> !tx.roomPass.fails(k))
              && (forall k: nat :: k * 4615 < |params| ==> !tx.coursePass.fails(k)))
    ensures r.Success? ==> |r.value| == |courseIDs| == |roomIDs| == |params|
    ensures r.Success? ==> forall i :: 0 <= i < |params| ==>
              r.value[i].param == params[i] && r.value[i].id == courseIDs[i] && r.value[i].roomID == roomIDs[i]
    // Said of the rows themselves: own rooms and own course rows, of the right kind, name and data.
    ensures r.Success? ==> forall i :: 0 <= i < |params| ==>
              var c := r.value[i];
              && c.roomID !in old(db.rooms) && c.roomID in db.rooms
              && db.rooms[c.roomID] == Room(params[i].courseName, "course")
              && c.id !in old(db.courses) && c.id in db.courses && db.courses[c.id] == CourseRow(c.roomID, params[i])
    ensures r.Success? ==> forall i, j :: 0 <= i < j < |params| ==>
              r.value[i].id != r.value[j].id && r.value[i].roomID != r.value[j].roomID
    ensures forall k :: k in old(db.rooms) ==> k in db.rooms && db.rooms[k] == old(db.rooms)[k]
    ensures forall k :: k in old(db.courses) ==> k in db.courses && db.courses[k] == old(db.courses)[k]
    ensures if params == [] || (tx.ReachesCommit(|params|) && !tx.commit.Refused?)
            then |roomIDs| == |params| && Added(db.rooms, old(db.rooms), roomIDs, NewRooms(params))
                 && Added(db.courses, old(db.courses), courseIDs, NewRows(params, roomIDs))
            else db.rooms == old(db.rooms) && db.courses == old(db.courses)
  {
    courseIDs, roomIDs := [], [];
    if |params| == 0 {
      return Success([]), [], [];
    }
    if !tx.begins {
      return Failure(DbError("begin failed")), [], [];
    }
    var roomsBefore, coursesBefore := db.rooms, db.courses;
    var courses := NewCourses(params);
    var ok;
    ok, roomIDs := InsertAllRooms(db, courses, tx.roomPass);
    if ok {
      assert RowsOf(courses) == NewRows(params, roomIDs);
      ok, courseIDs := InsertAllCourses(db, courses, tx.coursePass);
    }
    assert ok ==> RoomsOf(courses) == NewRooms(params);
    if !ok || tx.commit.Refused? {
      db.rooms, db.courses := roomsBefore, coursesBefore;
      return Failure(DbError("rolled back")), [], [];
    }
    if tx.commit.Unanswered? {
      return Failure(DbError("no answer")), courseIDs, roomIDs;
    }
    return Success(courses), courseIDs, roomIDs;
  }
}
