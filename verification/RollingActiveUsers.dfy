/**
  The rolling "active users" series of the admin dashboard (infra/mysql/analytics_repository.go).

  The code streams `(user, slot)` rows, fuses the windows of one user into disjoint spans,
  records each span in a difference array and accumulates it. The specification is a set:
  the users having some activity whose window reaches the slot.
 */
module RollingActiveUsers {
  import opened Wrappers

  /** One line of the query: `user` was active in slot `slot` (negative before the first slot shown). */
  datatype Row = Row(user: int, slot: int)

  /** What the query promises: one user's rows stand together and their slots ascend. */
  ghost predicate GroupedAscending(rows: seq<Row>) {
    && (forall i, j, k :: 0 <= i <= j <= k < |rows| && rows[i].user == rows[k].user ==> rows[j].user == rows[i].user)
    && (forall i, k :: 0 <= i <= k < |rows| && rows[i].user == rows[k].user ==> rows[i].slot <= rows[k].slot)
  }

  /** Activity `r` still counts in slot `i`. */
  predicate Reaches(r: Row, window: int, i: int) {
    r.slot <= i <= r.slot + window - 1
  }

  /** The distinct users who count in slot `i`. */
  ghost function ActiveUsers(rows: seq<Row>, window: int, i: int): set<int> {
    set r | r in rows && Reaches(r, window, i) :: r.user
  }

  /** The value of the difference array's accumulator just before index `n`. */
  function Running(diff: seq<int>, n: nat): int
    requires n <= |diff|
  {
    if n == 0 then 0 else Running(diff, n - 1) + diff[n - 1]
  }

  lemma {:induction false} RunningOfSpan(diff: seq<int>, start: nat, end: nat, n: nat)
    requires start <= end < |diff| - 1 && n <= |diff|
    ensures Running(diff[start := diff[start] + 1][end + 1 := diff[end + 1] - 1], n)
         == Running(diff, n) + if start < n <= end + 1 then 1 else 0
  {
    if n > 0 {
      RunningOfSpan(diff, start, end, n - 1);
    }
  }

  lemma {:induction false} RunningOfZeros(diff: seq<int>, n: nat)
    requires n <= |diff| && forall i :: 0 <= i < |diff| ==> diff[i] == 0
    ensures Running(diff, n) == 0
  {
    if n > 0 {
      RunningOfZeros(diff, n - 1);
    }
  }

  /** Reading one more row adds at most its own user. */
  lemma ActiveUsersOfNext(seen: seq<Row>, row: Row, window: int, i: int)
    ensures ActiveUsers(seen + [row], window, i)
         == ActiveUsers(seen, window, i) + if Reaches(row, window, i) then {row.user} else {}
  {
  }

  /** The span not yet written to the difference array, if any. */
  datatype Pending = NoSpan | Span(start: int, end: int) {
    predicate Contains(i: int) {
      Span? && start <= i <= end
    }

    predicate Within(slots: nat) {
      Span? ==> 0 <= start <= end < slots
    }
  }

  /** What the loop keeps: the accumulator plus the pending span count every slot's users among `seen`. */
  ghost predicate Counted(diff: seq<int>, slots: nat, seen: seq<Row>, window: int, p: Pending) {
    && |diff| == slots + 1
    && p.Within(slots)
    && forall i: nat | i < slots ::
         Running(diff, i + 1) + (if p.Contains(i) then 1 else 0) == |ActiveUsers(seen, window, i)|
  }

  /** From the pending span's start on, `user` is active exactly inside it; with no span, nowhere. */
  ghost predicate Follows(slots: nat, seen: seq<Row>, window: int, user: int, p: Pending) {
    forall i: nat | (p.Span? ==> p.start <= i) && i < slots :: user in ActiveUsers(seen, window, i) <==> p.Contains(i)
  }

  /** The output slots one activity reaches, cut to the range (empty when start > end). */
  predicate Clipped(row: Row, window: int, slots: nat, start: int, end: int) {
    && start == (if row.slot < 0 then 0 else row.slot)
    && end == (if row.slot + window - 1 > slots - 1 then slots - 1 else row.slot + window - 1)
  }

  lemma ClippedReaches(row: Row, window: int, slots: nat, start: int, end: int)
    requires Clipped(row, window, slots, start, end)
    ensures forall i: nat | i < slots :: Reaches(row, window, i) <==> start <= i <= end
  {
  }

  /** An activity that reaches no slot changes nothing. */
  lemma SkipRow(diff: seq<int>, slots: nat, seen: seq<Row>, row: Row, window: int, p: Pending)
    requires Counted(diff, slots, seen, window, p) && Follows(slots, seen, window, row.user, p)
    requires forall i: nat | i < slots :: !Reaches(row, window, i)
    ensures Counted(diff, slots, seen + [row], window, p) && Follows(slots, seen + [row], window, row.user, p)
  {
    forall i: nat | i < slots
      ensures ActiveUsers(seen + [row], window, i) == ActiveUsers(seen, window, i)
    {
      ActiveUsersOfNext(seen, row, window, i);
    }
  }

  /** A touching or overlapping activity lengthens the pending span. */
  lemma FuseRow(diff: seq<int>, slots: nat, seen: seq<Row>, row: Row, window: int, p: Pending, start: int, end: int)
    requires Counted(diff, slots, seen, window, p) && Follows(slots, seen, window, row.user, p)
    requires Clipped(row, window, slots, start, end) && start <= end
    requires p.Span? && p.start <= start <= p.end + 1
    ensures var q := if end > p.end then p.(end := end) else p;
            Counted(diff, slots, seen + [row], window, q) && Follows(slots, seen + [row], window, row.user, q)
  {
    var q := if end > p.end then p.(end := end) else p;
    ClippedReaches(row, window, slots, start, end);
    forall i: nat | i < slots
      ensures ActiveUsers(seen + [row], window, i)
           == ActiveUsers(seen, window, i) + if start <= i <= end then {row.user} else {}
      ensures Running(diff, i + 1) + (if q.Contains(i) then 1 else 0) == |ActiveUsers(seen + [row], window, i)|
    {
      ActiveUsersOfNext(seen, row, window, i);
      assert start <= i <= end ==> (row.user in ActiveUsers(seen, window, i) <==> p.Contains(i));
    }
  }

  /** A separate activity opens a new span once the pending one is written. */
  lemma OpenRow(diff: seq<int>, slots: nat, seen: seq<Row>, row: Row, window: int, p: Pending, start: int, end: int)
    requires Counted(diff, slots, seen, window, NoSpan) && Follows(slots, seen, window, row.user, p)
    requires Clipped(row, window, slots, start, end) && start <= end
    requires p.Span? ==> p.start <= p.end && p.end + 1 < start
    ensures var q := Span(start, end);
            Counted(diff, slots, seen + [row], window, q) && Follows(slots, seen + [row], window, row.user, q)
  {
    ClippedReaches(row, window, slots, start, end);
    forall i: nat | i < slots
      ensures ActiveUsers(seen + [row], window, i)
           == ActiveUsers(seen, window, i) + if start <= i <= end then {row.user} else {}
      ensures Running(diff, i + 1) + (if start <= i <= end then 1 else 0) == |ActiveUsers(seen + [row], window, i)|
    {
      ActiveUsersOfNext(seen, row, window, i);
    }
  }

  /** A user is new once the rows of the previous one are over. */
  lemma NewUser(rows: seq<Row>, k: nat, slots: nat, window: int)
    requires GroupedAscending(rows) && k < |rows|
    requires k > 0 ==> rows[k - 1].user != rows[k].user
    ensures Follows(slots, rows[..k], window, rows[k].user, NoSpan)
  {
    assert forall j :: 0 <= j < k ==> rows[j].user != rows[k].user;
  }

  /** Closes the pending span, if there is one: +1 where it starts and -1 just after it ends. */
  method Flush(diff: array<int>, slots: nat, start: int, end: int, haveSpan: bool,
               ghost seen: seq<Row>, ghost window: int)
    requires Counted(diff[..], slots, seen, window, if haveSpan then Span(start, end) else NoSpan)
    modifies diff
    ensures Counted(diff[..], slots, seen, window, NoSpan)
  {
    if haveSpan {
      ghost var before := diff[..];
      diff[start] := diff[start] + 1;
      diff[end + 1] := diff[end + 1] - 1;
      assert diff[..] == before[start := before[start] + 1][end + 1 := before[end + 1] - 1];
      forall i: nat | i < slots
        ensures Running(diff[..], i + 1) == |ActiveUsers(seen, window, i)|
      {
        RunningOfSpan(before, start, end, i + 1);
      }
    }
  }

  /**
    The streaming counter. `answer` is what the database gave: the rows, or any of its errors.
    The window needs no lower bound, and slots before or after the range are allowed.
   */
  method RollingDistinctActiveUsers(answer: Result<seq<Row>, DbError>, slots: nat, window: int)
    returns (r: Result<seq<int>, DbError>)
    requires answer.Success? ==> GroupedAscending(answer.value)
    ensures r.Failure? <==> slots > 0 && answer.Failure?
    ensures r.Failure? ==> r.error == answer.error
    ensures r.Success? ==> |r.value| == slots
    ensures r.Success? && answer.Success? ==>
              forall i :: 0 <= i < slots ==> r.value[i] == |ActiveUsers(answer.value, window, i)|
  {
    var counts := new int[slots](_ => 0);
    if slots <= 0 {
      return Success(counts[..]);
    }
    if answer.Failure? {
      return Failure(answer.error);
    }
    var rows := answer.value;
    var diff := new int[slots + 1](_ => 0);
    var curUser, haveUser := 0, false;
    var start, end, haveSpan := 0, 0, false;
    forall i: nat | i < slots
      ensures Running(diff[..], i + 1) == 0 && ActiveUsers(rows[..0], window, i) == {}
    {
      RunningOfZeros(diff[..], i + 1);
    }

    for k := 0 to |rows|
      invariant haveUser == (k > 0)
      invariant haveUser ==> curUser == rows[k - 1].user
      invariant haveSpan ==> haveUser && (start <= rows[k - 1].slot || start == 0)
      invariant Counted(diff[..], slots, rows[..k], window, if haveSpan then Span(start, end) else NoSpan)
      invariant haveUser ==> Follows(slots, rows[..k], window, curUser, if haveSpan then Span(start, end) else NoSpan)
    {
      var row := rows[k];
      ghost var seen := rows[..k];
      assert rows[..k + 1] == seen + [row];
      if !haveUser || row.user != curUser {
        Flush(diff, slots, start, end, haveSpan, seen, window);
        haveSpan := false;
        curUser, haveUser := row.user, true;
        NewUser(rows, k, slots, window);
      }
      ghost var p := if haveSpan then Span(start, end) else NoSpan;

      var spanStart, spanEnd := row.slot, row.slot + window - 1;
      if spanStart < 0 {
        spanStart := 0;
      }
      if spanEnd > slots - 1 {
        spanEnd := slots - 1;
      }
      ClippedReaches(row, window, slots, spanStart, spanEnd);
      if spanStart > spanEnd {
        SkipRow(diff[..], slots, seen, row, window, p);
        continue;
      }
      if haveSpan && spanStart <= end + 1 {
        FuseRow(diff[..], slots, seen, row, window, p, spanStart, spanEnd);
        if spanEnd > end {
          end := spanEnd;
        }
        continue;
      }
      Flush(diff, slots, start, end, haveSpan, seen, window);
      OpenRow(diff[..], slots, seen, row, window, p, spanStart, spanEnd);
      start, end, haveSpan := spanStart, spanEnd, true;
    }
    Flush(diff, slots, start, end, haveSpan, rows[..|rows|], window);
    assert rows[..|rows|] == rows;
    ghost var recorded := diff[..];

    var running := 0;
    for i := 0 to slots
      invariant diff[..] == recorded && running == Running(recorded, i)
      invariant forall j :: 0 <= j < i ==> counts[j] == |ActiveUsers(rows, window, j)|
    {
      running := running + diff[i];
      assert running == Running(recorded, i + 1);
      counts[i] := running;
    }
    return Success(counts[..]);
  }

  // ----- Why the per-slot numbers must not simply be added up

  /** The users with an activity in exactly slot `a`. */
  ghost function UsersAt(rows: seq<Row>, a: int): set<int> {
    set r | r in rows && r.slot == a :: r.user
  }

  /** The former daily figure: the distinct counts of `n` slots from `lo` on, added. */
  ghost function SumOfSlots(rows: seq<Row>, lo: int, n: nat): nat {
    if n == 0 then 0 else SumOfSlots(rows, lo, n - 1) + |UsersAt(rows, lo + n - 1)|
  }

  /** No user is active in two different slots of the `n` slots from `lo` on. */
  ghost predicate NobodyTwice(rows: seq<Row>, lo: int, n: nat) {
    forall a, b :: lo <= a < b < lo + n ==> UsersAt(rows, a) !! UsersAt(rows, b)
  }

  lemma UnionSize<T>(a: set<T>, b: set<T>)
    ensures |a + b| == |a| + |b| - |a * b|
    ensures |a * b| == 0 <==> a !! b
  {
    if a !! b {
      assert a * b == {};
    } else {
      var x :| x in a && x in b;
      assert x in a * b;
    }
  }

  /** The users of the slots before `i` and those of `i` are disjoint when each slot's are. */
  lemma EarlierApart(rows: seq<Row>, window: nat, i: int)
    requires window > 0
    ensures ActiveUsers(rows, window - 1, i - 1) !! UsersAt(rows, i) <==>
              forall a :: i - window + 1 <= a < i ==> UsersAt(rows, a) !! UsersAt(rows, i)
  {
    var earlier, lo := ActiveUsers(rows, window - 1, i - 1), i - window + 1;
    forall u | u in earlier
      ensures exists a :: lo <= a < i && u in UsersAt(rows, a)
    {
      var r :| r in rows && Reaches(r, window - 1, i - 1) && r.user == u;
      assert u in UsersAt(rows, r.slot);
    }
    forall a, u | lo <= a < i && u in UsersAt(rows, a)
      ensures u in earlier
    {
      var r :| r in rows && r.slot == a && r.user == u;
      assert Reaches(r, window - 1, i - 1);
    }
  }

  /** The rolling count never exceeds the added-up one, and meets it exactly when nobody repeats. */
  lemma {:induction false} RollingBelowSumOfSlots(rows: seq<Row>, window: nat, i: int)
    ensures |ActiveUsers(rows, window, i)| <= SumOfSlots(rows, i - window + 1, window)
    ensures |ActiveUsers(rows, window, i)| == SumOfSlots(rows, i - window + 1, window)
       <==> NobodyTwice(rows, i - window + 1, window)
    decreases window
  {
    if window == 0 {
      assert ActiveUsers(rows, window, i) == {};
    } else {
      RollingBelowSumOfSlots(rows, window - 1, i - 1);
      var earlier, now := ActiveUsers(rows, window - 1, i - 1), UsersAt(rows, i);
      assert ActiveUsers(rows, window, i) == earlier + now;
      UnionSize(earlier, now);
      EarlierApart(rows, window, i);
    }
  }
}
