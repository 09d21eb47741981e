/**
  Adding addenda to a question or answer, at most `max` of them (create and delete in
  infra/mysql/addendum_repository.go), under any interleaving.

  Each create is a transaction: lock the parent row, count the committed addenda, insert, commit.
  Each step of each transaction is atomic; deletes, new parents and deleted parents come in between.
  A transaction's own row becomes visible to the others when it commits.
 */
module AddendumTransactions {

  /** A committed addendum. */
  datatype Row = Row(target: int, userID: int, body: string)

  datatype Failure = TargetNotFound | LimitReached | DbError

  datatype Progress =
    | Started
    | Locked               // SELECT ... FOR UPDATE found the parent
    | Counted              // fewer than max
    | Inserted(id: int)    // not yet committed
    | Succeeded(id: int)   // a.ID
    | Unconfirmed(id: int) // committed, but the answer was lost: the caller gets an error
    | Failed(why: Failure)

  /** One call of create. */
  datatype Tx = Tx(row: Row, max: nat, progress: Progress) {
    predicate HoldsLock() {
      progress.Locked? || progress.Counted? || progress.Inserted?
    }

    /** The transaction has stored its row under `id`. */
    predicate CommittedAs(id: int) {
      progress == Succeeded(id) || progress == Unconfirmed(id)
    }

    predicate Finished() {
      progress.Succeeded? || progress.Unconfirmed? || progress.Failed?
    }
  }

  /** The tables; `owners` records which transaction each id was given to, `removed` the rows later deleted. */
  datatype Db = Db(parents: set<int>, rows: map<int, Row>, nextID: int, owners: map<int, nat>, removed: set<int>)

  /** `locks` maps a locked parent to the transaction that holds it. */
  datatype State = State(db: Db, locks: map<int, nat>, txs: seq<Tx>)

  /** The ids of the committed addenda of one parent. */
  function AddendaOf(db: Db, target: int): set<int> {
    set id | id in db.rows && db.rows[id].target == target
  }

  // ----- Steps

  datatype Action =
    | Begin(row: Row, max: nat)
    | Lock(k: nat)
    | CountRows(k: nat)
    | InsertRow(k: nat)
    | Commit(k: nat, answered: bool)
    | Break(k: nat)               // any other database error, a refused COMMIT included: rollback
    | DeleteAddendum(id: int)
    | AddParent(target: int)
    | DeleteParent(target: int)   // its addenda go with it

  function Advance(s: State, k: nat, p: Progress): seq<Tx>
    requires k < |s.txs|
  {
    s.txs[k := s.txs[k].(progress := p)]
  }

  ghost predicate Step(s: State, s': State, a: Action) {
    match a
    case Begin(row, max) => s' == s.(txs := s.txs + [Tx(row, max, Started)])
    case Lock(k) => LockStep(s, s', k)
    case CountRows(k) => CountStep(s, s', k)
    case InsertRow(k) =>
      && k < |s.txs| && s.txs[k].progress.Counted?
      && s' == s.(db := s.db.(nextID := s.db.nextID + 1, owners := s.db.owners[s.db.nextID := k]),
                  txs := Advance(s, k, Inserted(s.db.nextID)))
    case Commit(k, answered) =>
      && k < |s.txs| && s.txs[k].progress.Inserted?
      && var id := s.txs[k].progress.id;
         s' == State(s.db.(rows := s.db.rows[id := s.txs[k].row]), s.locks - {s.txs[k].row.target},
                     Advance(s, k, if answered then Succeeded(id) else Unconfirmed(id)))
    case Break(k) =>
      && k < |s.txs| && !s.txs[k].Finished()
      && s' == s.(locks := if s.txs[k].HoldsLock() then s.locks - {s.txs[k].row.target} else s.locks,
                  txs := Advance(s, k, Failed(DbError)))
    case DeleteAddendum(id) =>
      id in s.db.rows && s' == s.(db := s.db.(rows := s.db.rows - {id}, removed := s.db.removed + {id}))
    case AddParent(target) => s' == s.(db := s.db.(parents := s.db.parents + {target}))
    case DeleteParent(target) =>
      && target !in s.locks
      && s' == s.(db := s.db.(parents := s.db.parents - {target}, rows := s.db.rows - AddendaOf(s.db, target),
                              removed := s.db.removed + AddendaOf(s.db, target)))
  }

  /** SELECT id ... FOR UPDATE: waits while another transaction holds the row. */
  ghost predicate LockStep(s: State, s': State, k: nat) {
    && k < |s.txs| && s.txs[k].progress.Started?
    && var target := s.txs[k].row.target;
       && target !in s.locks
       && s' == if target in s.db.parents
                then s.(locks := s.locks[target := k], txs := Advance(s, k, Locked))
                else s.(txs := Advance(s, k, Failed(TargetNotFound)))
  }

  /** SELECT COUNT(*): too many already, and the transaction rolls back. */
  ghost predicate CountStep(s: State, s': State, k: nat) {
    && k < |s.txs| && s.txs[k].progress.Locked?
    && var target := s.txs[k].row.target;
       s' == if |AddendaOf(s.db, target)| >= s.txs[k].max
             then s.(locks := s.locks - {target}, txs := Advance(s, k, Failed(LimitReached)))
             else s.(txs := Advance(s, k, Counted))
  }

  ghost predicate Init(s: State) {
    s.db.rows == map[] && s.db.owners == map[] && s.db.removed == {} && s.locks == map[] && s.txs == []
  }

  ghost predicate Run(states: seq<State>, actions: seq<Action>) {
    && |states| == |actions| + 1 && Init(states[0])
    && forall i :: 0 <= i < |actions| ==> Step(states[i], states[i + 1], actions[i])
  }

  /** No call allows more than `limit`. */
  ghost predicate MaxAtMost(actions: seq<Action>, limit: nat) {
    forall a :: a in actions && a.Begin? ==> a.max <= limit
  }

  // ----- What every step keeps

  /** The lock table and the transactions agree; so two holders never share a parent. */
  ghost predicate LocksAgree(s: State) {
    && (forall t :: t in s.locks ==>
          s.locks[t] < |s.txs| && s.txs[s.locks[t]].HoldsLock() && s.txs[s.locks[t]].row.target == t
                                     && t in s.db.parents)
    && (forall k :: 0 <= k < |s.txs| && s.txs[k].HoldsLock() ==>
          s.txs[k].row.target in s.locks && s.locks[s.txs[k].row.target] == k)
  }

  /** No parent has more than `limit` addenda, and a holder past its count still has room. */
  ghost predicate WithinLimit(s: State, limit: nat) {
    && (forall k :: 0 <= k < |s.txs| ==> s.txs[k].max <= limit)
    && (forall t :: |AddendaOf(s.db, t)| <= limit)
    && (forall k :: 0 <= k < |s.txs| && (s.txs[k].progress.Counted? || s.txs[k].progress.Inserted?) ==>
          |AddendaOf(s.db, s.txs[k].row.target)| < s.txs[k].max)
  }

  /** An id has been given, committed or not. */
  predicate HasID(p: Progress) {
    p.Inserted? || p.Succeeded? || p.Unconfirmed?
  }

  /** Ids are given once; the rows stored or removed again are exactly those of the committed transactions. */
  ghost predicate RowsAccounted(s: State) {
    && (forall id :: id in s.db.owners ==> id < s.db.nextID)
    && (forall k :: 0 <= k < |s.txs| && HasID(s.txs[k].progress) ==>
          s.txs[k].progress.id in s.db.owners && s.db.owners[s.txs[k].progress.id] == k)
    && (forall k :: 0 <= k < |s.txs| && HasID(s.txs[k].progress) && !s.txs[k].progress.Inserted? ==>
          (s.txs[k].progress.id in s.db.rows) != (s.txs[k].progress.id in s.db.removed))
    && (forall id :: id in s.db.removed ==> GivenTo(s, id))
    && (forall id :: id in s.db.rows ==> GivenTo(s, id) && s.db.rows[id] == s.txs[s.db.owners[id]].row)
  }

  /** Id `id` was given to a transaction that committed with it. */
  ghost predicate GivenTo(s: State, id: int) {
    id in s.db.owners && s.db.owners[id] < |s.txs| && s.txs[s.db.owners[id]].CommittedAs(id)
  }

  /** Giving up the lock, if it was held, in any final state. */
  lemma ReleaseKeepsLocks(s: State, s': State, k: nat, p: Progress)
    requires LocksAgree(s) && k < |s.txs| && (p.Succeeded? || p.Unconfirmed? || p.Failed?)
    requires s'.txs == Advance(s, k, p) && s'.db.parents == s.db.parents
    requires s'.locks == if s.txs[k].HoldsLock() then s.locks - {s.txs[k].row.target} else s.locks
    ensures LocksAgree(s')
  {
  }

  lemma StepKeepsLocks(s: State, s': State, a: Action)
    requires LocksAgree(s) && Step(s, s', a)
    ensures LocksAgree(s')
  {
    match a
    case CountRows(k) =>
      if s'.txs[k].progress.Failed? {
        ReleaseKeepsLocks(s, s', k, s'.txs[k].progress);
      }
    case Commit(k, _) => ReleaseKeepsLocks(s, s', k, s'.txs[k].progress);
    case Break(k) => ReleaseKeepsLocks(s, s', k, s'.txs[k].progress);
    case _ =>
  }

  lemma FewerAddenda(db: Db, db': Db, t: int)
    requires forall id :: id in db'.rows ==> id in db.rows && db.rows[id] == db'.rows[id]
    ensures |AddendaOf(db', t)| <= |AddendaOf(db, t)|
  {
    forall id | id in AddendaOf(db', t)
      ensures id in AddendaOf(db, t)
    {
      assert id in db'.rows;
    }
    SubsetSize(AddendaOf(db', t), AddendaOf(db, t));
  }

  lemma SubsetSize(a: set<int>, b: set<int>)
    requires a <= b
    ensures |a| <= |b|
  {
    assert b == a + (b - a);
  }

  lemma OneMoreAddendum(db: Db, id: int, row: Row, t: int)
    requires id !in db.rows
    ensures |AddendaOf(db.(rows := db.rows[id := row]), t)| == |AddendaOf(db, t)| + if row.target == t then 1 else 0
  {
    var more := AddendaOf(db.(rows := db.rows[id := row]), t);
    if row.target == t {
      assert more == AddendaOf(db, t) + {id};
    } else {
      assert more == AddendaOf(db, t);
    }
  }

  /** A commit adds one row, for which its holder had counted room. */
  lemma CommitKeepsLimit(s: State, s': State, k: nat, answered: bool, limit: nat)
    requires LocksAgree(s) && RowsAccounted(s) && WithinLimit(s, limit) && Step(s, s', Commit(k, answered))
    ensures WithinLimit(s', limit)
  {
    var tx := s.txs[k];
    CommitKeepsAccount(s, s', k, answered);
    forall t
      ensures |AddendaOf(s'.db, t)| == |AddendaOf(s.db, t)| + if tx.row.target == t then 1 else 0
    {
      OneMoreAddendum(s.db, tx.progress.id, tx.row, t);
    }
  }

  /** No other step adds a row. */
  lemma StepKeepsLimit(s: State, s': State, a: Action, limit: nat)
    requires LocksAgree(s) && RowsAccounted(s) && WithinLimit(s, limit) && Step(s, s', a)
    requires a.Begin? ==> a.max <= limit
    ensures WithinLimit(s', limit)
  {
    if a.Commit? {
      CommitKeepsLimit(s, s', a.k, a.answered, limit);
    } else {
      forall t
        ensures |AddendaOf(s'.db, t)| <= |AddendaOf(s.db, t)|
      {
        FewerAddenda(s.db, s'.db, t);
      }
    }
  }

  lemma CommitKeepsAccount(s: State, s': State, k: nat, answered: bool)
    requires RowsAccounted(s) && Step(s, s', Commit(k, answered))
    ensures RowsAccounted(s')
    ensures s.txs[k].progress.id !in s.db.rows
  {
    var id := s.txs[k].progress.id;
    assert s.db.owners[id] == k && !GivenTo(s, id);
    forall i | GivenTo(s, i)
      ensures GivenTo(s', i) && s.db.owners[i] != k
    {
    }
    assert GivenTo(s', id);
  }

  lemma InsertKeepsAccount(s: State, s': State, k: nat)
    requires RowsAccounted(s) && Step(s, s', InsertRow(k))
    ensures RowsAccounted(s')
  {
    assert s.db.nextID !in s.db.owners;
    forall i | GivenTo(s, i)
      ensures GivenTo(s', i) && s'.txs[s'.db.owners[i]].row == s.txs[s.db.owners[i]].row
    {
    }
  }

  lemma RemovalKeepsAccount(s: State, s': State, ids: set<int>)
    requires RowsAccounted(s) && ids <= s.db.rows.Keys
    requires s'.txs == s.txs && s'.db.owners == s.db.owners && s'.db.nextID == s.db.nextID
    requires s'.db.rows == s.db.rows - ids && s'.db.removed == s.db.removed + ids
    ensures RowsAccounted(s')
  {
    assert forall i :: GivenTo(s, i) ==> GivenTo(s', i);
  }

  /** Steps that neither give ids nor touch rows. */
  lemma UnrelatedKeepsAccount(s: State, s': State)
    requires RowsAccounted(s)
    requires s'.db.rows == s.db.rows && s'.db.removed == s.db.removed
    requires s'.db.owners == s.db.owners && s'.db.nextID == s.db.nextID
    requires |s.txs| <= |s'.txs|
    requires forall k :: 0 <= k < |s'.txs| && HasID(s'.txs[k].progress) ==> k < |s.txs| && s'.txs[k] == s.txs[k]
    requires forall k :: 0 <= k < |s.txs| && s.txs[k].Finished() ==> s'.txs[k] == s.txs[k]
    ensures RowsAccounted(s')
  {
    forall i | GivenTo(s, i)
      ensures GivenTo(s', i) && s'.txs[s'.db.owners[i]].row == s.txs[s.db.owners[i]].row
    {
    }
  }

  lemma StepKeepsAccount(s: State, s': State, a: Action)
    requires RowsAccounted(s) && Step(s, s', a)
    ensures RowsAccounted(s')
  {
    match a
    case Commit(k, answered) => CommitKeepsAccount(s, s', k, answered);
    case InsertRow(k) => InsertKeepsAccount(s, s', k);
    case DeleteAddendum(id) => RemovalKeepsAccount(s, s', {id});
    case DeleteParent(target) => RemovalKeepsAccount(s, s', AddendaOf(s.db, target));
    case _ => UnrelatedKeepsAccount(s, s');
  }

  // ----- Every run

  ghost predicate Inv(s: State, limit: nat) {
    LocksAgree(s) && WithinLimit(s, limit) && RowsAccounted(s)
  }

  lemma {:induction false} InvInRun(states: seq<State>, actions: seq<Action>, limit: nat, i: nat)
    requires Run(states, actions) && MaxAtMost(actions, limit) && i < |states|
    ensures Inv(states[i], limit)
  {
    if i == 0 {
      assert forall t :: AddendaOf(states[0].db, t) == {};
    } else {
      InvInRun(states, actions, limit, i - 1);
      assert actions[i - 1] in actions;
      StepKeepsLocks(states[i - 1], states[i], actions[i - 1]);
      StepKeepsAccount(states[i - 1], states[i], actions[i - 1]);
      StepKeepsLimit(states[i - 1], states[i], actions[i - 1], limit);
    }
  }

  /** No question or answer ever has more than the limit, however the calls interleave. */
  lemma NeverMoreThanLimit(states: seq<State>, actions: seq<Action>, limit: nat, i: nat, target: int, ids: set<int>)
    requires Run(states, actions) && MaxAtMost(actions, limit) && i < |states|
    requires forall id :: id in ids ==> id in states[i].db.rows && states[i].db.rows[id].target == target
    ensures |ids| <= limit
  {
    InvInRun(states, actions, limit, i);
    assert forall id :: id in ids ==> id in AddendaOf(states[i].db, target);
    SubsetSize(ids, AddendaOf(states[i].db, target));
  }

  /**
    The limit error comes only when the parent has at least `max` committed addenda - with one common
    limit, exactly that many.
   */
  lemma LimitErrorMeansFull(states: seq<State>, actions: seq<Action>, limit: nat, i: nat, k: nat)
    requires Run(states, actions) && MaxAtMost(actions, limit) && i + 1 < |states|
    requires k < |states[i].txs| && states[i].txs[k].progress != Failed(LimitReached)
    requires states[i + 1].txs[k].progress == Failed(LimitReached)
    ensures var rows, target := states[i].db.rows, states[i].txs[k].row.target;
            var full := |set id | id in rows && rows[id].target == target|;
            states[i].txs[k].max <= full <= limit && states[i + 1].db.rows == rows
  {
    InvInRun(states, actions, limit, i);
    assert AddendaOf(states[i].db, states[i].txs[k].row.target)
        == set id | id in states[i].db.rows && states[i].db.rows[id].target == states[i].txs[k].row.target;
  }

  /** The error about the parent comes only when the parent is not there. */
  lemma NotFoundMeansAbsent(states: seq<State>, actions: seq<Action>, i: nat, k: nat)
    requires Run(states, actions) && i + 1 < |states|
    requires k < |states[i].txs| && states[i].txs[k].progress != Failed(TargetNotFound)
    requires states[i + 1].txs[k].progress == Failed(TargetNotFound)
    ensures states[i].txs[k].row.target !in states[i].db.parents
  {
  }

  /** A returned id is that of the caller's own row, until it is deleted; no two calls get the same id. */
  lemma ReturnedIdIsOwnRow(states: seq<State>, actions: seq<Action>, limit: nat, i: nat, j: nat, k: nat)
    requires Run(states, actions) && MaxAtMost(actions, limit) && i < |states|
    requires k < |states[i].txs| && states[i].txs[k].progress.Succeeded?
    ensures var s, tx := states[i], states[i].txs[k];
            && (tx.progress.id in s.db.removed || (tx.progress.id in s.db.rows && s.db.rows[tx.progress.id] == tx.row))
            && (j < |s.txs| && j != k && HasID(s.txs[j].progress) ==> s.txs[j].progress.id != tx.progress.id)
  {
    InvInRun(states, actions, limit, i);
  }

  /**
    Stored rows are exactly those of the committed calls not yet removed: the successful calls, and
    those whose COMMIT took effect without an answer.
   */
  lemma RowsAreCommitsNotRemoved(states: seq<State>, actions: seq<Action>, limit: nat, i: nat, id: int)
    requires Run(states, actions) && MaxAtMost(actions, limit) && i < |states|
    ensures id in states[i].db.rows <==>
              && id !in states[i].db.removed
              && exists k :: 0 <= k < |states[i].txs| && states[i].txs[k].CommittedAs(id)
  {
    InvInRun(states, actions, limit, i);
    var s := states[i];
    if id in s.db.rows {
      assert GivenTo(s, id);
    }
  }

  lemma {:induction false} NoneUnconfirmed(states: seq<State>, actions: seq<Action>, i: nat)
    requires Run(states, actions) && i < |states|
    requires forall a :: a in actions && a.Commit? ==> a.answered
    ensures forall k :: 0 <= k < |states[i].txs| ==> !states[i].txs[k].progress.Unconfirmed?
  {
    if i > 0 {
      NoneUnconfirmed(states, actions, i - 1);
      assert actions[i - 1] in actions;
    }
  }

  /** With an answer to every COMMIT, they are exactly those of the successful calls. */
  lemma RowsAreSuccessesNotRemoved(states: seq<State>, actions: seq<Action>, limit: nat, i: nat, id: int)
    requires Run(states, actions) && MaxAtMost(actions, limit) && i < |states|
    requires forall a :: a in actions && a.Commit? ==> a.answered
    ensures id in states[i].db.rows <==>
              && id !in states[i].db.removed
              && exists k :: 0 <= k < |states[i].txs| && states[i].txs[k].progress == Succeeded(id)
  {
    RowsAreCommitsNotRemoved(states, actions, limit, i, id);
    NoneUnconfirmed(states, actions, i);
    forall k | 0 <= k < |states[i].txs|
      ensures states[i].txs[k].CommittedAs(id) <==> states[i].txs[k].progress == Succeeded(id)
    {
    }
  }

  /** One lock per call: some unfinished call can always go on. */
  lemma NoDeadlock(states: seq<State>, actions: seq<Action>, limit: nat, i: nat, k: nat) returns (a: Action, s': State)
    requires Run(states, actions) && MaxAtMost(actions, limit) && i < |states|
    requires k < |states[i].txs| && !states[i].txs[k].Finished()
    ensures (a.Lock? || a.CountRows? || a.InsertRow? || (a.Commit? && a.answered)) && Step(states[i], s', a)
  {
    InvInRun(states, actions, limit, i);
    var s := states[i];
    var target := s.txs[k].row.target;
    var j := if target in s.locks then s.locks[target] else k;
    match s.txs[j].progress
    case Started =>
      a := Lock(j);
      s' := if target in s.db.parents then s.(locks := s.locks[target := j], txs := Advance(s, j, Locked))
            else s.(txs := Advance(s, j, Failed(TargetNotFound)));
    case Locked =>
      a := CountRows(j);
      s' := if |AddendaOf(s.db, target)| >= s.txs[j].max
            then s.(locks := s.locks - {target}, txs := Advance(s, j, Failed(LimitReached)))
            else s.(txs := Advance(s, j, Counted));
    case Counted =>
      a := InsertRow(j);
      s' := s.(db := s.db.(nextID := s.db.nextID + 1, owners := s.db.owners[s.db.nextID := j]),
               txs := Advance(s, j, Inserted(s.db.nextID)));
    case Inserted(id) =>
      a := Commit(j, true);
      s' := State(s.db.(rows := s.db.rows[id := s.txs[j].row]), s.locks - {target}, Advance(s, j, Succeeded(id)));
  }
}
