/**
 Per-workspace case numbers: the insert trigger that allocates them, the checks deferred to commit,
 and the older trigger that allocates and checks at once.
 */
module CaseNumbers {
  import opened Common

  datatype Case = Case(workspace: int, number: int)

  /** `counters` is workspace.last_case_number; `queued` the rows whose number awaits the commit check. */
  datatype Db = Db(counters: map<int, int>, cases: map<int, Case>, queued: set<int>)

  datatype Op =
    | Insert(id: int, workspace: int, number: Option<int>)
    | SetNumber(id: int, to: int)
    | Delete(id: int)
    | SetCounter(workspace: int, counter: int)

  datatype DbError = WorkspaceNotFound | DuplicateId | NumberTaken | NumberUnassigned

  function Max(a: int, b: int): int { if a < b then b else a }

  /** What the trigger makes of a new row: the counter and the number it gets. */
  function Allocate(counter: int, number: Option<int>): (r: (int, int))
    ensures number.None? ==> r == (counter + 1, counter + 1)
    ensures number.Some? ==> r.1 == number.value
  {
    match number
    case None => (counter + 1, counter + 1)
    case Some(n) => if n > 0 && counter < n then (n, n) else (counter, n)
  }

  function Queue(db: Db, id: int, number: int): set<int> {
    if number <= 0 then db.queued + {id} else db.queued
  }

  function Apply(db: Db, op: Op): Result<Db, DbError> {
    match op
    case Insert(id, ws, number) =>
      if ws !in db.counters then Err(WorkspaceNotFound)
      else if id in db.cases then Err(DuplicateId)
      else
        var r := Allocate(db.counters[ws], number);
        Ok(Db(db.counters[ws := r.0], db.cases[id := Case(ws, r.1)], Queue(db, id, r.1)))
    case SetNumber(id, n) =>
      if id !in db.cases then Ok(db)
      else Ok(db.(cases := db.cases[id := db.cases[id].(number := n)], queued := Queue(db, id, n)))
    case Delete(id) => Ok(db.(cases := db.cases - {id}))
    case SetCounter(ws, n) =>
      if ws !in db.counters then Ok(db) else Ok(db.(counters := db.counters[ws := n]))
  }

  /** UNIQUE (workspace_id, case_number). */
  ghost predicate Unique(cases: map<int, Case>) {
    forall a, b :: a in cases && b in cases && cases[a] == cases[b] ==> a == b
  }

  /** The queued checks: a row still in the table must have a positive number by now. */
  ghost predicate Assigned(db: Db) {
    forall id :: id in db.queued && id in db.cases ==> db.cases[id].number > 0
  }

  ghost function Commit(db: Db): Result<Db, DbError> {
    if !Assigned(db) then Err(NumberUnassigned)
    else if !Unique(db.cases) then Err(NumberTaken)
    else Ok(db.(queued := {}))
  }

  ghost function Execute(db: Db, ops: seq<Op>): Result<Db, DbError>
    decreases |ops|
  {
    if ops == [] then Ok(db)
    else match Apply(db, ops[0])
      case Err(e) => Err(e)
      case Ok(db') => Execute(db', ops[1..])
  }

  /** A transaction: run the statements, check at commit, keep all of it or nothing. */
  ghost function Transact(db: Db, ops: seq<Op>): Db {
    match Execute(db, ops)
    case Err(_) => db
    case Ok(db') => match Commit(db') case Err(_) => db case Ok(done) => done
  }

  ghost function History(db: Db, txs: seq<seq<Op>>): Db
    decreases |txs|
  {
    if txs == [] then db else History(Transact(db, txs[0]), txs[1..])
  }

  // ---- the trigger as it runs

  /** The tables as the trigger changes them, row by row within a transaction. */
  class Tables {
    var counters: map<int, int>
    var cases: map<int, Case>
    var queued: set<int>

    ghost function State(): Db
      reads this
    {
      Db(counters, cases, queued)
    }

    constructor (db: Db)
      ensures State() == db
    {
      counters, cases, queued := db.counters, db.cases, db.queued;
    }

    method InsertCase(id: int, ws: int, number: Option<int>) returns (failure: Option<DbError>)
      modifies this
      ensures failure.None? <==> ws in old(counters) && id !in old(cases)
      ensures failure.None? && number.None? ==>
                counters == old(counters)[ws := old(counters)[ws] + 1] && cases == old(cases)[id := Case(ws, old(counters)[ws] + 1)]
      ensures failure.None? && number.Some? ==>
                && cases == old(cases)[id := Case(ws, number.value)]
                && counters == old(counters)[ws := if number.value > old(counters)[ws] && number.value > 0 then number.value else old(counters)[ws]]
      ensures failure.None? ==> queued == old(queued) + if cases[id].number > 0 then {} else {id}
      ensures failure.None? ==> Apply(old(State()), Insert(id, ws, number)) == Ok(State())
      ensures failure.Some? ==> State() == old(State()) && Apply(State(), Insert(id, ws, number)) == Err(failure.value)
    {
      if ws !in counters {
        return Some(WorkspaceNotFound);
      }
      if id in cases {
        return Some(DuplicateId);
      }
      var given: int;
      if number.None? {
        counters := counters[ws := counters[ws] + 1];
        given := counters[ws];
      } else {
        given := number.value;
        if given > 0 && counters[ws] < given {
          counters := counters[ws := given];
        }
      }
      assert counters == old(counters)[ws := counters[ws]];
      cases := cases[id := Case(ws, given)];
      if given <= 0 {
        queued := queued + {id};
      }
      return None;
    }
  }

  // ---- statements and commit in full

  /** Statements other than inserts: a renumbering queues the row if the number is not positive, a delete
      leaves the queue alone, and a missing row or workspace makes neither an error nor a change. */
  lemma OtherStatements(db: Db, id: int, ws: int, n: int)
    ensures Apply(db, SetNumber(id, n)) ==
              if id in db.cases
              then Ok(Db(db.counters, db.cases[id := Case(db.cases[id].workspace, n)], db.queued + if n > 0 then {} else {id}))
              else Ok(db)
    ensures Apply(db, Delete(id)) == Ok(Db(db.counters, map c | c in db.cases && c != id :: db.cases[c], db.queued))
    ensures Apply(db, SetCounter(ws, n)) ==
              if ws in db.counters then Ok(Db(db.counters[ws := n], db.cases, db.queued)) else Ok(db)
  {
    assert db.queued + {} == db.queued;
    assert db.cases - {id} == map c | c in db.cases && c != id :: db.cases[c];
  }

  /** The checks put off to the commit: no queued row that is left lacks a positive number, and no two
      rows of a workspace share one. */
  ghost predicate Passes(db: Db) {
    && (forall id :: id in db.queued && id in db.cases ==> db.cases[id].number > 0)
    && (forall a, b :: a in db.cases && b in db.cases && a != b && db.cases[a].workspace == db.cases[b].workspace ==>
          db.cases[a].number != db.cases[b].number)
  }

  lemma CommitInFull(db: Db)
    ensures Commit(db) ==
              if exists id :: id in db.queued && id in db.cases && db.cases[id].number <= 0 then Err(NumberUnassigned)
              else if exists a, b :: a in db.cases && b in db.cases && a != b && db.cases[a] == db.cases[b] then Err(NumberTaken)
              else Ok(Db(db.counters, db.cases, {}))
  {
  }

  /** A transaction whose statements succeed and whose outcome passes the checks takes effect as a whole;
      any other changes nothing. */
  lemma TransactionInFull(db: Db, ops: seq<Op>)
    ensures Transact(db, ops) ==
              match Execute(db, ops)
              case Err(_) => db
              case Ok(e) => if Passes(e) then Db(e.counters, e.cases, {}) else db
  {
    if Execute(db, ops).Ok? {
      var e := Execute(db, ops).value;
      assert Unique(e.cases) <==> forall a, b :: a in e.cases && b in e.cases && a != b && e.cases[a].workspace == e.cases[b].workspace ==>
                                    e.cases[a].number != e.cases[b].number;
    }
  }

  /** Statements take effect one after the other; the first that fails ends the transaction. */
  lemma {:induction false} StatementsInOrder(db: Db, ops: seq<Op>, op: Op)
    ensures Execute(db, ops + [op]) == match Execute(db, ops) case Err(e) => Err(e) case Ok(db') => Apply(db', op)
    decreases |ops|
  {
    var all := ops + [op];
    if ops == [] {
      assert all[0] == op && all[1..] == [];
      if Apply(db, op).Ok? {
        assert Execute(Apply(db, op).value, []) == Ok(Apply(db, op).value);
      }
    } else {
      assert all[0] == ops[0] && all[1..] == ops[1..] + [op];
      if Apply(db, ops[0]).Ok? {
        StatementsInOrder(Apply(db, ops[0]).value, ops[1..], op);
      }
    }
  }

  // ---- every committed state is numbered

  /** What a committed state guarantees: positive numbers, unique per workspace, nothing left to check. */
  ghost predicate Numbered(db: Db) {
    db.queued == {} && Unique(db.cases) && forall id :: id in db.cases ==> db.cases[id].number > 0
  }

  /** Within a transaction every row without a positive number is queued. */
  ghost predicate Watched(db: Db) {
    forall id :: id in db.cases && db.cases[id].number <= 0 ==> id in db.queued
  }

  lemma {:induction false} ExecuteKeepsWatch(db: Db, ops: seq<Op>)
    requires Watched(db)
    ensures Execute(db, ops).Ok? ==> Watched(Execute(db, ops).value)
    decreases |ops|
  {
    if ops != [] && Apply(db, ops[0]).Ok? {
      ExecuteKeepsWatch(Apply(db, ops[0]).value, ops[1..]);
    }
  }

  /** Whatever a transaction does - explicit numbers, sentinels, renumbering, deletes, counter changes -
      the state after it has positive case numbers, unique per workspace. */
  lemma TransactionSafety(db: Db, ops: seq<Op>)
    requires Numbered(db)
    ensures Numbered(Transact(db, ops))
  {
    ExecuteKeepsWatch(db, ops);
  }

  lemma {:induction false} HistorySafety(db: Db, txs: seq<seq<Op>>)
    requires Numbered(db)
    ensures Numbered(History(db, txs))
    decreases |txs|
  {
    if txs != [] {
      TransactionSafety(db, txs[0]);
      HistorySafety(Transact(db, txs[0]), txs[1..]);
    }
  }

  // ---- the counter covers every number

  /** Positive numbers enter only through the insert trigger, and counters are its own. */
  ghost predicate TriggerOnly(op: Op) {
    op.Insert? || op.Delete? || (op.SetNumber? && op.to <= 0)
  }

  /** No counter is negative, and each is at or above every number of its workspace. */
  ghost predicate Covered(db: Db) {
    && (forall ws :: ws in db.counters ==> db.counters[ws] >= 0)
    && (forall id :: id in db.cases ==> db.cases[id].workspace in db.counters && db.cases[id].number <= db.counters[db.cases[id].workspace])
  }

  lemma ApplyKeepsCover(db: Db, op: Op)
    requires Covered(db) && TriggerOnly(op) && Apply(db, op).Ok?
    ensures Covered(Apply(db, op).value)
  {
    var db' := Apply(db, op).value;
    forall id | id in db'.cases
      ensures db'.cases[id].workspace in db'.counters && db'.cases[id].number <= db'.counters[db'.cases[id].workspace]
    {
      if id in db.cases && db.cases[id] == db'.cases[id] {
        assert db.counters[db.cases[id].workspace] <= db'.counters[db.cases[id].workspace];
      }
    }
  }

  lemma {:induction false} ExecuteKeepsCover(db: Db, ops: seq<Op>)
    requires Covered(db) && forall op :: op in ops ==> TriggerOnly(op)
    ensures Execute(db, ops).Ok? ==> Covered(Execute(db, ops).value)
    decreases |ops|
  {
    if ops != [] && Apply(db, ops[0]).Ok? {
      assert ops[0] in ops && forall op :: op in ops[1..] ==> op in ops;
      ApplyKeepsCover(db, ops[0]);
      ExecuteKeepsCover(Apply(db, ops[0]).value, ops[1..]);
    }
  }

  ghost predicate TriggerOnlyTx(tx: seq<Op>) {
    forall op :: op in tx ==> TriggerOnly(op)
  }

  lemma {:induction false} HistoryKeepsCover(db: Db, txs: seq<seq<Op>>)
    requires Covered(db) && forall i :: 0 <= i < |txs| ==> TriggerOnlyTx(txs[i])
    ensures Covered(History(db, txs))
    decreases |txs|
  {
    if txs != [] {
      ExecuteKeepsCover(db, txs[0]);
      assert forall i :: 0 <= i < |txs| - 1 ==> txs[1..][i] == txs[i + 1];
      HistoryKeepsCover(Transact(db, txs[0]), txs[1..]);
    }
  }

  /** Automatic allocation never collides: after any such history, and anywhere inside a transaction,
      the number it picks is above every number of the workspace, so the insert neither breaks nor
      mends uniqueness. */
  lemma AllocationNeverCollides(db: Db, id: int, ws: int)
    requires Covered(db) && ws in db.counters && id !in db.cases
    ensures var after := Apply(db, Insert(id, ws, None)).value;
            && (forall c :: c in db.cases && db.cases[c].workspace == ws ==> db.cases[c].number < after.cases[id].number)
            && after.cases[id].number > 0
            && (Unique(after.cases) <==> Unique(db.cases))
            && (Commit(after).Ok? <==> Commit(db).Ok?)
  {
    var after := Apply(db, Insert(id, ws, None)).value;
    assert forall c :: c in db.cases ==> after.cases[c] == db.cases[c] && after.cases[c] != after.cases[id];
    if Unique(after.cases) {
      forall a, b | a in db.cases && b in db.cases && db.cases[a] == db.cases[b] ensures a == b {
        assert after.cases[a] == after.cases[b];
      }
    }
  }

  // ---- the immediate allocator

  ghost predicate Taken(cases: map<int, Case>, id: int, c: Case) {
    exists other :: other in cases && other != id && cases[other] == c
  }

  /** The older trigger, with its constraint checked at every row written; nothing awaits the commit. */
  ghost function ApplyImmediate(db: Db, op: Op): Result<Db, DbError> {
    match op
    case Insert(id, ws, given) =>
      if ws !in db.counters then Err(WorkspaceNotFound)
      else if id in db.cases then Err(DuplicateId)
      else
        var counter := db.counters[ws];
        var number := if given.None? then counter + 1 else given.value;
        var counter' := if given.None? then counter + 1 else Max(counter, number);
        if Taken(db.cases, id, Case(ws, number)) then Err(NumberTaken)
        else Ok(db.(counters := db.counters[ws := counter'], cases := db.cases[id := Case(ws, number)]))
    case SetNumber(id, n) =>
      if id !in db.cases then Ok(db)
      else if Taken(db.cases, id, db.cases[id].(number := n)) then Err(NumberTaken)
      else Ok(db.(cases := db.cases[id := db.cases[id].(number := n)]))
    case Delete(_) => Apply(db, op)
    case SetCounter(_, _) => Apply(db, op)
  }

  /** The immediate allocator in full: the counter rises to the number given, and a number that another
      row of the workspace has is refused at once. */
  lemma ImmediateInFull(db: Db, id: int, ws: int, n: int)
    ensures ws in db.counters && id !in db.cases ==>
              var next := db.counters[ws] + 1;
              && ApplyImmediate(db, Insert(id, ws, None)) ==
                   (if exists c :: c in db.cases && db.cases[c] == Case(ws, next) then Err(NumberTaken)
                    else Ok(Db(db.counters[ws := next], db.cases[id := Case(ws, next)], db.queued)))
              && ApplyImmediate(db, Insert(id, ws, Some(n))) ==
                   (if exists c :: c in db.cases && db.cases[c] == Case(ws, n) then Err(NumberTaken)
                    else Ok(Db(db.counters[ws := if n > db.counters[ws] then n else db.counters[ws]], db.cases[id := Case(ws, n)], db.queued)))
    ensures id in db.cases ==>
              var c := Case(db.cases[id].workspace, n);
              ApplyImmediate(db, SetNumber(id, n)) ==
                (if exists other :: other in db.cases && other != id && db.cases[other] == c then Err(NumberTaken)
                 else Ok(Db(db.counters, db.cases[id := c], db.queued)))
  {
  }

  ghost function ExecuteImmediate(db: Db, ops: seq<Op>): Result<Db, DbError>
    decreases |ops|
  {
    if ops == [] then Ok(db)
    else match ApplyImmediate(db, ops[0])
      case Err(e) => Err(e)
      case Ok(db') => ExecuteImmediate(db', ops[1..])
  }

  ghost function TransactImmediate(db: Db, ops: seq<Op>): Db {
    match ExecuteImmediate(db, ops) case Err(_) => db case Ok(db') => db'
  }

  /** An insert that leaves the number to the trigger or gives a positive one. */
  ghost predicate Numbering(op: Op) {
    op.Insert? && (op.number.None? || op.number.value > 0)
  }

  /** Row by row the two triggers do the same, except that only the immediate one looks for a clash. */
  lemma InsertAgrees(db: Db, op: Op)
    requires Numbering(op) && Unique(db.cases)
    requires forall ws :: ws in db.counters ==> db.counters[ws] >= 0
    ensures Apply(db, op).Err? ==> ApplyImmediate(db, op) == Apply(db, op)
    ensures Apply(db, op).Ok? ==>
              if Unique(Apply(db, op).value.cases) then ApplyImmediate(db, op) == Apply(db, op)
              else ApplyImmediate(db, op) == Err(NumberTaken)
  {
    if Apply(db, op).Ok? {
      var cases', number := Apply(db, op).value.cases, Allocate(db.counters[op.workspace], op.number).1;
      if c :| c in db.cases && c != op.id && db.cases[c] == Case(op.workspace, number) {
        assert cases'[c] == cases'[op.id];
      }
    }
  }

  lemma {:induction false} ClashPersists(db: Db, ops: seq<Op>)
    requires !Unique(db.cases) && forall op :: op in ops ==> op.Insert?
    ensures Execute(db, ops).Ok? ==> !Unique(Execute(db, ops).value.cases)
    decreases |ops|
  {
    if ops != [] && Apply(db, ops[0]).Ok? {
      assert ops[0] in ops && forall op :: op in ops[1..] ==> op in ops;
      var db' := Apply(db, ops[0]).value;
      var a, b :| a in db.cases && b in db.cases && db.cases[a] == db.cases[b] && a != b;
      assert db'.cases[a] == db'.cases[b];
      ClashPersists(db', ops[1..]);
    }
  }

  /** The immediate run ends where the deferred one does if that is free of clashes, and fails otherwise. */
  lemma {:induction false} ExecuteAgrees(db: Db, ops: seq<Op>)
    requires Unique(db.cases) && forall op :: op in ops ==> Numbering(op)
    requires forall ws :: ws in db.counters ==> db.counters[ws] >= 0
    ensures ExecuteImmediate(db, ops).Ok? <==> Execute(db, ops).Ok? && Unique(Execute(db, ops).value.cases)
    ensures ExecuteImmediate(db, ops).Ok? ==> ExecuteImmediate(db, ops) == Execute(db, ops) && Execute(db, ops).value.queued == db.queued
    decreases |ops|
  {
    if ops != [] {
      assert ops[0] in ops && forall op :: op in ops[1..] ==> op in ops;
      InsertAgrees(db, ops[0]);
      if Apply(db, ops[0]).Ok? {
        var db' := Apply(db, ops[0]).value;
        if Unique(db'.cases) {
          ExecuteAgrees(db', ops[1..]);
        } else {
          ClashPersists(db', ops[1..]);
        }
      }
    }
  }

  /** Transactions of numbering inserts have the same effect under either allocator: the same rows and
      numbers and counters, committed or rolled back together. */
  lemma AllocatorsAgree(db: Db, ops: seq<Op>)
    requires Numbered(db) && Covered(db) && forall op :: op in ops ==> Numbering(op)
    ensures Transact(db, ops) == TransactImmediate(db, ops)
  {
    ExecuteAgrees(db, ops);
    if ExecuteImmediate(db, ops).Ok? {
      var db' := Execute(db, ops).value;
      assert db'.(queued := {}) == db';
    }
  }

  /** A sentinel shows the difference: the immediate allocator commits it, the deferred one never does. */
  lemma SentinelsDiffer(db: Db, id: int, ws: int, n: int)
    requires Numbered(db) && Covered(db) && ws in db.counters && id !in db.cases && n <= 0
    ensures var tx := [Insert(id, ws, Some(n))];
            Transact(db, tx) == db && TransactImmediate(db, tx).cases == db.cases[id := Case(ws, n)]
  {
    var op := Insert(id, ws, Some(n));
    var db' := Apply(db, op).value;
    assert [op][1..] == [];
    assert Execute(db, [op]) == Ok(db');
    assert id in db'.queued && id in db'.cases;
    assert ApplyImmediate(db, op).Ok?;
    assert ExecuteImmediate(db, [op]) == ExecuteImmediate(ApplyImmediate(db, op).value, []);
  }

  // ---- between the two revisions: the immediate allocator alone

  ghost function HistoryImmediate(db: Db, txs: seq<seq<Op>>): Db
    decreases |txs|
  {
    if txs == [] then db else HistoryImmediate(TransactImmediate(db, txs[0]), txs[1..])
  }

  ghost predicate AllPositive(cases: map<int, Case>) {
    forall id :: id in cases ==> cases[id].number > 0
  }

  lemma ImmediateKeepsUnique(db: Db, op: Op)
    requires Unique(db.cases) && db.queued == {} && ApplyImmediate(db, op).Ok?
    ensures Unique(ApplyImmediate(db, op).value.cases) && ApplyImmediate(db, op).value.queued == {}
  {
  }

  lemma {:induction false} ExecuteImmediateKeepsUnique(db: Db, ops: seq<Op>)
    requires Unique(db.cases) && db.queued == {}
    ensures ExecuteImmediate(db, ops).Ok? ==>
              Unique(ExecuteImmediate(db, ops).value.cases) && ExecuteImmediate(db, ops).value.queued == {}
    decreases |ops|
  {
    if ops != [] && ApplyImmediate(db, ops[0]).Ok? {
      ImmediateKeepsUnique(db, ops[0]);
      ExecuteImmediateKeepsUnique(ApplyImmediate(db, ops[0]).value, ops[1..]);
    }
  }

  /** Whatever is done under the immediate allocator, numbers stay unique - so a history under it ends in
      a numbered state exactly if it leaves no number at zero or below. */
  lemma {:induction false} ImmediateHistory(db: Db, txs: seq<seq<Op>>)
    requires Unique(db.cases) && db.queued == {}
    ensures Unique(HistoryImmediate(db, txs).cases) && HistoryImmediate(db, txs).queued == {}
    ensures Numbered(HistoryImmediate(db, txs)) <==> AllPositive(HistoryImmediate(db, txs).cases)
    decreases |txs|
  {
    if txs != [] {
      ExecuteImmediateKeepsUnique(db, txs[0]);
      ImmediateHistory(TransactImmediate(db, txs[0]), txs[1..]);
    }
  }

  /** Inserts that number their rows, and deletes. */
  ghost predicate NumberingOrDelete(op: Op) { Numbering(op) || op.Delete? }

  ghost predicate NumberingTx(tx: seq<Op>) {
    forall op :: op in tx ==> NumberingOrDelete(op)
  }

  ghost predicate NumberingTxs(txs: seq<seq<Op>>) {
    forall tx :: tx in txs ==> NumberingTx(tx)
  }

  lemma {:induction false} ExecuteImmediateKeepsPositive(db: Db, ops: seq<Op>)
    requires Covered(db) && AllPositive(db.cases) && NumberingTx(ops)
    ensures ExecuteImmediate(db, ops).Ok? ==>
              Covered(ExecuteImmediate(db, ops).value) && AllPositive(ExecuteImmediate(db, ops).value.cases)
    decreases |ops|
  {
    if ops != [] && ApplyImmediate(db, ops[0]).Ok? {
      assert ops[0] in ops && forall op :: op in ops[1..] ==> op in ops;
      assert NumberingOrDelete(ops[0]);
      ImmediateKeepsPositive(db, ops[0]);
      ExecuteImmediateKeepsPositive(ApplyImmediate(db, ops[0]).value, ops[1..]);
    }
  }

  lemma ImmediateKeepsPositive(db: Db, op: Op)
    requires Covered(db) && AllPositive(db.cases) && NumberingOrDelete(op) && ApplyImmediate(db, op).Ok?
    ensures Covered(ApplyImmediate(db, op).value) && AllPositive(ApplyImmediate(db, op).value.cases)
  {
    var db' := ApplyImmediate(db, op).value;
    forall id | id in db'.cases
      ensures db'.cases[id].workspace in db'.counters && db'.cases[id].number <= db'.counters[db'.cases[id].workspace]
    {
      if id in db.cases && db.cases[id] == db'.cases[id] {
        assert db.counters[db.cases[id].workspace] <= db'.counters[db.cases[id].workspace];
      }
    }
  }

  lemma NumberingTransaction(db: Db, tx: seq<Op>)
    requires Numbered(db) && Covered(db) && NumberingTx(tx)
    ensures Numbered(TransactImmediate(db, tx)) && Covered(TransactImmediate(db, tx))
  {
    ExecuteImmediateKeepsUnique(db, tx);
    ExecuteImmediateKeepsPositive(db, tx);
  }

  /** Numbering inserts and deletes leave none, and keep the counters at or above every number. */
  lemma {:induction false} NumberingHistory(db: Db, txs: seq<seq<Op>>)
    requires Numbered(db) && Covered(db) && NumberingTxs(txs)
    ensures Numbered(HistoryImmediate(db, txs)) && Covered(HistoryImmediate(db, txs))
    decreases |txs|
  {
    if txs != [] {
      var tx, rest := txs[0], txs[1..];
      assert tx in txs && NumberingTxs(rest);
      NumberingTransaction(db, tx);
      NumberingHistory(TransactImmediate(db, tx), rest);
    }
  }

  // ---- the renumbering that starts it

  ghost predicate Precedes(cases: map<int, Case>, a: int, b: int)
    requires a in cases && b in cases
  {
    && cases[a].workspace == cases[b].workspace
    && (cases[a].number < cases[b].number || (cases[a].number == cases[b].number && a < b))
  }

  ghost function Of(cases: map<int, Case>, ws: int): set<int> {
    set c | c in cases && cases[c].workspace == ws
  }

  /** The rows up to and including `c` in its workspace, in the old order. */
  ghost function UpTo(cases: map<int, Case>, c: int): set<int>
    requires c in cases
  {
    set d | d in cases && (d == c || Precedes(cases, d, c))
  }

  /** row_number() OVER (PARTITION BY workspace_id ORDER BY case_number). */
  ghost function Rank(cases: map<int, Case>, c: int): int {
    if c in cases then |UpTo(cases, c)| else 0
  }

  ghost function Renumbered(cases: map<int, Case>): map<int, Case> {
    map c | c in cases :: Case(cases[c].workspace, Rank(cases, c))
  }

  lemma Pick<T>(s: set<T>) returns (x: T)
    requires s != {}
    ensures x in s
  {
    x :| x in s;
  }

  lemma {:induction false} SubsetSize<T>(a: set<T>, b: set<T>)
    requires a <= b
    ensures |a| <= |b| && (a != b ==> |a| < |b|)
  {
    if a != {} {
      var x := Pick(a);
      SubsetSize(a - {x}, b - {x});
    }
  }

  /** The old order is kept: an earlier row gets a smaller number. */
  lemma RankIsMonotone(cases: map<int, Case>, a: int, b: int)
    requires a in cases && b in cases && Precedes(cases, a, b)
    ensures Rank(cases, a) < Rank(cases, b)
  {
    assert UpTo(cases, a) <= UpTo(cases, b);
    assert b in UpTo(cases, b) && b !in UpTo(cases, a);
    SubsetSize(UpTo(cases, a), UpTo(cases, b));
  }

  lemma RankInRange(cases: map<int, Case>, c: int)
    requires c in cases
    ensures 1 <= Rank(cases, c) <= |Of(cases, cases[c].workspace)|
  {
    assert {c} <= UpTo(cases, c) <= Of(cases, cases[c].workspace);
    SubsetSize({c}, UpTo(cases, c));
    SubsetSize(UpTo(cases, c), Of(cases, cases[c].workspace));
  }

  ghost function Ranks(cases: map<int, Case>, rows: set<int>): set<int> {
    set c | c in rows :: Rank(cases, c)
  }

  /** Different rows of a workspace have different ranks, so there are as many ranks as rows. */
  lemma {:induction false} RankCount(cases: map<int, Case>, rows: set<int>, ws: int)
    requires rows <= Of(cases, ws)
    ensures |Ranks(cases, rows)| == |rows|
  {
    if rows == {} {
      assert Ranks(cases, rows) == {};
    } else {
      var c := Pick(rows);
      RankCount(cases, rows - {c}, ws);
      assert Rank(cases, c) !in Ranks(cases, rows - {c}) by {
        forall d | d in rows - {c} ensures Rank(cases, d) != Rank(cases, c) {
          if Precedes(cases, c, d) {
            RankIsMonotone(cases, c, d);
          } else {
            RankIsMonotone(cases, d, c);
          }
        }
      }
      assert Ranks(cases, rows) == Ranks(cases, rows - {c}) + {Rank(cases, c)};
    }
  }

  ghost function Upto(n: nat): set<int> {
    if n == 0 then {} else Upto(n - 1) + {n}
  }

  lemma {:induction false} UptoFacts(n: nat)
    ensures |Upto(n)| == n && forall k :: k in Upto(n) <==> 1 <= k <= n
  {
    if n > 0 {
      UptoFacts(n - 1);
    }
  }

  /** Within each workspace the new numbers are exactly 1..n. */
  lemma RanksFillRange(cases: map<int, Case>, ws: int)
    ensures Ranks(cases, Of(cases, ws)) == Upto(|Of(cases, ws)|)
  {
    var rows := Of(cases, ws);
    RankCount(cases, rows, ws);
    UptoFacts(|rows|);
    forall k | k in Ranks(cases, rows) ensures k in Upto(|rows|) {
      var c :| c in rows && Rank(cases, c) == k;
      RankInRange(cases, c);
    }
    SubsetSize(Ranks(cases, rows), Upto(|rows|));
  }

  /** max(case_number) over the workspace; 0, the column default, where it has no cases. */
  ghost predicate IsMaxNumber(cases: map<int, Case>, ws: int, m: int) {
    if Of(cases, ws) == {} then m == 0
    else (exists c :: c in Of(cases, ws) && cases[c].number == m) && forall c :: c in Of(cases, ws) ==> cases[c].number <= m
  }

  /** The migrated state: ranks for numbers, and each workspace's counter at its largest number. */
  ghost predicate Migrated(cases: map<int, Case>, workspaces: set<int>, db: Db) {
    && db.cases == Renumbered(cases) && db.queued == {} && db.counters.Keys == workspaces
    && forall ws :: ws in workspaces ==> IsMaxNumber(db.cases, ws, db.counters[ws])
  }

  lemma CounterIsCount(cases: map<int, Case>, workspaces: set<int>, db: Db, ws: int)
    requires Migrated(cases, workspaces, db) && ws in workspaces
    ensures db.counters[ws] == |Of(cases, ws)|
  {
    var rows := Of(cases, ws);
    assert Of(db.cases, ws) == rows;
    RanksFillRange(cases, ws);
    UptoFacts(|rows|);
    if rows != {} {
      var c :| c in rows && db.cases[c].number == db.counters[ws];
      RankInRange(cases, c);
      assert |rows| in Upto(|rows|);
      var top :| top in rows && Rank(cases, top) == |rows|;
      assert db.cases[top].number <= db.counters[ws];
    }
  }

  /** The migration can always be carried out: every workspace has its largest number. */
  lemma MigrationExists(cases: map<int, Case>, workspaces: set<int>)
    ensures Migrated(cases, workspaces, Db(map ws | ws in workspaces :: |Of(cases, ws)|, Renumbered(cases), {}))
  {
    var db := Db(map ws | ws in workspaces :: |Of(cases, ws)|, Renumbered(cases), {});
    forall ws | ws in workspaces ensures IsMaxNumber(db.cases, ws, db.counters[ws]) {
      var rows := Of(cases, ws);
      assert Of(db.cases, ws) == rows;
      RanksFillRange(cases, ws);
      UptoFacts(|rows|);
      if rows != {} {
        assert |rows| in Upto(|rows|);
        var top :| top in rows && Rank(cases, top) == |rows|;
        assert db.cases[top].number == |rows|;
        forall c | c in rows ensures db.cases[c].number <= |rows| {
          RankInRange(cases, c);
        }
      }
    }
  }

  lemma RenumberedIsUnique(cases: map<int, Case>)
    ensures Unique(Renumbered(cases))
  {
    forall a, b | a in cases && b in cases && a != b && cases[a].workspace == cases[b].workspace
      ensures Rank(cases, a) != Rank(cases, b)
    {
      if Precedes(cases, a, b) {
        RankIsMonotone(cases, a, b);
      } else {
        RankIsMonotone(cases, b, a);
      }
    }
  }

  /** The migration establishes both invariants: numbers 1..n per workspace in the old order, counters at
      n - so every history from there is numbered, and trigger-only histories stay covered. */
  lemma MigrationEstablishes(cases: map<int, Case>, workspaces: set<int>, db: Db)
    requires Migrated(cases, workspaces, db) && forall c :: c in cases ==> cases[c].workspace in workspaces
    ensures Numbered(db) && Covered(db)
    ensures forall a, b :: a in cases && b in cases && Precedes(cases, a, b) ==> db.cases[a].number < db.cases[b].number
  {
    forall a, b | a in cases && b in cases && Precedes(cases, a, b) ensures db.cases[a].number < db.cases[b].number {
      RankIsMonotone(cases, a, b);
    }
    forall c | c in db.cases ensures 1 <= db.cases[c].number <= db.counters[db.cases[c].workspace] {
      RankInRange(cases, c);
      CounterIsCount(cases, workspaces, db, cases[c].workspace);
    }
    forall ws | ws in db.counters ensures db.counters[ws] >= 0 {
      CounterIsCount(cases, workspaces, db, ws);
    }
    RenumberedIsUnique(cases);
  }

  /** From the renumbering on: first a history under the immediate allocator, in which every insert
      numbers its row, then one under the deferred allocator, in which positive numbers enter only
      through the trigger. Every committed number is positive, unique and covered by its counter, and
      the next numbering transaction does exactly what the immediate allocator would have done. */
  lemma FromMigrationOn(cases: map<int, Case>, workspaces: set<int>, db: Db, before: seq<seq<Op>>, txs: seq<seq<Op>>, ops: seq<Op>)
    requires Migrated(cases, workspaces, db) && forall c :: c in cases ==> cases[c].workspace in workspaces
    requires NumberingTxs(before)
    requires forall i :: 0 <= i < |txs| ==> TriggerOnlyTx(txs[i])
    requires forall op :: op in ops ==> Numbering(op)
    ensures var now := History(HistoryImmediate(db, before), txs);
            Numbered(now) && Covered(now) && Transact(now, ops) == TransactImmediate(now, ops)
  {
    MigrationEstablishes(cases, workspaces, db);
    NumberingHistory(db, before);
    var db1 := HistoryImmediate(db, before);
    HistorySafety(db1, txs);
    HistoryKeepsCover(db1, txs);
    AllocatorsAgree(History(db1, txs), ops);
  }

  /** Without restriction on the first history the second is safe exactly if the first left no number at
      zero or below: the deferred check never looks at rows it did not see written. */
  lemma SafeFromThere(db: Db, before: seq<seq<Op>>)
    requires Numbered(db)
    ensures (forall txs :: Numbered(History(HistoryImmediate(db, before), txs))) <==> AllPositive(HistoryImmediate(db, before).cases)
  {
    ImmediateHistory(db, before);
    var db1 := HistoryImmediate(db, before);
    if AllPositive(db1.cases) {
      forall txs ensures Numbered(History(db1, txs)) {
        HistorySafety(db1, txs);
      }
    } else {
      assert History(db1, []) == db1;
    }
  }
}
