/**
 Moving user columns out of the reserved `__tc_` namespace and back.

 The upgrade renames each such column to a fresh name and writes its original name and comment into
 the new column's comment; the downgrade reads those comments to undo the renames. Metadata that
 names columns follows along. JSON text is foreign: `Json` holds its two directions.
 */
module LegacyColumns {
  import opened Common
  import opened Decimals

  const INTERNAL_PREFIX := "__tc_"
  const TENANT_COLUMN := "__tc_workspace_id"
  const MARKER := "tracecat:b5fc4168fe22:legacy-internal-column:"

  /** A physical column: its name, its comment, and what stays put under renames. */
  datatype Column = Column(name: string, comment: Option<string>, contents: int)

  /** Metadata about the table: rows naming its columns, under a unique constraint, a schema keyed by them, or none. */
  datatype Metadata = NoMetadata | ColumnRows(rows: map<int, string>) | FieldSchema(schema: map<string, int>)

  datatype Table = Table(columns: seq<Column>, meta: Metadata)

  datatype Json = Json(dumps: (string, Option<string>) -> string, loads: string -> Option<(string, Option<string>)>)

  datatype DowngradeError = NameTaken | RestoredTwice | MetadataDuplicate

  ghost predicate ReadsBack(j: Json) {
    forall n, c :: j.loads(j.dumps(n, c)) == Some((n, c))
  }

  predicate StartsWith(s: string, p: string) {
    |p| <= |s| && s[..|p|] == p
  }

  predicate Internal(name: string) { StartsWith(name, INTERNAL_PREFIX) }

  // ---- fresh names

  function BaseName(name: string): string {
    "migrated_" + if StartsWith(name, "__") then name[2..] else name
  }

  /** The k-th name tried for a column. */
  function Candidate(name: string, k: nat): string {
    if k == 0 then BaseName(name) else BaseName(name) + "_" + Decimal(k)
  }

  lemma CandidatesDiffer(name: string, i: nat, k: nat)
    requires i < k
    ensures Candidate(name, i) != Candidate(name, k)
  {
    var base := BaseName(name);
    if i == 0 {
      assert |Candidate(name, k)| > |base|;
    } else if Candidate(name, i) == Candidate(name, k) {
      var prefix := base + "_";
      assert (prefix + Decimal(i))[|prefix|..] == Decimal(i);
      assert (prefix + Decimal(k))[|prefix|..] == Decimal(k);
      DecimalInjective(i, k);
    }
  }

  ghost function Candidates(name: string, k: nat): set<string> {
    if k == 0 then {} else Candidates(name, k - 1) + {Candidate(name, k - 1)}
  }

  lemma {:induction false} CandidateCount(name: string, k: nat, later: nat)
    requires k <= later
    ensures |Candidates(name, k)| == k && Candidate(name, later) !in Candidates(name, k)
  {
    if k > 0 {
      CandidateCount(name, k - 1, k - 1);
      CandidateCount(name, k - 1, later);
      CandidatesDiffer(name, k - 1, later);
    }
  }

  lemma {:induction false} SubsetSize(a: set<string>, b: set<string>)
    requires a <= b
    ensures |a| <= |b|
  {
    if a != {} {
      var x :| x in a;
      SubsetSize(a - {x}, b - {x});
    }
  }

  /** Pigeonhole: if the first k candidates are all taken, at least k names exist. */
  lemma TakenCandidates(existing: set<string>, name: string, k: nat)
    requires Candidates(name, k) <= existing
    ensures k <= |existing|
  {
    CandidateCount(name, k, k);
    SubsetSize(Candidates(name, k), existing);
  }

  /** The first candidate, from the k-th on, that is not taken. */
  function FreshFrom(existing: set<string>, name: string, k: nat): (r: string)
    requires Candidates(name, k) <= existing
    ensures r !in existing && StartsWith(r, "migrated_")
    decreases |existing| - k
  {
    var c := Candidate(name, k);
    assert c[..9] == "migrated_";
    if c !in existing then c
    else
      TakenCandidates(existing, name, k + 1);
      FreshFrom(existing, name, k + 1)
  }

  function Fresh(existing: set<string>, name: string): (r: string)
    ensures r !in existing && StartsWith(r, "migrated_")
  {
    FreshFrom(existing, name, 0)
  }

  method NextLegacyName(existing: set<string>, name: string) returns (candidate: string)
    ensures candidate == Fresh(existing, name)
  {
    candidate := BaseName(name);
    var suffix := 1;
    TakenCandidates(existing, name, 0);
    while candidate in existing
      invariant suffix >= 1 && candidate == Candidate(name, suffix - 1)
      invariant Candidates(name, suffix - 1) <= existing
      invariant Fresh(existing, name) == FreshFrom(existing, name, suffix - 1)
      invariant suffix - 1 <= |existing|
      decreases |existing| + 1 - suffix
    {
      candidate := BaseName(name) + "_" + Decimal(suffix);
      suffix := suffix + 1;
      TakenCandidates(existing, name, suffix - 1);
    }
  }

  /** The name in full: `migrated_` for the two underscores, and where that is taken the first of `_1`,
      `_2` and so on behind it that is not. */
  lemma NameInFull(existing: set<string>, rest: string, k: nat) returns (i: nat)
    ensures Candidate("__tc_" + rest, k) == "migrated_tc_" + rest + if k == 0 then "" else "_" + Decimal(k)
    ensures Fresh(existing, "__tc_" + rest) == Candidate("__tc_" + rest, i) && Candidate("__tc_" + rest, i) !in existing
    ensures forall h: nat :: h < i ==> Candidate("__tc_" + rest, h) in existing
  {
    var name := "__tc_" + rest;
    assert name[..2] == "__" && name[2..] == "tc_" + rest;
    assert BaseName(name) == "migrated_" + ("tc_" + rest) == "migrated_tc_" + rest;
    i := FirstFree(existing, name, 0);
  }

  lemma FirstFree(existing: set<string>, name: string, k: nat) returns (i: nat)
    requires Candidates(name, k) <= existing
    ensures i >= k && FreshFrom(existing, name, k) == Candidate(name, i) && Candidate(name, i) !in existing
    ensures forall h: nat :: k <= h < i ==> Candidate(name, h) in existing
    decreases |existing| - k
  {
    if Candidate(name, k) !in existing {
      i := k;
    } else {
      TakenCandidates(existing, name, k + 1);
      i := FirstFree(existing, name, k + 1);
    }
  }

  // ---- comments

  function Mark(j: Json, name: string, comment: Option<string>): string {
    MARKER + j.dumps(name, comment)
  }

  function Parse(j: Json, comment: Option<string>): Option<(string, Option<string>)> {
    if comment.Some? && StartsWith(comment.value, MARKER) then j.loads(comment.value[|MARKER|..]) else None
  }

  lemma ParseMark(j: Json, name: string, comment: Option<string>)
    requires ReadsBack(j)
    ensures Parse(j, Some(Mark(j, name, comment))) == Some((name, comment))
  {
    var m := Mark(j, name, comment);
    assert m[..|MARKER|] == MARKER && m[|MARKER|..] == j.dumps(name, comment);
  }

  /** The record in full, and what is taken for one. */
  lemma RecordInFull(j: Json, name: string, comment: Option<string>, c: string)
    ensures Mark(j, name, comment) == "tracecat:b5fc4168fe22:legacy-internal-column:" + j.dumps(name, comment)
    ensures Parse(j, None) == None
    ensures Parse(j, Some("tracecat:b5fc4168fe22:legacy-internal-column:" + c)) == j.loads(c)
    ensures Parse(j, Some(c)).Some? ==>
              |c| >= |MARKER| && c[..|MARKER|] == "tracecat:b5fc4168fe22:legacy-internal-column:"
    ensures Internal("__tc_" + c) && TenantColumn().name == "__tc_workspace_id"
    ensures Internal(c) ==> |c| >= 5 && c[..5] == "__tc_"
  {
    var s := "tracecat:b5fc4168fe22:legacy-internal-column:" + c;
    assert s[..|MARKER|] == MARKER && s[|MARKER|..] == c;
    assert ("__tc_" + c)[..5] == "__tc_";
  }

  // ---- metadata

  function RenameRows(rows: map<int, string>, old': string, new': string): map<int, string> {
    map r | r in rows :: if rows[r] == old' then new' else rows[r]
  }

  function RenameKey(schema: map<string, int>, old': string, new': string): map<string, int> {
    if old' !in schema then schema else (schema - {old'})[new' := schema[old']]
  }

  function RenameMetadata(meta: Metadata, old': string, new': string): Metadata {
    match meta
    case NoMetadata => meta
    case ColumnRows(rows) => ColumnRows(RenameRows(rows, old', new'))
    case FieldSchema(schema) => FieldSchema(RenameKey(schema, old', new'))
  }

  predicate Listed(rows: map<int, string>, name: string) { exists r :: r in rows && rows[r] == name }

  /** Renaming would give two metadata rows of the table the same name, which the database refuses. */
  predicate Duplicates(meta: Metadata, old': string, new': string) {
    meta.ColumnRows? && Listed(meta.rows, old') && Listed(meta.rows, new')
  }

  ghost predicate Mentions(meta: Metadata, name: string) {
    match meta
    case NoMetadata => false
    case ColumnRows(rows) => Listed(rows, name)
    case FieldSchema(schema) => name in schema
  }

  // ---- upgrade

  /** One rename: the column's original name and comment, and its name while upgraded. */
  datatype Move = Move(original: string, comment: Option<string>, legacy: string)

  function Names(columns: seq<Column>): set<string> {
    set i | 0 <= i < |columns| :: columns[i].name
  }

  /** The moves an upgrade makes, in column order, each fresh against the names then in use. */
  function Moves(columns: seq<Column>, names: set<string>): seq<Move> {
    if columns == [] then []
    else
      var c := columns[0];
      if Internal(c.name) then
        var m := Move(c.name, c.comment, Fresh(names, c.name));
        [m] + Moves(columns[1..], names - {c.name} + {m.legacy})
      else Moves(columns[1..], names)
  }

  function RenamedColumns(j: Json, columns: seq<Column>, names: set<string>): (r: seq<Column>)
    ensures |r| == |columns|
  {
    if columns == [] then []
    else
      var c := columns[0];
      if Internal(c.name) then
        var legacy := Fresh(names, c.name);
        [Column(legacy, Some(Mark(j, c.name, c.comment)), c.contents)] + RenamedColumns(j, columns[1..], names - {c.name} + {legacy})
      else [c] + RenamedColumns(j, columns[1..], names)
  }

  function MoveMetadata(meta: Metadata, moves: seq<Move>): Metadata
    decreases |moves|
  {
    if moves == [] then meta
    else MoveMetadata(RenameMetadata(meta, moves[0].original, moves[0].legacy), moves[1..])
  }

  /** Some metadata rename among the moves is refused, and with it the upgrade. */
  predicate Clashes(meta: Metadata, moves: seq<Move>)
    decreases |moves|
  {
    moves != [] &&
    (|| Duplicates(meta, moves[0].original, moves[0].legacy)
     || Clashes(RenameMetadata(meta, moves[0].original, moves[0].legacy), moves[1..]))
  }

  function TenantColumn(): Column { Column(TENANT_COLUMN, None, 0) }

  function Upgraded(j: Json, t: Table): Table {
    var names := Names(t.columns);
    var renamed := RenamedColumns(j, t.columns, names);
    Table(if TENANT_COLUMN in Names(renamed) then renamed else renamed + [TenantColumn()],
          MoveMetadata(t.meta, Moves(t.columns, names)))
  }

  // ---- downgrade

  function DropColumn(columns: seq<Column>, name: string): seq<Column> {
    if columns == [] then []
    else (if columns[0].name == name then [] else [columns[0]]) + DropColumn(columns[1..], name)
  }

  /** The columns whose comment is a rename record. */
  function Matches(j: Json, columns: seq<Column>): seq<Move> {
    if columns == [] then []
    else
      (match Parse(j, columns[0].comment)
       case None => []
       case Some(p) => [Move(p.0, p.1, columns[0].name)]) + Matches(j, columns[1..])
  }

  function RestoreColumn(columns: seq<Column>, m: Move): (r: seq<Column>)
    ensures |r| == |columns|
  {
    seq(|columns|, i requires 0 <= i < |columns| =>
      if columns[i].name == m.legacy then Column(m.original, m.comment, columns[i].contents) else columns[i])
  }

  function Restore(t: Table, ms: seq<Move>, restored: set<string>): Result<Table, DowngradeError>
    decreases |ms|
  {
    if ms == [] then Ok(t)
    else
      var m := ms[0];
      if m.original in restored then Err(RestoredTwice)
      else if m.original in Names(t.columns) then Err(NameTaken)
      else if Duplicates(t.meta, m.legacy, m.original) then Err(MetadataDuplicate)
      else Restore(Table(RestoreColumn(t.columns, m), RenameMetadata(t.meta, m.legacy, m.original)), ms[1..], restored + {m.original})
  }

  /** A downgrade may end in `out`, for some order of the matches. Python sorts them by name; the
      statements below hold for every order. */
  ghost predicate Downgrades(j: Json, t: Table, out: Result<Table, DowngradeError>) {
    var columns := DropColumn(t.columns, TENANT_COLUMN);
    exists ms :: multiset(ms) == multiset(Matches(j, columns)) && out == Restore(Table(columns, t.meta), ms, {})
  }

  // ---- the migration as it runs

  function Renamed(j: Json, c: Column, legacy: string): Column {
    Column(legacy, Some(Mark(j, c.name, c.comment)), c.contents)
  }

  /** One step of the rename loop: what is left to do from column `i` on, split at that column. */
  lemma RenameStep(j: Json, meta: Metadata, columns: seq<Column>, i: nat, names: set<string>)
    requires i < |columns|
    ensures var c := columns[i];
            if Internal(c.name) then
              var legacy := Fresh(names, c.name);
              var names' := names - {c.name} + {legacy};
              && RenamedColumns(j, columns[i..], names) == [Renamed(j, c, legacy)] + RenamedColumns(j, columns[i + 1..], names')
              && MoveMetadata(meta, Moves(columns[i..], names)) == MoveMetadata(RenameMetadata(meta, c.name, legacy), Moves(columns[i + 1..], names'))
              && (Clashes(meta, Moves(columns[i..], names)) <==>
                    Duplicates(meta, c.name, legacy) || Clashes(RenameMetadata(meta, c.name, legacy), Moves(columns[i + 1..], names')))
            else
              && RenamedColumns(j, columns[i..], names) == [c] + RenamedColumns(j, columns[i + 1..], names)
              && Moves(columns[i..], names) == Moves(columns[i + 1..], names)
  {
    var c, rest := columns[i], columns[i..];
    assert rest[0] == c && rest[1..] == columns[i + 1..];
    if Internal(c.name) {
      var m := Move(c.name, c.comment, Fresh(names, c.name));
      var moves := Moves(rest, names);
      assert moves[0] == m && moves[1..] == Moves(columns[i + 1..], names - {c.name} + {m.legacy});
    }
  }

  lemma ExtendFront(columns: seq<Column>, i: nat, c: Column, rest: seq<Column>)
    requires i < |columns|
    ensures columns[..i] + ([c] + rest) == columns[i := c][..i + 1] + rest
    ensures columns[i := c][i + 1..] == columns[i..][1..]
  {
  }

  /** Columns, metadata and refusal of the whole loop, told at turn `i` from what is done and what is left. */
  ghost predicate AtTurn(j: Json, snapshot: seq<Column>, names0: set<string>, meta0: Metadata, columns: seq<Column>, meta: Metadata, names: set<string>, i: nat)
    requires i <= |snapshot| == |columns|
  {
    && columns[i..] == snapshot[i..]
    && RenamedColumns(j, snapshot, names0) == columns[..i] + RenamedColumns(j, snapshot[i..], names)
    && MoveMetadata(meta0, Moves(snapshot, names0)) == MoveMetadata(meta, Moves(snapshot[i..], names))
    && (Clashes(meta0, Moves(snapshot, names0)) <==> Clashes(meta, Moves(snapshot[i..], names)))
  }

  lemma TurnRenames(j: Json, snapshot: seq<Column>, names0: set<string>, meta0: Metadata, columns: seq<Column>, meta: Metadata, names: set<string>, i: nat, legacy: string)
    requires i < |snapshot| == |columns| && AtTurn(j, snapshot, names0, meta0, columns, meta, names, i)
    requires Internal(snapshot[i].name) && legacy == Fresh(names, snapshot[i].name)
    ensures var c := snapshot[i];
            if Duplicates(meta, c.name, legacy) then Clashes(meta0, Moves(snapshot, names0))
            else AtTurn(j, snapshot, names0, meta0, columns[i := Renamed(j, c, legacy)], RenameMetadata(meta, c.name, legacy), names - {c.name} + {legacy}, i + 1)
  {
    var c := snapshot[i];
    RenameStep(j, meta, snapshot, i, names);
    ExtendFront(columns, i, Renamed(j, c, legacy), RenamedColumns(j, snapshot[i + 1..], names - {c.name} + {legacy}));
  }

  lemma TurnSkips(j: Json, snapshot: seq<Column>, names0: set<string>, meta0: Metadata, columns: seq<Column>, meta: Metadata, names: set<string>, i: nat)
    requires i < |snapshot| == |columns| && AtTurn(j, snapshot, names0, meta0, columns, meta, names, i) && !Internal(snapshot[i].name)
    ensures AtTurn(j, snapshot, names0, meta0, columns, meta, names, i + 1)
  {
    var c := snapshot[i];
    RenameStep(j, meta, snapshot, i, names);
    assert columns[i] == columns[i..][0] == c;
    ExtendFront(columns, i, c, RenamedColumns(j, snapshot[i + 1..], names));
    assert columns[i := c] == columns;
  }

  lemma AllTurns(j: Json, snapshot: seq<Column>, names0: set<string>, meta0: Metadata, columns: seq<Column>, meta: Metadata, names: set<string>)
    requires |snapshot| == |columns| && AtTurn(j, snapshot, names0, meta0, columns, meta, names, |snapshot|)
    ensures columns == RenamedColumns(j, snapshot, names0) && meta == MoveMetadata(meta0, Moves(snapshot, names0))
    ensures !Clashes(meta0, Moves(snapshot, names0))
  {
    assert columns[..|snapshot|] == columns && snapshot[|snapshot|..] == [];
  }

  /** A physical table and its metadata, changed step by step. */
  class DynamicTable {
    var columns: seq<Column>
    var meta: Metadata

    constructor (t: Table)
      ensures columns == t.columns && meta == t.meta
    {
      columns, meta := t.columns, t.meta;
    }

    /** One turn of the loop, at a reserved column: rename it, record where it came from, and let the
        metadata follow, unless that is refused. */
    method RenameColumn(j: Json, ghost snapshot: seq<Column>, ghost names0: set<string>, ghost meta0: Metadata, names: set<string>, i: nat) returns (ok: bool, names': set<string>)
      requires i < |snapshot| == |columns| && AtTurn(j, snapshot, names0, meta0, columns, meta, names, i) && Internal(snapshot[i].name)
      modifies this
      ensures |columns| == |snapshot|
      ensures if ok then AtTurn(j, snapshot, names0, meta0, columns, meta, names', i + 1) else Clashes(meta0, Moves(snapshot, names0))
    {
      var c := columns[i];
      assert c == columns[i..][0] == snapshot[i];
      var legacy := NextLegacyName(names, c.name);
      TurnRenames(j, snapshot, names0, meta0, columns, meta, names, i, legacy);
      if Duplicates(meta, c.name, legacy) {
        return false, names;
      }
      columns := columns[i := Renamed(j, c, legacy)];
      names' := names - {c.name} + {legacy};
      meta := RenameMetadata(meta, c.name, legacy);
      ok := true;
    }

    /** A refused rename raises, and the transaction is rolled back. */
    method RenameLegacyInternalColumns(j: Json) returns (ok: bool)
      modifies this
      ensures ok <==> !Clashes(old(meta), Moves(old(columns), Names(old(columns))))
      ensures ok ==> columns == RenamedColumns(j, old(columns), Names(old(columns)))
      ensures ok ==> meta == MoveMetadata(old(meta), Moves(old(columns), Names(old(columns))))
      ensures !ok ==> columns == old(columns) && meta == old(meta)
    {
      var before := meta;
      var snapshot, names := columns, Names(columns);
      ghost var names0 := names;
      var i := 0;
      assert snapshot[0..] == snapshot;
      while i < |snapshot|
        invariant 0 <= i <= |snapshot| == |columns|
        invariant AtTurn(j, snapshot, names0, before, columns, meta, names, i)
      {
        if Internal(snapshot[i].name) {
          ok, names := RenameColumn(j, snapshot, names0, before, names, i);
          if !ok {
            columns, meta := snapshot, before;
            return;
          }
        } else {
          TurnSkips(j, snapshot, names0, before, columns, meta, names, i);
        }
        i := i + 1;
      }
      AllTurns(j, snapshot, names0, before, columns, meta, names);
      return true;
    }

    /** `sorted` is the sorted list of the records found. */
    method RestoreLegacyInternalColumns(j: Json, sorted: seq<Move>) returns (failure: Option<DowngradeError>)
      requires multiset(sorted) == multiset(Matches(j, columns))
      modifies this
      ensures failure.None? ==> Restore(Table(old(columns), old(meta)), sorted, {}) == Ok(Table(columns, meta))
      ensures failure.Some? ==> Restore(Table(old(columns), old(meta)), sorted, {}) == Err(failure.value)
    {
      var restored: set<string> := {};
      var i := 0;
      assert sorted[0..] == sorted;
      while i < |sorted|
        invariant 0 <= i <= |sorted|
        invariant Restore(Table(old(columns), old(meta)), sorted, {}) == Restore(Table(columns, meta), sorted[i..], restored)
      {
        var m := sorted[i];
        assert sorted[i..][0] == m && sorted[i..][1..] == sorted[i + 1..];
        if m.original in restored {
          return Some(RestoredTwice);
        }
        if m.original in Names(columns) {
          return Some(NameTaken);
        }
        if Duplicates(meta, m.legacy, m.original) {
          return Some(MetadataDuplicate);
        }
        columns := RestoreColumn(columns, m);
        meta := RenameMetadata(meta, m.legacy, m.original);
        restored := restored + {m.original};
        i := i + 1;
      }
      return None;
    }

    method Upgrade(j: Json) returns (ok: bool)
      modifies this
      ensures ok <==> !Clashes(old(meta), Moves(old(columns), Names(old(columns))))
      ensures Table(columns, meta) == if ok then Upgraded(j, Table(old(columns), old(meta))) else Table(old(columns), old(meta))
    {
      ok := RenameLegacyInternalColumns(j);
      if ok && TENANT_COLUMN !in Names(columns) {
        columns := columns + [TenantColumn()];
      }
    }

    method Downgrade(j: Json, sorted: seq<Move>) returns (failure: Option<DowngradeError>)
      requires multiset(sorted) == multiset(Matches(j, DropColumn(columns, TENANT_COLUMN)))
      modifies this
      ensures failure.None? ==> Downgrades(j, Table(old(columns), old(meta)), Ok(Table(columns, meta)))
      ensures failure.Some? ==> Downgrades(j, Table(old(columns), old(meta)), Err(failure.value))
    {
      columns := DropColumn(columns, TENANT_COLUMN);
      failure := RestoreLegacyInternalColumns(j, sorted);
    }
  }

  // ---- names and moves

  ghost predicate DistinctNames(columns: seq<Column>) {
    forall i, k :: 0 <= i < k < |columns| ==> columns[i].name != columns[k].name
  }

  lemma InternalIsNotLegacy(x: string, y: string)
    requires Internal(x) && StartsWith(y, "migrated_")
    ensures x != y && !Internal(y)
  {
    assert x[..5][0] == x[0] && y[..9][0] == y[0];
  }

  /** Moves that do not get in each other's way, in whatever order they are made or undone. */
  ghost predicate Good(ms: seq<Move>) {
    && (forall m :: m in ms ==> Internal(m.original) && StartsWith(m.legacy, "migrated_") && multiset(ms)[m] == 1)
    && (forall m, n :: m in ms && n in ms && (m.original == n.original || m.legacy == n.legacy) ==> m == n)
  }

  lemma GoodRest(ms: seq<Move>)
    requires ms != [] && Good(ms)
    ensures ms[0] !in ms[1..] && Good(ms[1..])
    ensures forall m :: m in ms <==> m == ms[0] || m in ms[1..]
  {
    assert ms == [ms[0]] + ms[1..];
    assert multiset(ms) == multiset{ms[0]} + multiset(ms[1..]);
    assert ms[0] in ms && multiset(ms)[ms[0]] == 1;
    assert multiset(ms[1..])[ms[0]] == 0;
    forall m | m in ms[1..] ensures multiset(ms[1..])[m] == 1 {
      assert m in ms && m != ms[0];
    }
  }

  lemma GoodPermuted(ms: seq<Move>, ns: seq<Move>)
    requires Good(ms) && multiset(ms) == multiset(ns)
    ensures Good(ns) && forall m :: m in ns <==> m in ms
  {
    assert forall m :: m in ns <==> m in multiset(ns);
    assert forall m :: m in ms <==> m in multiset(ms);
  }

  /** What a name has become once the moves are made. */
  ghost function NewName(x: string, ms: seq<Move>): string {
    if m :| m in ms && m.original == x then m.legacy else x
  }

  lemma NewNameOf(x: string, ms: seq<Move>, m: Move)
    requires Good(ms) && m in ms
    ensures m.original == x ==> NewName(x, ms) == m.legacy
  {
  }

  // ---- metadata under moves

  /** `cur` is the metadata `orig` with the moves made in it. */
  ghost predicate RowsMoved(orig: map<int, string>, cur: map<int, string>, ms: seq<Move>) {
    cur.Keys == orig.Keys && forall r :: r in orig ==> cur[r] == NewName(orig[r], ms)
  }

  /** `cur` is the schema with each key `k` renamed to `f[k]`. */
  ghost predicate Rekeyed(orig: map<string, int>, cur: map<string, int>, f: map<string, string>)
    requires f.Keys == orig.Keys
  {
    && (forall k :: k in orig ==> f[k] in cur && cur[f[k]] == orig[k])
    && (forall x :: x in cur ==> Hits(f, x))
  }

  ghost predicate Hits(f: map<string, string>, x: string) {
    exists k :: k in f && f[k] == x
  }

  ghost function NewNames(keys: set<string>, ms: seq<Move>): map<string, string> {
    map k | k in keys :: NewName(k, ms)
  }

  ghost predicate SchemaMoved(orig: map<string, int>, cur: map<string, int>, ms: seq<Move>) {
    Rekeyed(orig, cur, NewNames(orig.Keys, ms))
  }

  ghost predicate RenamesOne(orig: map<string, int>, f: map<string, string>, g: map<string, string>, old': string, new': string)
    requires f.Keys == orig.Keys == g.Keys
  {
    old' != new' && forall k :: k in orig ==> f[k] != new' && g[k] == if f[k] == old' then new' else f[k]
  }

  lemma RekeyHits(orig: map<string, int>, cur: map<string, int>, f: map<string, string>, g: map<string, string>, old': string, new': string, x: string)
    requires f.Keys == orig.Keys == g.Keys && Rekeyed(orig, cur, f) && RenamesOne(orig, f, g, old', new')
    requires x in RenameKey(cur, old', new')
    ensures Hits(g, x)
  {
    var y := if x == new' then old' else x;
    assert new' !in cur by {
      assert new' in cur ==> Hits(f, new');
    }
    assert y in cur && Hits(f, y);
    var k :| k in f && f[k] == y;
    assert g[k] == x;
  }

  lemma RekeyKey(orig: map<string, int>, cur: map<string, int>, f: map<string, string>, g: map<string, string>, old': string, new': string, k: string)
    requires f.Keys == orig.Keys == g.Keys && Rekeyed(orig, cur, f) && RenamesOne(orig, f, g, old', new') && k in orig
    ensures g[k] in RenameKey(cur, old', new') && RenameKey(cur, old', new')[g[k]] == orig[k]
  {
    assert f[k] in cur && cur[f[k]] == orig[k];
  }

  /** Renaming one key of a rekeyed schema, to a name not in use. */
  lemma RekeyOne(orig: map<string, int>, cur: map<string, int>, f: map<string, string>, g: map<string, string>, old': string, new': string)
    requires f.Keys == orig.Keys == g.Keys && Rekeyed(orig, cur, f) && RenamesOne(orig, f, g, old', new')
    ensures Rekeyed(orig, RenameKey(cur, old', new'), g)
  {
    forall k | k in orig ensures g[k] in RenameKey(cur, old', new') && RenameKey(cur, old', new')[g[k]] == orig[k] {
      RekeyKey(orig, cur, f, g, old', new', k);
    }
    forall x | x in RenameKey(cur, old', new') ensures Hits(g, x) {
      RekeyHits(orig, cur, f, g, old', new', x);
    }
  }

  ghost predicate MetadataMoved(orig: Metadata, cur: Metadata, ms: seq<Move>) {
    match orig
    case NoMetadata => cur == orig
    case ColumnRows(rows) => cur.ColumnRows? && RowsMoved(rows, cur.rows, ms)
    case FieldSchema(schema) => cur.FieldSchema? && SchemaMoved(schema, cur.schema, ms)
  }

  /** No metadata names a column that does not exist yet: a legacy name of one of the moves. */
  ghost predicate NoneStale(meta: Metadata, ms: seq<Move>) {
    forall m :: m in ms ==> !Mentions(meta, m.legacy)
  }

  /** Two names not among the legacy names keep apart under the moves. */
  lemma NewNameApart(x: string, ms: seq<Move>, m: Move)
    requires Good(ms) && m in ms && forall n :: n in ms ==> n.legacy != x
    ensures NewName(x, ms) == m.legacy <==> x == m.original
    ensures NewName(x, ms) != m.original
  {
    if n :| n in ms && n.original == x {
      NewNameOf(x, ms, n);
      InternalIsNotLegacy(m.original, n.legacy);
    }
    NewNameOf(x, ms, m);
  }

  /** Dropping the first move changes what only its own column is called. */
  lemma NewNameRest(x: string, ms: seq<Move>)
    requires ms != [] && Good(ms)
    ensures x == ms[0].original ==> NewName(x, ms[1..]) == x
    ensures x != ms[0].original ==> NewName(x, ms[1..]) == NewName(x, ms)
  {
    GoodRest(ms);
    if n :| n in ms[1..] && n.original == x {
      NewNameOf(x, ms[1..], n);
      NewNameOf(x, ms, n);
    }
  }

  lemma RowsRestoreOne(orig: map<int, string>, cur: map<int, string>, ms: seq<Move>)
    requires ms != [] && Good(ms) && RowsMoved(orig, cur, ms) && NoneStale(ColumnRows(orig), ms)
    ensures RowsMoved(orig, RenameRows(cur, ms[0].legacy, ms[0].original), ms[1..])
  {
    forall r | r in orig
      ensures (if cur[r] == ms[0].legacy then ms[0].original else cur[r]) == NewName(orig[r], ms[1..])
    {
      assert Mentions(ColumnRows(orig), orig[r]);
      NewNameApart(orig[r], ms, ms[0]);
      NewNameRest(orig[r], ms);
    }
  }

  /** How the first move alone changes the names of keys that are no legacy name. */
  lemma NewNamesStep(keys: set<string>, ms: seq<Move>, k: string)
    requires ms != [] && Good(ms) && k in keys && forall m :: m in ms ==> m.legacy != k
    ensures var with, without := NewNames(keys, ms)[k], NewNames(keys, ms[1..])[k];
            && with != ms[0].original && without == (if with == ms[0].legacy then ms[0].original else with)
            && without != ms[0].legacy && with == (if without == ms[0].original then ms[0].legacy else without)
  {
    NewNameApart(k, ms, ms[0]);
    NewNameRest(k, ms);
    InternalIsNotLegacy(ms[0].original, ms[0].legacy);
  }

  lemma SchemaRestoreOne(orig: map<string, int>, cur: map<string, int>, ms: seq<Move>)
    requires ms != [] && Good(ms) && SchemaMoved(orig, cur, ms) && NoneStale(FieldSchema(orig), ms)
    ensures SchemaMoved(orig, RenameKey(cur, ms[0].legacy, ms[0].original), ms[1..])
  {
    InternalIsNotLegacy(ms[0].original, ms[0].legacy);
    assert RenamesOne(orig, NewNames(orig.Keys, ms), NewNames(orig.Keys, ms[1..]), ms[0].legacy, ms[0].original) by {
      forall k | k in orig ensures forall m :: m in ms ==> m.legacy != k {
        assert Mentions(FieldSchema(orig), k);
      }
      forall k | k in orig {
        NewNamesStep(orig.Keys, ms, k);
      }
    }
    RekeyOne(orig, cur, NewNames(orig.Keys, ms), NewNames(orig.Keys, ms[1..]), ms[0].legacy, ms[0].original);
  }

  /** While the moves are undone no metadata mentions an original name that is still to come back. */
  lemma NotDuplicated(orig: Metadata, cur: Metadata, ms: seq<Move>)
    requires ms != [] && Good(ms) && MetadataMoved(orig, cur, ms) && NoneStale(orig, ms)
    ensures !Duplicates(cur, ms[0].legacy, ms[0].original)
  {
    if cur.ColumnRows? && orig.ColumnRows? {
      forall r | r in cur.rows ensures cur.rows[r] != ms[0].original {
        assert Mentions(orig, orig.rows[r]);
        NewNameApart(orig.rows[r], ms, ms[0]);
      }
    }
  }

  lemma MetadataRestoreOne(orig: Metadata, cur: Metadata, ms: seq<Move>)
    requires ms != [] && Good(ms) && MetadataMoved(orig, cur, ms) && NoneStale(orig, ms)
    ensures MetadataMoved(orig, RenameMetadata(cur, ms[0].legacy, ms[0].original), ms[1..])
  {
    match orig {
      case NoMetadata =>
      case ColumnRows(rows) => RowsRestoreOne(rows, cur.rows, ms);
      case FieldSchema(schema) => SchemaRestoreOne(schema, cur.schema, ms);
    }
  }

  lemma MetadataUnmoved(orig: Metadata, cur: Metadata)
    ensures MetadataMoved(orig, cur, []) <==> cur == orig
  {
    match orig {
      case NoMetadata =>
      case ColumnRows(rows) =>
        if MetadataMoved(orig, cur, []) {
          assert forall r :: r in rows ==> cur.rows[r] == NewName(rows[r], []) == rows[r];
          assert cur.rows == rows;
        }
      case FieldSchema(schema) =>
        var f := NewNames(schema.Keys, []);
        assert forall k :: k in schema ==> f[k] == k && Hits(f, k);
        if MetadataMoved(orig, cur, []) {
          assert forall x :: x in cur.schema ==> Hits(f, x) && x in schema;
          assert cur.schema == schema;
        }
    }
  }

  /** Making one more move, of a name not yet moved. */
  lemma RowsMoveOne(orig: map<int, string>, cur: map<int, string>, ms: seq<Move>)
    requires ms != [] && Good(ms) && NoneStale(ColumnRows(orig), ms) && RowsMoved(orig, cur, ms[1..])
    ensures RowsMoved(orig, RenameRows(cur, ms[0].original, ms[0].legacy), ms)
  {
    forall r | r in orig
      ensures (if cur[r] == ms[0].original then ms[0].legacy else cur[r]) == NewName(orig[r], ms)
    {
      assert Mentions(ColumnRows(orig), orig[r]);
      NewNameApart(orig[r], ms, ms[0]);
      NewNameRest(orig[r], ms);
    }
  }

  lemma SchemaMoveOne(orig: map<string, int>, cur: map<string, int>, ms: seq<Move>)
    requires ms != [] && Good(ms) && NoneStale(FieldSchema(orig), ms) && SchemaMoved(orig, cur, ms[1..])
    ensures SchemaMoved(orig, RenameKey(cur, ms[0].original, ms[0].legacy), ms)
  {
    InternalIsNotLegacy(ms[0].original, ms[0].legacy);
    assert RenamesOne(orig, NewNames(orig.Keys, ms[1..]), NewNames(orig.Keys, ms), ms[0].original, ms[0].legacy) by {
      forall k | k in orig ensures forall m :: m in ms ==> m.legacy != k {
        assert Mentions(FieldSchema(orig), k);
      }
      forall k | k in orig {
        NewNamesStep(orig.Keys, ms, k);
      }
    }
    RekeyOne(orig, cur, NewNames(orig.Keys, ms[1..]), NewNames(orig.Keys, ms), ms[0].original, ms[0].legacy);
  }

  lemma MetadataMoveOne(orig: Metadata, cur: Metadata, ms: seq<Move>)
    requires ms != [] && Good(ms) && NoneStale(orig, ms) && MetadataMoved(orig, cur, ms[1..])
    ensures MetadataMoved(orig, RenameMetadata(cur, ms[0].original, ms[0].legacy), ms)
  {
    match orig {
      case NoMetadata =>
      case ColumnRows(rows) => RowsMoveOne(rows, cur.rows, ms);
      case FieldSchema(schema) => SchemaMoveOne(schema, cur.schema, ms);
    }
  }

  lemma NewNamePermuted(x: string, ms: seq<Move>, ns: seq<Move>)
    requires Good(ms) && multiset(ms) == multiset(ns)
    ensures NewName(x, ns) == NewName(x, ms)
  {
    GoodPermuted(ms, ns);
    if m :| m in ms && m.original == x {
      NewNameOf(x, ms, m);
      NewNameOf(x, ns, m);
    }
  }

  lemma RowsPermuted(orig: map<int, string>, cur: map<int, string>, ms: seq<Move>, ns: seq<Move>)
    requires Good(ms) && multiset(ms) == multiset(ns) && RowsMoved(orig, cur, ms)
    ensures RowsMoved(orig, cur, ns)
  {
    forall r | r in orig ensures cur[r] == NewName(orig[r], ns) {
      NewNamePermuted(orig[r], ms, ns);
    }
  }

  lemma NewNamesPermuted(keys: set<string>, ms: seq<Move>, ns: seq<Move>)
    requires Good(ms) && multiset(ms) == multiset(ns)
    ensures NewNames(keys, ns) == NewNames(keys, ms)
  {
    forall k | k in keys ensures NewName(k, ns) == NewName(k, ms) {
      NewNamePermuted(k, ms, ns);
    }
  }

  lemma MetadataPermuted(orig: Metadata, cur: Metadata, ms: seq<Move>, ns: seq<Move>)
    requires Good(ms) && multiset(ms) == multiset(ns) && MetadataMoved(orig, cur, ms)
    ensures MetadataMoved(orig, cur, ns)
  {
    match orig {
      case NoMetadata =>
      case ColumnRows(rows) => RowsPermuted(rows, cur.rows, ms, ns);
      case FieldSchema(schema) => NewNamesPermuted(schema.Keys, ms, ns);
    }
  }

  lemma GoodPart(all: seq<Move>, part: seq<Move>)
    requires Good(all) && multiset(part) <= multiset(all)
    ensures Good(part) && forall m :: m in part ==> m in all
  {
    forall m | m in part ensures m in all && multiset(part)[m] == 1 {
      assert m in multiset(part) && m in multiset(all);
    }
  }

  /** The upgrade's metadata: with nothing stale, every name moved once. */
  lemma {:induction false} MoveAll(orig: Metadata, cur: Metadata, all: seq<Move>, done: seq<Move>, todo: seq<Move>)
    requires Good(all) && NoneStale(orig, all) && multiset(done) + multiset(todo) == multiset(all)
    requires MetadataMoved(orig, cur, done)
    ensures MetadataMoved(orig, MoveMetadata(cur, todo), all)
    decreases |todo|
  {
    if todo == [] {
      GoodPart(all, done);
      MetadataPermuted(orig, cur, done, all);
    } else {
      var m := todo[0];
      var done' := [m] + done;
      assert todo == [m] + todo[1..];
      assert multiset(done') + multiset(todo[1..]) == multiset(all);
      GoodPart(all, done');
      assert done'[1..] == done && done'[0] == m;
      MetadataMoveOne(orig, cur, done');
      MoveAll(orig, RenameMetadata(cur, m.original, m.legacy), all, done', todo[1..]);
    }
  }

  // ---- columns under moves

  /** A column while the moves are made: renamed, with its record in the comment, or as it was. */
  ghost predicate ColumnMoved(j: Json, c: Column, now: Column, ms: seq<Move>) {
    if exists m :: m in ms && m.original == c.name
    then now == Column(NewName(c.name, ms), Some(Mark(j, c.name, c.comment)), c.contents)
    else now == c
  }

  ghost predicate ColumnsMoved(j: Json, orig: seq<Column>, cur: seq<Column>, ms: seq<Move>) {
    |cur| == |orig| && forall i :: 0 <= i < |orig| ==> ColumnMoved(j, orig[i], cur[i], ms)
  }

  /** Each move is of one of the columns, and records its comment. */
  ghost predicate MoveOf(m: Move, c: Column) {
    m.original == c.name && m.comment == c.comment
  }

  ghost predicate MovesOf(orig: seq<Column>, ms: seq<Move>) {
    && (forall m :: m in ms ==> exists i :: 0 <= i < |orig| && MoveOf(m, orig[i]))
    && (forall m, i :: m in ms && 0 <= i < |orig| ==> orig[i].name != m.legacy)
  }

  lemma ColumnRestoreOne(j: Json, c: Column, now: Column, ms: seq<Move>)
    requires ms != [] && Good(ms) && ColumnMoved(j, c, now, ms)
    requires forall m :: m in ms ==> m.legacy != c.name
    requires ms[0].original == c.name ==> ms[0].comment == c.comment
    ensures now.name != ms[0].original
    ensures ColumnMoved(j, c, if now.name == ms[0].legacy then Column(ms[0].original, ms[0].comment, now.contents) else now, ms[1..])
  {
    NewNameApart(c.name, ms, ms[0]);
    NewNameRest(c.name, ms);
    GoodRest(ms);
  }

  lemma ColumnsRestoreOne(j: Json, orig: seq<Column>, cur: seq<Column>, ms: seq<Move>)
    requires ms != [] && Good(ms) && DistinctNames(orig) && MovesOf(orig, ms) && ColumnsMoved(j, orig, cur, ms)
    ensures ms[0].original !in Names(cur)
    ensures ColumnsMoved(j, orig, RestoreColumn(cur, ms[0]), ms[1..]) && MovesOf(orig, ms[1..])
  {
    var m := ms[0];
    GoodRest(ms);
    var k :| 0 <= k < |orig| && MoveOf(m, orig[k]);
    forall i | 0 <= i < |orig|
      ensures cur[i].name != m.original && ColumnMoved(j, orig[i], RestoreColumn(cur, m)[i], ms[1..])
    {
      assert m.original == orig[i].name ==> i == k;
      ColumnRestoreOne(j, orig[i], cur[i], ms);
    }
  }

  /** Undoing the moves, in any order, restores columns and metadata. */
  lemma {:induction false} RestoreAll(j: Json, t: Table, cur: Table, ms: seq<Move>, restored: set<string>)
    requires Good(ms) && DistinctNames(t.columns) && MovesOf(t.columns, ms) && NoneStale(t.meta, ms)
    requires ColumnsMoved(j, t.columns, cur.columns, ms) && MetadataMoved(t.meta, cur.meta, ms)
    requires forall m :: m in ms ==> m.original !in restored
    ensures Restore(cur, ms, restored) == Ok(t)
    decreases |ms|
  {
    if ms == [] {
      MetadataUnmoved(t.meta, cur.meta);
      assert forall i :: 0 <= i < |t.columns| ==> ColumnMoved(j, t.columns[i], cur.columns[i], ms) && cur.columns[i] == t.columns[i];
      assert cur.columns == t.columns;
    } else {
      var m := ms[0];
      GoodRest(ms);
      ColumnsRestoreOne(j, t.columns, cur.columns, ms);
      NotDuplicated(t.meta, cur.meta, ms);
      MetadataRestoreOne(t.meta, cur.meta, ms);
      var next := Table(RestoreColumn(cur.columns, m), RenameMetadata(cur.meta, m.legacy, m.original));
      RestoreAll(j, t, next, ms[1..], restored + {m.original});
    }
  }

  // ---- what the upgrade leaves

  ghost predicate NamesKnown(columns: seq<Column>, names: set<string>) {
    forall i :: 0 <= i < |columns| ==> columns[i].name in names
  }

  /** The moves are fresh against all names in use at the start, they are of the columns they come
      from, and no two of them clash - even where a suffixed name is itself another column's. */
  lemma {:induction false} MovesAreGood(columns: seq<Column>, names: set<string>)
    requires DistinctNames(columns) && NamesKnown(columns, names)
    ensures Good(Moves(columns, names)) && MovesOf(columns, Moves(columns, names))
    ensures forall m :: m in Moves(columns, names) ==> m.legacy !in names
    ensures forall i :: 0 <= i < |columns| && Internal(columns[i].name) ==> exists m :: m in Moves(columns, names) && m.original == columns[i].name
    decreases |columns|
  {
    if columns != [] {
      var c, rest := columns[0], columns[1..];
      assert forall i :: 0 <= i < |rest| ==> rest[i] == columns[i + 1];
      if Internal(c.name) {
        var m := Move(c.name, c.comment, Fresh(names, c.name));
        var names' := names - {c.name} + {m.legacy};
        MovesAreGood(rest, names');
        ConsGood(columns, names, m, Moves(rest, names'));
      } else {
        MovesAreGood(rest, names);
        forall n | n in Moves(rest, names) ensures exists i :: 0 <= i < |columns| && MoveOf(n, columns[i]) {
          var i :| 0 <= i < |rest| && MoveOf(n, rest[i]);
          assert MoveOf(n, columns[i + 1]);
        }
      }
    }
  }

  lemma ConsGood(columns: seq<Column>, names: set<string>, m: Move, ms: seq<Move>)
    requires DistinctNames(columns) && NamesKnown(columns, names) && columns != []
    requires Internal(columns[0].name) && MoveOf(m, columns[0]) && m.legacy !in names && StartsWith(m.legacy, "migrated_")
    requires Good(ms) && MovesOf(columns[1..], ms) && forall n :: n in ms ==> n.legacy !in names - {m.original} + {m.legacy}
    ensures Good([m] + ms) && MovesOf(columns, [m] + ms)
    ensures forall n :: n in [m] + ms ==> n.legacy !in names
  {
    var rest := columns[1..];
    assert forall i :: 0 <= i < |rest| ==> rest[i] == columns[i + 1];
    forall n | n in ms
      ensures n.original != m.original && n.legacy != m.legacy && n.legacy !in names
      ensures exists i :: 0 <= i < |columns| && MoveOf(n, columns[i])
    {
      var i :| 0 <= i < |rest| && MoveOf(n, rest[i]);
      assert MoveOf(n, columns[i + 1]);
      InternalIsNotLegacy(m.original, n.legacy);
    }
    assert MoveOf(m, columns[0]);
    assert multiset([m] + ms) == multiset{m} + multiset(ms);
    assert m !in ms;
  }

  lemma ColumnsMovedCons(j: Json, columns: seq<Column>, rest: seq<Column>, ms: seq<Move>)
    requires columns != [] && DistinctNames(columns) && ms != [] && Good(ms) && ms[0].original == columns[0].name
    requires ColumnsMoved(j, columns[1..], rest, ms[1..])
    ensures ColumnsMoved(j, columns, [Column(ms[0].legacy, Some(Mark(j, columns[0].name, columns[0].comment)), columns[0].contents)] + rest, ms)
  {
    var head := Column(ms[0].legacy, Some(Mark(j, columns[0].name, columns[0].comment)), columns[0].contents);
    NewNameOf(columns[0].name, ms, ms[0]);
    GoodRest(ms);
    forall i | 0 <= i < |columns| ensures ColumnMoved(j, columns[i], ([head] + rest)[i], ms) {
      if i == 0 {
        assert ms[0] in ms && ms[0].original == columns[0].name;
      } else {
        assert ColumnMoved(j, columns[1..][i - 1], rest[i - 1], ms[1..]);
        NewNameRest(columns[i].name, ms);
      }
    }
  }

  lemma ColumnsMovedSkip(j: Json, columns: seq<Column>, rest: seq<Column>, ms: seq<Move>)
    requires columns != [] && ColumnsMoved(j, columns[1..], rest, ms) && forall m :: m in ms ==> m.original != columns[0].name
    ensures ColumnsMoved(j, columns, [columns[0]] + rest, ms)
  {
    forall i | 1 <= i < |columns| ensures ColumnMoved(j, columns[i], ([columns[0]] + rest)[i], ms) {
      assert ColumnMoved(j, columns[1..][i - 1], rest[i - 1], ms);
    }
  }

  lemma {:induction false} UpgradeMovesColumns(j: Json, columns: seq<Column>, names: set<string>)
    requires DistinctNames(columns) && NamesKnown(columns, names)
    ensures ColumnsMoved(j, columns, RenamedColumns(j, columns, names), Moves(columns, names))
    decreases |columns|
  {
    if columns != [] {
      var c, rest, ms := columns[0], columns[1..], Moves(columns, names);
      assert forall i :: 0 <= i < |rest| ==> rest[i] == columns[i + 1];
      MovesAreGood(columns, names);
      if Internal(c.name) {
        var names' := names - {c.name} + {Fresh(names, c.name)};
        UpgradeMovesColumns(j, rest, names');
        assert ms[1..] == Moves(rest, names');
        ColumnsMovedCons(j, columns, RenamedColumns(j, rest, names'), ms);
      } else {
        UpgradeMovesColumns(j, rest, names);
        ColumnsMovedSkip(j, columns, RenamedColumns(j, rest, names), ms);
      }
    }
  }

  /** No column outside the reserved namespace carries a comment that reads as a rename record. */
  ghost predicate NoForeignMarkers(j: Json, columns: seq<Column>) {
    forall i :: 0 <= i < |columns| && !Internal(columns[i].name) ==> Parse(j, columns[i].comment).None?
  }

  /** Then the records found on the way down are exactly the moves made on the way up. */
  lemma {:induction false} MatchesAreMoves(j: Json, columns: seq<Column>, names: set<string>)
    requires ReadsBack(j) && NoForeignMarkers(j, columns)
    ensures Matches(j, RenamedColumns(j, columns, names)) == Moves(columns, names)
    decreases |columns|
  {
    if columns != [] {
      var c, rest := columns[0], columns[1..];
      assert forall i :: 0 <= i < |rest| ==> rest[i] == columns[i + 1];
      var r := RenamedColumns(j, columns, names);
      if Internal(c.name) {
        var names' := names - {c.name} + {Fresh(names, c.name)};
        MatchesAreMoves(j, rest, names');
        ParseMark(j, c.name, c.comment);
        assert r[1..] == RenamedColumns(j, rest, names');
      } else {
        MatchesAreMoves(j, rest, names);
        assert r[1..] == RenamedColumns(j, rest, names);
      }
    }
  }

  lemma {:induction false} DropAppended(columns: seq<Column>, name: string, last: Column)
    requires last.name == name && forall i :: 0 <= i < |columns| ==> columns[i].name != name
    ensures DropColumn(columns + [last], name) == columns
  {
    var s := columns + [last];
    if columns == [] {
      assert s[1..] == [];
    } else {
      assert s[1..] == columns[1..] + [last];
      DropAppended(columns[1..], name, last);
      assert columns == [columns[0]] + columns[1..];
    }
  }

  /** Nothing in the reserved namespace is left, so the tenant column is added, and dropped again. */
  lemma TenantComesAndGoes(j: Json, t: Table)
    requires DistinctNames(t.columns)
    ensures DropColumn(Upgraded(j, t).columns, TENANT_COLUMN) == RenamedColumns(j, t.columns, Names(t.columns))
    ensures forall i :: 0 <= i < |t.columns| ==> !Internal(RenamedColumns(j, t.columns, Names(t.columns))[i].name)
  {
    var names := Names(t.columns);
    var r, ms := RenamedColumns(j, t.columns, names), Moves(t.columns, names);
    MovesAreGood(t.columns, names);
    UpgradeMovesColumns(j, t.columns, names);
    forall i | 0 <= i < |r| ensures !Internal(r[i].name) {
      assert ColumnMoved(j, t.columns[i], r[i], ms);
      if m :| m in ms && m.original == t.columns[i].name {
        NewNameOf(t.columns[i].name, ms, m);
        InternalIsNotLegacy(m.original, m.legacy);
      }
    }
    assert Internal(TENANT_COLUMN);
    assert TENANT_COLUMN !in Names(r);
    DropAppended(r, TENANT_COLUMN, TenantColumn());
  }

  /** The downgrade undoes the upgrade on clean tables, whatever order the records are taken in. */
  lemma CleanRoundTrip(j: Json, t: Table, out: Result<Table, DowngradeError>)
    requires ReadsBack(j) && DistinctNames(t.columns) && NoForeignMarkers(j, t.columns)
    requires NoneStale(t.meta, Moves(t.columns, Names(t.columns)))
    requires Downgrades(j, Upgraded(j, t), out)
    ensures out == Ok(t)
  {
    var names := Names(t.columns);
    var r, mv := RenamedColumns(j, t.columns, names), Moves(t.columns, names);
    TenantComesAndGoes(j, t);
    MovesAreGood(t.columns, names);
    MatchesAreMoves(j, t.columns, names);
    UpgradeMovesColumns(j, t.columns, names);
    MetadataUnmoved(t.meta, t.meta);
    MoveAll(t.meta, t.meta, mv, [], mv);
    var meta := Upgraded(j, t).meta;
    var ms :| multiset(ms) == multiset(Matches(j, r)) && out == Restore(Table(r, meta), ms, {});
    GoodPermuted(mv, ms);
    MetadataPermuted(t.meta, meta, mv, ms);
    forall i | 0 <= i < |r| ensures ColumnMoved(j, t.columns[i], r[i], ms) {
      assert ColumnMoved(j, t.columns[i], r[i], mv);
      NewNamePermuted(t.columns[i].name, mv, ms);
    }
    RestoreAll(j, t, Table(r, meta), ms, {});
  }

  // ---- when it does not

  /** Metadata the moves do not bring into being stays absent. */
  lemma {:induction false} NeverMentionedAgain(t: Table, ms: seq<Move>, restored: set<string>, name: string)
    requires Restore(t, ms, restored).Ok? && !Mentions(t.meta, name)
    requires forall m :: m in ms ==> m.original != name
    ensures !Mentions(Restore(t, ms, restored).value.meta, name)
    decreases |ms|
  {
    if ms != [] {
      var m := ms[0];
      assert m in ms && forall n :: n in ms[1..] ==> n in ms;
      var next := Table(RestoreColumn(t.columns, m), RenameMetadata(t.meta, m.legacy, m.original));
      assert !Mentions(next.meta, name);
      NeverMentionedAgain(next, ms[1..], restored + {m.original}, name);
    }
  }

  /** After a downgrade no metadata mentions a legacy name, so a mention that was there before is lost. */
  lemma {:induction false} LegacyNamesVanish(t: Table, ms: seq<Move>, restored: set<string>, m: Move)
    requires Good(ms) && m in ms && Restore(t, ms, restored).Ok?
    ensures !Mentions(Restore(t, ms, restored).value.meta, m.legacy)
    decreases |ms|
  {
    var first := ms[0];
    GoodRest(ms);
    var next := Table(RestoreColumn(t.columns, first), RenameMetadata(t.meta, first.legacy, first.original));
    if m == first {
      InternalIsNotLegacy(m.original, m.legacy);
      assert !Mentions(next.meta, m.legacy);
      forall n | n in ms[1..] ensures n.original != m.legacy {
        InternalIsNotLegacy(n.original, m.legacy);
      }
      NeverMentionedAgain(next, ms[1..], restored + {first.original}, m.legacy);
    } else {
      LegacyNamesVanish(next, ms[1..], restored + {first.original}, m);
    }
  }

  /** Records found on distinct columns: no two under one name, each on a column still there. */
  ghost predicate Pending(columns: seq<Column>, ms: seq<Move>) {
    && (forall m :: m in ms ==> multiset(ms)[m] == 1 && m.legacy in Names(columns))
    && (forall m, n :: m in ms && n in ms && m.legacy == n.legacy ==> m == n)
  }

  lemma PendingWider(columns: seq<Column>, ms: seq<Move>)
    requires columns != [] && DistinctNames(columns) && Pending(columns[1..], ms)
    ensures Pending(columns, ms) && forall m :: m in ms ==> m.legacy != columns[0].name
  {
    forall m | m in ms ensures m.legacy in Names(columns) && m.legacy != columns[0].name {
      var i :| 0 <= i < |columns[1..]| && columns[1..][i].name == m.legacy;
      assert columns[i + 1].name == m.legacy;
    }
  }

  lemma PendingCons(columns: seq<Column>, m: Move, ms: seq<Move>)
    requires columns != [] && DistinctNames(columns) && Pending(columns[1..], ms) && m.legacy == columns[0].name
    ensures Pending(columns, [m] + ms)
  {
    PendingWider(columns, ms);
    assert m !in ms && columns[0].name in Names(columns);
    assert multiset([m] + ms) == multiset{m} + multiset(ms);
  }

  lemma {:induction false} MatchesPending(j: Json, columns: seq<Column>)
    requires DistinctNames(columns)
    ensures Pending(columns, Matches(j, columns))
    decreases |columns|
  {
    if columns != [] {
      var rest := columns[1..];
      assert forall i :: 0 <= i < |rest| ==> rest[i] == columns[i + 1];
      MatchesPending(j, rest);
      match Parse(j, columns[0].comment) {
        case None =>
          PendingWider(columns, Matches(j, rest));
          assert Matches(j, columns) == Matches(j, rest);
        case Some(p) =>
          PendingCons(columns, Move(p.0, p.1, columns[0].name), Matches(j, rest));
      }
    }
  }

  lemma {:induction false} MatchFound(j: Json, columns: seq<Column>, i: nat)
    requires i < |columns| && Parse(j, columns[i].comment).Some?
    ensures exists m :: m in Matches(j, columns) && m.legacy == columns[i].name
    decreases i
  {
    if i == 0 {
      assert Matches(j, columns)[0].legacy == columns[0].name;
    } else {
      MatchFound(j, columns[1..], i - 1);
      var m :| m in Matches(j, columns[1..]) && m.legacy == columns[i].name;
      assert m in Matches(j, columns);
    }
  }

  lemma PendingPermuted(columns: seq<Column>, ms: seq<Move>, ns: seq<Move>)
    requires Pending(columns, ms) && multiset(ms) == multiset(ns)
    ensures Pending(columns, ns) && forall m :: m in ns <==> m in ms
  {
    assert forall m :: m in ns <==> m in multiset(ns);
    assert forall m :: m in ms <==> m in multiset(ms);
  }

  lemma PendingRest(columns: seq<Column>, ms: seq<Move>)
    requires ms != [] && Pending(columns, ms)
    ensures Pending(RestoreColumn(columns, ms[0]), ms[1..]) && ms[0] !in ms[1..]
    ensures forall m :: m in ms <==> m == ms[0] || m in ms[1..]
  {
    var m, next := ms[0], RestoreColumn(columns, ms[0]);
    assert ms == [m] + ms[1..];
    assert multiset(ms) == multiset{m} + multiset(ms[1..]);
    assert m in ms && multiset(ms)[m] == 1;
    assert multiset(ms[1..])[m] == 0;
    forall n | n in ms[1..] ensures n.legacy in Names(next) && multiset(ms[1..])[n] == 1 {
      assert n in ms && n != m;
      var i :| 0 <= i < |columns| && columns[i].name == n.legacy;
      assert next[i].name == n.legacy;
    }
  }

  lemma {:induction false} Untouched(t: Table, ms: seq<Move>, restored: set<string>, i: nat)
    requires i < |t.columns| && Restore(t, ms, restored).Ok?
    requires forall m :: m in ms ==> m.legacy != t.columns[i].name
    ensures |Restore(t, ms, restored).value.columns| == |t.columns|
    ensures Restore(t, ms, restored).value.columns[i] == t.columns[i]
    decreases |ms|
  {
    if ms != [] {
      var m := ms[0];
      assert m in ms && forall n :: n in ms[1..] ==> n in ms;
      Untouched(Table(RestoreColumn(t.columns, m), RenameMetadata(t.meta, m.legacy, m.original)), ms[1..], restored + {m.original}, i);
    }
  }

  /** A column with a record ends under another name: the record's, which was not in use. */
  lemma {:induction false} RecordedColumnMoves(t: Table, ms: seq<Move>, restored: set<string>, i: nat, m: Move)
    requires Pending(t.columns, ms) && i < |t.columns| && m in ms && m.legacy == t.columns[i].name
    requires Restore(t, ms, restored).Ok?
    ensures |Restore(t, ms, restored).value.columns| == |t.columns|
    ensures Restore(t, ms, restored).value.columns[i].name != t.columns[i].name
    decreases |ms|
  {
    var first := ms[0];
    assert first in ms;
    PendingRest(t.columns, ms);
    var next := Table(RestoreColumn(t.columns, first), RenameMetadata(t.meta, first.legacy, first.original));
    assert t.columns[i].name in Names(t.columns);
    if first.legacy == t.columns[i].name {
      assert next.columns[i].name == first.original != t.columns[i].name;
      forall n | n in ms[1..] ensures n.legacy != first.original {
        assert n in ms && n.legacy in Names(t.columns);
      }
      Untouched(next, ms[1..], restored + {first.original}, i);
    } else {
      RecordedColumnMoves(next, ms[1..], restored + {first.original}, i, m);
    }
  }

  lemma ForeignMarkerBreaks(j: Json, t: Table, out: Result<Table, DowngradeError>, i: nat)
    requires DistinctNames(t.columns) && Downgrades(j, Upgraded(j, t), out)
    requires i < |t.columns| && !Internal(t.columns[i].name) && Parse(j, t.columns[i].comment).Some?
    ensures out != Ok(t)
  {
    var names := Names(t.columns);
    var r, mv := RenamedColumns(j, t.columns, names), Moves(t.columns, names);
    TenantComesAndGoes(j, t);
    MovesAreGood(t.columns, names);
    UpgradeMovesColumns(j, t.columns, names);
    RenamedDistinct(j, t.columns, r, mv);
    var meta := Upgraded(j, t).meta;
    var ms :| multiset(ms) == multiset(Matches(j, r)) && out == Restore(Table(r, meta), ms, {});
    assert r[i] == t.columns[i] by {
      assert ColumnMoved(j, t.columns[i], r[i], mv);
    }
    MatchesPending(j, r);
    MatchFound(j, r, i);
    PendingPermuted(r, Matches(j, r), ms);
    var m :| m in Matches(j, r) && m.legacy == r[i].name;
    if out.Ok? {
      RecordedColumnMoves(Table(r, meta), ms, {}, i, m);
    }
  }

  lemma RenamedDistinct(j: Json, columns: seq<Column>, cur: seq<Column>, ms: seq<Move>)
    requires DistinctNames(columns) && Good(ms) && MovesOf(columns, ms) && ColumnsMoved(j, columns, cur, ms)
    ensures DistinctNames(cur)
  {
    forall i, k | 0 <= i < k < |cur| ensures cur[i].name != cur[k].name {
      assert ColumnMoved(j, columns[i], cur[i], ms) && ColumnMoved(j, columns[k], cur[k], ms);
      assert columns[i].name != columns[k].name;
      if m :| m in ms && m.original == columns[i].name {
        NewNameApart(columns[k].name, ms, m);
        NewNameOf(columns[i].name, ms, m);
      } else if m :| m in ms && m.original == columns[k].name {
        NewNameApart(columns[i].name, ms, m);
        NewNameOf(columns[k].name, ms, m);
      }
    }
  }

  lemma StaleNameBreaks(j: Json, t: Table, out: Result<Table, DowngradeError>, m: Move)
    requires ReadsBack(j) && DistinctNames(t.columns) && NoForeignMarkers(j, t.columns)
    requires Downgrades(j, Upgraded(j, t), out)
    requires m in Moves(t.columns, Names(t.columns)) && Mentions(t.meta, m.legacy)
    ensures out != Ok(t)
  {
    var names := Names(t.columns);
    var r, mv := RenamedColumns(j, t.columns, names), Moves(t.columns, names);
    TenantComesAndGoes(j, t);
    MovesAreGood(t.columns, names);
    MatchesAreMoves(j, t.columns, names);
    var meta := Upgraded(j, t).meta;
    var ms :| multiset(ms) == multiset(Matches(j, r)) && out == Restore(Table(r, meta), ms, {});
    GoodPermuted(mv, ms);
    if out.Ok? {
      LegacyNamesVanish(Table(r, meta), ms, {}, m);
    }
  }

  /** The downgrade restores every column name, comment and metadata name exactly when no column outside
      the reserved namespace carries a rename record, and no metadata already uses one of the names the
      upgrade is about to hand out. */
  lemma RoundTripExactly(j: Json, t: Table, out: Result<Table, DowngradeError>)
    requires ReadsBack(j) && DistinctNames(t.columns) && Downgrades(j, Upgraded(j, t), out)
    ensures out == Ok(t) <==> NoForeignMarkers(j, t.columns) && NoneStale(t.meta, Moves(t.columns, Names(t.columns)))
    ensures out == Ok(t) ==> !Clashes(t.meta, Moves(t.columns, Names(t.columns)))
  {
    var mv := Moves(t.columns, Names(t.columns));
    if !NoForeignMarkers(j, t.columns) {
      var i :| 0 <= i < |t.columns| && !Internal(t.columns[i].name) && Parse(j, t.columns[i].comment).Some?;
      ForeignMarkerBreaks(j, t, out, i);
    } else if !NoneStale(t.meta, mv) {
      var m :| m in mv && Mentions(t.meta, m.legacy);
      StaleNameBreaks(j, t, out, m);
    } else {
      CleanRoundTrip(j, t, out);
      UpgradeGoesThrough(t);
    }
  }

  lemma MentionsOthers(meta: Metadata, old': string, new': string, x: string)
    requires x != old' && x != new'
    ensures Mentions(RenameMetadata(meta, old', new'), x) <==> Mentions(meta, x)
  {
    match meta
    case NoMetadata =>
    case FieldSchema(schema) =>
    case ColumnRows(rows) =>
      var rows' := RenameRows(rows, old', new');
      if r :| r in rows && rows[r] == x {
        assert rows'[r] == x;
      }
      if r :| r in rows' && rows'[r] == x {
        assert rows[r] == x;
      }
  }

  lemma DuplicatesLater(meta: Metadata, ms: seq<Move>, m: Move)
    requires ms != [] && Good(ms) && m in ms[1..]
    ensures Duplicates(RenameMetadata(meta, ms[0].original, ms[0].legacy), m.original, m.legacy) <==> Duplicates(meta, m.original, m.legacy)
  {
    GoodRest(ms);
    var first := ms[0];
    assert m in ms && first in ms && m != first;
    InternalIsNotLegacy(m.original, first.legacy);
    InternalIsNotLegacy(first.original, m.legacy);
    MentionsOthers(meta, first.original, first.legacy, m.original);
    MentionsOthers(meta, first.original, first.legacy, m.legacy);
  }

  /** The upgrade is refused exactly if the metadata rows name both a reserved column and the name it is
      about to get. */
  lemma {:induction false} ClashesExactly(meta: Metadata, ms: seq<Move>)
    requires Good(ms)
    ensures Clashes(meta, ms) <==> exists m :: m in ms && meta.ColumnRows? && Mentions(meta, m.original) && Mentions(meta, m.legacy)
    decreases |ms|
  {
    if ms != [] {
      GoodRest(ms);
      forall m | m in ms[1..]
        ensures Duplicates(RenameMetadata(meta, ms[0].original, ms[0].legacy), m.original, m.legacy) <==> Duplicates(meta, m.original, m.legacy)
      {
        DuplicatesLater(meta, ms, m);
      }
      ClashesExactly(RenameMetadata(meta, ms[0].original, ms[0].legacy), ms[1..]);
    }
  }

  /** ... so nothing stale means no refusal. */
  lemma UpgradeGoesThrough(t: Table)
    requires DistinctNames(t.columns) && NoneStale(t.meta, Moves(t.columns, Names(t.columns)))
    ensures !Clashes(t.meta, Moves(t.columns, Names(t.columns)))
  {
    MovesAreGood(t.columns, Names(t.columns));
    ClashesExactly(t.meta, Moves(t.columns, Names(t.columns)));
  }

  /** Metadata that names only columns the table has is never stale. */
  lemma MatchingMetadataIsNotStale(t: Table)
    requires DistinctNames(t.columns) && forall name :: Mentions(t.meta, name) ==> name in Names(t.columns)
    ensures NoneStale(t.meta, Moves(t.columns, Names(t.columns)))
  {
    MovesAreGood(t.columns, Names(t.columns));
  }

  /** A leftover metadata row under the next free name: the downgrade renames it too. */
  lemma StaleExample(j: Json, out: Result<Table, DowngradeError>)
    requires ReadsBack(j)
    requires Downgrades(j, Upgraded(j, Table([Column("__tc_x", None, 1)], ColumnRows(map[7 := "migrated_tc_x"]))), out)
    ensures out != Ok(Table([Column("__tc_x", None, 1)], ColumnRows(map[7 := "migrated_tc_x"])))
  {
    var c := Column("__tc_x", None, 1);
    var t := Table([c], ColumnRows(map[7 := "migrated_tc_x"]));
    var names := Names(t.columns);
    assert names == {"__tc_x"} by {
      assert t.columns[0].name in names;
    }
    var m := Move("__tc_x", None, "migrated_tc_x");
    assert Fresh(names, "__tc_x") == "migrated_tc_x" by {
      assert Candidate("__tc_x", 0) == "migrated_tc_x";
    }
    assert Moves(t.columns, names)[0] == m;
    assert t.meta.rows[7] == m.legacy;
    RoundTripExactly(j, t, out);
  }
}
