// Concurrent create transactions, statement by statement, and the lock on the
// workspace row that serialises them.
module CreateLocks {
  import opened Prelude
  import opened DocumentTable
  import opened DocumentInvariant

  type TxId = int

  // The FREE plan's number of active documents; PRO has no limit.
  const FREE_DOCUMENTS: nat := 50

  // How far a transaction has come.
  datatype Stage =
    | Waiting
    | Locked
    | Counted
    | Checked
    | Placed(position: real)
    | Inserted(row: Doc)

  // One create: the workspace, the fresh id of the row, and the wanted parent.
  datatype Txn = Txn(w: Id, id: Id, parent: Option<Id>, stage: Stage)

  // `table` holds what is committed, which is all that other transactions see.
  datatype System = System(table: Table, locks: map<Id, TxId>, txns: map<TxId, Txn>)

  // Outside is a committed change made by something other than a create.
  datatype Step =
    | Begin(tx: TxId, w: Id, id: Id, parent: Option<Id>)
    | Advance(tx: TxId)
    | Abort(tx: TxId)
    | Outside(table: Table)

  function Limit(free: set<Id>, w: Id): Option<nat> {
    if w in free then Some(FREE_DOCUMENTS) else None
  }

  predicate Rejected(t: Table, w: Id, limit: Option<nat>) {
    limit.Some? && |ActiveIds(t, w)| >= limit.value
  }

  predicate ParentUsable(t: Table, w: Id, parent: Option<Id>) {
    parent.Some? ==> Scoped(t, w, parent.value) && !t[parent.value].Archived()
  }

  function NewRow(txn: Txn, position: real): Doc {
    Doc(txn.id, txn.w, txn.parent, position, None, false, None, None)
  }

  function At(s: System, tx: TxId, stage: Stage): System
    requires tx in s.txns
  {
    s.(txns := s.txns[tx := s.txns[tx].(stage := stage)])
  }

  /** The transaction is over, and with it its lock. */
  function Ended(s: System, tx: TxId): System
    requires tx in s.txns
  {
    System(s.table, if s.txns[tx].stage.Waiting? then s.locks else s.locks - {s.txns[tx].w}, s.txns - {tx})
  }

  /** The next statement of a transaction; the last one commits. */
  function Advanced(s: System, tx: TxId, free: set<Id>): System
    requires Keyed(s.table) && tx in s.txns
  {
    var txn := s.txns[tx];
    match txn.stage
    case Waiting => At(s.(locks := s.locks[txn.w := tx]), tx, Locked)
    case Locked => if Rejected(s.table, txn.w, Limit(free, txn.w)) then Ended(s, tx) else At(s, tx, Counted)
    case Counted => if ParentUsable(s.table, txn.w, txn.parent) then At(s, tx, Checked) else Ended(s, tx)
    case Checked => At(s, tx, Placed(NextPosition(s.table, txn.w, txn.parent)))
    case Placed(position) => At(s, tx, Inserted(NewRow(txn, position)))
    case Inserted(row) => Ended(s, tx).(table := s.table[txn.id := row])
  }

  /** Rows stay, in their workspace, and none is activated. */
  ghost predicate KeepsRows(t: Table, t': Table) {
    && Keyed(t') && t'.Keys == t.Keys
    && forall x :: x in t ==> t'[x].workspace == t[x].workspace && (t[x].Archived() ==> t'[x].Archived())
  }

  ghost predicate KeepsPlaces(t: Table, t': Table) {
    t'.Keys == t.Keys
    && forall x :: x in t ==>
         t'[x].workspace == t[x].workspace && t'[x].parent == t[x].parent && t'[x].position == t[x].position
  }

  ghost predicate CanStep(s: System, step: Step) {
    match step
    case Begin(tx, _, id, _) =>
      tx !in s.txns && id !in s.table && forall other :: other in s.txns ==> s.txns[other].id != id
    case Advance(tx) => tx in s.txns && (s.txns[tx].stage.Waiting? ==> s.txns[tx].w !in s.locks)
    case Abort(tx) => tx in s.txns
    case Outside(table) => KeepsRows(s.table, table)
  }

  function Next(s: System, step: Step, free: set<Id>): System
    requires Keyed(s.table)
  {
    match step
    case Begin(tx, w, id, parent) => s.(txns := s.txns[tx := Txn(w, id, parent, Waiting)])
    case Advance(tx) => if tx in s.txns then Advanced(s, tx, free) else s
    case Abort(tx) => if tx in s.txns then Ended(s, tx) else s
    case Outside(table) => s.(table := table)
  }

  // ----- the limit -----

  predicate PastCount(stage: Stage) { !stage.Waiting? && !stage.Locked? }
  predicate PastCheck(stage: Stage) { PastCount(stage) && !stage.Counted? }

  /** Exactly the transactions past `Waiting` hold the lock of their workspace. */
  ghost predicate LocksInv(s: System) {
    && (forall w :: w in s.locks ==>
          s.locks[w] in s.txns && s.txns[s.locks[w]].w == w && !s.txns[s.locks[w]].stage.Waiting?)
    && (forall tx :: tx in s.txns && !s.txns[tx].stage.Waiting? ==>
          s.txns[tx].w in s.locks && s.locks[s.txns[tx].w] == tx)
  }

  ghost predicate IdsInv(s: System) {
    && Keyed(s.table)
    && (forall tx :: tx in s.txns ==> s.txns[tx].id !in s.table)
    && (forall a, b :: a in s.txns && b in s.txns && a != b ==> s.txns[a].id != s.txns[b].id)
  }

  /** What a transaction has established and still relies on. */
  ghost predicate TxnInv(t: Table, txn: Txn, free: set<Id>) {
    && (PastCount(txn.stage) ==> !Rejected(t, txn.w, Limit(free, txn.w)))
    && (PastCheck(txn.stage) && txn.parent.Some? ==> Scoped(t, txn.w, txn.parent.value))
    && (txn.stage.Inserted? ==> txn.stage.row == NewRow(txn, txn.stage.row.position))
  }

  ghost predicate WithinLimit(t: Table, free: set<Id>) {
    forall w :: w in free ==> |ActiveIds(t, w)| <= FREE_DOCUMENTS
  }

  ghost predicate Inv(s: System, free: set<Id>) {
    && LocksInv(s) && IdsInv(s) && WithinLimit(s.table, free)
    && forall tx :: tx in s.txns ==> TxnInv(s.table, s.txns[tx], free)
  }

  lemma Fewer(a: set<Id>, b: set<Id>)
    requires a <= b
    ensures |a| <= |b|
  {
    assert b == a + (b - a);
  }

  lemma OutsideFewer(t: Table, t': Table, w: Id)
    requires KeepsRows(t, t')
    ensures |ActiveIds(t', w)| <= |ActiveIds(t, w)|
  {
    forall x | x in ActiveIds(t', w) ensures x in ActiveIds(t, w) { assert x in t; }
    Fewer(ActiveIds(t', w), ActiveIds(t, w));
  }

  /** A committed create adds one active document to its workspace and none to the others. */
  lemma InsertedOne(t: Table, row: Doc, w: Id)
    requires row.id !in t && !row.Archived()
    ensures |ActiveIds(t[row.id := row], w)| == |ActiveIds(t, w)| + if w == row.workspace then 1 else 0
  {
    var t' := t[row.id := row];
    if w == row.workspace {
      assert ActiveIds(t', w) == ActiveIds(t, w) + {row.id};
    } else {
      assert ActiveIds(t', w) == ActiveIds(t, w);
    }
  }

  lemma CommitKeeps(s: System, tx: TxId, free: set<Id>)
    requires Inv(s, free) && tx in s.txns && s.txns[tx].stage.Inserted?
    ensures Inv(Advanced(s, tx, free), free)
  {
    var s' := Advanced(s, tx, free);
    var txn := s.txns[tx];
    assert TxnInv(s.table, txn, free);
    forall w ensures |ActiveIds(s'.table, w)| == |ActiveIds(s.table, w)| + if w == txn.w then 1 else 0 {
      InsertedOne(s.table, txn.stage.row, w);
    }
    forall other | other in s'.txns ensures TxnInv(s'.table, s'.txns[other], free) {
      assert TxnInv(s.table, s.txns[other], free);
    }
  }

  lemma OutsideKeeps(s: System, table: Table, free: set<Id>)
    requires Inv(s, free) && KeepsRows(s.table, table)
    ensures Inv(s.(table := table), free)
  {
    forall w ensures |ActiveIds(table, w)| <= |ActiveIds(s.table, w)| { OutsideFewer(s.table, table, w); }
    forall tx | tx in s.txns ensures TxnInv(table, s.txns[tx], free) {
      assert TxnInv(s.table, s.txns[tx], free);
    }
  }

  lemma EndKeeps(s: System, tx: TxId, free: set<Id>)
    requires Inv(s, free) && tx in s.txns
    ensures Inv(Ended(s, tx), free)
  {
  }

  lemma LockKeeps(s: System, tx: TxId, free: set<Id>)
    requires Inv(s, free) && tx in s.txns && s.txns[tx].stage.Waiting? && s.txns[tx].w !in s.locks
    ensures Inv(Advanced(s, tx, free), free)
  {
  }

  /** A transaction that holds its lock goes on without touching the table. */
  lemma GoOnKeeps(s: System, tx: TxId, stage: Stage, free: set<Id>)
    requires Inv(s, free) && tx in s.txns && !s.txns[tx].stage.Waiting? && !stage.Waiting?
    requires TxnInv(s.table, s.txns[tx].(stage := stage), free)
    ensures Inv(At(s, tx, stage), free)
  {
  }

  lemma AdvanceKeeps(s: System, tx: TxId, free: set<Id>)
    requires Inv(s, free) && CanStep(s, Advance(tx))
    ensures Inv(Advanced(s, tx, free), free)
  {
    var txn := s.txns[tx];
    assert TxnInv(s.table, txn, free);
    EndKeeps(s, tx, free);
    match txn.stage {
      case Waiting => LockKeeps(s, tx, free);
      case Locked => if !Rejected(s.table, txn.w, Limit(free, txn.w)) { GoOnKeeps(s, tx, Counted, free); }
      case Counted => if ParentUsable(s.table, txn.w, txn.parent) { GoOnKeeps(s, tx, Checked, free); }
      case Checked => GoOnKeeps(s, tx, Placed(NextPosition(s.table, txn.w, txn.parent)), free);
      case Placed(position) => GoOnKeeps(s, tx, Inserted(NewRow(txn, position)), free);
      case Inserted(row) => CommitKeeps(s, tx, free);
    }
  }

  lemma StepKeeps(s: System, step: Step, free: set<Id>)
    requires Inv(s, free) && CanStep(s, step)
    ensures Inv(Next(s, step, free), free)
  {
    match step {
      case Begin(tx, w, id, parent) =>
      case Advance(tx) => AdvanceKeeps(s, tx, free);
      case Abort(tx) => EndKeeps(s, tx, free);
      case Outside(table) => OutsideKeeps(s, table, free);
    }
  }

  // ----- whole runs -----

  ghost predicate CanRun(s: System, steps: seq<Step>, free: set<Id>)
    requires Keyed(s.table)
    decreases |steps|
  {
    steps != [] ==>
      && CanStep(s, steps[0])
      && Keyed(Next(s, steps[0], free).table)
      && CanRun(Next(s, steps[0], free), steps[1..], free)
  }

  function Run(s: System, steps: seq<Step>, free: set<Id>): System
    requires Keyed(s.table) && CanRun(s, steps, free)
    decreases |steps|
  {
    if steps == [] then s else Run(Next(s, steps[0], free), steps[1..], free)
  }

  lemma {:induction false} RunKeeps(s: System, steps: seq<Step>, free: set<Id>)
    requires Inv(s, free) && CanRun(s, steps, free)
    ensures Inv(Run(s, steps, free), free)
    decreases |steps|
  {
    if steps != [] {
      StepKeeps(s, steps[0], free);
      RunKeeps(Next(s, steps[0], free), steps[1..], free);
    }
  }

  /** However many creates interleave in whatever way, a FREE workspace never exceeds its limit. */
  lemma LimitHolds(t: Table, steps: seq<Step>, free: set<Id>, w: Id)
    requires Keyed(t) && WithinLimit(t, free) && w in free
    requires CanRun(System(t, map[], map[]), steps, free)
    ensures |ActiveIds(Run(System(t, map[], map[]), steps, free).table, w)| <= FREE_DOCUMENTS
  {
    RunKeeps(System(t, map[], map[]), steps, free);
  }

  // ----- positions -----

  predicate IsChild(t: Table, w: Id, p: Option<Id>, y: Id) {
    Scoped(t, w, y) && t[y].parent == p
  }

  /** `position` is one step past the last child, or past 0 when there is none. */
  ghost predicate NextIs(t: Table, w: Id, p: Option<Id>, position: real) {
    && (forall y :: IsChild(t, w, p, y) ==> t[y].position + POSITION_STEP <= position)
    && ((exists y :: IsChild(t, w, p, y) && t[y].position + POSITION_STEP == position)
        || (position == POSITION_STEP && forall y :: !IsChild(t, w, p, y)))
  }

  lemma NextPositionExact(t: Table, w: Id, p: Option<Id>, position: real)
    requires Keyed(t)
    ensures position == NextPosition(t, w, p) <==> NextIs(t, w, p, position)
  {
    var next := NextPosition(t, w, p);
    var s := Siblings(t, w, p);
    forall y | IsChild(t, w, p, y) ensures t[y].position + POSITION_STEP <= next && s != [] {
      assert t[y] in s;
      var j :| 0 <= j < |s| && s[j] == t[y];
      assert j < |s| - 1 ==> RowLeq(s[j], s[|s| - 1]);
    }
    if s != [] {
      var last := s[|s| - 1];
      assert last in s;
      assert IsChild(t, w, p, last.id);
    }
    assert NextIs(t, w, p, next);
  }

  lemma SamePlacesSameNext(t: Table, t': Table, w: Id, p: Option<Id>)
    requires Keyed(t) && Keyed(t')
    requires forall y :: IsChild(t, w, p, y) <==> IsChild(t', w, p, y)
    requires forall y :: IsChild(t, w, p, y) && IsChild(t', w, p, y) ==> t[y].position == t'[y].position
    ensures NextPosition(t, w, p) == NextPosition(t', w, p)
  {
    var next := NextPosition(t, w, p);
    NextPositionExact(t, w, p, next);
    if y :| IsChild(t, w, p, y) && t[y].position + POSITION_STEP == next { assert IsChild(t', w, p, y); }
    NextPositionExact(t', w, p, next);
  }

  ghost predicate PositionInv(t: Table, txn: Txn)
    requires Keyed(t)
  {
    && (txn.stage.Placed? ==> txn.stage.position == NextPosition(t, txn.w, txn.parent))
    && (txn.stage.Inserted? ==> txn.stage.row.position == NextPosition(t, txn.w, txn.parent))
  }

  /** Positions are distinct, and a position picked under the lock is still the next one. */
  ghost predicate PlaceInv(s: System)
    requires Keyed(s.table)
  {
    DistinctSiblings(s.table) && forall tx :: tx in s.txns ==> PositionInv(s.table, s.txns[tx])
  }

  /** Nobody else picks a position while this transaction holds the lock. */
  lemma CommitKeepsPlaces(s: System, tx: TxId, free: set<Id>)
    requires Inv(s, free) && PlaceInv(s) && tx in s.txns && s.txns[tx].stage.Inserted?
    ensures Keyed(Advanced(s, tx, free).table) && PlaceInv(Advanced(s, tx, free))
  {
    var s' := Advanced(s, tx, free);
    var txn := s.txns[tx];
    assert TxnInv(s.table, txn, free) && PositionInv(s.table, txn);
    forall other | other in s'.txns ensures PositionInv(s'.table, s'.txns[other]) {
      var o := s.txns[other];
      assert PositionInv(s.table, o);
      if !o.stage.Waiting? {
        assert o.w != txn.w;
        SamePlacesSameNext(s.table, s'.table, o.w, o.parent);
      }
    }
    forall x, y | x in s'.table && y in s'.table && x != y && AreSiblings(s'.table[x], s'.table[y])
      ensures s'.table[x].position != s'.table[y].position
    {
      if x == txn.id { NextPositionLast(s.table, txn.w, txn.parent, y); }
      else if y == txn.id { NextPositionLast(s.table, txn.w, txn.parent, x); }
    }
  }

  lemma StepKeepsPlaces(s: System, step: Step, free: set<Id>)
    requires Inv(s, free) && PlaceInv(s) && CanStep(s, step)
    requires step.Outside? ==> KeepsPlaces(s.table, step.table)
    ensures Keyed(Next(s, step, free).table) && PlaceInv(Next(s, step, free))
  {
    match step {
      case Begin(tx, w, id, parent) =>
      case Advance(tx) =>
        if s.txns[tx].stage.Inserted? { CommitKeepsPlaces(s, tx, free); }
      case Abort(tx) =>
      case Outside(table) =>
        forall tx | tx in s.txns ensures PositionInv(table, s.txns[tx]) {
          assert PositionInv(s.table, s.txns[tx]);
          SamePlacesSameNext(s.table, table, s.txns[tx].w, s.txns[tx].parent);
        }
        forall x, y | x in table && y in table && x != y && AreSiblings(table[x], table[y])
          ensures table[x].position != table[y].position
        {
          assert AreSiblings(s.table[x], s.table[y]);
        }
    }
  }

  /** Everything that is not a create leaves parents and positions alone, as archiving and publishing do. */
  ghost predicate NothingMoves(s: System, steps: seq<Step>, free: set<Id>)
    requires Keyed(s.table) && CanRun(s, steps, free)
    decreases |steps|
  {
    steps != [] ==>
      && (steps[0].Outside? ==> KeepsPlaces(s.table, steps[0].table))
      && NothingMoves(Next(s, steps[0], free), steps[1..], free)
  }

  lemma {:induction false} RunKeepsPlaces(s: System, steps: seq<Step>, free: set<Id>)
    requires Inv(s, free) && PlaceInv(s) && CanRun(s, steps, free) && NothingMoves(s, steps, free)
    ensures Inv(Run(s, steps, free), free) && PlaceInv(Run(s, steps, free))
    decreases |steps|
  {
    if steps != [] {
      StepKeeps(s, steps[0], free);
      StepKeepsPlaces(s, steps[0], free);
      RunKeepsPlaces(Next(s, steps[0], free), steps[1..], free);
    }
  }

  // ----- a commit is an atomic create -----

  /**
   * At its commit an interleaved create does exactly what the whole create
   * would do at that instant, if and only if its parent is not archived then
   * and the position it picked is still the next one: neither archiving nor
   * moving takes the workspace lock.
   */
  lemma CommitIsCreateExactly(s: System, tx: TxId, free: set<Id>)
    requires Inv(s, free) && tx in s.txns && s.txns[tx].stage.Inserted?
    ensures var txn := s.txns[tx];
            DocumentTable.Create(s.table, txn.w, txn.id, txn.parent, Limit(free, txn.w)) == Ok(Advanced(s, tx, free).table)
            <==> && (txn.parent.Some? ==> !s.table[txn.parent.value].Archived())
                 && txn.stage.row.position == NextPosition(s.table, txn.w, txn.parent)
  {
    var txn := s.txns[tx];
    assert TxnInv(s.table, txn, free);
    var next := NewRow(txn, NextPosition(s.table, txn.w, txn.parent));
    assert s.table[txn.id := next][txn.id] == next;
    assert s.table[txn.id := txn.stage.row][txn.id] == txn.stage.row;
  }

  /**
   * An interleaved create is rolled back at its count, or at the check of its
   * parent, exactly when the whole create would be refused for that at that instant.
   */
  lemma RolledBackExactly(s: System, tx: TxId, free: set<Id>)
    requires Inv(s, free) && tx in s.txns && (s.txns[tx].stage.Locked? || s.txns[tx].stage.Counted?)
    ensures var txn := s.txns[tx];
            var whole := DocumentTable.Create(s.table, txn.w, txn.id, txn.parent, Limit(free, txn.w));
            tx !in Advanced(s, tx, free).txns <==> if txn.stage.Locked? then whole == Err(LimitExceeded) else whole.Err?
  {
    assert TxnInv(s.table, s.txns[tx], free);
  }

  /** On a FREE workspace the count refuses exactly from 50 active documents on, and nowhere else. */
  lemma LimitRefusesExactly(s: System, tx: TxId, free: set<Id>)
    requires Inv(s, free) && tx in s.txns && s.txns[tx].stage.Locked?
    ensures tx !in Advanced(s, tx, free).txns <==>
            s.txns[tx].w in free && |ActiveIds(s.table, s.txns[tx].w)| >= 50
  {
  }

  /** Exactly with an archived parent it leaves an active document under one. */
  lemma CommitKeepsArchiveClosedExactly(s: System, tx: TxId, free: set<Id>)
    requires Inv(s, free) && ArchiveClosed(s.table) && tx in s.txns && s.txns[tx].stage.Inserted?
    ensures var parent := s.txns[tx].parent;
            ArchiveClosed(Advanced(s, tx, free).table) <==> (parent.Some? ==> !s.table[parent.value].Archived())
  {
    var txn := s.txns[tx];
    var t' := Advanced(s, tx, free).table;
    assert TxnInv(s.table, txn, free);
    assert t'[txn.id] == txn.stage.row && !t'[txn.id].Archived();
    if txn.parent.Some? && s.table[txn.parent.value].Archived() {
      assert UnderArchived(t', txn.id);
    } else {
      forall x | x in t' && UnderArchived(t', x) ensures t'[x].Archived() {
        assert x != txn.id && UnderArchived(s.table, x);
      }
    }
  }
}
