/** `Transactional.Do` of tx/transaction.go over a state passed along, and the adding of a peer as
    such a transaction. */
module Transactions {
  import opened Tries
  import Nets
  import opened Allocators
  import opened LeaseRuns
  import opened Requests
  import opened Systems

  /** How an action ends: a panic is an end of its own. */
  datatype End<+E> = Fine | Failed(error: E) | Panicked

  datatype Transactional<!S, !E> = Transactional(
    commit: Option<S -> (S, Option<E>)>,
    action: S -> (S, End<E>),
    rollback: Option<S -> (S, Option<E>)>)

  /** What `Do` returns, or that it panics. */
  datatype Report<+E> = Success | Error(error: E) | RollbackError(rollbackErr: E, cause: E) | Panic

  function Cancel<S, E>(t: Transactional<S, E>, s: S, cause: E): (S, Report<E>) {
    match t.rollback
    case None => (s, Error(cause))
    case Some(rollback) =>
      match rollback(s)
      case (u, None) => (u, Error(cause))
      case (u, Some(e)) => (u, RollbackError(e, cause))
  }

  function Do<S, E>(t: Transactional<S, E>, s: S): (S, Report<E>) {
    match t.action(s)
    case (u, Panicked) => (if t.rollback.Some? then t.rollback.value(u).0 else u, Panic)
    case (u, Failed(e)) => Cancel(t, u, e)
    case (u, Fine) =>
      match t.commit
      case None => (u, Success)
      case Some(commit) =>
        match commit(u)
        case (v, None) => (v, Success)
        case (v, Some(e)) => Cancel(t, v, e)
  }

  /** The state in which the rollback finds a transaction that fails, or else the one it ends in. */
  function Reached<S, E>(t: Transactional<S, E>, s: S): S {
    var (u, end) := t.action(s);
    if end.Fine? && t.commit.Some? then t.commit.value(u).0 else u
  }

  predicate Fails<S, E>(t: Transactional<S, E>, s: S) {
    var (u, end) := t.action(s);
    !end.Fine? || (t.commit.Some? && t.commit.value(u).1.Some?)
  }

  /** If the transaction fails on the way from `s`, its rollback leads to a state that `same` accepts for `s`. */
  ghost predicate Undoes<S(!new), E(!new)>(t: Transactional<S, E>, s: S, same: (S, S) -> bool) {
    t.rollback.Some? && (Fails(t, s) ==> same(s, t.rollback.value(Reached(t, s)).0))
  }

  /** With such a rollback `Do` is all or nothing. It reports the cause of a failure, together with the
      rollback's own error if that has one. */
  lemma DoIsAtomic<S(!new), E(!new)>(t: Transactional<S, E>, s: S, same: (S, S) -> bool)
    requires Undoes(t, s, same)
    ensures Do(t, s).1.Success? <==> !Fails(t, s)
    ensures Fails(t, s) ==> same(s, Do(t, s).0)
    ensures Do(t, s).1.RollbackError? <==>
              Fails(t, s) && !t.action(s).1.Panicked? && t.rollback.value(Reached(t, s)).1.Some?
  {
  }

  /** Without a rollback the state stays as the failure left it, and its cause is reported. */
  lemma DoWithoutRollback<S(!new), E(!new)>(t: Transactional<S, E>, s: S)
    requires t.rollback.None?
    ensures Do(t, s).0 == Reached(t, s)
    ensures t.action(s).1.Failed? ==> Do(t, s).1 == Error(t.action(s).1.error)
    ensures t.action(s).1.Panicked? ==> Do(t, s).1 == Panic
    ensures t.action(s).1.Fine? && t.commit.Some? && t.commit.value(t.action(s).0).1.Some? ==>
              Do(t, s).1 == Error(t.commit.value(t.action(s).0).1.value)
    ensures !Fails(t, s) ==> Do(t, s).1 == Success
  {
  }

  // ---------- Adding a peer ----------

  datatype Cause = Tree(error: Nets.Error) | Database | TxDone

  /** The system, and what action, commit and rollback share: the tables at the start of the database
      transaction, once there is one, the trees the entries were reserved in, and whether the database
      transaction is over. */
  datatype Shared = Shared(y: System, snapshot: Option<Db>, taken: seq<Option<nat>>, done: bool)

  /** The action of `apiAddPeer`: the peer, its reservations, and its rows up to the one that fails. With
      commit and rollback it is proved below to take the step `StorePeer`. */
  function PeerAction(s: Shared, reqs: seq<Row>, fault: Fault): (Shared, End<Cause>) {
    if fault.AtBegin? then (s, Failed(Database))
    else
      var begun := s.(snapshot := Some(s.y.db));
      if fault.AtPeer? then (begun, Failed(Database))
      else
        var peer, db := Some(s.y.db.nextPeer), AddPeerRow(s.y.db);
        var (u, taken, e) := ReserveList(s.y.trees, reqs);
        var stored := if fault.AtRow? && fault.k < |reqs| then reqs[..fault.k] else reqs;
        if e.Some? then (begun.(y := System(u, db), taken := taken), Failed(Tree(e.value)))
        else (begun.(y := System(u, AddRows(db, peer, stored)), taken := taken),
              if !Stops(fault, |reqs|) || fault.AtCommit? then Fine
              else if fault.Panics? then Panicked else Failed(Database))
  }

  /** Its rollback: the tables as they were, and the entries deleted in list order. */
  function PeerRollback(s: Shared, reqs: seq<Row>): Shared {
    s.(y := System(if |s.taken| == |reqs| then Rollback(s.y.trees, reqs, s.taken) else s.y.trees,
                   if s.snapshot.Some? then s.snapshot.value else s.y.db))
  }

  /** A database transaction that was committed, if in vain, cannot be rolled back any more. */
  function RollbackCause(s: Shared): Option<Cause> {
    if s.done then Some(TxDone) else None
  }

  function PeerTx(reqs: seq<Row>, fault: Fault): Transactional<Shared, Cause> {
    Transactional(
      Some((s: Shared) => (s.(done := true), if fault.AtCommit? then Some(Database) else None)),
      (s: Shared) => PeerAction(s, reqs, fault),
      Some((s: Shared) => (PeerRollback(s, reqs), RollbackCause(s))))
  }

  function SameSystem(s: Shared, u: Shared): bool {
    s.y == u.y
  }

  function Start(y: System): Shared {
    Shared(y, None, [], false)
  }

  /** What the request reports. */
  function PeerReport(y: System, reqs: seq<Row>, fault: Fault): Report<Cause> {
    var e := ReserveList(y.trees, reqs).2;
    if Early(fault) then Error(Database)
    else if e.Some? then Error(Tree(e.value))
    else if !Stops(fault, |reqs|) then Success
    else if fault.Panics? then Panic
    else if fault.AtCommit? then RollbackError(TxDone, Database)
    else Error(Database)
  }

  /** The rollback undoes the action wherever it fails. */
  lemma PeerUndoes(y: System, reqs: seq<Row>, fault: Fault)
    requires Agree(y) && ValidRows(reqs) && reqs != []
    ensures Undoes(PeerTx(reqs, fault), Start(y), SameSystem)
  {
    InvIff(y.trees);
    RollbackRestores(y.trees, reqs);
  }

  /** Adding a peer, run as a transaction, takes the step of the system and reports what failed first;
      and unless it succeeds nothing has changed. */
  lemma AddPeerIsTransaction(y: System, reqs: seq<Row>, fault: Fault)
    requires Agree(y) && ValidRows(reqs) && reqs != []
    ensures Do(PeerTx(reqs, fault), Start(y)).0.y == StorePeer(y, reqs, fault)
    ensures Do(PeerTx(reqs, fault), Start(y)).1 == PeerReport(y, reqs, fault)
    ensures PeerReport(y, reqs, fault) != Success ==> Do(PeerTx(reqs, fault), Start(y)).0.y == y
  {
    var t := PeerTx(reqs, fault);
    PeerUndoes(y, reqs, fault);
    DoIsAtomic(t, Start(y), SameSystem);
    StorePeerAtomic(y, reqs, fault);
    assert t.action(Start(y)) == PeerAction(Start(y), reqs, fault);
    if PeerReport(y, reqs, fault) == Success {
      StorePeerAdds(y, reqs, fault);
    }
  }

  /** What the report says: where the request failed, and what made it fail. */
  lemma PeerReports(y: System, reqs: seq<Row>, fault: Fault)
    requires Loose(y.trees) && ValidRows(reqs)
    ensures var r := PeerReport(y, reqs, fault);
            && (fault in {AtBegin, AtPeer} ==> r == Error(Database))
            && (forall i :: fault !in {AtBegin, AtPeer} && FirstBad(y.trees, reqs, i) ==>
                  r == Error(Tree(if Housed(y.trees, reqs[i].prefix) then Nets.ErrOverlaps else Nets.ErrOutOfNet)))
            && (Placeable(y.trees, reqs) ==>
                  && (fault == AtWg || (fault.AtRow? && fault.k < |reqs|) ==> r == Error(Database))
                  && (fault == AtCommit ==> r == RollbackError(TxDone, Database))
                  && (fault == Panics ==> r == Panic)
                  && (fault == NoFault || (fault.AtRow? && fault.k >= |reqs|) ==> r == Success))
  {
    ListErrors(y.trees, reqs);
    ListOkIff(y.trees, reqs);
  }
}
