/**
  The two-person backup restore workflow.  A request is one row; approving locks the
  row for a transaction, the other actions are single conditional UPDATEs, and Reject
  and Cancel look at the row again, in a later statement, to explain why nothing
  matched.
*/
module RestoreWorkflow {
  import opened Common

  datatype Status = Pending | Approved | Rejected | Fulfilled | Cancelled

  datatype Row = Row(requester: int, status: Status, approval1: Option<int>, approval2: Option<int>)

  datatype Failure =
    | InvalidFields | InvalidActor | NotFound | InvalidState
    | CannotApprove | DuplicateSlot | AlreadyFilled | NotRequester

  datatype Action =
    | Create(who: int, scope: string, point: string, reason: string)
    | Approve(id: int, who: int)
    | Reject(id: int, who: int)
    | Cancel(id: int, who: int)
    | Fulfill(id: int, who: int)

  datatype Kind = Creation | Approval | Rejection | Cancellation | Fulfilment

  /** One successful action. */
  datatype Entry = Entry(id: int, who: int, kind: Kind)

  /** The rows, numbered from 1 in the order of insertion, and what was done to them. */
  datatype Store = Store(rows: seq<Row>, log: seq<Entry>)

  const EMPTY := Store([], [])

  predicate Has(rows: seq<Row>, id: int) { 1 <= id <= |rows| }

  function Get(rows: seq<Row>, id: int): Row
    requires Has(rows, id)
  {
    rows[id - 1]
  }

  // ----- One action -----

  /** The explanation Reject gives after reading the row again. */
  function WhyNotRejected(rows: seq<Row>, id: int, who: int): Failure {
    if !Has(rows, id) then NotFound else if Get(rows, id).requester == who then CannotApprove else InvalidState
  }

  /** The explanation Cancel gives after reading the row again. */
  function WhyNotCancelled(rows: seq<Row>, id: int, who: int): Failure {
    if !Has(rows, id) then NotFound else if Get(rows, id).requester != who then NotRequester else InvalidState
  }

  /** Why an action that runs alone fails, if it does. */
  function Verdict(rows: seq<Row>, a: Action): Option<Failure> {
    match a
    case Create(who, scope, point, reason) =>
      if who <= 0 || scope == "" || point == "" || reason == "" then Some(InvalidFields) else None
    case Approve(id, who) =>
      if who <= 0 then Some(InvalidActor)
      else if !Has(rows, id) then Some(NotFound)
      else
        var r := Get(rows, id);
        if r.status != Pending then Some(InvalidState)
        else if r.requester == who then Some(CannotApprove)
        else if r.approval1.None? then None
        else if r.approval1.value == who then Some(DuplicateSlot)
        else if r.approval2.None? then None
        else Some(AlreadyFilled)
    case Reject(id, who) =>
      if who <= 0 then Some(InvalidActor)
      else if Has(rows, id) && Get(rows, id).status == Pending && Get(rows, id).requester != who then None
      else Some(WhyNotRejected(rows, id, who))
    case Cancel(id, who) =>
      if Has(rows, id) && Get(rows, id).status == Pending && Get(rows, id).requester == who then None
      else Some(WhyNotCancelled(rows, id, who))
    case Fulfill(id, _) =>
      if Has(rows, id) && Get(rows, id).status == Approved then None else Some(InvalidState)
  }

  /** The row that a successful action leaves behind. */
  function Changed(r: Row, a: Action): Row {
    match a
    case Create(_, _, _, _) => r
    case Approve(_, who) =>
      if r.approval1.None? then r.(approval1 := Some(who)) else r.(approval2 := Some(who), status := Approved)
    case Reject(_, _) => r.(status := Rejected)
    case Cancel(_, _) => r.(status := Cancelled)
    case Fulfill(_, _) => r.(status := Fulfilled)
  }

  function KindOf(a: Action): Kind {
    match a
    case Create(_, _, _, _) => Creation
    case Approve(_, _) => Approval
    case Reject(_, _) => Rejection
    case Cancel(_, _) => Cancellation
    case Fulfill(_, _) => Fulfilment
  }

  function Step(s: Store, a: Action): Store {
    if Verdict(s.rows, a).Some? then s
    else if a.Create? then
      Store(s.rows + [Row(a.who, Pending, None, None)], s.log + [Entry(|s.rows| + 1, a.who, Creation)])
    else
      Store(s.rows[a.id - 1 := Changed(Get(s.rows, a.id), a)], s.log + [Entry(a.id, a.who, KindOf(a))])
  }

  function After(s: Store, run: seq<Action>): Store {
    if |run| == 0 then s else Step(After(s, run[..|run| - 1]), run[|run| - 1])
  }

  // ----- Two people approve, and the requester is neither -----

  /** What a row can look like, and what its history must then hold. */
  ghost predicate Sound(r: Row, id: int, log: seq<Entry>) {
    && Entry(id, r.requester, Creation) in log
    && (r.approval1.None? ==> r.approval2.None?)
    && (r.status == Pending ==> r.approval2.None?)
    && (r.status == Approved || r.status == Fulfilled ==> r.approval2.Some?)
    && (r.approval1.Some? ==> r.approval1.value != r.requester && Entry(id, r.approval1.value, Approval) in log)
    && (r.approval2.Some? ==>
          && r.approval2.value != r.requester
          && r.approval2 != r.approval1
          && Entry(id, r.approval2.value, Approval) in log)
    && (forall e :: e in log && e.id == id && (e.kind == Rejection || e.kind == Cancellation) ==>
          r.status == Rejected || r.status == Cancelled)
  }

  ghost predicate AllSound(s: Store) {
    && (forall id :: Has(s.rows, id) ==> Sound(Get(s.rows, id), id, s.log))
    && (forall e :: e in s.log ==> Has(s.rows, e.id))
  }

  lemma StepIsSound(s: Store, a: Action)
    requires AllSound(s)
    ensures AllSound(Step(s, a))
  {
    var s' := Step(s, a);
    if Verdict(s.rows, a).None? {
      var e' := s'.log[|s.log|];
      assert forall e :: e in s'.log <==> e in s.log || e == e';
      forall id | Has(s'.rows, id) ensures Sound(Get(s'.rows, id), id, s'.log) {
        if id != e'.id {
          assert Get(s'.rows, id) == Get(s.rows, id);
        } else if !a.Create? {
          assert Sound(Get(s.rows, id), id, s.log);
          assert e' in s'.log;
        } else {
          assert e' in s'.log;
        }
      }
    }
  }

  lemma {:induction false} EveryRunIsSound(run: seq<Action>)
    ensures AllSound(After(EMPTY, run))
  {
    if |run| > 0 {
      EveryRunIsSound(run[..|run| - 1]);
      StepIsSound(After(EMPTY, run[..|run| - 1]), run[|run| - 1]);
    }
  }

  /** Everyone who acted on a request, its requester included. */
  function People(log: seq<Entry>, id: int): set<int> {
    set e | e in log && e.id == id :: e.who
  }

  /** In every reachable state an approved or fulfilled row was approved by two users, neither the requester. */
  lemma ApprovedByTwoOthers(run: seq<Action>, id: int)
    requires Has(After(EMPTY, run).rows, id)
    requires Get(After(EMPTY, run).rows, id).status in {Approved, Fulfilled}
    ensures var r := Get(After(EMPTY, run).rows, id);
            && r.approval1.Some? && r.approval2.Some?
            && r.approval1 != r.approval2
            && r.approval1.value != r.requester && r.approval2.value != r.requester
  {
    EveryRunIsSound(run);
  }

  /** A fulfilled request has at least three people in its history, and no rejection or cancellation. */
  lemma FulfilledTookThreePeople(run: seq<Action>, id: int)
    requires Has(After(EMPTY, run).rows, id) && Get(After(EMPTY, run).rows, id).status == Fulfilled
    ensures |People(After(EMPTY, run).log, id)| >= 3
    ensures forall e :: e in After(EMPTY, run).log && e.id == id ==> e.kind != Rejection && e.kind != Cancellation
  {
    EveryRunIsSound(run);
    var s := After(EMPTY, run);
    var r, people := Get(s.rows, id), People(s.log, id);
    var three := {r.requester, r.approval1.value, r.approval2.value};
    forall x | x in three ensures x in people {
      assert Entry(id, r.requester, Creation).who in people;
      assert Entry(id, r.approval1.value, Approval).who in people;
      assert Entry(id, r.approval2.value, Approval).who in people;
    }
    assert people == three + (people - three);
    assert |people| == |three| + |people - three|;
  }

  /** From a request without approvals, two approvals in a row approve it exactly if they come from two other users. */
  lemma TwoOthersSuffice(s: Store, id: int, x: int, y: int)
    requires Has(s.rows, id) && Get(s.rows, id).status == Pending
    requires Get(s.rows, id).approval1 == None && Get(s.rows, id).approval2 == None
    ensures var s' := After(s, [Approve(id, x), Approve(id, y)]);
            Has(s'.rows, id) && Get(s'.rows, id).status == Approved
            <==> x > 0 && y > 0 && x != y && x != Get(s.rows, id).requester && y != Get(s.rows, id).requester
  {
    var run := [Approve(id, x), Approve(id, y)];
    assert run[..1] == [Approve(id, x)] && [Approve(id, x)][..0] == [];
    assert After(s, run[..1]) == Step(s, Approve(id, x));
  }

  /** The branch for a pending row whose two slots are already filled is never taken. */
  lemma NeverAlreadyFilled(run: seq<Action>, a: Action)
    ensures Verdict(After(EMPTY, run).rows, a) != Some(AlreadyFilled)
  {
    EveryRunIsSound(run);
    var s := After(EMPTY, run);
    if a.Approve? && Has(s.rows, a.id) {
      assert Sound(Get(s.rows, a.id), a.id, s.log);
    }
  }

  // ----- What the log tells about a row -----

  predicate Happened(log: seq<Entry>, id: int, kind: Kind) {
    exists k :: 0 <= k < |log| && log[k].id == id && log[k].kind == kind
  }

  /** Each status has its own kind of entry, and the row has it exactly if such an entry is in the log. */
  ghost predicate StatusTold(rows: seq<Row>, id: int, log: seq<Entry>)
    requires 1 <= id <= |rows|
  {
    var r := rows[id - 1];
    && (r.status == Rejected <==> Happened(log, id, Rejection))
    && (r.status == Cancelled <==> Happened(log, id, Cancellation))
    && (r.status == Fulfilled <==> Happened(log, id, Fulfilment))
    && (r.approval1.Some? <==> Happened(log, id, Approval))
  }

  /** Who may do what: the requester creates and cancels, others approve and reject. */
  predicate Entitled(rows: seq<Row>, e: Entry) {
    && 1 <= e.id <= |rows|
    && match e.kind
       case Creation => e.who > 0 && e.who == rows[e.id - 1].requester
       case Cancellation => e.who == rows[e.id - 1].requester
       case Rejection => e.who > 0 && e.who != rows[e.id - 1].requester
       case Approval => && e.who > 0 && e.who != rows[e.id - 1].requester
                        && (rows[e.id - 1].approval1 == Some(e.who) || rows[e.id - 1].approval2 == Some(e.who))
       case Fulfilment => true
  }

  ghost predicate AllTold(s: Store) {
    && (forall id :: 1 <= id <= |s.rows| ==> StatusTold(s.rows, id, s.log))
    && (forall k :: 0 <= k < |s.log| ==> Entitled(s.rows, s.log[k]))
  }

  lemma OneMoreEntry(log: seq<Entry>, e: Entry, id: int, kind: Kind)
    ensures Happened(log + [e], id, kind) <==> Happened(log, id, kind) || (e.id == id && e.kind == kind)
  {
    var log' := log + [e];
    if k :| 0 <= k < |log| && log[k].id == id && log[k].kind == kind {
      assert log'[k].id == id && log'[k].kind == kind;
    }
    if e.id == id && e.kind == kind {
      assert log'[|log|].id == id;
    }
    if k :| 0 <= k < |log'| && log'[k].id == id && log'[k].kind == kind {
      assert k < |log| ==> log[k] == log'[k];
    }
  }

  lemma StatusStaysTold(s: Store, a: Action, id: int)
    requires AllTold(s) && Verdict(s.rows, a).None? && 1 <= id <= |Step(s, a).rows|
    ensures StatusTold(Step(s, a).rows, id, Step(s, a).log)
  {
    var s' := Step(s, a);
    var e := s'.log[|s.log|];
    assert s'.log == s.log + [e];
    OneMoreEntry(s.log, e, id, Rejection);
    OneMoreEntry(s.log, e, id, Cancellation);
    OneMoreEntry(s.log, e, id, Fulfilment);
    OneMoreEntry(s.log, e, id, Approval);
    if id <= |s.rows| {
      assert StatusTold(s.rows, id, s.log);
    } else {
    }
    hide Happened;
  }

  lemma StepIsTold(s: Store, a: Action)
    requires AllTold(s) && AllSound(s)
    ensures AllTold(Step(s, a))
  {
    var s' := Step(s, a);
    if Verdict(s.rows, a).None? {
      forall id | 1 <= id <= |s'.rows| ensures StatusTold(s'.rows, id, s'.log) {
        StatusStaysTold(s, a, id);
      }
      forall k | 0 <= k < |s'.log| ensures Entitled(s'.rows, s'.log[k]) {
        if k < |s.log| {
          assert s'.log[k] == s.log[k] && Entitled(s.rows, s.log[k]);
          assert Sound(Get(s.rows, s.log[k].id), s.log[k].id, s.log);
        }
      }
    }
  }

  lemma {:induction false} EveryRunIsTold(run: seq<Action>)
    ensures AllTold(After(EMPTY, run))
  {
    if |run| > 0 {
      EveryRunIsTold(run[..|run| - 1]);
      EveryRunIsSound(run[..|run| - 1]);
      StepIsTold(After(EMPTY, run[..|run| - 1]), run[|run| - 1]);
    }
  }

  /** In every run only the requester cancels, and only valid users other than the requester approve and reject. */
  lemma EveryoneWasEntitled(run: seq<Action>, k: nat)
    requires k < |After(EMPTY, run).log|
    ensures Entitled(After(EMPTY, run).rows, After(EMPTY, run).log[k])
  {
    EveryRunIsTold(run);
  }

  /** In every run a row is rejected, cancelled or fulfilled exactly if the log says so. */
  lemma StatusIsToldByTheLog(run: seq<Action>, id: int)
    requires 1 <= id <= |After(EMPTY, run).rows|
    ensures StatusTold(After(EMPTY, run).rows, id, After(EMPTY, run).log)
  {
    EveryRunIsTold(run);
  }

  // ----- Every success is progress -----

  function Rank(r: Row): nat {
    match r.status
    case Pending => if r.approval1.None? then 3 else 2
    case Approved => 1
    case _ => 0
  }

  /** How many successful actions, its creation apart, a request has seen. */
  function Actions(log: seq<Entry>, id: int): nat {
    if |log| == 0 then 0
    else
      var e := log[|log| - 1];
      Actions(log[..|log| - 1], id) + if e.id == id && e.kind != Creation then 1 else 0
  }

  /** A failed action changes nothing; a successful one adds a row or moves exactly one, lowering its rank. */
  lemma EveryActionIsProgress(s: Store, a: Action)
    ensures var s' := Step(s, a);
            && (Verdict(s.rows, a).Some? ==> s' == s)
            && (Verdict(s.rows, a).None? && a.Create? ==> s'.rows[..|s.rows|] == s.rows && |s'.rows| == |s.rows| + 1)
            && (Verdict(s.rows, a).None? && !a.Create? ==>
                  && Has(s.rows, a.id) && |s'.rows| == |s.rows|
                  && Rank(Get(s'.rows, a.id)) < Rank(Get(s.rows, a.id))
                  && forall id :: Has(s.rows, id) && id != a.id ==> Get(s'.rows, id) == Get(s.rows, id))
  {
  }

  lemma {:induction false} NoActionsOnLaterIds(log: seq<Entry>, id: int)
    requires forall e :: e in log ==> e.id < id
    ensures Actions(log, id) == 0
  {
    if |log| > 0 {
      assert log[|log| - 1] in log;
      assert forall e :: e in log[..|log| - 1] ==> e in log;
      NoActionsOnLaterIds(log[..|log| - 1], id);
    }
  }

  /** A request sees at most three successful actions: the rank bounds those still to come. */
  lemma {:induction false} AtMostThreeActions(run: seq<Action>, id: int)
    requires Has(After(EMPTY, run).rows, id)
    ensures Actions(After(EMPTY, run).log, id) + Rank(Get(After(EMPTY, run).rows, id)) <= 3
  {
    if |run| > 0 {
      var before, a := run[..|run| - 1], run[|run| - 1];
      var s, s' := After(EMPTY, before), After(EMPTY, run);
      EveryRunIsSound(before);
      EveryActionIsProgress(s, a);
      if Has(s.rows, id) {
        AtMostThreeActions(before, id);
      } else {
        NoActionsOnLaterIds(s.log, id);
      }
      if s' != s {
        assert s'.log[..|s.log|] == s.log;
      }
    }
  }

  // ----- Explanations stay true -----

  /** What an explanation claims about the table. */
  predicate IsTrue(f: Failure, rows: seq<Row>, id: int, who: int) {
    match f
    case NotFound => !Has(rows, id)
    case InvalidState => Has(rows, id) && Get(rows, id).status != Pending
    case CannotApprove => Has(rows, id) && Get(rows, id).requester == who
    case NotRequester => Has(rows, id) && Get(rows, id).requester != who
    case _ => false
  }

  /** Rows keep their requester, and never become pending again. */
  lemma {:induction false} RowsOnlyMoveOn(s: Store, run: seq<Action>, id: int)
    requires Has(s.rows, id)
    ensures var s' := After(s, run);
            && Has(s'.rows, id)
            && Get(s'.rows, id).requester == Get(s.rows, id).requester
            && (Get(s.rows, id).status != Pending ==> Get(s'.rows, id).status != Pending)
  {
    if |run| > 0 {
      RowsOnlyMoveOn(s, run[..|run| - 1], id);
    }
  }

  /**
    Reject and Cancel explain a failed UPDATE by a later read, with other actions in
    between.  The explanation is true both when the UPDATE ran and when the row was
    read, unless the row was inserted in between.
  */
  lemma {:induction false} ExplanationsAreTrueThroughout(s: Store, between: seq<Action>, a: Action)
    requires a.Reject? || a.Cancel?
    requires Verdict(s.rows, a).Some? && Verdict(s.rows, a) != Some(InvalidActor)
    ensures var later := After(s, between).rows;
            var f := if a.Reject? then WhyNotRejected(later, a.id, a.who) else WhyNotCancelled(later, a.id, a.who);
            IsTrue(f, s.rows, a.id, a.who) && IsTrue(f, later, a.id, a.who)
            <==> (Has(later, a.id) ==> Has(s.rows, a.id))
  {
    if Has(s.rows, a.id) {
      RowsOnlyMoveOn(s, between, a.id);
    }
  }

  // ----- Counts per status -----

  function CountOf(rows: seq<Row>, st: Status): nat {
    if |rows| == 0 then 0 else CountOf(rows[..|rows| - 1], st) + if rows[|rows| - 1].status == st then 1 else 0
  }

  function Creations(log: seq<Entry>): nat {
    if |log| == 0 then 0 else Creations(log[..|log| - 1]) + if log[|log| - 1].kind == Creation then 1 else 0
  }

  function Total(rows: seq<Row>): nat {
    CountOf(rows, Pending) + CountOf(rows, Approved) + CountOf(rows, Rejected)
    + CountOf(rows, Fulfilled) + CountOf(rows, Cancelled)
  }

  lemma {:induction false} TotalIsLength(rows: seq<Row>)
    ensures Total(rows) == |rows|
  {
    if |rows| > 0 {
      TotalIsLength(rows[..|rows| - 1]);
    }
  }

  lemma {:induction false} CountAfterUpdate(rows: seq<Row>, k: nat, r: Row, st: Status)
    requires k < |rows|
    ensures CountOf(rows[k := r], st) + (if rows[k].status == st then 1 else 0)
            == CountOf(rows, st) + if r.status == st then 1 else 0
  {
    var n := |rows| - 1;
    if k < n {
      assert rows[k := r][..n] == rows[..n][k := r];
      CountAfterUpdate(rows[..n], k, r, st);
    } else {
      assert rows[k := r][..n] == rows[..n];
    }
  }

  /** The counts of all statuses add up to the requests created, in every reachable state. */
  lemma {:induction false} CountsAddUp(run: seq<Action>)
    ensures Total(After(EMPTY, run).rows) == Creations(After(EMPTY, run).log) == |After(EMPTY, run).rows|
  {
    hide CountOf, Changed;
    TotalIsLength(After(EMPTY, run).rows);
    if |run| > 0 {
      var s, s' := After(EMPTY, run[..|run| - 1]), After(EMPTY, run);
      CountsAddUp(run[..|run| - 1]);
      if s' != s {
        assert s'.log[..|s.log|] == s.log;
      }
    }
  }

  /** A success either fills a slot or moves one row from its status to another: no other count changes. */
  lemma SuccessMovesOneRow(s: Store, a: Action, st: Status)
    requires !a.Create? && Verdict(s.rows, a).None?
    ensures var was, now := Get(s.rows, a.id).status, Get(Step(s, a).rows, a.id).status;
            CountOf(Step(s, a).rows, st) ==
            CountOf(s.rows, st) - (if was == st then 1 else 0) + (if now == st then 1 else 0)
  {
    CountAfterUpdate(s.rows, a.id - 1, Changed(Get(s.rows, a.id), a), st);
  }

  // ----- The store as it runs -----

  class RestoreStore {
    var rows: seq<Row>
    ghost var log: seq<Entry>

    constructor ()
      ensures State() == EMPTY
    {
      rows, log := [], [];
    }

    ghost function State(): Store
      reads this
    {
      Store(rows, log)
    }

    method CreateRequest(who: int, scope: string, point: string, reason: string) returns (r: Result<int, Failure>)
      modifies this
      ensures var a := Create(who, scope, point, reason);
              && State() == Step(old(State()), a)
              && r == match Verdict(old(rows), a) { case None => Ok(|old(rows)| + 1) case Some(f) => Err(f) }
      ensures if who > 0 && scope != "" && point != "" && reason != ""
              then r == Ok(|old(rows)| + 1) && rows == old(rows) + [Row(who, Pending, None, None)]
              else r == Err(InvalidFields) && rows == old(rows)
    {
      if who <= 0 || scope == "" || point == "" || reason == "" {
        return Err(InvalidFields);
      }
      rows := rows + [Row(who, Pending, None, None)];
      log := log + [Entry(|rows|, who, Creation)];
      return Ok(|rows|);
    }

    /** One transaction that holds the row from its SELECT ... FOR UPDATE on. */
    method ApproveRequest(id: int, who: int) returns (f: Option<Failure>)
      modifies this
      ensures f == Verdict(old(rows), Approve(id, who)) && State() == Step(old(State()), Approve(id, who))
      ensures f == if who <= 0 then Some(InvalidActor)
                   else if !(1 <= id <= |old(rows)|) then Some(NotFound)
                   else if old(rows)[id - 1].status != Pending then Some(InvalidState)
                   else if old(rows)[id - 1].requester == who then Some(CannotApprove)
                   else if old(rows)[id - 1].approval1 == Some(who) then Some(DuplicateSlot)
                   else if old(rows)[id - 1].approval1.Some? && old(rows)[id - 1].approval2.Some? then
                     Some(AlreadyFilled)
                   else None
      ensures rows == if f.Some? then old(rows)
                      else if old(rows)[id - 1].approval1.None? then
                        old(rows)[id - 1 := old(rows)[id - 1].(approval1 := Some(who))]
                      else
                        old(rows)[id - 1 := old(rows)[id - 1].(approval2 := Some(who), status := Approved)]
    {
      if who <= 0 {
        return Some(InvalidActor);
      }
      if !(1 <= id <= |rows|) {
        return Some(NotFound);
      }
      var row := rows[id - 1];
      if row.status != Pending {
        return Some(InvalidState);
      }
      if row.requester == who {
        return Some(CannotApprove);
      }
      if row.approval1.None? {
        rows := rows[id - 1 := row.(approval1 := Some(who))];
      } else if row.approval1.value == who {
        return Some(DuplicateSlot);
      } else if row.approval2.None? {
        rows := rows[id - 1 := row.(approval2 := Some(who), status := Approved)];
      } else {
        return Some(AlreadyFilled);
      }
      log := log + [Entry(id, who, Approval)];
      return None;
    }

    /** The conditional UPDATE of Reject; it reports how many rows matched. */
    method RejectUpdate(id: int, who: int) returns (affected: nat)
      requires who > 0
      modifies this
      ensures affected == (if Verdict(old(rows), Reject(id, who)).None? then 1 else 0)
      ensures State() == Step(old(State()), Reject(id, who))
      ensures affected <= 1
      ensures affected == 1 <==> && 1 <= id <= |old(rows)| && old(rows)[id - 1].status == Pending
                                 && old(rows)[id - 1].requester != who
      ensures rows == if affected == 1 then old(rows)[id - 1 := old(rows)[id - 1].(status := Rejected)] else old(rows)
    {
      if 1 <= id <= |rows| && rows[id - 1].status == Pending && rows[id - 1].requester != who {
        rows := rows[id - 1 := rows[id - 1].(status := Rejected)];
        log := log + [Entry(id, who, Rejection)];
        return 1;
      }
      return 0;
    }

    /** The later read that explains a Reject which matched nothing. */
    method ExplainReject(id: int, who: int) returns (f: Failure)
      ensures f == WhyNotRejected(rows, id, who)
      ensures match f
              case NotFound => !(1 <= id <= |rows|)
              case CannotApprove => 1 <= id <= |rows| && rows[id - 1].requester == who
              case InvalidState => 1 <= id <= |rows| && rows[id - 1].requester != who
              case _ => false
    {
      if !(1 <= id <= |rows|) {
        return NotFound;
      }
      if rows[id - 1].requester == who {
        return CannotApprove;
      }
      return InvalidState;
    }

    method RejectRequest(id: int, who: int) returns (f: Option<Failure>)
      modifies this
      ensures f == Verdict(old(rows), Reject(id, who)) && State() == Step(old(State()), Reject(id, who))
    {
      if who <= 0 {
        return Some(InvalidActor);
      }
      var n := RejectUpdate(id, who);
      if n == 0 {
        var why := ExplainReject(id, who);
        return Some(why);
      }
      return None;
    }

    method CancelUpdate(id: int, who: int) returns (affected: nat)
      modifies this
      ensures affected == (if Verdict(old(rows), Cancel(id, who)).None? then 1 else 0)
      ensures State() == Step(old(State()), Cancel(id, who))
      ensures affected <= 1
      ensures affected == 1 <==> && 1 <= id <= |old(rows)| && old(rows)[id - 1].status == Pending
                                 && old(rows)[id - 1].requester == who
      ensures rows == if affected == 1 then old(rows)[id - 1 := old(rows)[id - 1].(status := Cancelled)] else old(rows)
    {
      if 1 <= id <= |rows| && rows[id - 1].status == Pending && rows[id - 1].requester == who {
        rows := rows[id - 1 := rows[id - 1].(status := Cancelled)];
        log := log + [Entry(id, who, Cancellation)];
        return 1;
      }
      return 0;
    }

    method ExplainCancel(id: int, who: int) returns (f: Failure)
      ensures f == WhyNotCancelled(rows, id, who)
      ensures match f
              case NotFound => !(1 <= id <= |rows|)
              case NotRequester => 1 <= id <= |rows| && rows[id - 1].requester != who
              case InvalidState => 1 <= id <= |rows| && rows[id - 1].requester == who
              case _ => false
    {
      if !(1 <= id <= |rows|) {
        return NotFound;
      }
      if rows[id - 1].requester != who {
        return NotRequester;
      }
      return InvalidState;
    }

    method CancelRequest(id: int, who: int) returns (f: Option<Failure>)
      modifies this
      ensures f == Verdict(old(rows), Cancel(id, who)) && State() == Step(old(State()), Cancel(id, who))
    {
      var n := CancelUpdate(id, who);
      if n == 0 {
        var why := ExplainCancel(id, who);
        return Some(why);
      }
      return None;
    }

    method FulfillRequest(id: int, who: int) returns (f: Option<Failure>)
      modifies this
      ensures f == Verdict(old(rows), Fulfill(id, who)) && State() == Step(old(State()), Fulfill(id, who))
      ensures f == if 1 <= id <= |old(rows)| && old(rows)[id - 1].status == Approved then None else Some(InvalidState)
      ensures rows == if f.None? then old(rows)[id - 1 := old(rows)[id - 1].(status := Fulfilled)] else old(rows)
    {
      if 1 <= id <= |rows| && rows[id - 1].status == Approved {
        rows := rows[id - 1 := rows[id - 1].(status := Fulfilled)];
        log := log + [Entry(id, who, Fulfilment)];
        return None;
      }
      return Some(InvalidState);
    }

    /** The status counts; a status without rows has no entry. */
    method StatusCounts() returns (counts: map<Status, nat>)
      ensures forall st :: st in counts <==> CountOf(rows, st) > 0
      ensures forall st :: st in counts ==> counts[st] == CountOf(rows, st)
    {
      counts := map[];
      for k := 0 to |rows|
        invariant forall st :: st in counts <==> CountOf(rows[..k], st) > 0
        invariant forall st :: st in counts ==> counts[st] == CountOf(rows[..k], st)
      {
        assert rows[..k + 1][..k] == rows[..k];
        var st := rows[k].status;
        counts := counts[st := if st in counts then counts[st] + 1 else 1];
      }
      assert rows[..|rows|] == rows;
    }
  }
}
