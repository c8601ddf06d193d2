/** Many processes running election attempts against one `active_node` table with raft disabled.

    A health tick starts an attempt in its own goroutine, so attempts of one process may overlap, and
    the answer of an attempt may be stored in the process's `isElectedNode` flag arbitrarily late. Each
    answer therefore carries the database second at which it was granted. */
module ElectionProtocol {
  import opened Faults
  import opened Wrappers
  import opened ActiveNode

  datatype Phase = AtInsert | AtTakeOver | AtReaffirm | Answered(elected: bool, at: int) | Stored

  datatype Tick = Tick(node: NodeId, phase: Phase)

  /** The `isElectedNode` flag of a process, with the second of the answer it was stored from. */
  datatype Belief = Belief(isElected: bool, at: int)

  datatype State = State(db: Db, ticks: map<nat, Tick>, beliefs: map<NodeId, Belief>)

  datatype Action =
    | ClockAdvances(seconds: nat)
    | TickBegins(id: nat, node: NodeId)
    | StatementRuns(id: nat, fault: Fault)
    | FlagStored(id: nat)

  /** The table may hold a row from an earlier life of the cluster. */
  ghost predicate Init(s: State) {
    LedgerInv(s.db) && s.ticks == map[] && s.beliefs == map[]
  }

  function StatementAt(phase: Phase): Option<Statement> {
    match phase
    case AtInsert => Some(InsertIgnore)
    case AtTakeOver => Some(TakeOver)
    case AtReaffirm => Some(Reaffirm)
    case _ => None
  }

  /** Where an attempt goes after its statement has been answered. */
  function NextPhase(phase: Phase, fault: Fault, changed: bool, now: int): Phase {
    if !fault.NoFault? then Answered(false, now)
    else if changed then Answered(true, now)
    else match phase
      case AtInsert => AtTakeOver
      case AtTakeOver => AtReaffirm
      case _ => Answered(false, now)
  }

  /** One step of the whole cluster. An action that does not fit the state changes nothing. */
  function Step(s: State, a: Action): State {
    match a
    case ClockAdvances(seconds) => s.(db := Apply(s.db, Advance(seconds)))
    case TickBegins(id, node) => if id in s.ticks then s else s.(ticks := s.ticks[id := Tick(node, AtInsert)])
    case StatementRuns(id, fault) =>
      if id !in s.ticks || StatementAt(s.ticks[id].phase).None? then s
      else
        var tick := s.ticks[id];
        var st := StatementAt(tick.phase).value;
        var changed := Changes(st, tick.node, s.db);
        s.(db := Apply(s.db, Execute(st, tick.node, fault)),
           ticks := s.ticks[id := tick.(phase := NextPhase(tick.phase, fault, changed, s.db.now))])
    case FlagStored(id) =>
      if id !in s.ticks || !s.ticks[id].phase.Answered? then s
      else
        var tick := s.ticks[id];
        s.(beliefs := s.beliefs[tick.node := Belief(tick.phase.elected, tick.phase.at)],
           ticks := s.ticks[id := tick.(phase := Stored)])
  }

  function Run(s: State, actions: seq<Action>): State {
    if actions == [] then s else Step(Run(s, actions[..|actions| - 1]), actions[|actions| - 1])
  }

  /** IsLeader() of a process with raft disabled. */
  predicate IsLeader(s: State, node: NodeId) {
    node in s.beliefs && s.beliefs[node].isElected
  }

  /** The process believes it is elected because of a success no older than the expiry interval. */
  predicate IsFreshLeader(s: State, node: NodeId) {
    IsLeader(s, node) && s.db.now - s.beliefs[node].at <= ACTIVE_NODE_EXPIRE_SECONDS
  }

  // ---------------------------------------------------------------------------------------------
  // The invariant of every run

  ghost predicate Inv(s: State) {
    && LedgerInv(s.db)
    && (forall id :: id in s.ticks && s.ticks[id].phase.Answered? && s.ticks[id].phase.elected
          ==> Granted(s.db.grants, s.ticks[id].node, s.ticks[id].phase.at))
    && (forall node :: IsLeader(s, node) ==> Granted(s.db.grants, node, s.beliefs[node].at))
  }

  lemma GrantedPersists(past: seq<Grant>, grown: seq<Grant>, node: NodeId, at: int)
    requires past <= grown && Granted(past, node, at)
    ensures Granted(grown, node, at)
  {
    var i :| 0 <= i < |past| && past[i].node == node && past[i].at == at;
    assert grown[i].node == node && grown[i].at == at;
  }

  /** Growing the history breaks none of the justifications already recorded. */
  lemma HistoryGrowthKeepsJustifications(s: State, db: Db)
    requires Inv(s) && s.db.grants <= db.grants && LedgerInv(db)
    ensures Inv(s.(db := db))
  {
    forall id | id in s.ticks && s.ticks[id].phase.Answered? && s.ticks[id].phase.elected
      ensures Granted(db.grants, s.ticks[id].node, s.ticks[id].phase.at)
    {
      GrantedPersists(s.db.grants, db.grants, s.ticks[id].node, s.ticks[id].phase.at);
    }
    forall node | IsLeader(s, node)
      ensures Granted(db.grants, node, s.beliefs[node].at)
    {
      GrantedPersists(s.db.grants, db.grants, node, s.beliefs[node].at);
    }
  }

  lemma StepKeepsInv(s: State, a: Action)
    requires Inv(s)
    ensures Inv(Step(s, a)) && s.db.grants <= Step(s, a).db.grants && s.db.now <= Step(s, a).db.now
  {
    match a
    case ClockAdvances(seconds) =>
      ApplyKeepsLedger(s.db, Advance(seconds));
      HistoryGrowthKeepsJustifications(s, Step(s, a).db);
    case StatementRuns(id, fault) =>
      if id in s.ticks && StatementAt(s.ticks[id].phase).Some? {
        var e := Execute(StatementAt(s.ticks[id].phase).value, s.ticks[id].node, fault);
        ApplyKeepsLedger(s.db, e);
        var db := Apply(s.db, e);
        HistoryGrowthKeepsJustifications(s, db);
        var phase := Step(s, a).ticks[id].phase;
        if phase.Answered? && phase.elected {
          assert db.grants[|db.grants| - 1] == Grant(e.node, e.st, s.db.now);
        }
      }
    case _ =>
  }

  lemma {:induction false} RunKeepsInv(s: State, actions: seq<Action>)
    requires Inv(s)
    ensures Inv(Run(s, actions)) && s.db.grants <= Run(s, actions).db.grants
  {
    if actions == [] {
    } else {
      RunKeepsInv(s, actions[..|actions| - 1]);
      StepKeepsInv(Run(s, actions[..|actions| - 1]), actions[|actions| - 1]);
    }
  }

  // ---------------------------------------------------------------------------------------------
  // Safety over every run

  /** In every run, two changes of the row by different nodes lie more than the expiry interval apart. */
  lemma HandoverGapInEveryRun(s: State, actions: seq<Action>, i: nat, j: nat)
    requires Init(s)
    requires i < j < |Run(s, actions).db.grants|
    requires Run(s, actions).db.grants[i].node != Run(s, actions).db.grants[j].node
    ensures Run(s, actions).db.grants[j].at > Run(s, actions).db.grants[i].at + 5
  {
    RunKeepsInv(s, actions);
    HandoverGap(Run(s, actions).db.grants, i, j);
  }

  /** Two nodes that both believe to be elected do so because of successes more than the expiry interval
      apart, in every reachable state and however late the flags were stored. */
  lemma BeliefsApart(s: State, actions: seq<Action>, a: NodeId, b: NodeId)
    requires Init(s) && a != b
    requires IsLeader(Run(s, actions), a) && IsLeader(Run(s, actions), b)
    ensures var t := Run(s, actions);
            t.beliefs[a].at > t.beliefs[b].at + ACTIVE_NODE_EXPIRE_SECONDS
            || t.beliefs[b].at > t.beliefs[a].at + ACTIVE_NODE_EXPIRE_SECONDS
  {
    RunKeepsInv(s, actions);
    var t := Run(s, actions);
    var i :| 0 <= i < |t.db.grants| && t.db.grants[i].node == a && t.db.grants[i].at == t.beliefs[a].at;
    var j :| 0 <= j < |t.db.grants| && t.db.grants[j].node == b && t.db.grants[j].at == t.beliefs[b].at;
    if i < j {
      HandoverGap(t.db.grants, i, j);
    } else {
      HandoverGap(t.db.grants, j, i);
    }
  }

  lemma {:induction false} GrantsNotInFuture(db: Db, i: nat)
    requires LedgerInv(db) && i < |db.grants|
    ensures db.grants[i].at <= db.now
  {
    if i < |db.grants| - 1 {
      GrantsStrictlyLater(db.grants, i, |db.grants| - 1);
    }
  }

  /** At most one node is a fresh leader. */
  lemma AtMostOneFreshLeader(s: State, actions: seq<Action>, a: NodeId, b: NodeId)
    requires Init(s)
    requires IsFreshLeader(Run(s, actions), a) && IsFreshLeader(Run(s, actions), b)
    ensures a == b
  {
    if a != b {
      RunKeepsInv(s, actions);
      BeliefsApart(s, actions, a, b);
      var t := Run(s, actions);
      var i :| 0 <= i < |t.db.grants| && t.db.grants[i].node == a && t.db.grants[i].at == t.beliefs[a].at;
      var j :| 0 <= j < |t.db.grants| && t.db.grants[j].node == b && t.db.grants[j].at == t.beliefs[b].at;
      GrantsNotInFuture(t.db, i);
      GrantsNotInFuture(t.db, j);
    }
  }

  /** Since `start`, when `h` held the lease, nobody else has been granted anything or has been told so. */
  ghost predicate OnlyHolder(start: State, t: State, h: NodeId) {
    && HeldBy(t.db, h) && start.db.row.Some? && start.db.row.value.lastSeen <= start.db.now && t.db.row.value.lastSeen >= start.db.row.value.lastSeen
    && start.db.grants <= t.db.grants && start.db.now <= t.db.now
    && (forall j :: |start.db.grants| <= j < |t.db.grants| ==> t.db.grants[j].node == h)
    && (forall id :: id in t.ticks && t.ticks[id].node != h && t.ticks[id].phase.Answered? && t.ticks[id].phase.elected
          ==> id in start.ticks && t.ticks[id] == start.ticks[id])
  }

  lemma StepKeepsOnlyHolder(start: State, t: State, h: NodeId, a: Action)
    requires OnlyHolder(start, t, h)
    requires Step(t, a).db.now <= start.db.row.value.lastSeen + ACTIVE_NODE_EXPIRE_SECONDS
    ensures OnlyHolder(start, Step(t, a), h)
  {
    assert start.db.grants <= Step(t, a).db.grants;
  }

  /** Over any run, with ticks of any nodes beginning and failing in it: until the expiry interval has passed since
      the holder was last seen, no other node changes the row and no attempt of another node comes to answer true. */
  lemma {:induction false} FreshHolderCannotBeOvertaken(s: State, actions: seq<Action>, h: NodeId)
    requires LedgerInv(s.db) && HeldBy(s.db, h)
    requires Run(s, actions).db.now <= s.db.row.value.lastSeen + ACTIVE_NODE_EXPIRE_SECONDS
    ensures OnlyHolder(s, Run(s, actions), h)
  {
    if actions != [] {
      var front := actions[..|actions| - 1];
      assert Run(s, front).db.now <= Run(s, actions).db.now;
      FreshHolderCannotBeOvertaken(s, front, h);
      StepKeepsOnlyHolder(s, Run(s, front), h, actions[|actions| - 1]);
    }
  }

  /** While each grant follows the previous one within the expiry interval, no other node is granted
      anything: over the part of any run from its `i`-th grant on. */
  lemma StableLeaderInEveryRun(s: State, actions: seq<Action>, i: nat)
    requires Init(s) && i < |Run(s, actions).db.grants|
    requires var g := Run(s, actions).db.grants;
             forall k :: i < k < |g| ==> g[k].at <= g[k - 1].at + ACTIVE_NODE_EXPIRE_SECONDS
    ensures var g := Run(s, actions).db.grants;
            forall j :: i <= j < |g| ==> g[j].node == g[i].node
  {
    RunKeepsInv(s, actions);
    var g := Run(s, actions).db.grants;
    forall j | i <= j < |g|
      ensures g[j].node == g[i].node
    {
      StableLeader(g, i, j);
    }
  }

  // ---------------------------------------------------------------------------------------------
  // The steps of a tick, with everything in between, are one election attempt

  /** What an action does to the table, as events of the table. */
  function EventOf(s: State, a: Action): seq<Event> {
    match a
    case ClockAdvances(seconds) => [Advance(seconds)]
    case StatementRuns(id, fault) =>
      if id !in s.ticks || StatementAt(s.ticks[id].phase).None? then []
      else [Execute(StatementAt(s.ticks[id].phase).value, s.ticks[id].node, fault)]
    case _ => []
  }

  function EventsOf(s: State, actions: seq<Action>): seq<Event> {
    if actions == [] then []
    else
      var front := actions[..|actions| - 1];
      EventsOf(s, front) + EventOf(Run(s, front), actions[|actions| - 1])
  }

  lemma ApplyAllExtends(db: Db, es: seq<Event>, more: seq<Event>)
    requires |more| <= 1
    ensures ApplyAll(db, es + more) == if more == [] then ApplyAll(db, es) else Apply(ApplyAll(db, es), more[0])
  {
    if more == [] {
      assert es + more == es;
    } else {
      assert (es + more)[..|es + more| - 1] == es;
    }
  }

  /** A run does to the table what its events do. */
  lemma {:induction false} RunIsEvents(s: State, actions: seq<Action>)
    ensures Run(s, actions).db == ApplyAll(s.db, EventsOf(s, actions))
  {
    if actions != [] {
      var front := actions[..|actions| - 1];
      RunIsEvents(s, front);
      ApplyAllExtends(s.db, EventsOf(s, front), EventOf(Run(s, front), actions[|actions| - 1]));
    }
  }

  predicate Touches(a: Action, id: nat) {
    (a.StatementRuns? || a.FlagStored?) && a.id == id
  }

  /** Other ticks leave a tick where it is. */
  lemma {:induction false} OthersKeepTick(s: State, actions: seq<Action>, id: nat)
    requires id in s.ticks && forall a :: a in actions ==> !Touches(a, id)
    ensures id in Run(s, actions).ticks && Run(s, actions).ticks[id] == s.ticks[id]
  {
    if actions != [] {
      assert actions[|actions| - 1] in actions;
      OthersKeepTick(s, actions[..|actions| - 1], id);
    }
  }

  /** Where an attempt goes when its next statement, if it has one left, finds the table `db`. */
  function PhaseAfter(phase: Phase, fault: Fault, me: NodeId, db: Db): Phase {
    if StatementAt(phase).None? then phase
    else NextPhase(phase, fault, Changes(StatementAt(phase).value, me, db), db.now)
  }

  lemma StatementMoves(s: State, id: nat, fault: Fault)
    requires id in s.ticks
    ensures var t := Step(s, StatementRuns(id, fault));
            var tick := s.ticks[id];
            && id in t.ticks && t.ticks[id] == tick.(phase := PhaseAfter(tick.phase, fault, tick.node, s.db))
            && (StatementAt(tick.phase).Some? ==> t.db == Apply(s.db, Execute(StatementAt(tick.phase).value, tick.node, fault)))
  {
  }

  /** Three statements suffice for an answer, and it is the one of the attempt. */
  lemma PhasesAnswer(db: Db, me: NodeId, x: Surroundings)
    ensures PhaseAfter(AtInsert, x.insertFault, me, db).Answered? ==>
              Apply(db, Execute(InsertIgnore, me, x.insertFault)) == AfterAttempt(db, me, x)
    ensures var p := PhaseAfter(AtInsert, x.insertFault, me, db);
            var q := PhaseAfter(p, x.takeOverFault, me, ActiveNode.AtTakeOver(db, me, x));
            var r := PhaseAfter(q, x.reaffirmFault, me, ActiveNode.AtReaffirm(db, me, x));
            && r.Answered? && (r.elected <==> Wins(db, me, x))
            && (p == AtTakeOver && q.Answered? ==>
                  Apply(ActiveNode.AtTakeOver(db, me, x), Execute(TakeOver, me, x.takeOverFault)) == AfterAttempt(db, me, x))
            && (q == AtReaffirm ==>
                  Apply(ActiveNode.AtReaffirm(db, me, x), Execute(Reaffirm, me, x.reaffirmFault)) == AfterAttempt(db, me, x))
  {
  }

  /** A tick whose statements run with anything at all in between answers what the attempt answers under these
      surroundings, and the statement that answers leaves the table as the attempt does. */
  lemma TickRefinesAttempt(s: State, id: nat, f: Fault, others: seq<Action>, g: Fault, others': seq<Action>, h: Fault)
    requires id in s.ticks && s.ticks[id].phase == AtInsert
    requires forall a :: a in others || a in others' ==> !Touches(a, id)
    ensures var first := Step(s, StatementRuns(id, f));
            var second := Step(Run(first, others), StatementRuns(id, g));
            var third := Step(Run(second, others'), StatementRuns(id, h));
            var me := s.ticks[id].node;
            var x := Surroundings(f, EventsOf(first, others), g, EventsOf(second, others'), h);
            && id in first.ticks && id in second.ticks && id in third.ticks && third.ticks[id].phase.Answered?
            && (third.ticks[id].phase.elected <==> Wins(s.db, me, x))
            && (if first.ticks[id].phase.Answered? then first.db
                else if second.ticks[id].phase.Answered? then second.db else third.db) == AfterAttempt(s.db, me, x)
  {
    var me := s.ticks[id].node;
    StatementMoves(s, id, f);
    var first := Step(s, StatementRuns(id, f));
    OthersKeepTick(first, others, id);
    StatementMoves(Run(first, others), id, g);
    var second := Step(Run(first, others), StatementRuns(id, g));
    OthersKeepTick(second, others', id);
    StatementMoves(Run(second, others'), id, h);
    var x := Surroundings(f, EventsOf(first, others), g, EventsOf(second, others'), h);
    RunIsEvents(first, others);
    RunIsEvents(second, others');
    PhasesAnswer(s.db, me, x);
  }

  /** Storing the answer of a tick raises or takes down the flag of its process accordingly, whatever it was before,
      and leaves the flags of all others alone. */
  lemma StoreSetsFlag(s: State, id: nat)
    requires id in s.ticks && s.ticks[id].phase.Answered?
    ensures var t := Step(s, FlagStored(id));
            var tick := s.ticks[id];
            && (IsLeader(t, tick.node) <==> tick.phase.elected)
            && (IsLeader(t, tick.node) ==> t.beliefs[tick.node].at == tick.phase.at)
            && t.db == s.db
            && forall n :: n != tick.node ==> (n in t.beliefs <==> n in s.beliefs) && (n in s.beliefs ==> t.beliefs[n] == s.beliefs[n])
  {
  }

  /** A whole tick, from its first statement to the store of its flag, with anything at all in between except other
      actions of this tick: afterwards its process believes to be elected if and only if the attempt answers true. */
  lemma WholeTickSetsFlag(s: State, id: nat, f: Fault, others: seq<Action>, g: Fault, others': seq<Action>, h: Fault,
                          last: seq<Action>)
    requires id in s.ticks && s.ticks[id].phase == AtInsert
    requires forall a :: a in others || a in others' || a in last ==> !Touches(a, id)
    ensures var first := Step(s, StatementRuns(id, f));
            var second := Step(Run(first, others), StatementRuns(id, g));
            var third := Step(Run(second, others'), StatementRuns(id, h));
            var before := Run(third, last);
            var after := Step(before, FlagStored(id));
            var me := s.ticks[id].node;
            && (IsLeader(after, me) <==> Wins(s.db, me, Surroundings(f, EventsOf(first, others), g, EventsOf(second, others'), h)))
            && forall n :: n != me ==> (IsLeader(after, n) <==> IsLeader(before, n))
  {
    TickRefinesAttempt(s, id, f, others, g, others', h);
    var first := Step(s, StatementRuns(id, f));
    StatementMoves(s, id, f);
    OthersKeepTick(first, others, id);
    StatementMoves(Run(first, others), id, g);
    var second := Step(Run(first, others), StatementRuns(id, g));
    OthersKeepTick(second, others', id);
    StatementMoves(Run(second, others'), id, h);
    var third := Step(Run(second, others'), StatementRuns(id, h));
    OthersKeepTick(third, last, id);
    StoreSetsFlag(Run(third, last), id);
  }

  /** The answer that a tick of `node` stored last in a run, if any did. */
  function LastStored(s: State, actions: seq<Action>, node: NodeId): Option<bool> {
    if actions == [] then None
    else
      var front, a := actions[..|actions| - 1], actions[|actions| - 1];
      var t := Run(s, front);
      if a.FlagStored? && a.id in t.ticks && t.ticks[a.id].phase.Answered? && t.ticks[a.id].node == node
      then Some(t.ticks[a.id].phase.elected)
      else LastStored(s, front, node)
  }

  /** In every run a process believes to be elected if and only if the answer its ticks stored last was true. */
  lemma {:induction false} FlagIsLastStored(s: State, actions: seq<Action>, node: NodeId)
    requires Init(s)
    ensures IsLeader(Run(s, actions), node) <==> LastStored(s, actions, node) == Some(true)
  {
    if actions != [] {
      FlagIsLastStored(s, actions[..|actions| - 1], node);
    }
  }

  /** Undisturbed, a tick answers true exactly when the table says so: no row, an expired row, or its own row not
      yet stamped in this second. */
  lemma UndisturbedTickAnswers(s: State, id: nat)
    requires id in s.ticks && s.ticks[id].phase == AtInsert
    ensures var run := StatementRuns(id, NoFault);
            var me := s.ticks[id].node;
            var elected := match s.db.row
                           case None => true
                           case Some(row) => row.lastSeen < s.db.now - 5 || (row.owner == me && row.lastSeen != s.db.now);
            Step(Step(Step(s, run), run), run).ticks[id] == Tick(me, Answered(elected, s.db.now))
  {
    TickRefinesAttempt(s, id, NoFault, [], NoFault, [], NoFault);
    UndisturbedWins(s.db, s.ticks[id].node);
  }

  // ---------------------------------------------------------------------------------------------
  // The limits of the guarantee

  lemma RunExtends(s: State, actions: seq<Action>, a: Action)
    ensures Run(s, actions + [a]) == Step(Run(s, actions), a)
  {
    assert (actions + [a])[..|actions|] == actions;
  }

  /** The state after a whole tick of `node` that was granted by the insert, or by the takeover. */
  function Elected(s: State, id: nat, node: NodeId, via: Statement): State {
    State(Db(Some(Row(node, s.db.now, s.db.now)), s.db.now, s.db.grants + [Grant(node, via, s.db.now)]),
          s.ticks[id := Tick(node, Stored)], s.beliefs[node := Belief(true, s.db.now)])
  }

  /** A tick on an empty table ends with the flag up. */
  lemma InsertElects(t: State, id: nat, node: NodeId)
    requires t.db.row.None? && id !in t.ticks
    ensures Step(Step(Step(t, TickBegins(id, node)), StatementRuns(id, NoFault)), FlagStored(id))
            == Elected(t, id, node, InsertIgnore)
  {
    var begun := Step(t, TickBegins(id, node));
    StatementMoves(begun, id, NoFault);
    var run := Step(begun, StatementRuns(id, NoFault));
    assert run.ticks == t.ticks[id := Tick(node, Answered(true, t.db.now))];
    assert Step(run, FlagStored(id)).ticks == t.ticks[id := Tick(node, Stored)];
  }

  /** So does a tick on an expired row. */
  lemma TakeOverElects(t: State, id: nat, node: NodeId)
    requires Expired(t.db) && id !in t.ticks
    ensures Step(Step(Step(Step(t, TickBegins(id, node)), StatementRuns(id, NoFault)), StatementRuns(id, NoFault)), FlagStored(id))
            == Elected(t, id, node, TakeOver)
  {
    var begun := Step(t, TickBegins(id, node));
    StatementMoves(begun, id, NoFault);
    var tried := Step(begun, StatementRuns(id, NoFault));
    assert tried == State(t.db, t.ticks[id := Tick(node, AtTakeOver)], t.beliefs);
    StatementMoves(tried, id, NoFault);
    var run := Step(tried, StatementRuns(id, NoFault));
    assert run.ticks == t.ticks[id := Tick(node, Answered(true, t.db.now))];
    assert Step(run, FlagStored(id)).ticks == t.ticks[id := Tick(node, Stored)];
  }

  /** Both flags are up, from successes at `x` and `y`. */
  predicate BothElected(t: State, a: NodeId, x: int, b: NodeId, y: int) {
    IsLeader(t, a) && t.beliefs[a].at == x && IsLeader(t, b) && t.beliefs[b].at == y
  }

  /** Freshness cannot be dropped: any two nodes can hold their flags at the same time, from any two seconds that
      lie more than the expiry interval apart, because the first never ticks again after losing the lease. */
  lemma TwoNodesMayBelieve(a: NodeId, x: int, b: NodeId, y: int) returns (s: State, actions: seq<Action>)
    requires a != b && y > x + ACTIVE_NODE_EXPIRE_SECONDS
    ensures Init(s) && BothElected(Run(s, actions), a, x, b, y)
  {
    s := State(Db(None, x, []), map[], map[]);
    var run := StatementRuns(0, NoFault);
    var again := StatementRuns(1, NoFault);
    var pause := ClockAdvances(y - x);
    RunOfFour(s, [], TickBegins(0, a), run, FlagStored(0), pause);
    InsertElects(s, 0, a);
    actions := [] + [TickBegins(0, a), run, FlagStored(0), pause];
    var t := Run(s, actions);
    assert t == Step(Elected(s, 0, a, InsertIgnore), pause);
    RunOfFour(s, actions, TickBegins(1, b), again, again, FlagStored(1));
    TakeOverElects(t, 1, b);
    actions := actions + [TickBegins(1, b), again, again, FlagStored(1)];
  }

  /** Runs can be put one after the other. */
  lemma {:induction false} RunConcat(s: State, first: seq<Action>, second: seq<Action>)
    ensures Run(s, first + second) == Run(Run(s, first), second)
  {
    if second == [] {
      assert first + second == first;
    } else {
      RunConcat(s, first, second[..|second| - 1]);
      assert (first + second)[..|first + second| - 1] == first + second[..|second| - 1];
    }
  }

  lemma RunOfTwo(t: State, a: Action, b: Action)
    ensures Run(t, [a, b]) == Step(Step(t, a), b)
  {
    assert [a, b][..1] == [a] && [a][..0] == [];
    assert Run(t, [a]) == Step(t, a);
  }

  lemma RunOfFour(s: State, actions: seq<Action>, a: Action, b: Action, c: Action, d: Action)
    ensures Run(s, actions + [a, b, c, d]) == Step(Step(Step(Step(Run(s, actions), a), b), c), d)
  {
    var t := Run(s, actions);
    RunOfTwo(t, a, b);
    var u := Run(t, [a, b]);
    RunOfTwo(u, c, d);
    RunConcat(t, [a, b], [c, d]);
    assert [a, b] + [c, d] == [a, b, c, d];
    RunConcat(s, actions, [a, b, c, d]);
  }

  /** Exactly the flags whose successes lie more than the expiry interval apart can be up together. */
  lemma FlagsTogetherExactly(a: NodeId, x: int, b: NodeId, y: int)
    requires a != b
    ensures (exists s, actions :: Init(s) && BothElected(Run(s, actions), a, x, b, y))
            <==> x > y + 5 || y > x + 5
  {
    if s, actions :| Init(s) && BothElected(Run(s, actions), a, x, b, y) {
      BeliefsApart(s, actions, a, b);
    }
    if y > x + ACTIVE_NODE_EXPIRE_SECONDS {
      var s, actions := TwoNodesMayBelieve(a, x, b, y);
    }
    if x > y + ACTIVE_NODE_EXPIRE_SECONDS {
      var s, actions := TwoNodesMayBelieve(b, y, a, x);
      assert BothElected(Run(s, actions), a, x, b, y);
    }
  }
}
