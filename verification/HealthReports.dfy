/** Health reports of raft members: the leader issues short-lived tokens through the log, members report back
    with one, and whoever reported recently counts as healthy. Times are in nanoseconds. */
module HealthReports {
  import opened Durations

  const RAFT_HEALTH_POLL_SECONDS := 10
  const TOKEN_TTL := 2 * RAFT_HEALTH_POLL_SECONDS * SECOND
  const REPORT_TTL := 2 * RAFT_HEALTH_POLL_SECONDS * SECOND
  const REQUEST_TTL := SECOND

  /** A cache maps keys to the time at which they expire; expired items linger until they are swept. */
  type Cache = map<string, int>

  predicate Alive(c: Cache, k: string, now: int) {
    k in c && now <= c[k]
  }

  /** The janitor may remove any expired items at any time. */
  function Swept(c: Cache, now: int): Cache {
    map k | k in c && now <= c[k] :: c[k]
  }

  /** The leader issued `token`. */
  datatype Issue = Issue(token: string, at: int)

  /** A report by `member` under `token` was accepted. */
  datatype Report = Report(member: string, token: string, at: int)

  datatype State = State(now: int, tokens: Cache, reports: Cache, requests: Cache,
                         issued: seq<Issue>, accepted: seq<Report>, sent: seq<int>)

  datatype Action =
    | Advance(d: nat)
    | Sweep
    | FollowerHealthTick(isLeader: bool, token: string)
    | HealthReport(token: string, raftBind: string, raftAdvertise: string)
    | ReportRequested(raftBind: string)

  function Init(now: int): State {
    State(now, map[], map[], map[], [], [], [])
  }

  function Step(s: State, a: Action): State {
    match a
    case Advance(d) => s.(now := s.now + d)
    case Sweep => s.(tokens := Swept(s.tokens, s.now), reports := Swept(s.reports, s.now), requests := Swept(s.requests, s.now))
    case FollowerHealthTick(isLeader, token) =>
      if isLeader then s.(tokens := s.tokens[token := s.now + TOKEN_TTL], issued := s.issued + [Issue(token, s.now)]) else s
    case HealthReport(token, _, raftAdvertise) =>
      if Alive(s.tokens, token, s.now)
      then s.(reports := s.reports[raftAdvertise := s.now + REPORT_TTL],
              accepted := s.accepted + [Report(raftAdvertise, token, s.now)])
      else s
    case ReportRequested(raftBind) =>
      if Alive(s.requests, raftBind, s.now) then s
      else s.(requests := s.requests[raftBind := s.now + REQUEST_TTL], sent := s.sent + [s.now])
  }

  function Run(s: State, actions: seq<Action>): State {
    if actions == [] then s else Step(Run(s, actions[..|actions| - 1]), actions[|actions| - 1])
  }

  /** The members with an unexpired report. */
  function Healthy(s: State): set<string> {
    set m | m in s.reports && s.now <= s.reports[m]
  }

  // ---------------------------------------------------------------------------------------------
  // The invariant of every run

  ghost predicate IssuedAt(issued: seq<Issue>, token: string, at: int) {
    exists i :: 0 <= i < |issued| && issued[i] == Issue(token, at)
  }

  ghost predicate ReportedAt(accepted: seq<Report>, member: string, at: int) {
    exists i :: 0 <= i < |accepted| && accepted[i].member == member && accepted[i].at == at
  }

  /** The report rests on a token issued at most the token's lifetime earlier. */
  ghost predicate Authentic(issued: seq<Issue>, r: Report) {
    exists i :: 0 <= i < |issued| && issued[i].token == r.token && issued[i].at <= r.at <= issued[i].at + TOKEN_TTL
  }

  /** Every cached token was issued one lifetime before it expires. */
  ghost predicate TokensIssued(tokens: Cache, issued: seq<Issue>) {
    forall t :: t in tokens ==> IssuedAt(issued, t, tokens[t] - TOKEN_TTL)
  }

  /** As long as a token is fresh, it stays in the cache. */
  ghost predicate StillKnown(tokens: Cache, now: int, x: Issue) {
    now <= x.at + TOKEN_TTL ==> x.token in tokens && x.at + TOKEN_TTL <= tokens[x.token]
  }

  ghost predicate AllKnown(issued: seq<Issue>, tokens: Cache, now: int) {
    forall i :: 0 <= i < |issued| ==> issued[i].at <= now && StillKnown(tokens, now, issued[i])
  }

  /** Every cached report was accepted one lifetime before it expires. */
  ghost predicate ReportsAccepted(reports: Cache, accepted: seq<Report>) {
    forall m :: m in reports ==> ReportedAt(accepted, m, reports[m] - REPORT_TTL)
  }

  ghost predicate AllAuthentic(accepted: seq<Report>, issued: seq<Issue>) {
    forall i :: 0 <= i < |accepted| ==> Authentic(issued, accepted[i])
  }

  /** As long as a report is fresh, its member stays in the cache. */
  ghost predicate StillListed(reports: Cache, now: int, r: Report) {
    now <= r.at + REPORT_TTL ==> r.member in reports && r.at + REPORT_TTL <= reports[r.member]
  }

  ghost predicate AllListed(accepted: seq<Report>, reports: Cache, now: int) {
    forall i :: 0 <= i < |accepted| ==> accepted[i].at <= now && StillListed(reports, now, accepted[i])
  }

  ghost predicate IssuedBefore(issued: seq<Issue>, now: int) {
    forall i :: 0 <= i < |issued| ==> issued[i].at <= now
  }

  ghost predicate Inv(s: State) {
    && TokensIssued(s.tokens, s.issued)
    && IssuedBefore(s.issued, s.now)
    && AllKnown(s.issued, s.tokens, s.now)
    && ReportsAccepted(s.reports, s.accepted)
    && AllAuthentic(s.accepted, s.issued)
    && AllListed(s.accepted, s.reports, s.now)
  }

  lemma InitInv(now: int)
    ensures Inv(Init(now))
  {
  }

  lemma IssueKeepsTokens(tokens: Cache, issued: seq<Issue>, token: string, now: int)
    requires TokensIssued(tokens, issued)
    ensures TokensIssued(tokens[token := now + TOKEN_TTL], issued + [Issue(token, now)])
  {
    var more := issued + [Issue(token, now)];
    assert more[|issued|] == Issue(token, now);
    forall t | t in tokens
      ensures IssuedAt(more, t, tokens[t] - TOKEN_TTL)
    {
      var i :| 0 <= i < |issued| && issued[i] == Issue(t, tokens[t] - TOKEN_TTL);
      assert more[i] == issued[i];
    }
  }

  lemma IssueKeepsAuthentic(accepted: seq<Report>, issued: seq<Issue>, x: Issue)
    requires AllAuthentic(accepted, issued)
    ensures AllAuthentic(accepted, issued + [x])
  {
    forall i | 0 <= i < |accepted|
      ensures Authentic(issued + [x], accepted[i])
    {
      assert Authentic(issued, accepted[i]);
      var j :| 0 <= j < |issued| && issued[j].token == accepted[i].token
               && issued[j].at <= accepted[i].at <= issued[j].at + TOKEN_TTL;
      assert (issued + [x])[j] == issued[j];
    }
  }

  lemma AcceptKeepsReports(reports: Cache, accepted: seq<Report>, r: Report)
    requires ReportsAccepted(reports, accepted)
    ensures ReportsAccepted(reports[r.member := r.at + REPORT_TTL], accepted + [r])
  {
    var more := accepted + [r];
    assert more[|accepted|] == r;
    forall m | m in reports
      ensures ReportedAt(more, m, reports[m] - REPORT_TTL)
    {
      var i :| 0 <= i < |accepted| && accepted[i].member == m && accepted[i].at == reports[m] - REPORT_TTL;
      assert more[i] == accepted[i];
    }
  }

  lemma AliveTokenIsAuthentic(tokens: Cache, issued: seq<Issue>, r: Report)
    requires TokensIssued(tokens, issued) && IssuedBefore(issued, r.at) && Alive(tokens, r.token, r.at)
    ensures Authentic(issued, r)
  {
    var i :| 0 <= i < |issued| && issued[i] == Issue(r.token, tokens[r.token] - TOKEN_TTL);
  }

  lemma AcceptKeepsListed(accepted: seq<Report>, reports: Cache, r: Report)
    requires AllListed(accepted, reports, r.at)
    ensures AllListed(accepted + [r], reports[r.member := r.at + REPORT_TTL], r.at)
  {
    forall i | 0 <= i < |accepted|
      ensures StillListed(reports[r.member := r.at + REPORT_TTL], r.at, accepted[i])
    {
      assert StillListed(reports, r.at, accepted[i]);
    }
  }

  lemma SweepKeepsListed(accepted: seq<Report>, reports: Cache, now: int)
    requires AllListed(accepted, reports, now)
    ensures AllListed(accepted, Swept(reports, now), now)
  {
    forall i | 0 <= i < |accepted|
      ensures StillListed(Swept(reports, now), now, accepted[i])
    {
      assert StillListed(reports, now, accepted[i]);
    }
  }

  lemma TokensStayKnown(issued: seq<Issue>, tokens: Cache, now: int, d: nat)
    requires AllKnown(issued, tokens, now)
    ensures AllKnown(issued, tokens, now + d) && AllKnown(issued, Swept(tokens, now), now)
  {
    forall i | 0 <= i < |issued|
      ensures StillKnown(tokens, now + d, issued[i]) && StillKnown(Swept(tokens, now), now, issued[i])
    {
      assert StillKnown(tokens, now, issued[i]);
    }
  }

  lemma IssueStaysKnown(issued: seq<Issue>, tokens: Cache, token: string, now: int)
    requires AllKnown(issued, tokens, now)
    ensures AllKnown(issued + [Issue(token, now)], tokens[token := now + TOKEN_TTL], now)
  {
    forall i | 0 <= i < |issued|
      ensures StillKnown(tokens[token := now + TOKEN_TTL], now, issued[i])
    {
      assert StillKnown(tokens, now, issued[i]);
    }
  }

  lemma TimeKeepsListed(accepted: seq<Report>, reports: Cache, now: int, d: nat)
    requires AllListed(accepted, reports, now)
    ensures AllListed(accepted, reports, now + d)
  {
    forall i | 0 <= i < |accepted|
      ensures StillListed(reports, now + d, accepted[i])
    {
      assert StillListed(reports, now, accepted[i]);
    }
  }

  lemma IssueKeepsInv(s: State, token: string)
    requires Inv(s)
    ensures Inv(Step(s, FollowerHealthTick(true, token)))
  {
    IssueStaysKnown(s.issued, s.tokens, token, s.now);
    IssueKeepsTokens(s.tokens, s.issued, token, s.now);
    IssueKeepsAuthentic(s.accepted, s.issued, Issue(token, s.now));
  }

  lemma AcceptKeepsInv(s: State, token: string, raftBind: string, raftAdvertise: string)
    requires Inv(s) && Alive(s.tokens, token, s.now)
    ensures Inv(Step(s, HealthReport(token, raftBind, raftAdvertise)))
  {
    var r := Report(raftAdvertise, token, s.now);
    AcceptKeepsReports(s.reports, s.accepted, r);
    AliveTokenIsAuthentic(s.tokens, s.issued, r);
    AcceptKeepsListed(s.accepted, s.reports, r);
  }

  lemma StepKeepsInv(s: State, a: Action)
    requires Inv(s)
    ensures Inv(Step(s, a)) && s.now <= Step(s, a).now
  {
    match a
    case Advance(d) =>
      TokensStayKnown(s.issued, s.tokens, s.now, d);
      TimeKeepsListed(s.accepted, s.reports, s.now, d);
    case Sweep =>
      TokensStayKnown(s.issued, s.tokens, s.now, 0);
      SweepKeepsListed(s.accepted, s.reports, s.now);
    case FollowerHealthTick(isLeader, token) =>
      if isLeader {
        IssueKeepsInv(s, token);
      }
    case HealthReport(token, raftBind, raftAdvertise) =>
      if Alive(s.tokens, token, s.now) {
        AcceptKeepsInv(s, token, raftBind, raftAdvertise);
      }
    case ReportRequested(_) =>
  }

  lemma {:induction false} RunKeepsInv(s: State, actions: seq<Action>)
    requires Inv(s)
    ensures Inv(Run(s, actions))
  {
    if actions != [] {
      RunKeepsInv(s, actions[..|actions| - 1]);
      StepKeepsInv(Run(s, actions[..|actions| - 1]), actions[|actions| - 1]);
    }
  }

  // ---------------------------------------------------------------------------------------------
  // Who counts as healthy

  ghost predicate ReportedRecently(s: State, member: string) {
    exists i :: 0 <= i < |s.accepted| && s.accepted[i].member == member && s.now - REPORT_TTL <= s.accepted[i].at <= s.now
  }

  lemma ListedIffReported(s: State, member: string)
    requires Inv(s)
    ensures member in Healthy(s) <==> ReportedRecently(s, member)
  {
    if member in Healthy(s) {
      assert ReportedAt(s.accepted, member, s.reports[member] - REPORT_TTL);
    }
    if ReportedRecently(s, member) {
      var i :| 0 <= i < |s.accepted| && s.accepted[i].member == member && s.now - REPORT_TTL <= s.accepted[i].at <= s.now;
      assert StillListed(s.reports, s.now, s.accepted[i]);
    }
  }

  /** In every run, the healthy members are exactly those with an accepted report no older than the report
      lifetime. */
  lemma HealthyIffReportedRecently(now: int, actions: seq<Action>, member: string)
    ensures member in Healthy(Run(Init(now), actions)) <==> ReportedRecently(Run(Init(now), actions), member)
  {
    InitInv(now);
    RunKeepsInv(Init(now), actions);
    ListedIffReported(Run(Init(now), actions), member);
  }

  /** A healthy member has used a token that this node issued, as leader, no longer ago than the lifetimes of
      token and report together: forty seconds. */
  lemma HealthyRestsOnRecentToken(now: int, actions: seq<Action>, member: string)
    requires member in Healthy(Run(Init(now), actions))
    ensures var s := Run(Init(now), actions);
            exists i, j :: 0 <= i < |s.accepted| && 0 <= j < |s.issued|
              && s.accepted[i].member == member && s.accepted[i].token == s.issued[j].token
              && s.now - 20 * SECOND <= s.accepted[i].at <= s.now
              && s.now - 40 * SECOND <= s.issued[j].at <= s.accepted[i].at
  {
    InitInv(now);
    RunKeepsInv(Init(now), actions);
    ListedRestsOnToken(Run(Init(now), actions), member);
  }

  lemma ListedRestsOnToken(s: State, member: string)
    requires Inv(s) && member in Healthy(s)
    ensures exists i, j :: 0 <= i < |s.accepted| && 0 <= j < |s.issued|
              && s.accepted[i].member == member && s.accepted[i].token == s.issued[j].token
              && s.now - 20 * SECOND <= s.accepted[i].at <= s.now
              && s.now - 40 * SECOND <= s.issued[j].at <= s.accepted[i].at
  {
    ListedIffReported(s, member);
    var i :| 0 <= i < |s.accepted| && s.accepted[i].member == member && s.now - REPORT_TTL <= s.accepted[i].at <= s.now;
    assert Authentic(s.issued, s.accepted[i]);
    var j :| 0 <= j < |s.issued| && s.issued[j].token == s.accepted[i].token
             && s.issued[j].at <= s.accepted[i].at <= s.issued[j].at + TOKEN_TTL;
    assert s.now - 40 * SECOND <= s.issued[j].at;
  }

  // ---------------------------------------------------------------------------------------------
  // The same in terms of what has happened

  function TimeAfter(now: int, actions: seq<Action>): int {
    if actions == [] then now
    else TimeAfter(now, actions[..|actions| - 1]) + match actions[|actions| - 1] case Advance(d) => d case _ => 0
  }

  /** The tokens this node has issued as leader. */
  function IssuesOf(now: int, actions: seq<Action>): seq<Issue> {
    if actions == [] then []
    else
      var front := actions[..|actions| - 1];
      IssuesOf(now, front) + IssuesBy(actions[|actions| - 1], TimeAfter(now, front))
  }

  function IssuesBy(a: Action, time: int): seq<Issue> {
    match a
    case FollowerHealthTick(isLeader, token) => if isLeader then [Issue(token, time)] else []
    case _ => []
  }

  /** The token has been issued in the last twenty seconds. */
  predicate Fresh(issues: seq<Issue>, token: string, now: int) {
    exists i :: 0 <= i < |issues| && issues[i].token == token && now - issues[i].at <= 20_000_000_000
  }

  /** The reports that came with a token issued in the twenty seconds before, under the address they advertise. */
  function ReportsOf(now: int, actions: seq<Action>): seq<Report> {
    if actions == [] then []
    else
      var front := actions[..|actions| - 1];
      ReportsOf(now, front) + ReportsBy(actions[|actions| - 1], IssuesOf(now, front), TimeAfter(now, front))
  }

  function ReportsBy(a: Action, issues: seq<Issue>, time: int): seq<Report> {
    match a
    case HealthReport(token, _, raftAdvertise) =>
      if Fresh(issues, token, time) then [Report(raftAdvertise, token, time)] else []
    case _ => []
  }

  lemma AliveIffFresh(s: State, token: string)
    requires Inv(s)
    ensures Alive(s.tokens, token, s.now) <==> Fresh(s.issued, token, s.now)
  {
    if Alive(s.tokens, token, s.now) {
      assert IssuedAt(s.issued, token, s.tokens[token] - TOKEN_TTL);
    }
    if Fresh(s.issued, token, s.now) {
      var i :| 0 <= i < |s.issued| && s.issued[i].token == token && s.now - s.issued[i].at <= 20_000_000_000;
      assert StillKnown(s.tokens, s.now, s.issued[i]);
    }
  }

  lemma StepHasHappened(s: State, a: Action)
    requires Inv(s)
    ensures var t := Step(s, a);
            && t.issued == s.issued + IssuesBy(a, s.now)
            && t.accepted == s.accepted + ReportsBy(a, s.issued, s.now)
            && t.now == s.now + match a case Advance(d) => d case _ => 0
  {
    if a.HealthReport? {
      AliveIffFresh(s, a.token);
    }
  }

  lemma {:induction false} RunHasHappened(now: int, actions: seq<Action>)
    ensures var s := Run(Init(now), actions);
            s.now == TimeAfter(now, actions) && s.issued == IssuesOf(now, actions) && s.accepted == ReportsOf(now, actions)
  {
    if actions != [] {
      var front := actions[..|actions| - 1];
      RunHasHappened(now, front);
      InitInv(now);
      RunKeepsInv(Init(now), front);
      StepHasHappened(Run(Init(now), front), actions[|actions| - 1]);
    }
  }

  /** In every run a member counts as healthy if and only if it has reported in the last twenty seconds, advertising
      this address, with a token issued in the twenty seconds before the report. */
  lemma HealthyByReports(now: int, actions: seq<Action>, member: string)
    ensures member in Healthy(Run(Init(now), actions)) <==>
              exists i :: 0 <= i < |ReportsOf(now, actions)| && ReportsOf(now, actions)[i].member == member
                && TimeAfter(now, actions) - ReportsOf(now, actions)[i].at <= 20_000_000_000
  {
    RunHasHappened(now, actions);
    HealthyIffReportedRecently(now, actions, member);
    InitInv(now);
    RunKeepsInv(Init(now), actions);
  }

  lemma RunOfFour(s: State, a: Action, b: Action, c: Action, d: Action)
    ensures Run(s, [a, b, c, d]) == Step(Step(Step(Step(s, a), b), c), d)
  {
    assert [a, b, c, d][..3] == [a, b, c] && [a, b, c][..2] == [a, b] && [a, b][..1] == [a] && [a][..0] == [];
    assert Run(s, [a]) == Step(s, a);
    assert Run(s, [a, b]) == Step(Step(s, a), b);
    assert Run(s, [a, b, c]) == Step(Step(Step(s, a), b), c);
  }

  /** A single report: it is accepted if the token is at most twenty seconds old, and the address it advertises counts
      as healthy for twenty seconds from then on. */
  lemma OneReport(now: int, token: string, wait: nat, raftBind: string, raftAdvertise: string, later: nat)
    ensures Healthy(Run(Init(now), [FollowerHealthTick(true, token), Advance(wait),
                                    HealthReport(token, raftBind, raftAdvertise), Advance(later)]))
            == if wait <= 20_000_000_000 && later <= 20_000_000_000 then {raftAdvertise} else {}
  {
    RunOfFour(Init(now), FollowerHealthTick(true, token), Advance(wait), HealthReport(token, raftBind, raftAdvertise), Advance(later));
  }

  // ---------------------------------------------------------------------------------------------
  // Requests are throttled

  /** The request cache of a node, whose bind address never changes, remembers the last report sent. */
  ghost predicate Throttled(s: State, raftBind: string) {
    && (forall i :: 0 < i < |s.sent| ==> s.sent[i] > s.sent[i - 1] + 1_000_000_000)
    && (raftBind in s.requests ==> s.sent != [] && s.requests[raftBind] == s.sent[|s.sent| - 1] + REQUEST_TTL)
    && (s.sent != [] ==> s.sent[|s.sent| - 1] <= s.now)
    && (s.sent != [] && s.now <= s.sent[|s.sent| - 1] + REQUEST_TTL ==>
          raftBind in s.requests && s.requests[raftBind] == s.sent[|s.sent| - 1] + REQUEST_TTL)
  }

  /** In every run of a node, successive reports to the leader are more than a second apart, however many
      requests are applied. */
  lemma {:induction false} ReportsAreSpaced(now: int, actions: seq<Action>, raftBind: string)
    requires forall a :: a in actions && a.ReportRequested? ==> a.raftBind == raftBind
    ensures Throttled(Run(Init(now), actions), raftBind)
  {
    if actions != [] {
      var a := actions[|actions| - 1];
      assert a in actions;
      ReportsAreSpaced(now, actions[..|actions| - 1], raftBind);
      SpacedStep(Run(Init(now), actions[..|actions| - 1]), a, raftBind);
    }
  }

  /** A request is answered by a report if and only if none was sent within the last second. */
  lemma RequestIsAnswered(now: int, actions: seq<Action>, raftBind: string)
    requires forall a :: a in actions && a.ReportRequested? ==> a.raftBind == raftBind
    ensures var s := Run(Init(now), actions);
            Step(s, ReportRequested(raftBind)).sent
            == if s.sent == [] || s.now - s.sent[|s.sent| - 1] > 1_000_000_000 then s.sent + [s.now] else s.sent
  {
    ReportsAreSpaced(now, actions, raftBind);
  }

  lemma SpacedStep(s: State, a: Action, raftBind: string)
    requires Throttled(s, raftBind) && (a.ReportRequested? ==> a.raftBind == raftBind)
    ensures Throttled(Step(s, a), raftBind)
  {
  }

  // ---------------------------------------------------------------------------------------------
  // The caches as shared state

  class Caches {
    var now: int
    var tokens: Cache
    var reports: Cache
    var requests: Cache
    ghost var issued: seq<Issue>
    ghost var accepted: seq<Report>
    ghost var sent: seq<int>

    ghost function Contents(): State
      reads this
    {
      State(now, tokens, reports, requests, issued, accepted, sent)
    }

    constructor (now: int)
      ensures Contents() == Init(now) && Inv(Contents())
    {
      this.now, tokens, reports, requests := now, map[], map[], map[];
      issued, accepted, sent := [], [], [];
      new;
      InitInv(now);
    }

    /** The health tick of Monitor. */
    method FollowerHealthTick(isLeader: bool, token: string)
      requires Inv(Contents())
      modifies this
      ensures Inv(Contents()) && Contents() == Step(old(Contents()), Action.FollowerHealthTick(isLeader, token))
    {
      StepKeepsInv(Contents(), Action.FollowerHealthTick(isLeader, token));
      IssueToken(isLeader, token);
    }

    method IssueToken(isLeader: bool, token: string)
      modifies this
      ensures Contents() == Step(old(Contents()), Action.FollowerHealthTick(isLeader, token))
    {
      if isLeader {
        tokens := tokens[token := now + TOKEN_TTL];
        issued := issued + [Issue(token, now)];
      }
    }

    /** Accepts a report if its token is known and unexpired. */
    method OnHealthReport(authenticationToken: string, raftBind: string, raftAdvertise: string) returns (rejected: bool)
      requires Inv(Contents())
      modifies this
      ensures Inv(Contents()) && Contents() == Step(old(Contents()), HealthReport(authenticationToken, raftBind, raftAdvertise))
      ensures rejected <==> !Alive(tokens, authenticationToken, now)
    {
      StepKeepsInv(Contents(), HealthReport(authenticationToken, raftBind, raftAdvertise));
      rejected := TakeReport(authenticationToken, raftBind, raftAdvertise);
    }

    method TakeReport(authenticationToken: string, raftBind: string, raftAdvertise: string) returns (rejected: bool)
      modifies this
      ensures Contents() == Step(old(Contents()), HealthReport(authenticationToken, raftBind, raftAdvertise))
      ensures rejected <==> !Alive(tokens, authenticationToken, now)
    {
      if authenticationToken !in tokens || now > tokens[authenticationToken] {
        return true;
      }
      reports := reports[raftAdvertise := now + REPORT_TTL];
      accepted := accepted + [Report(raftAdvertise, authenticationToken, now)];
      rejected := false;
    }

    /** Lists the members with an unexpired report, each once, in no particular order. */
    method HealthyMembers() returns (advertised: seq<string>)
      ensures forall m :: m in advertised <==> m in Healthy(Contents())
      ensures |advertised| == |Healthy(Contents())|
    {
      advertised := [];
      var items := set m | m in reports && now <= reports[m];
      ghost var all := items;
      while items != {}
        invariant items <= all
        invariant forall m :: m in advertised <==> m in all && m !in items
        invariant |advertised| + |items| == |all|
        decreases items
      {
        var m :| m in items;
        items := items - {m};
        advertised := advertised + [m];
      }
    }

    /** Tells the leader this node is healthy, unless it did so within the last second. Returns whether a
        report was sent. */
    method ReportToRaftLeader(raftBind: string) returns (reported: bool)
      requires Inv(Contents())
      modifies this
      ensures Inv(Contents()) && Contents() == Step(old(Contents()), ReportRequested(raftBind))
      ensures reported <==> !Alive(old(requests), raftBind, now)
    {
      StepKeepsInv(Contents(), ReportRequested(raftBind));
      reported := SendReport(raftBind);
    }

    method SendReport(raftBind: string) returns (reported: bool)
      modifies this
      ensures Contents() == Step(old(Contents()), ReportRequested(raftBind))
      ensures reported <==> !Alive(old(requests), raftBind, now)
    {
      if raftBind in requests && now <= requests[raftBind] {
        return false;
      }
      requests := requests[raftBind := now + REQUEST_TTL];
      sent := sent + [now];
      reported := true;
    }
  }
}
