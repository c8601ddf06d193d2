/** Registration of processes in the `node_health` table: update the own row, insert it if it is not there;
    and the purge of rows that were not refreshed. Times are database seconds. */
module Registration {
  import opened Faults

  const HEALTH_POLL_SECONDS := 1

  /** The primary key of the table. */
  datatype NodeKey = NodeKey(hostname: string, token: string)

  datatype NodeRow = NodeRow(ip: string, raftPort: string, firstSeen: int, lastSeen: int, extraInfo: string,
                             command: string, appVersion: string, dbBackend: string, indicator: nat)

  /** What a process reports about itself; `ip`, `raftPort` and `dbBackend` are what its configuration and the
      address lookup yield. */
  datatype NodeHealth = NodeHealth(key: NodeKey, ip: string, raftPort: string, extraInfo: string, command: string,
                                   appVersion: string, dbBackend: string)

  type Rows = map<NodeKey, NodeRow>

  datatype Db = Db(now: int, rows: Rows)

  datatype Event =
    | Advance(seconds: nat)
    | Update(node: NodeHealth, ago: int)
    | InsertIgnore(node: NodeHealth, ago: int)
    | ExpireNodes

  // ---------------------------------------------------------------------------------------------
  // Statements

  function Refreshed(row: NodeRow, node: NodeHealth, seen: int): NodeRow {
    row.(lastSeen := seen,
         extraInfo := if node.extraInfo != "" then node.extraInfo else row.extraInfo,
         appVersion := node.appVersion,
         indicator := row.indicator + 1)
  }

  function NewRow(node: NodeHealth, seen: int): NodeRow {
    NodeRow(node.ip, node.raftPort, seen, seen, node.extraInfo, node.command, node.appVersion, node.dbBackend, 0)
  }

  /** delete from node_health where last_seen_active < now() - interval 5 second */
  predicate Stale(row: NodeRow, now: int) {
    row.lastSeen < now - 5 * HEALTH_POLL_SECONDS
  }

  function Apply(db: Db, e: Event): Db {
    match e
    case Advance(seconds) => db.(now := db.now + seconds)
    case Update(node, ago) =>
      if node.key in db.rows
      then db.(rows := db.rows[node.key := Refreshed(db.rows[node.key], node, db.now - ago)]) else db
    case InsertIgnore(node, ago) =>
      if node.key in db.rows then db else db.(rows := db.rows[node.key := NewRow(node, db.now - ago)])
    case ExpireNodes => db.(rows := map k | k in db.rows && !Stale(db.rows[k], db.now) :: db.rows[k])
  }

  function ApplyAll(db: Db, es: seq<Event>): Db {
    if es == [] then db else Apply(ApplyAll(db, es[..|es| - 1]), es[|es| - 1])
  }

  /** RowsAffected() > 0: the statement left the table different from what it was. */
  predicate Changes(db: Db, e: Event) {
    Apply(db, e).rows != db.rows
  }

  /** Because every update increments a counter, it changes the row whenever there is one. */
  lemma UpdateChangesIffPresent(db: Db, node: NodeHealth, ago: int)
    ensures Changes(db, Update(node, ago)) <==> node.key in db.rows
    ensures Changes(db, InsertIgnore(node, ago)) <==> node.key !in db.rows
  {
    if node.key in db.rows {
      var row := db.rows[node.key];
      assert Refreshed(row, node, db.now - ago).indicator != row.indicator;
      assert Apply(db, Update(node, ago)).rows[node.key] != row;
    } else {
      assert node.key in Apply(db, InsertIgnore(node, ago)).rows;
    }
  }

  // ---------------------------------------------------------------------------------------------
  // Registering

  /** A duration in nanoseconds as whole seconds, truncated toward zero. */
  function WholeSeconds(nanos: int): int {
    if nanos >= 0 then nanos / 1_000_000_000 else -((-nanos) / 1_000_000_000)
  }

  lemma WholeSecondsMeans(nanos: int)
    ensures nanos >= 0 ==> WholeSeconds(nanos) * 1_000_000_000 <= nanos < (WholeSeconds(nanos) + 1) * 1_000_000_000
    ensures nanos <= 0 ==> (WholeSeconds(nanos) - 1) * 1_000_000_000 < nanos <= WholeSeconds(nanos) * 1_000_000_000
  {
  }

  /** What happens around the two statements: other statements in between, and failures. */
  datatype Surroundings = Surroundings(updateFault: Fault, between: seq<Event>, insertFault: Fault)

  const UNDISTURBED := Surroundings(NoFault, [], NoFault)

  function AfterUpdate(db: Db, node: NodeHealth, ago: int, x: Surroundings): Db {
    if x.updateFault.LostBefore? then db else Apply(db, Update(node, ago))
  }

  function AtInsert(db: Db, node: NodeHealth, ago: int, x: Surroundings): Db {
    ApplyAll(AfterUpdate(db, node, ago, x), x.between)
  }

  // ---------------------------------------------------------------------------------------------
  // Whole calls, one after the other and without errors

  datatype Call = Passes(seconds: nat) | Registers(node: NodeHealth, reportedAgo: nat) | Purges

  function Make(db: Db, c: Call): Db {
    match c
    case Passes(seconds) => Apply(db, Advance(seconds))
    case Registers(node, reportedAgo) =>
      var ago := WholeSeconds(reportedAgo);
      if ago > 2 * HEALTH_POLL_SECONDS then db else Apply(Apply(db, Update(node, ago)), InsertIgnore(node, ago))
    case Purges => Apply(db, ExpireNodes)
  }

  function MakeAll(db: Db, calls: seq<Call>): Db {
    if calls == [] then db else Make(MakeAll(db, calls[..|calls| - 1]), calls[|calls| - 1])
  }

  /** Without interference, updating and, if that affects no row, inserting is one whole registration. */
  lemma RegistersWhole(db: Db, node: NodeHealth, reportedAgo: nat)
    ensures var ago := WholeSeconds(reportedAgo);
            ago <= 2 * HEALTH_POLL_SECONDS ==>
              Make(db, Registers(node, reportedAgo))
              == if node.key in db.rows then AfterUpdate(db, node, ago, UNDISTURBED)
                 else Apply(AtInsert(db, node, ago, UNDISTURBED), InsertIgnore(node, ago))
  {
  }

  class NodeHealthTable {
    var now: int
    var rows: Rows

    function Contents(): Db
      reads this
    {
      Db(now, rows)
    }

    method Exec(e: Event, fault: Fault) returns (failed: bool, affected: nat)
      requires e.Update? || e.InsertIgnore?
      modifies this
      ensures Contents() == if fault.LostBefore? then old(Contents()) else Apply(old(Contents()), e)
      ensures failed <==> !fault.NoFault?
      ensures !failed ==> (affected > 0 <==> Changes(old(Contents()), e))
    {
      UpdateChangesIffPresent(Contents(), e.node, e.ago);
      if fault.LostBefore? {
        return true, 0;
      }
      affected := 0;
      match e {
        case Update(node, ago) =>
          if node.key in rows {
            rows := rows[node.key := Refreshed(rows[node.key], node, now - ago)];
            affected := 1;
          }
        case InsertIgnore(node, ago) =>
          if node.key !in rows {
            rows := rows[node.key := NewRow(node, now - ago)];
            affected := 1;
          }
      }
      failed := fault.LostAfter?;
    }

    method Interfere(es: seq<Event>)
      modifies this
      ensures Contents() == ApplyAll(old(Contents()), es)
    {
      ghost var start := Contents();
      for i := 0 to |es|
        invariant Contents() == ApplyAll(start, es[..i])
      {
        assert es[..i + 1][..i] == es[..i];
        match es[i] {
          case Advance(seconds) => now := now + seconds;
          case ExpireNodes => ExpireAvailableNodes();
          case Update(node, _) => var _, _ := Exec(es[i], NoFault);
          case InsertIgnore(node, _) => var _, _ := Exec(es[i], NoFault);
        }
      }
      assert es[..|es|] == es;
    }

    /** Writes the node's row. Answers false without an error exactly when the report is more than two polls
        old, or when the row was missing for the update and has come into being before the insert. */
    method WriteRegisterNode(node: NodeHealth, reportedAgo: int, x: Surroundings) returns (healthy: bool, failed: bool)
      modifies this
      ensures var ago := WholeSeconds(reportedAgo); var start := old(Contents());
              && (!healthy && !failed <==>
                    ago > 2
                    || (x.updateFault.NoFault? && x.insertFault.NoFault?
                        && node.key !in start.rows && node.key in AtInsert(start, node, ago, x).rows))
              && (healthy ==> !failed && node.key in rows && rows[node.key].lastSeen == now - ago
                              && rows[node.key].appVersion == node.appVersion
                              && (node.extraInfo != "" ==> rows[node.key].extraInfo == node.extraInfo))
              && (healthy && node.key in start.rows ==>
                    var was := start.rows[node.key];
                    rows[node.key] == NodeRow(was.ip, was.raftPort, was.firstSeen, now - ago,
                                              if node.extraInfo == "" then was.extraInfo else node.extraInfo,
                                              was.command, node.appVersion, was.dbBackend, was.indicator + 1))
              && (healthy && node.key !in start.rows ==>
                    rows[node.key] == NodeRow(node.ip, node.raftPort, now - ago, now - ago,
                                              node.extraInfo, node.command, node.appVersion, node.dbBackend, 0))
              && (forall k :: k != node.key && x.between == [] ==> (k in rows <==> k in start.rows) && (k in rows ==> rows[k] == start.rows[k]))
              && Contents() == if ago > 2 * HEALTH_POLL_SECONDS then start
                               else if !x.updateFault.NoFault? || node.key in start.rows then AfterUpdate(start, node, ago, x)
                               else if x.insertFault.LostBefore? then AtInsert(start, node, ago, x)
                               else Apply(AtInsert(start, node, ago, x), InsertIgnore(node, ago))
      ensures x == UNDISTURBED && reportedAgo >= 0 ==> Contents() == Make(old(Contents()), Registers(node, reportedAgo))
    {
      if reportedAgo >= 0 {
        RegistersWhole(Contents(), node, reportedAgo);
      }
      var reportedSecondsAgo := WholeSeconds(reportedAgo);
      if reportedSecondsAgo > HEALTH_POLL_SECONDS * 2 {
        return false, false;
      }
      UpdateChangesIffPresent(Contents(), node, reportedSecondsAgo);
      var affected;
      failed, affected := Exec(Update(node, reportedSecondsAgo), x.updateFault);
      if failed {
        return false, true;
      }
      if affected > 0 {
        return true, false;
      }
      Interfere(x.between);
      UpdateChangesIffPresent(Contents(), node, reportedSecondsAgo);
      failed, affected := Exec(InsertIgnore(node, reportedSecondsAgo), x.insertFault);
      if failed {
        return false, true;
      }
      healthy := affected > 0;
    }

    method ExpireAvailableNodes()
      modifies this
      ensures Contents() == Apply(old(Contents()), ExpireNodes)
      ensures forall k :: (k in rows <==> k in old(rows) && old(rows)[k].lastSeen >= now - 5) && (k in rows ==> rows[k] == old(rows)[k])
    {
      rows := map k | k in rows && !Stale(rows[k], now) :: rows[k];
    }
  }

  /** Undisturbed, the answer is false without an error only for a report more than two seconds old, and the
      row is there afterwards. */
  lemma UndisturbedRegisters(db: Db, node: NodeHealth, ago: int)
    ensures !(node.key !in db.rows && node.key in AtInsert(db, node, ago, UNDISTURBED).rows)
    ensures node.key in Apply(AtInsert(db, node, ago, UNDISTURBED), InsertIgnore(node, ago)).rows
  {
    UpdateChangesIffPresent(db, node, ago);
  }

  // ---------------------------------------------------------------------------------------------
  // The purge and the readers

  /** The rows ReadAvailableNodes may return: recent, and of the requested mode. `carries` is the condition on
      the peer addresses. */
  function Read(db: Db, mode: string, carries: NodeRow -> bool): Rows {
    map k | k in db.rows && db.rows[k].lastSeen > db.now - 2 * HEALTH_POLL_SECONDS
            && (mode == db.rows[k].extraInfo || mode == "") && carries(db.rows[k]) :: db.rows[k]
  }

  /** What every reachable table satisfies: a process was not first seen later than now, nor later than two seconds
      after it was last seen. */
  ghost predicate Plausible(db: Db) {
    forall k :: k in db.rows ==>
      db.rows[k].firstSeen <= db.now && db.rows[k].firstSeen <= db.rows[k].lastSeen + 2 * HEALTH_POLL_SECONDS
  }

  lemma MakeKeepsPlausible(db: Db, c: Call)
    requires Plausible(db)
    ensures Plausible(Make(db, c)) && db.now <= Make(db, c).now
  {
  }

  lemma {:induction false} MakeAllKeepsPlausible(db: Db, calls: seq<Call>)
    requires Plausible(db)
    ensures Plausible(MakeAll(db, calls)) && db.now <= MakeAll(db, calls).now
  {
    if calls != [] {
      MakeAllKeepsPlausible(db, calls[..|calls| - 1]);
      MakeKeepsPlausible(MakeAll(db, calls[..|calls| - 1]), calls[|calls| - 1]);
    }
  }

  /** The keys whose rows a purge of `db` removes. */
  function Gone(db: Db): set<NodeKey> {
    set k | k in db.rows && Stale(db.rows[k], db.now)
  }

  /** How the row of one process differs between the table without the purge and the table with it. As long as the
      row from before the purge lives on in the one, the other has no row or one that started over; afterwards
      there is no difference. */
  ghost predicate Twin(start: Db, k: NodeKey, kept: Db, purged: Db) {
    if k in Gone(start) && k in kept.rows && kept.rows[k].firstSeen == start.rows[k].firstSeen then
      if k in purged.rows
      then purged.rows[k].lastSeen == kept.rows[k].lastSeen && purged.rows[k].firstSeen >= start.now - 2 * HEALTH_POLL_SECONDS
      else kept.rows[k].lastSeen == start.rows[k].lastSeen
    else
      (k in kept.rows <==> k in purged.rows) && (k in kept.rows ==> kept.rows[k] == purged.rows[k])
  }

  ghost predicate Twins(start: Db, kept: Db, purged: Db) {
    && start.now <= kept.now == purged.now
    && forall k :: Twin(start, k, kept, purged)
  }

  lemma StepKeepsTwin(start: Db, k: NodeKey, kept: Db, purged: Db, c: Call)
    requires Plausible(start) && start.now <= kept.now == purged.now && Twin(start, k, kept, purged)
    ensures Twin(start, k, Make(kept, c), Make(purged, c))
  {
  }

  lemma {:induction false} RunKeepsTwins(start: Db, calls: seq<Call>)
    requires Plausible(start)
    ensures Twins(start, MakeAll(start, calls), MakeAll(Apply(start, ExpireNodes), calls))
  {
    var purged := Apply(start, ExpireNodes);
    if calls != [] {
      var front, c := calls[..|calls| - 1], calls[|calls| - 1];
      RunKeepsTwins(start, front);
      forall k
        ensures Twin(start, k, Make(MakeAll(start, front), c), Make(MakeAll(purged, front), c))
      {
        StepKeepsTwin(start, k, MakeAll(start, front), MakeAll(purged, front), c);
      }
    }
  }

  /** A purged process has come back before its old row would have been removed by a later purge, and is read. */
  ghost predicate CameBack(start: Db, kept: Db, k: NodeKey) {
    && k in Gone(start) && k in kept.rows && kept.rows[k].firstSeen == start.rows[k].firstSeen
    && kept.rows[k].lastSeen > kept.now - 2 * HEALTH_POLL_SECONDS
  }

  /** Such a process has started over: it is read with a later time of first registration. */
  lemma ReturningProcessStartsOver(start: Db, calls: seq<Call>, k: NodeKey)
    requires Plausible(start) && CameBack(start, MakeAll(start, calls), k)
    ensures var kept := Read(MakeAll(start, calls), "", _ => true);
            var purged := Read(MakeAll(Apply(start, ExpireNodes), calls), "", _ => true);
            k in kept && k in purged && kept[k].firstSeen < purged[k].firstSeen && kept[k].lastSeen == purged[k].lastSeen
  {
    RunKeepsTwins(start, calls);
    assert Twin(start, k, MakeAll(start, calls), MakeAll(Apply(start, ExpireNodes), calls));
  }

  lemma SameUnlessBack(start: Db, kept: Db, purged: Db, mode: string, carries: NodeRow -> bool)
    requires Plausible(start) && Twins(start, kept, purged) && forall k :: !CameBack(start, kept, k)
    ensures Read(purged, mode, carries) == Read(kept, mode, carries)
  {
    forall k
      ensures k in Read(purged, mode, carries) <==> k in Read(kept, mode, carries)
      ensures k in Read(kept, mode, carries) ==> purged.rows[k] == kept.rows[k]
    {
      assert Twin(start, k, kept, purged) && !CameBack(start, kept, k);
    }
  }

  function NowAfter(now: int, calls: seq<Call>): int {
    if calls == [] then now
    else NowAfter(now, calls[..|calls| - 1]) + match calls[|calls| - 1] case Passes(seconds) => seconds case _ => 0
  }

  /** What the calls make of a stale row that is not purged: it stays as it was, its process registers and was last
      seen at some time, or a later purge removes it. */
  datatype Fate = Untouched | Back(lastSeen: int) | Lost

  function FateOf(now: int, calls: seq<Call>, k: NodeKey): Fate {
    if calls == [] then Untouched
    else
      var front := calls[..|calls| - 1];
      var fate, time := FateOf(now, front, k), NowAfter(now, front);
      match calls[|calls| - 1]
      case Passes(_) => fate
      case Registers(node, reportedAgo) =>
        var ago := WholeSeconds(reportedAgo);
        if fate.Lost? || node.key != k || ago > 2 * HEALTH_POLL_SECONDS then fate else Back(time - ago)
      case Purges =>
        if fate.Back? && fate.lastSeen >= time - 5 * HEALTH_POLL_SECONDS then fate else Lost
  }

  /** The process registers before any later purge, often enough to survive all of them, and recently. */
  predicate ComesBack(now: int, calls: seq<Call>, k: NodeKey) {
    var fate := FateOf(now, calls, k);
    fate.Back? && fate.lastSeen > NowAfter(now, calls) - 2 * HEALTH_POLL_SECONDS
  }

  ghost predicate Meets(start: Db, k: NodeKey, kept: Db, fate: Fate)
    requires k in start.rows
  {
    match fate
    case Untouched => k in kept.rows && kept.rows[k] == start.rows[k]
    case Back(lastSeen) =>
      k in kept.rows && kept.rows[k].firstSeen == start.rows[k].firstSeen && kept.rows[k].lastSeen == lastSeen
    case Lost => k in kept.rows ==> kept.rows[k].firstSeen >= start.now - 2 * HEALTH_POLL_SECONDS
  }

  lemma {:induction false} FateIsMet(start: Db, calls: seq<Call>, k: NodeKey)
    requires Plausible(start) && k in Gone(start)
    ensures MakeAll(start, calls).now == NowAfter(start.now, calls) >= start.now
    ensures Meets(start, k, MakeAll(start, calls), FateOf(start.now, calls, k))
  {
    if calls != [] {
      FateIsMet(start, calls[..|calls| - 1], k);
    }
  }

  /** So which purged processes have come back can be read off the calls alone. */
  lemma CameBackByCalls(start: Db, calls: seq<Call>, k: NodeKey)
    requires Plausible(start) && k in Gone(start)
    ensures CameBack(start, MakeAll(start, calls), k) <==> ComesBack(start.now, calls, k)
  {
    FateIsMet(start, calls, k);
  }

  lemma {:induction false} NobodyBack(start: Db, calls: seq<Call>)
    requires Plausible(start) && forall k :: k in Gone(start) ==> !ComesBack(start.now, calls, k)
    ensures forall k :: !CameBack(start, MakeAll(start, calls), k)
  {
    forall k | k in Gone(start)
      ensures !CameBack(start, MakeAll(start, calls), k)
    {
      CameBackByCalls(start, calls, k);
    }
  }

  /** Whatever is called after a purge, all readers see what they would have seen without it if and only if no
      purged process comes back before its old row would have been purged anyway and is recent at the end. */
  lemma {:induction false} PurgeInvisible(start: Db, calls: seq<Call>)
    requires Plausible(start)
    ensures var kept, purged := MakeAll(start, calls), MakeAll(Apply(start, ExpireNodes), calls);
            (forall mode, carries :: Read(purged, mode, carries) == Read(kept, mode, carries))
            <==> forall k :: k in Gone(start) ==> !ComesBack(start.now, calls, k)
  {
    var kept, purged := MakeAll(start, calls), MakeAll(Apply(start, ExpireNodes), calls);
    RunKeepsTwins(start, calls);
    if k :| k in Gone(start) && ComesBack(start.now, calls, k) {
      CameBackByCalls(start, calls, k);
      ReturningProcessStartsOver(start, calls, k);
      assert Read(purged, "", _ => true) != Read(kept, "", _ => true);
    } else {
      NobodyBack(start, calls);
      forall mode, carries
        ensures Read(purged, mode, carries) == Read(kept, mode, carries)
      {
        SameUnlessBack(start, kept, purged, mode, carries);
      }
    }
  }

  /** For instance a process that registers right after the purge, and reports no mode this time: it loses both its
      time of first registration and its mode. */
  lemma ReturnsWithoutMode() returns (start: Db, calls: seq<Call>, k: NodeKey)
    ensures Plausible(start) && CameBack(start, MakeAll(start, calls), k)
    ensures k in Read(MakeAll(start, calls), "HttpMode", _ => true)
    ensures k !in Read(MakeAll(Apply(start, ExpireNodes), calls), "HttpMode", _ => true)
  {
    k := NodeKey("a", "1");
    var node := NodeHealth(k, "ip", "10008", "", "", "1.0.2", "db");
    start := Db(100, map[k := NodeRow("ip", "10008", 0, 0, "HttpMode", "", "1.0.2", "db", 7)]);
    var c := Registers(node, 0);
    calls := [c];
    assert calls[..0] == [];
    assert MakeAll(start, []) == start && MakeAll(Apply(start, ExpireNodes), []) == Apply(start, ExpireNodes);
    assert Make(start, c).rows[k] == Refreshed(start.rows[k], node, 100);
    assert Make(Apply(start, ExpireNodes), c).rows[k] == NewRow(node, 100);
  }

  // ---------------------------------------------------------------------------------------------
  // The purge and single statements

  /** `purged` lacks some rows of `db`, all of them stale for good. */
  ghost predicate LacksStale(purged: Db, db: Db, gone: set<NodeKey>) {
    && purged.now == db.now
    && purged.rows == db.rows - gone
    && forall k :: k in gone && k in db.rows ==> Stale(db.rows[k], db.now)
  }

  predicate Writes(e: Event, keys: set<NodeKey>) {
    (e.Update? || e.InsertIgnore?) && e.node.key in keys
  }

  lemma StepKeepsLacking(purged: Db, db: Db, gone: set<NodeKey>, e: Event)
    requires LacksStale(purged, db, gone) && !Writes(e, gone)
    ensures LacksStale(Apply(purged, e), Apply(db, e), gone)
  {
  }

  /** Also when registrations are interleaved statement by statement, a purge is invisible as long as no purged
      process writes again. */
  lemma {:induction false} PurgeInvisibleToOthers(db: Db, es: seq<Event>, mode: string, carries: NodeRow -> bool)
    requires var gone := db.rows.Keys - Apply(db, ExpireNodes).rows.Keys;
             forall e :: e in es ==> !Writes(e, gone)
    ensures Read(ApplyAll(Apply(db, ExpireNodes), es), mode, carries) == Read(ApplyAll(db, es), mode, carries)
  {
    var purged := Apply(db, ExpireNodes);
    var gone := db.rows.Keys - purged.rows.Keys;
    assert purged.rows == db.rows - gone;
    RunKeepsLacking(purged, db, gone, es);
  }

  lemma {:induction false} RunKeepsLacking(purged: Db, db: Db, gone: set<NodeKey>, es: seq<Event>)
    requires LacksStale(purged, db, gone) && forall e :: e in es ==> !Writes(e, gone)
    ensures LacksStale(ApplyAll(purged, es), ApplyAll(db, es), gone)
  {
    if es != [] {
      assert es[|es| - 1] in es;
      RunKeepsLacking(purged, db, gone, es[..|es| - 1]);
      StepKeepsLacking(ApplyAll(purged, es[..|es| - 1]), ApplyAll(db, es[..|es| - 1]), gone, es[|es| - 1]);
    }
  }
}
