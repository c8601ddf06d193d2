/** The single-row `active_node` lease table, the three SQL statements of AttemptElection, and the
    election attempt itself.

    The database connection counts changed rows, not matched rows: an UPDATE that writes the values a
    row already holds affects no row. */
module ActiveNode {
  import opened Faults
  import opened Wrappers

  /** Seconds after which an unrefreshed lease may be taken over. */
  const ACTIVE_NODE_EXPIRE_SECONDS := 5

  /** A process is identified by its host name together with its random process token. */
  datatype NodeId = NodeId(hostname: string, token: string)

  datatype Row = Row(owner: NodeId, firstSeen: int, lastSeen: int)

  datatype Statement = InsertIgnore | TakeOver | Reaffirm

  /** One change of the row: who stamped it, by which statement, at which database second. */
  datatype Grant = Grant(node: NodeId, via: Statement, at: int)

  /** The table, the database clock in whole seconds, and the history of changes to the row. */
  datatype Db = Db(row: Option<Row>, now: int, grants: seq<Grant>)

  datatype Event = Advance(seconds: nat) | Execute(st: Statement, node: NodeId, fault: Fault)

  // ---------------------------------------------------------------------------------------------
  // Statements

  predicate Expired(db: Db) {
    db.row.Some? && db.row.value.lastSeen < db.now - ACTIVE_NODE_EXPIRE_SECONDS
  }

  predicate HeldBy(db: Db, node: NodeId) {
    db.row.Some? && db.row.value.owner == node
  }

  /** The row after `st` has run on the server for `me`. */
  function RowAfter(st: Statement, me: NodeId, db: Db): Option<Row> {
    match st
    case InsertIgnore => if db.row.None? then Some(Row(me, db.now, db.now)) else db.row
    case TakeOver => if Expired(db) then Some(Row(me, db.now, db.now)) else db.row
    case Reaffirm => if HeldBy(db, me) then Some(db.row.value.(lastSeen := db.now)) else db.row
  }

  /** RowsAffected() > 0: the statement left the table different from what it was. */
  predicate Changes(st: Statement, me: NodeId, db: Db) {
    RowAfter(st, me, db) != db.row
  }

  function Apply(db: Db, e: Event): Db {
    match e
    case Advance(seconds) => db.(now := db.now + seconds)
    case Execute(st, node, fault) =>
      if fault == LostBefore || !Changes(st, node, db) then db
      else db.(row := RowAfter(st, node, db), grants := db.grants + [Grant(node, st, db.now)])
  }

  /** An answer that gets lost leaves the table as if it had arrived. */
  lemma LostAnswer(db: Db, st: Statement, node: NodeId)
    ensures Apply(db, Execute(st, node, LostAfter)) == Apply(db, Execute(st, node, NoFault))
    ensures Apply(db, Execute(st, node, LostBefore)) == db
  {
  }

  function ApplyAll(db: Db, es: seq<Event>): Db {
    if es == [] then db else Apply(ApplyAll(db, es[..|es| - 1]), es[|es| - 1])
  }

  // ---------------------------------------------------------------------------------------------
  // The ledger invariant

  /** How one grant may follow the one before it. */
  predicate Follows(prev: Grant, next: Grant) {
    match next.via
    case InsertIgnore => false
    case TakeOver => next.at > prev.at + ACTIVE_NODE_EXPIRE_SECONDS
    case Reaffirm => next.node == prev.node && next.at > prev.at
  }

  ghost predicate Lawful(grants: seq<Grant>) {
    forall i :: 0 < i < |grants| ==> Follows(grants[i - 1], grants[i])
  }

  /** When the tenure of the latest holder began: at the last grant that was not a reaffirmation. A history
      that starts with one belongs to a tenure from before, which began at `earlier`. */
  function TenureStart(grants: seq<Grant>, earlier: int): int {
    if grants == [] then earlier
    else if !grants[|grants| - 1].via.Reaffirm? then grants[|grants| - 1].at
    else TenureStart(grants[..|grants| - 1], earlier)
  }

  /** The row is never deleted, and it always shows the latest grant and the start of its tenure. */
  ghost predicate LedgerInv(db: Db) {
    && Lawful(db.grants)
    && (db.row.None? <==> db.grants == [])
    && (db.row.Some? ==>
          var last := db.grants[|db.grants| - 1];
          && last.node == db.row.value.owner && last.at == db.row.value.lastSeen <= db.now
          && exists earlier :: db.row.value.firstSeen == TenureStart(db.grants, earlier))
  }

  ghost predicate Granted(grants: seq<Grant>, node: NodeId, at: int) {
    exists i :: 0 <= i < |grants| && grants[i].node == node && grants[i].at == at
  }

  /** Every event keeps the ledger lawful, extends the history and never turns the clock back. */
  lemma ApplyKeepsLedger(db: Db, e: Event)
    requires LedgerInv(db)
    ensures LedgerInv(Apply(db, e))
    ensures db.grants <= Apply(db, e).grants && db.now <= Apply(db, e).now
  {
    var next := Apply(db, e);
    if next.grants != db.grants {
      assert next.grants[..|next.grants| - 1] == db.grants;
      var earlier :| db.row.None? || db.row.value.firstSeen == TenureStart(db.grants, earlier);
      assert next.row.value.firstSeen == TenureStart(next.grants, earlier);
    } else if db.row.Some? {
      var earlier :| db.row.value.firstSeen == TenureStart(db.grants, earlier);
      assert next.row.value.firstSeen == TenureStart(next.grants, earlier);
    }
    forall i | 0 < i < |next.grants|
      ensures Follows(next.grants[i - 1], next.grants[i])
    {
      if i < |db.grants| {
        assert Follows(db.grants[i - 1], db.grants[i]);
      }
    }
  }

  lemma {:induction false} ApplyAllKeepsLedger(db: Db, es: seq<Event>)
    requires LedgerInv(db)
    ensures LedgerInv(ApplyAll(db, es))
    ensures db.grants <= ApplyAll(db, es).grants && db.now <= ApplyAll(db, es).now
  {
    if es == [] {
    } else {
      ApplyAllKeepsLedger(db, es[..|es| - 1]);
      ApplyKeepsLedger(ApplyAll(db, es[..|es| - 1]), es[|es| - 1]);
    }
  }

  // ---------------------------------------------------------------------------------------------
  // What a lawful history means

  lemma {:induction false} GrantsStrictlyLater(grants: seq<Grant>, i: nat, j: nat)
    requires Lawful(grants) && i < j < |grants|
    ensures grants[i].at < grants[j].at
    decreases j
  {
    assert Follows(grants[j - 1], grants[j]);
    if i < j - 1 {
      GrantsStrictlyLater(grants, i, j - 1);
    }
  }

  /** Between a grant to one node and any later grant to another, more than the expiry interval passes. */
  lemma {:induction false} HandoverGap(grants: seq<Grant>, i: nat, j: nat)
    requires Lawful(grants) && i < j < |grants|
    requires grants[i].node != grants[j].node
    ensures grants[j].at > grants[i].at + ACTIVE_NODE_EXPIRE_SECONDS
    decreases j
  {
    assert Follows(grants[j - 1], grants[j]);
    if grants[j - 1].node == grants[j].node {
      HandoverGap(grants, i, j - 1);
    } else if i < j - 1 {
      GrantsStrictlyLater(grants, i, j - 1);
    }
  }

  /** The INSERT wins at most once, and only as the very first grant. */
  lemma InsertWinsAtMostOnce(grants: seq<Grant>, i: nat)
    requires Lawful(grants) && i < |grants| && grants[i].via == InsertIgnore
    ensures i == 0
  {
    assert i == 0 || Follows(grants[i - 1], grants[i]);
  }

  /** As long as the lease is stamped at least every expiry interval, it never changes hands. */
  lemma {:induction false} StableLeader(grants: seq<Grant>, i: nat, j: nat)
    requires Lawful(grants) && i <= j < |grants|
    requires forall k :: i < k <= j ==> grants[k].at <= grants[k - 1].at + ACTIVE_NODE_EXPIRE_SECONDS
    ensures grants[j].node == grants[i].node
    decreases j
  {
    if i < j {
      StableLeader(grants, i, j - 1);
      assert Follows(grants[j - 1], grants[j]);
    }
  }

  /** Which of a series of takeover statements, all within one second, change the row. */
  function TakeOverRound(db: Db, contenders: seq<NodeId>): seq<bool>
    decreases |contenders|
  {
    if contenders == [] then []
    else [Changes(TakeOver, contenders[0], db)]
         + TakeOverRound(Apply(db, Execute(TakeOver, contenders[0], NoFault)), contenders[1..])
  }

  lemma {:induction false} NoSuccessorWhileFresh(db: Db, contenders: seq<NodeId>)
    requires !Expired(db)
    ensures TakeOverRound(db, contenders) == seq(|contenders|, _ => false)
  {
    if contenders != [] {
      NoSuccessorWhileFresh(db, contenders[1..]);
    }
  }

  /** Among any number of contenders in the same second exactly one takes an expired lease over: the
      first whose statement is executed. */
  lemma SingleSuccessor(db: Db, contenders: seq<NodeId>)
    requires Expired(db) && contenders != []
    ensures TakeOverRound(db, contenders) == seq(|contenders|, i => i == 0)
    ensures HeldBy(ApplyAll(db, seq(|contenders|, i requires 0 <= i < |contenders| => Execute(TakeOver, contenders[i], NoFault))), contenders[0])
  {
    var next := Apply(db, Execute(TakeOver, contenders[0], NoFault));
    NoSuccessorWhileFresh(next, contenders[1..]);
    var es := seq(|contenders|, i requires 0 <= i < |contenders| => Execute(TakeOver, contenders[i], NoFault));
    FirstContenderHolds(db, contenders, es, |es|);
    assert es[..|es|] == es;
  }

  lemma {:induction false} FirstContenderHolds(db: Db, contenders: seq<NodeId>, es: seq<Event>, n: nat)
    requires Expired(db) && 0 < n <= |contenders| == |es|
    requires forall i :: 0 <= i < |es| ==> es[i] == Execute(TakeOver, contenders[i], NoFault)
    ensures HeldBy(ApplyAll(db, es[..n]), contenders[0]) && !Expired(ApplyAll(db, es[..n]))
    decreases n
  {
    assert es[..n][..n - 1] == es[..n - 1];
    if n == 1 {
      assert ApplyAll(db, es[..0]) == db;
    } else {
      FirstContenderHolds(db, contenders, es, n - 1);
    }
  }

  // ---------------------------------------------------------------------------------------------
  // The table as shared mutable state, and one election attempt on it

  /** The outcome of running one statement, as the client sees it. */
  datatype Reply = Failed | Affected(rows: nat)

  /** Everything that can happen to the table around the three statements of one attempt: what other
      processes do between them, and which of them fail. */
  datatype Surroundings = Surroundings(
    insertFault: Fault, beforeTakeOver: seq<Event>,
    takeOverFault: Fault, beforeReaffirm: seq<Event>,
    reaffirmFault: Fault)

  const UNDISTURBED := Surroundings(NoFault, [], NoFault, [], NoFault)

  /** The table as the second statement of an attempt by `me` finds it. */
  function AtTakeOver(db: Db, me: NodeId, x: Surroundings): Db {
    ApplyAll(Apply(db, Execute(InsertIgnore, me, x.insertFault)), x.beforeTakeOver)
  }

  /** The table as the third statement of an attempt by `me` finds it. */
  function AtReaffirm(db: Db, me: NodeId, x: Surroundings): Db {
    ApplyAll(Apply(AtTakeOver(db, me, x), Execute(TakeOver, me, x.takeOverFault)), x.beforeReaffirm)
  }

  /** When an attempt by `me` that starts on `db` answers true. */
  predicate Wins(db: Db, me: NodeId, x: Surroundings) {
    && x.insertFault.NoFault?
    && (db.row.Some? ==>
          && x.takeOverFault.NoFault?
          && var second := AtTakeOver(db, me, x);
             (!Expired(second) ==>
                && x.reaffirmFault.NoFault?
                && var third := AtReaffirm(db, me, x);
                   HeldBy(third, me) && third.row.value.lastSeen != third.now))
  }

  /** The table after an attempt by `me`: the attempt stops at the first statement that changes the row
      or reports an error. */
  function AfterAttempt(db: Db, me: NodeId, x: Surroundings): Db {
    var first := Apply(db, Execute(InsertIgnore, me, x.insertFault));
    if !x.insertFault.NoFault? || db.row.None? then first
    else
      var second := AtTakeOver(db, me, x);
      var taken := Apply(second, Execute(TakeOver, me, x.takeOverFault));
      if !x.takeOverFault.NoFault? || Expired(second) then taken
      else Apply(AtReaffirm(db, me, x), Execute(Reaffirm, me, x.reaffirmFault))
  }

  class ActiveNodeTable {
    var row: Option<Row>
    var now: int
    ghost var grants: seq<Grant>

    ghost function Contents(): Db
      reads this
    {
      Db(row, now, grants)
    }

    ghost predicate Valid()
      reads this
    {
      LedgerInv(Contents())
    }

    constructor (now: int)
      ensures Valid() && Contents() == Db(None, now, [])
    {
      this.row, this.now, this.grants := None, now, [];
    }

    /** Runs one statement on the server and reports the number of changed rows. */
    method Exec(st: Statement, me: NodeId, fault: Fault) returns (reply: Reply)
      requires Valid()
      modifies this
      ensures Valid()
      ensures Contents() == Apply(old(Contents()), Execute(st, me, fault))
      ensures reply.Failed? <==> !fault.NoFault?
      ensures reply.Affected? ==> (reply.rows > 0 <==> Changes(st, me, old(Contents())))
    {
      ApplyKeepsLedger(Contents(), Execute(st, me, fault));
      if fault.LostBefore? {
        return Failed;
      }
      var before := row;
      match st {
        case InsertIgnore =>
          if row.None? {
            row := Some(Row(me, now, now));
          }
        case TakeOver =>
          if row.Some? && row.value.lastSeen < now - ACTIVE_NODE_EXPIRE_SECONDS {
            row := Some(Row(me, now, now));
          }
        case Reaffirm =>
          if row.Some? && row.value.owner == me {
            row := Some(row.value.(lastSeen := now));
          }
      }
      if row != before {
        grants := grants + [Grant(me, st, now)];
      }
      reply := if fault.LostAfter? then Failed else Affected(if row != before then 1 else 0);
    }

    /** What the rest of the cluster does to the table in the meantime. */
    method Interfere(es: seq<Event>)
      requires Valid()
      modifies this
      ensures Valid() && Contents() == ApplyAll(old(Contents()), es)
    {
      ghost var start := Contents();
      for i := 0 to |es|
        invariant Valid() && Contents() == ApplyAll(start, es[..i])
      {
        assert es[..i + 1][..i] == es[..i];
        match es[i] {
          case Advance(seconds) =>
            ApplyKeepsLedger(Contents(), es[i]);
            now := now + seconds;
          case Execute(st, node, fault) =>
            var _ := Exec(st, node, fault);
        }
      }
      assert es[..|es|] == es;
    }

    /** Tries to grab or keep the lease. `x` says what happens around the three statements. */
    method AttemptElection(me: NodeId, x: Surroundings) returns (elected: bool, failed: bool)
      requires Valid()
      modifies this
      ensures Valid()
      ensures Contents() == AfterAttempt(old(Contents()), me, x)
      ensures elected <==> Wins(old(Contents()), me, x)
      ensures failed <==>
                || !x.insertFault.NoFault?
                || (old(row).Some? && !x.takeOverFault.NoFault?)
                || (old(row).Some? && !Expired(AtTakeOver(old(Contents()), me, x)) && !x.reaffirmFault.NoFault?)
      ensures elected ==> !failed && grants != [] && HeldBy(Contents(), me)
      ensures elected ==> grants[|grants| - 1].node == me && grants[|grants| - 1].at == now && |old(grants)| < |grants|
      ensures old(grants) <= grants && old(now) <= now
    {
      ghost var start := Contents();
      ApplyKeepsLedger(start, Execute(InsertIgnore, me, x.insertFault));
      var reply := Exec(InsertIgnore, me, x.insertFault);
      if reply.Failed? {
        return false, true;
      }
      if reply.rows > 0 {
        return true, false;
      }

      ghost var first := Contents();
      ApplyAllKeepsLedger(first, x.beforeTakeOver);
      Interfere(x.beforeTakeOver);
      ghost var second := Contents();
      assert second == AtTakeOver(start, me, x);
      ApplyKeepsLedger(second, Execute(TakeOver, me, x.takeOverFault));
      reply := Exec(TakeOver, me, x.takeOverFault);
      if reply.Failed? {
        return false, true;
      }
      if reply.rows > 0 {
        return true, false;
      }

      ApplyAllKeepsLedger(Contents(), x.beforeReaffirm);
      Interfere(x.beforeReaffirm);
      ghost var third := Contents();
      assert third == AtReaffirm(start, me, x);
      ApplyKeepsLedger(third, Execute(Reaffirm, me, x.reaffirmFault));
      reply := Exec(Reaffirm, me, x.reaffirmFault);
      if reply.Failed? {
        return false, true;
      }
      return reply.rows > 0, false;
    }

    /** Reads the row back, and whether this process is the elected node. Without a row, or when the query fails,
        the node stays blank; the comparison with this process is made all the same. The last column is selected as
        `last_seen_Active` and looked up as `last_seen_active`: when the server heads it as it was typed, the
        second time stays blank. */
    method ElectedNode(me: NodeId, failed: bool, headedAsTyped: bool)
      returns (node: NodeId, firstSeen: Option<int>, lastSeen: Option<int>, isElected: bool)
      ensures !failed && row.Some? ==>
                node == row.value.owner && firstSeen == Some(row.value.firstSeen) && (isElected <==> HeldBy(Contents(), me))
      ensures failed || row.None? ==> node == NodeId("", "") && firstSeen == None && (isElected <==> me == NodeId("", ""))
      ensures lastSeen == if failed || row.None? || headedAsTyped then None else Some(row.value.lastSeen)
    {
      node, firstSeen, lastSeen := NodeId("", ""), None, None;
      if !failed && row.Some? {
        node, firstSeen := row.value.owner, Some(row.value.firstSeen);
        if !headedAsTyped {
          lastSeen := Some(row.value.lastSeen);
        }
      }
      isElected := node == me;
    }
  }

  /** When nothing interferes and nothing fails, an attempt answers true exactly when there is no row, the
      row has expired, or the row is this node's own and was last stamped in an earlier second. */
  lemma UndisturbedWins(db: Db, me: NodeId)
    ensures Wins(db, me, UNDISTURBED)
            <==> match db.row
                 case None => true
                 case Some(row) => row.lastSeen < db.now - 5 || (row.owner == me && row.lastSeen != db.now)
  {
    if db.row.Some? {
      assert AtTakeOver(db, me, UNDISTURBED) == db;
      if !Expired(db) {
        assert AtReaffirm(db, me, UNDISTURBED) == db;
      }
    }
  }

  /** Holding the row is not enough: a second attempt within the same second affects no row. */
  lemma OwnRowMayAnswerFalse() returns (db: Db, me: NodeId)
    ensures LedgerInv(db) && HeldBy(db, me) && !Wins(db, me, UNDISTURBED)
  {
    me := NodeId("a", "1");
    db := Db(Some(Row(me, 10, 10)), 10, [Grant(me, InsertIgnore, 10)]);
    assert db.row.value.firstSeen == TenureStart(db.grants, 0);
    UndisturbedWins(db, me);
  }
}
