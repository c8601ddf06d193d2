/** The health tick of a process: it renews the belief to be elected, yields raft leadership when the process
    has been unhealthy for too long, and registers the node when it has turned active. */
module HealthTick {
  import opened Durations
  import opened Wrappers
  import opened ActiveNode

  const YIELD_AFTER_UNHEALTHY := 5 * SECOND

  /** What raft says about this node at the start of a tick and during it. */
  datatype RaftView = RaftView(wasLeader: bool, isLeader: bool, partOfQuorum: bool)

  /** The time since the last good health check; zero as long as there has been none. */
  function SinceLastGoodHealthCheck(lastGood: nat, now: nat): int {
    if lastGood == 0 then 0 else now - lastGood
  }

  class Ticker {
    const me: NodeId
    const table: ActiveNodeTable
    var isElectedNode: bool

    constructor (me: NodeId, table: ActiveNodeTable)
      ensures this.me == me && this.table == table && !isElectedNode
    {
      this.me, this.table, this.isElectedNode := me, table, false;
    }

    /** One tick. `raft` is None when raft is disabled; `x` is what happens around the election
        statements, `queryFails` whether reading the elected node for the log fails. */
    method OnHealthTick(raft: Option<RaftView>, lastGood: nat, now: nat, x: Surroundings, queryFails: bool)
      returns (yielded: bool, registers: bool)
      requires table.Valid()
      modifies this, table
      ensures table.Valid() && old(table.grants) <= table.grants
      ensures raft.None? ==>
                && !yielded
                && (isElectedNode <==> Wins(old(table.Contents()), me, x))
                && table.Contents() == AfterAttempt(old(table.Contents()), me, x)
                && (isElectedNode ==> HeldBy(table.Contents(), me) && table.grants[|table.grants| - 1].at == table.now)
                && (registers <==> isElectedNode && !old(isElectedNode))
      ensures raft.Some? ==>
                && table.Contents() == old(table.Contents())
                && isElectedNode == raft.value.isLeader
                && (yielded <==> lastGood != 0 && now - lastGood > 5_000_000_000)
                && (registers <==> raft.value.partOfQuorum && !raft.value.wasLeader)
    {
      var wasAlreadyElected := if raft.Some? then raft.value.wasLeader else isElectedNode;
      yielded := false;
      if raft.Some? {
        isElectedNode := raft.value.isLeader;
        if SinceLastGoodHealthCheck(lastGood, now) > YIELD_AFTER_UNHEALTHY {
          yielded := true;
        }
      } else {
        var myIsElectedNode, _ := table.AttemptElection(me, x);
        isElectedNode := myIsElectedNode;
        if !myIsElectedNode {
          var _, _, _, _ := table.ElectedNode(me, queryFails, false);
        }
      }
      var isLeaderOrActive := if raft.Some? then raft.value.partOfQuorum else isElectedNode;
      registers := isLeaderOrActive && !wasAlreadyElected;
    }
  }

  /** Without raft, a process registers once per rise of its flag: ticking twice in a row, the second tick does
      not register after a first that left the flag up. With raft, whatever it says during the two ticks, a process
      that is in the quorum at the end of both and leader at the start of neither registers on both. */
  method TickTwice(t: Ticker, raft: Option<(RaftView, RaftView)>, lastGood: nat, now: nat, later: nat, x: Surroundings, y: Surroundings)
    returns (first: bool, second: bool)
    requires t.table.Valid()
    modifies t, t.table
    ensures raft.None? ==> !(first && second)
    ensures raft.Some? ==>
              (first && second <==> raft.value.0.partOfQuorum && !raft.value.0.wasLeader
                                    && raft.value.1.partOfQuorum && !raft.value.1.wasLeader)
  {
    var yielded;
    yielded, first := t.OnHealthTick(if raft.Some? then Some(raft.value.0) else None, lastGood, now, x, false);
    yielded, second := t.OnHealthTick(if raft.Some? then Some(raft.value.1) else None, lastGood, later, y, false);
  }
}
