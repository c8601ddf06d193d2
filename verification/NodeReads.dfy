/** The rows of the `node_health` table as the availability query reads them. */
module NodeReads {
  import opened Wrappers
  import opened Registration
  import opened Peers
  import Sql
  import Query = AvailabilityQuery

  /** What the query can tell about a row, read at `now` for nodes of the given mode. */
  function RowOf(row: NodeRow, now: int, mode: string): Sql.Row {
    Sql.Row(row.lastSeen > now - 2 * HEALTH_POLL_SECONDS, mode == row.extraInfo || mode == "",
            (column, literal) => (column == "ip" && row.ip == literal) || (column == "raft_port" && row.raftPort == literal))
  }

  /** The row carries the address of some peer. */
  predicate CarriesPeer(row: NodeRow, peers: seq<string>, localIp: string) {
    exists i :: 0 <= i < |peers| && HasPort(peers[i])
                && row.ip == Query.HostOf(peers[i], localIp) && row.raftPort == Query.PortOf(peers[i])
  }

  function AtPeer(peers: seq<string>, localIp: string): NodeRow -> bool {
    row => CarriesPeer(row, peers, localIp)
  }

  /** What the query selects is what a reader of the table sees. */
  lemma AvailableIsRead(db: Db, mode: string, peers: seq<string>, localIp: string, k: NodeKey)
    requires k in db.rows
    ensures Query.Available(RowOf(db.rows[k], db.now, mode), peers, localIp) <==> k in Read(db, mode, AtPeer(peers, localIp))
  {
    var row := RowOf(db.rows[k], db.now, mode);
    forall i | 0 <= i < |peers| && HasPort(peers[i])
      ensures Query.Carries(row, (Query.HostOf(peers[i], localIp), Query.PortOf(peers[i])))
              <==> db.rows[k].ip == Query.HostOf(peers[i], localIp) && db.rows[k].raftPort == Query.PortOf(peers[i])
    {
    }
  }

  /** For peers given as hosts and ports: a reader sees a process if and only if it was seen less than two seconds
      ago, in the requested mode, and is registered with the host and port of some pair, where the loopback host
      stands for the local address. */
  lemma SeenAtPairs(db: Db, mode: string, peers: seq<string>, pairs: seq<(string, string)>, localIp: string, k: NodeKey)
    requires Query.SpeltOut(peers, pairs)
    ensures k in Read(db, mode, AtPeer(peers, localIp)) <==>
              && k in db.rows && db.rows[k].lastSeen > db.now - 2 && (mode == "" || mode == db.rows[k].extraInfo)
              && exists i :: 0 <= i < |pairs| && db.rows[k].raftPort == pairs[i].1
                             && db.rows[k].ip == if pairs[i].0 == "127.0.0.1" && localIp != "" then localIp else pairs[i].0
  {
    forall i | 0 <= i < |pairs|
      ensures HasPort(peers[i]) && Query.PortOf(peers[i]) == pairs[i].1
      ensures Query.HostOf(peers[i], localIp) == if pairs[i].0 == "127.0.0.1" && localIp != "" then localIp else pairs[i].0
    {
      Query.PeerParts(pairs[i].0, pairs[i].1, localIp);
    }
  }

  /** The rows of some keys of the table, in the order given. */
  function RowsOf(db: Db, keys: seq<NodeKey>, mode: string): seq<Sql.Row>
    requires forall k :: k in keys ==> k in db.rows
  {
    seq(|keys|, i requires 0 <= i < |keys| => RowOf(db.rows[keys[i]], db.now, mode))
  }

  function Among(keys: seq<NodeKey>, chosen: set<NodeKey>): (r: seq<NodeKey>)
    ensures forall k :: k in r <==> k in keys && k in chosen
  {
    if keys == [] then []
    else Among(keys[..|keys| - 1], chosen) + if keys[|keys| - 1] in chosen then [keys[|keys| - 1]] else []
  }

  /** Of a table whose keys are listed in some order, the query selects exactly what a reader sees, in that order. */
  lemma {:induction false} SelectsRead(db: Db, keys: seq<NodeKey>, mode: string, peers: seq<string>, localIp: string)
    requires forall k :: k in keys ==> k in db.rows
    ensures Query.Select(RowsOf(db, keys, mode), peers, localIp)
            == RowsOf(db, Among(keys, Read(db, mode, AtPeer(peers, localIp)).Keys), mode)
  {
    if keys != [] {
      var front, k := keys[..|keys| - 1], keys[|keys| - 1];
      SelectsRead(db, front, mode, peers, localIp);
      AvailableIsRead(db, mode, peers, localIp, k);
      assert RowsOf(db, keys, mode)[..|keys| - 1] == RowsOf(db, front, mode);
    }
  }

  /** Reads the available nodes of the table, whose keys are listed in the order of their host names. */
  method ReadNodes(table: NodeHealthTable, keys: seq<NodeKey>, mode: string, raftPeers: seq<string>, localIp: string)
    returns (r: Result<seq<Sql.Row>, Query.ReadError>)
    requires forall k :: k in keys <==> k in table.rows
    requires raftPeers != [] && Query.Unquoted(raftPeers, localIp)
    ensures var seen := Read(table.Contents(), mode, AtPeer(raftPeers, localIp));
            r == if HasPort(raftPeers[0]) && HasPort(raftPeers[|raftPeers| - 1])
                 then Ok(RowsOf(table.Contents(), Among(keys, seen.Keys), mode)) else Err(Query.SyntaxError)
  {
    r := Query.ReadAvailableNodes(Some(raftPeers), localIp, RowsOf(table.Contents(), keys, mode));
    SelectsRead(table.Contents(), keys, mode, raftPeers, localIp);
  }
}
