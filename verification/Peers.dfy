/** The list of raft peers: normalization of configured nodes to `host:port`, and removal of duplicates. */
module Peers {
  import opened Wrappers
  import opened Strings

  predicate HasPort(peer: string) {
    |Split(peer, ':')| >= 2
  }

  lemma {:induction false} HasPortIsColon(peer: string)
    ensures HasPort(peer) <==> ':' in peer
  {
    if ':' in peer {
      var k :| 0 <= k < |peer| && peer[k] == ':' && ':' !in peer[..k] by {
        FirstColon(peer);
      }
      assert peer == peer[..k] + [':'] + peer[k + 1..];
      SplitPrefix(peer[..k], peer[k + 1..], ':');
    } else {
      SplitWhole(peer, ':');
    }
  }

  lemma {:induction false} FirstColon(s: string)
    requires ':' in s
    ensures exists k :: 0 <= k < |s| && s[k] == ':' && ':' !in s[..k]
  {
    if s[0] == ':' {
      assert ':' !in s[..0];
    } else {
      FirstColon(s[1..]);
      var k :| 0 <= k < |s[1..]| && s[1..][k] == ':' && ':' !in s[1..][..k];
      assert s[..k + 1] == [s[0]] + s[1..][..k];
      assert s[k + 1] == ':' && ':' !in s[..k + 1];
    }
  }

  /** Adds the default port, given as text, when a node names none; an empty default means there is none.
      `resolve` stands for the address lookup of the host part. */
  function NormalizeRaftNode(node: string, resolve: string -> Result<string, string>, defaultPort: string): Result<string, string> {
    var hostPort := Split(node, ':');
    match resolve(hostPort[0])
    case Err(e) => Err(e)
    case Ok(host) =>
      if |hostPort| > 1 then Ok(host + ":" + hostPort[1])
      else if defaultPort != "" then Ok(host + ":" + defaultPort)
      else Ok(host)
  }

  /** With a default port every normalized node has a port; the host and port read back from it are the
      resolved host and the port exactly when the resolved host contains no colon itself. */
  lemma NormalizedHasPort(node: string, resolve: string -> Result<string, string>, defaultPort: string)
    requires defaultPort != "" && ':' !in defaultPort
    requires NormalizeRaftNode(node, resolve, defaultPort).Ok?
    ensures var peer := NormalizeRaftNode(node, resolve, defaultPort).value;
            var port := if HasPort(node) then Split(node, ':')[1] else defaultPort;
            && HasPort(peer)
            && (Split(peer, ':') == [resolve(Split(node, ':')[0]).value, port]
                <==> ':' !in resolve(Split(node, ':')[0]).value)
  {
    var peer := NormalizeRaftNode(node, resolve, defaultPort).value;
    var host := resolve(Split(node, ':')[0]).value;
    var port := if HasPort(node) then Split(node, ':')[1] else defaultPort;
    assert peer == host + [':'] + port;
    HasPortIsColon(peer);
    if ':' !in host {
      SplitPrefix(host, port, ':');
      SplitWhole(port, ':');
    } else {
      assert ':' !in Split(peer, ':')[0];
    }
  }

  /** White space as Unicode defines it. */
  predicate IsSpace(c: char) {
    var n := c as int;
    0x09 <= n <= 0x0D || n == 0x20 || n == 0x85 || n == 0xA0 || n == 0x1680 || 0x2000 <= n <= 0x200A
    || n == 0x2028 || n == 0x2029 || n == 0x202F || n == 0x205F || n == 0x3000
  }

  /** In ASCII that is the blank and five control characters; beyond ASCII there is more. */
  lemma SpaceVectors()
    ensures forall c: char :: c as int < 0x80 ==> (IsSpace(c) <==> c == ' ' || 9 <= c as int <= 13)
    ensures IsSpace(0x85 as char) && IsSpace(0xA0 as char) && IsSpace(0x2028 as char) && IsSpace(0x3000 as char)
    ensures !IsSpace(0x200B as char)
  {
  }

  function TrimLeft(s: string): (t: string)
    ensures |t| <= |s|
  {
    if s != "" && IsSpace(s[0]) then TrimLeft(s[1..]) else s
  }

  function TrimSpace(s: string): string
    decreases |s|
  {
    var t := TrimLeft(s);
    if t != "" && IsSpace(t[|t| - 1]) then TrimSpace(t[..|t| - 1]) else t
  }

  lemma {:induction false} TrimLeftKeepsColon(s: string)
    ensures ':' in TrimLeft(s) <==> ':' in s
  {
    if s != "" && IsSpace(s[0]) {
      TrimLeftKeepsColon(s[1..]);
      assert s == [s[0]] + s[1..];
    }
  }

  lemma {:induction false} TrimKeepsColon(s: string)
    ensures ':' in TrimSpace(s) <==> ':' in s
    decreases |s|
  {
    TrimLeftKeepsColon(s);
    var t := TrimLeft(s);
    if t != "" && IsSpace(t[|t| - 1]) {
      TrimKeepsColon(t[..|t| - 1]);
      assert t == t[..|t| - 1] + [t[|t| - 1]];
    }
  }

  /** `t` is what is left of `s` when white space is taken off both ends. */
  ghost predicate TrimmedTo(s: string, t: string) {
    exists i, j :: 0 <= i <= j <= |s| && t == s[i..j] && forall k :: 0 <= k < i || j <= k < |s| ==> IsSpace(s[k])
  }

  lemma SliceOfSlice<T>(s: seq<T>, i: nat, j: nat, a: nat, b: nat)
    requires i <= j <= |s| && a <= b <= j - i
    ensures s[i..j][a..b] == s[i + a..i + b]
  {
    forall k | 0 <= k < b - a
      ensures s[i..j][a..b][k] == s[i + a..i + b][k]
    {
    }
  }

  lemma WithoutLast<T>(s: seq<T>, i: nat)
    requires i < |s|
    ensures s[i..][..|s| - i - 1] == s[i..|s| - 1] && s[i..][|s| - i - 1] == s[|s| - 1]
  {
  }

  lemma TrimmedTwice(s: string, i: nat, u: string, t: string)
    requires i < |s| && u == s[i..|s| - 1] && TrimmedTo(u, t)
    requires IsSpace(s[|s| - 1]) && forall k :: 0 <= k < i ==> IsSpace(s[k])
    ensures TrimmedTo(s, t)
  {
    var a, b :| 0 <= a <= b <= |u| && t == u[a..b] && forall k :: 0 <= k < a || b <= k < |u| ==> IsSpace(u[k]);
    SliceOfSlice(s, i, |s| - 1, a, b);
    forall k | 0 <= k < i + a || i + b <= k < |s|
      ensures IsSpace(s[k])
    {
      if i <= k < |s| - 1 {
        assert s[k] == u[k - i];
      }
    }
  }

  lemma {:induction false} TrimLeftMeans(s: string) returns (i: nat)
    ensures i <= |s| && TrimLeft(s) == s[i..] && forall k :: 0 <= k < i ==> IsSpace(s[k])
    ensures i < |s| ==> !IsSpace(s[i])
  {
    if s != "" && IsSpace(s[0]) {
      var j := TrimLeftMeans(s[1..]);
      i := j + 1;
      assert s[1..][j..] == s[i..];
      forall k | 0 <= k < i
        ensures IsSpace(s[k])
      {
        if k > 0 {
          assert s[k] == s[1..][k - 1];
        }
      }
    } else {
      i := 0;
    }
  }

  lemma TrimmedLeft(s: string, i: nat)
    requires i <= |s| && forall k :: 0 <= k < i ==> IsSpace(s[k])
    ensures TrimmedTo(s, s[i..])
  {
    assert s[i..] == s[i..|s|];
  }

  /** Trimming takes white space off both ends, and all of it. */
  lemma {:induction false} TrimSpaceMeans(s: string)
    ensures TrimmedTo(s, TrimSpace(s))
    ensures TrimSpace(s) != "" ==> !IsSpace(TrimSpace(s)[0]) && !IsSpace(TrimSpace(s)[|TrimSpace(s)| - 1])
    decreases |s|
  {
    var i := TrimLeftMeans(s);
    if i == |s| || !IsSpace(s[|s| - 1]) {
      TrimmedLeft(s, i);
    } else {
      WithoutLast(s, i);
      var u := s[i..|s| - 1];
      TrimSpaceMeans(u);
      TrimmedTwice(s, i, u, TrimSpace(u));
    }
  }

  /** A node given as host and port keeps its port, and one given as host gets the default; the host is looked up. */
  lemma NormalizeByParts(host: string, port: string, resolve: string -> Result<string, string>, defaultPort: string)
    requires ':' !in host && ':' !in port
    ensures resolve(host).Err? ==>
              NormalizeRaftNode(host + ":" + port, resolve, defaultPort) == NormalizeRaftNode(host, resolve, defaultPort)
              == Err(resolve(host).error)
    ensures resolve(host).Ok? ==>
              && NormalizeRaftNode(host + ":" + port, resolve, defaultPort) == Ok(resolve(host).value + ":" + port)
              && NormalizeRaftNode(host, resolve, defaultPort)
                 == Ok(if defaultPort == "" then resolve(host).value else resolve(host).value + ":" + defaultPort)
  {
    SplitPrefix(host, port, ':');
    SplitWhole(port, ':');
    SplitWhole(host, ':');
    assert host + ":" + port == host + [':'] + port;
  }

  ghost predicate NoDuplicates<T(!new)>(xs: seq<T>) {
    forall i, j :: 0 <= i < j < |xs| ==> xs[i] != xs[j]
  }

  /** Where a string first occurs; past the end if it does not. */
  function Position(xs: seq<string>, x: string): (n: nat)
    ensures n <= |xs| && x !in xs[..n] && (n < |xs| ==> xs[n] == x)
  {
    if xs == [] || xs[0] == x then 0 else
      var n := 1 + Position(xs[1..], x);
      assert xs[..n] == [xs[0]] + xs[1..][..n - 1];
      n
  }

  function Trimmed(peerNodes: seq<string>): seq<string> {
    seq(|peerNodes|, i requires 0 <= i < |peerNodes| => TrimSpace(peerNodes[i]))
  }

  /** `peers` lists the members of `all`, each once, in the order in which they first occur. */
  ghost predicate IsUniqueListing(peers: seq<string>, all: seq<string>) {
    && NoDuplicates(peers)
    && (forall p :: p in peers <==> p in all)
    && forall a, b :: 0 <= a < b < |peers| ==> Position(all, peers[a]) < Position(all, peers[b])
  }

  lemma FirstHere(all: seq<string>, i: nat)
    requires i < |all| && all[i] !in all[..i]
    ensures Position(all, all[i]) == i
  {
    InPrefix(all, all[i], Position(all, all[i]), i);
    InPrefix(all, all[i], i, Position(all, all[i]));
  }

  lemma InPrefix(xs: seq<string>, x: string, k: nat, n: nat)
    requires n <= |xs|
    ensures k < n && xs[k] == x ==> x in xs[..n]
  {
    if k < n {
      assert xs[..n][k] == xs[k];
    }
  }

  /** The loop of Open: trims the nodes and drops duplicates. */
  method AddUniquePeers(peerNodes: seq<string>) returns (peers: seq<string>)
    ensures peerNodes == [] ==> peers == []
    ensures IsUniqueListing(peers, Trimmed(peerNodes))
  {
    ghost var all := Trimmed(peerNodes);
    peers := [];
    for i := 0 to |peerNodes|
      invariant NoDuplicates(peers) && |peers| <= i
      invariant forall p :: p in peers <==> p in all[..i]
      invariant forall p :: p in peers ==> Position(all, p) < i
      invariant forall a, b :: 0 <= a < b < |peers| ==> Position(all, peers[a]) < Position(all, peers[b])
    {
      assert all[..i + 1] == all[..i] + [all[i]];
      var peer := TrimSpace(peerNodes[i]);
      if peer !in peers {
        FirstHere(all, i);
        peers := peers + [peer];
      }
    }
    assert all[..|peerNodes|] == all;
  }

  ghost predicate AllNormalized(nodes: seq<string>, resolve: string -> Result<string, string>, defaultPort: string,
                                peerNodes: seq<string>) {
    && |peerNodes| == |nodes|
    && forall i :: 0 <= i < |nodes| ==> NormalizeRaftNode(nodes[i], resolve, defaultPort) == Ok(peerNodes[i])
  }

  /** Node `i` is the first that cannot be normalized. */
  ghost predicate FirstFailure(nodes: seq<string>, resolve: string -> Result<string, string>, defaultPort: string,
                               i: nat, error: string)
    requires i < |nodes|
  {
    && NormalizeRaftNode(nodes[i], resolve, defaultPort) == Err(error)
    && forall j :: 0 <= j < i ==> NormalizeRaftNode(nodes[j], resolve, defaultPort).Ok?
  }

  /** The loop of Setup: the first node that cannot be normalized ends it. */
  method NormalizeAll(nodes: seq<string>, resolve: string -> Result<string, string>, defaultPort: string)
    returns (r: Result<seq<string>, string>)
    ensures r.Ok? ==> AllNormalized(nodes, resolve, defaultPort, r.value)
    ensures r.Err? ==> exists i :: 0 <= i < |nodes| && FirstFailure(nodes, resolve, defaultPort, i, r.error)
  {
    var peerNodes: seq<string> := [];
    for i := 0 to |nodes|
      invariant |peerNodes| == i
      invariant forall j :: 0 <= j < i ==> NormalizeRaftNode(nodes[j], resolve, defaultPort) == Ok(peerNodes[j])
    {
      var peerNode := NormalizeRaftNode(nodes[i], resolve, defaultPort);
      if peerNode.Err? {
        assert FirstFailure(nodes, resolve, defaultPort, i, peerNode.error);
        return Err(peerNode.error);
      }
      peerNodes := peerNodes + [peerNode.value];
    }
    r := Ok(peerNodes);
  }

  /** What the peers are, given the normalized nodes: none for a single node that is this very process. */
  function Candidates(peerNodes: seq<string>, advertise: string): seq<string> {
    if peerNodes == [advertise] then [] else peerNodes
  }

  lemma TrimmedHavePorts(nodes: seq<string>, peerNodes: seq<string>, resolve: string -> Result<string, string>,
                         defaultPort: string, advertise: string)
    requires defaultPort != "" && AllNormalized(nodes, resolve, defaultPort, peerNodes)
    ensures forall p :: p in Trimmed(Candidates(peerNodes, advertise)) ==> HasPort(p)
  {
    forall i | 0 <= i < |nodes|
      ensures HasPort(TrimSpace(peerNodes[i]))
    {
      assert NormalizeRaftNode(nodes[i], resolve, defaultPort) == Ok(peerNodes[i]);
      TrimKeepsColon(peerNodes[i]);
      HasPortIsColon(TrimSpace(peerNodes[i]));
    }
  }

  /** What Setup and Open make of the configured nodes: normalize each, treat a single node that is this very
      process as no peers at all, trim, and drop duplicates. */
  method BuildPeers(nodes: seq<string>, advertise: string, resolve: string -> Result<string, string>, defaultPort: string)
    returns (r: Result<seq<string>, string>, ghost peerNodes: seq<string>)
    ensures r.Err? ==> exists i :: 0 <= i < |nodes| && FirstFailure(nodes, resolve, defaultPort, i, r.error)
    ensures r.Ok? ==> AllNormalized(nodes, resolve, defaultPort, peerNodes)
    ensures r.Ok? && peerNodes == [advertise] ==> r.value == []
    ensures r.Ok? && peerNodes != [advertise] ==> IsUniqueListing(r.value, Trimmed(peerNodes))
    ensures r.Ok? && peerNodes != [advertise] ==>
              forall p :: p in r.value <==> exists i :: 0 <= i < |peerNodes| && p == TrimSpace(peerNodes[i])
    ensures r.Ok? && defaultPort != "" ==> forall p :: p in r.value ==> HasPort(p)
  {
    peerNodes := [];
    var normalized := NormalizeAll(nodes, resolve, defaultPort);
    if normalized.Err? {
      return normalized, [];
    }
    peerNodes := normalized.value;
    var nodesLeft := normalized.value;
    if |nodesLeft| == 1 && nodesLeft[0] == advertise {
      nodesLeft := [];
    }
    assert nodesLeft == Candidates(peerNodes, advertise);
    var peers := AddUniquePeers(nodesLeft);
    if defaultPort != "" {
      TrimmedHavePorts(nodes, peerNodes, resolve, defaultPort, advertise);
    }
    TrimmedMembers(nodesLeft);
    r := Ok(peers);
  }

  lemma TrimmedMembers(peerNodes: seq<string>)
    ensures forall p :: p in Trimmed(peerNodes) <==> exists i :: 0 <= i < |peerNodes| && p == TrimSpace(peerNodes[i])
  {
    forall i | 0 <= i < |peerNodes|
      ensures TrimSpace(peerNodes[i]) in Trimmed(peerNodes)
    {
      assert Trimmed(peerNodes)[i] == TrimSpace(peerNodes[i]);
    }
  }
}
