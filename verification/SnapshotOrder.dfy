/** Snapshot metadata, its order, and which snapshots a reap keeps. */
module SnapshotOrder {
  import opened Bytes
  import opened Wrappers
  import opened SnapshotNames

  /** `crc` is None until the snapshot is finalized. */
  datatype Meta = Meta(id: string, term: nat, index: nat, peers: seq<byte>, size: nat, crc: Option<bv64>)

  /** The order of snapshots by term, then index, then name. */
  predicate Less(a: Meta, b: Meta) {
    if a.term != b.term then a.term < b.term
    else if a.index != b.index then a.index < b.index
    else StringLess(a.id, b.id)
  }

  /** `a` was taken at a later point of the log than `b`. */
  predicate Newer(a: Meta, b: Meta) {
    a.term > b.term || (a.term == b.term && a.index > b.index)
  }

  /** The order is total on snapshots with different names. */
  lemma LessTotal(a: Meta, b: Meta)
    ensures a.id != b.id ==> Less(a, b) || Less(b, a)
    ensures !(Less(a, b) && Less(b, a)) && !Less(a, a)
  {
    StringLessTotal(a.id, b.id);
    StringLessTotal(a.id, a.id);
  }

  lemma LessTransitive(a: Meta, b: Meta, c: Meta)
    requires Less(a, b) && Less(b, c)
    ensures Less(a, c)
  {
    if a.term == b.term == c.term && a.index == b.index == c.index {
      StringLessTransitive(a.id, b.id, c.id);
    }
  }

  /** Within one term and index, two snapshots are ordered by their age if and only if their timestamps are in
      step. */
  lemma LessIsAge(a: Meta, b: Meta, m: nat, n: nat)
    requires a.term == b.term && a.index == b.index
    requires a.id == SnapshotName(a.term, a.index, m) && b.id == SnapshotName(b.term, b.index, n)
    ensures (Less(a, b) <==> m < n) <==> InStep(m, n)
  {
    NameOrderIsTimeOrder(a.term, a.index, m, n);
  }

  // ---------------------------------------------------------------------------------------------
  // Listings: newest first

  ghost predicate Descending(s: seq<Meta>) {
    forall i, j :: 0 <= i < j < |s| ==> Less(s[j], s[i])
  }

  function Elements<T>(s: seq<T>): set<T> {
    set x | x in s
  }

  ghost predicate DistinctIds(p: set<Meta>) {
    forall a, b :: a in p && b in p && a.id == b.id ==> a == b
  }

  /** `s` lists exactly the snapshots of `p`, newest first. */
  ghost predicate IsListing(s: seq<Meta>, p: set<Meta>) {
    Descending(s) && Elements(s) == p
  }

  /** The number of snapshots of `p` ordered after `m`: its position in a listing. */
  ghost function Rank(m: Meta, p: set<Meta>): nat {
    |set x | x in p && Less(m, x)|
  }

  /** The first `n` snapshots of `p` in descending order. */
  ghost function Top(p: set<Meta>, n: nat): set<Meta> {
    set m | m in p && Rank(m, p) < n
  }

  lemma {:induction false} ElementsSize(s: seq<Meta>)
    requires Descending(s)
    ensures |Elements(s)| == |s|
  {
    if s != [] {
      var front, last := s[..|s| - 1], s[|s| - 1];
      ElementsSize(front);
      assert Elements(s) == Elements(front) + {last};
      if last in front {
        LessTotal(last, last);
      }
    }
  }

  /** In a listing, the position of a snapshot is its rank. */
  lemma RankIsPosition(s: seq<Meta>, p: set<Meta>, i: nat)
    requires IsListing(s, p) && i < |s|
    ensures Rank(s[i], p) == i
  {
    var above := set x | x in p && Less(s[i], x);
    assert above == Elements(s[..i]) by {
      forall x | x in above
        ensures x in s[..i]
      {
        assert x in Elements(s);
        var j :| 0 <= j < |s| && s[j] == x;
        LessTotal(s[i], s[j]);
      }
      forall x | x in s[..i]
        ensures x in above
      {
        var j :| 0 <= j < i && s[j] == x;
        assert x in Elements(s);
      }
    }
    assert Descending(s[..i]);
    ElementsSize(s[..i]);
  }

  /** The first `n` elements of a listing are the top `n` snapshots. */
  lemma ListingTop(s: seq<Meta>, p: set<Meta>, n: nat)
    requires IsListing(s, p)
    ensures Elements(if n <= |s| then s[..n] else s) == Top(p, n)
  {
    var head := if n <= |s| then s[..n] else s;
    forall m
      ensures m in head <==> m in Top(p, n)
    {
      if m in head {
        var i :| 0 <= i < |head| && head[i] == m;
        assert s[i] in Elements(s);
        RankIsPosition(s, p, i);
      }
      if m in Top(p, n) {
        assert m in Elements(s);
        var i :| 0 <= i < |s| && s[i] == m;
        RankIsPosition(s, p, i);
        assert head[i] == m;
      }
    }
  }

  /** So a listing is determined by the snapshots it lists. */
  lemma {:induction false} ListingUnique(s: seq<Meta>, t: seq<Meta>, p: set<Meta>)
    requires IsListing(s, p) && IsListing(t, p)
    ensures s == t
  {
    ElementsSize(s);
    ElementsSize(t);
    forall i | 0 <= i < |s|
      ensures s[i] == t[i]
    {
      assert s[i] in Elements(s) && s[i] in Elements(t);
      var j :| 0 <= j < |t| && t[j] == s[i];
      RankIsPosition(s, p, i);
      RankIsPosition(t, p, j);
    }
  }

  // ---------------------------------------------------------------------------------------------
  // Sorting

  ghost predicate IdsDiffer(m: Meta, s: seq<Meta>) {
    forall x :: x in s ==> x.id != m.id
  }

  /** Puts one snapshot into its place in a descending sequence. */
  method Insert(s: seq<Meta>, m: Meta) returns (r: seq<Meta>)
    requires Descending(s) && IdsDiffer(m, s)
    ensures Descending(r) && Elements(r) == Elements(s) + {m}
  {
    var i := 0;
    while i < |s| && Less(m, s[i])
      invariant 0 <= i <= |s|
      invariant forall k :: 0 <= k < i ==> Less(m, s[k])
    {
      i := i + 1;
    }
    r := s[..i] + [m] + s[i..];
    assert Elements(r) == Elements(s) + {m} by {
      assert s == s[..i] + s[i..];
      assert forall x :: x in r <==> x in s[..i] || x == m || x in s[i..];
    }
    if i < |s| {
      assert s[i] in s;
      LessTotal(m, s[i]);
    }
    forall a, b | 0 <= a < b < |r|
      ensures Less(r[b], r[a])
    {
      InsertKeepsOrder(s, m, i, a, b);
    }
  }

  lemma InsertKeepsOrder(s: seq<Meta>, m: Meta, i: nat, a: nat, b: nat)
    requires Descending(s) && i <= |s| && a < b < |s| + 1
    requires forall k :: 0 <= k < i ==> Less(m, s[k])
    requires i < |s| ==> Less(s[i], m)
    ensures var r := s[..i] + [m] + s[i..]; Less(r[b], r[a])
  {
    if a == i && b - 1 > i {
      LessTransitive(s[b - 1], s[i], m);
    }
  }

  // ---------------------------------------------------------------------------------------------
  // What a reap keeps

  /** The snapshots left when those newer than the current one have been dropped. Removal does not work for
      the names in `stuck`. */
  ghost function NotNewer(p: set<Meta>, current: Meta, stuck: set<string>): set<Meta> {
    set m | m in p && (!Newer(m, current) || m.id in stuck)
  }

  ghost function Trimmed(p: set<Meta>, retain: nat, stuck: set<string>): set<Meta> {
    set m | m in p && (m in Top(p, retain) || m.id in stuck)
  }

  ghost function Reaped(p: set<Meta>, current: Meta, retain: nat, stuck: set<string>): set<Meta> {
    Trimmed(NotNewer(p, current, stuck), retain, stuck)
  }

  /** When every removal works, exactly the top `retain` of the snapshots that are not newer than the
      current one remain. */
  lemma ReapExact(p: set<Meta>, current: Meta, retain: nat)
    ensures Reaped(p, current, retain, {}) == Top((set m | m in p && !Newer(m, current)), retain)
  {
    assert NotNewer(p, current, {}) == set m | m in p && !Newer(m, current);
  }

  /** What a reap keeps, said in terms, indices and names: of the snapshots that are not later in the log than the
      current one, and those that cannot be removed, it keeps those with fewer than `retain` others after them, and
      again those that cannot be removed. */
  lemma ReapByFields(p: set<Meta>, current: Meta, retain: nat, stuck: set<string>, m: Meta, bounded: set<Meta>, after: set<Meta>)
    requires forall x :: x in bounded <==>
               x in p && (x.term < current.term || (x.term == current.term && x.index <= current.index) || x.id in stuck)
    requires forall x :: x in after <==>
               x in bounded && (m.term < x.term || (m.term == x.term && m.index < x.index)
                                || (m.term == x.term && m.index == x.index && StringLess(m.id, x.id)))
    ensures m in Reaped(p, current, retain, stuck) <==> m in bounded && (|after| < retain || m.id in stuck)
  {
    assert bounded == NotNewer(p, current, stuck);
    assert (set x | x in bounded && Less(m, x)) == after;
    assert Rank(m, bounded) == |after|;
  }

  /** A snapshot at an earlier point of the log is not dropped for that. */
  lemma OlderIsKept(older: Meta, current: Meta, retain: nat)
    requires older.term < current.term || (older.term == current.term && older.index < current.index)
    requires retain >= 2
    ensures older in Reaped({older, current}, current, retain, {})
  {
    LessTotal(older, older);
    ReapByFields({older, current}, current, retain, {}, older, {older, current}, {current});
  }

  /** The snapshots at the same term and index that are ordered after this one. */
  ghost function Shadowing(m: Meta, p: set<Meta>): set<Meta> {
    set x | x in p && x.term == m.term && x.index == m.index && StringLess(m.id, x.id)
  }

  /** The snapshot just closed survives its own reap exactly when fewer than `retain` others share its term
      and index under a greater name. */
  lemma ClosedSurvives(p: set<Meta>, current: Meta, retain: nat)
    requires current in p
    ensures current in Reaped(p, current, retain, {}) <==> |Shadowing(current, p)| < retain
  {
    var q := set m | m in p && !Newer(m, current);
    ReapExact(p, current, retain);
    assert (set x | x in q && Less(current, x)) == Shadowing(current, p);
    assert Rank(current, q) == |Shadowing(current, p)|;
  }
}
