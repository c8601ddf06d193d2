/** The cache of database handles by URI, and the failover loops over the configured hosts. */
module HandleCache {
  import opened Wrappers

  type Handle = nat

  /** How the driver and the server behave in one attempt. */
  datatype Attempt = Attempt(opens: bool, pings: bool)

  type Known = map<string, Handle>

  /** An attempt succeeds when there is a handle, cached or newly opened, and the server answers. */
  predicate Succeeds(known: Known, uri: string, a: Attempt) {
    (uri in known || a.opens) && a.pings
  }

  /** The cached URIs after the first `n` attempts all failed: a failing attempt leaves its URI uncached. */
  function CachedAfter(known: Known, uris: seq<string>, n: nat): Known
    requires n <= |uris|
  {
    known - set i | 0 <= i < n :: uris[i]
  }

  lemma CachedAfterNext(known: Known, uris: seq<string>, i: nat)
    requires i < |uris|
    ensures CachedAfter(known, uris, i + 1) == CachedAfter(known, uris, i) - {uris[i]}
  {
    assert (set k | 0 <= k < i + 1 :: uris[k]) == (set k | 0 <= k < i :: uris[k]) + {uris[i]};
  }

  /** Attempt `i` is the first to succeed. */
  predicate FirstSuccess(known: Known, uris: seq<string>, attempts: seq<Attempt>, i: nat)
    requires |attempts| == |uris|
  {
    && i < |uris| && Succeeds(CachedAfter(known, uris, i), uris[i], attempts[i])
    && forall j: nat :: j < i ==> !Succeeds(CachedAfter(known, uris, j), uris[j], attempts[j])
  }

  predicate NoSuccess(known: Known, uris: seq<string>, attempts: seq<Attempt>)
    requires |attempts| == |uris|
  {
    forall j: nat :: j < |uris| ==> !Succeeds(CachedAfter(known, uris, j), uris[j], attempts[j])
  }

  /** What a failover loop may lead to: the first attempt to succeed decides, and those before it have left their
      URIs uncached; when none succeeds, there is no handle and no URI of the list stays cached. */
  ghost predicate Outcome(before: Known, uris: seq<string>, attempts: seq<Attempt>,
                          db: Option<Handle>, fromCache: bool, after: Known)
    requires |attempts| == |uris|
  {
    match db
    case None => NoSuccess(before, uris, attempts) && after == CachedAfter(before, uris, |uris|) && !fromCache
    case Some(handle) =>
      exists i: nat :: FirstSuccess(before, uris, attempts, i) && Decided(CachedAfter(before, uris, i), uris[i], handle, fromCache, after)
  }

  /** The successful attempt finds or caches the handle and touches no other URI. */
  ghost predicate Decided(tried: Known, uri: string, handle: Handle, fromCache: bool, after: Known) {
    && uri in after && after[uri] == handle && after - {uri} == tried - {uri}
    && (fromCache <==> uri in tried)
    && (fromCache ==> after == tried)
  }

  /** Different URIs never share a handle. */
  ghost predicate Injective(known: Known) {
    forall u, v :: u in known && v in known && u != v ==> known[u] != known[v]
  }

  lemma {:induction false} OneHandlePerUri(known: Known)
    requires Injective(known)
    ensures |known.Values| == |known|
  {
    if known != map[] {
      var u :| u in known;
      var rest := known - {u};
      OneHandlePerUri(rest);
      assert known.Values == rest.Values + {known[u]} by {
        forall h | h in known.Values
          ensures h in rest.Values + {known[u]}
        {
          var v :| v in known && known[v] == h;
          assert v == u || (v in rest && rest[v] == h);
        }
        forall h | h in rest.Values
          ensures h in known.Values
        {
          var v :| v in rest && rest[v] == h;
          assert known[v] == h;
        }
      }
      assert known[u] !in rest.Values;
      assert known.Keys == rest.Keys + {u};
    }
  }

  predicate HeldFor(known: Known, u: string, h: Handle) {
    u in known && known[u] == h
  }

  /** The handles are exactly the cached ones. */
  ghost predicate Conserved(open: set<Handle>, known: Known) {
    && Injective(known)
    && (forall u :: u in known ==> known[u] in open)
    && (forall h :: h in open ==> exists u :: HeldFor(known, u, h))
  }

  lemma OpeningConserves(open: set<Handle>, known: Known, uri: string, h: Handle)
    requires Conserved(open, known) && uri !in known && h !in open
    ensures Conserved(open + {h}, known[uri := h])
  {
    var more := known[uri := h];
    assert HeldFor(more, uri, h);
    forall g | g in open
      ensures exists u :: HeldFor(more, u, g)
    {
      var u :| HeldFor(known, u, g);
      assert HeldFor(more, u, g);
    }
  }

  lemma ClosingConserves(open: set<Handle>, known: Known, uri: string)
    requires Conserved(open, known) && uri in known
    ensures Conserved(open - {known[uri]}, known - {uri})
  {
    forall g | g in open - {known[uri]}
      ensures exists u :: HeldFor(known - {uri}, u, g)
    {
      var u :| HeldFor(known, u, g);
      assert HeldFor(known - {uri}, u, g);
    }
  }

  /** Whether any attempt succeeds depends only on which of the tried URIs are cached. */
  lemma NoSuccessAgrees(a: Known, b: Known, uris: seq<string>, attempts: seq<Attempt>)
    requires |attempts| == |uris| && forall u :: u in uris ==> (u in a <==> u in b)
    ensures NoSuccess(a, uris, attempts) <==> NoSuccess(b, uris, attempts)
  {
    forall j: nat | j < |uris|
      ensures Succeeds(CachedAfter(a, uris, j), uris[j], attempts[j]) <==> Succeeds(CachedAfter(b, uris, j), uris[j], attempts[j])
    {
      assert uris[j] in uris;
    }
  }

  /** A failover loop does not touch URIs outside its list. */
  lemma OutcomeElsewhere(before: Known, uris: seq<string>, attempts: seq<Attempt>, db: Option<Handle>, fromCache: bool,
                         after: Known, u: string)
    requires |attempts| == |uris| && Outcome(before, uris, attempts, db, fromCache, after) && u !in uris
    ensures u in after <==> u in before
  {
    if db.Some? {
      var i: nat :| FirstSuccess(before, uris, attempts, i)
                    && Decided(CachedAfter(before, uris, i), uris[i], db.value, fromCache, after);
      assert u in after - {uris[i]} <==> u in CachedAfter(before, uris, i) - {uris[i]};
    }
  }

  /** The first loop finds a host, and the schema need not be created there or can be. */
  ghost predicate BareWorks(known: Known, bare: seq<string>, attempts: seq<Attempt>, createFails: bool)
    requires |attempts| == |bare|
  {
    exists i: nat :: FirstSuccess(known, bare, attempts, i) && (bare[i] in CachedAfter(known, bare, i) || !createFails)
  }

  /** What `failed` means in terms of the table of handles before the call. */
  lemma BareWorksIs(known: Known, bare: seq<string>, attempts: seq<Attempt>, createFails: bool,
                    db: Option<Handle>, fromCache: bool, after: Known)
    requires |attempts| == |bare| && Outcome(known, bare, attempts, db, fromCache, after)
    ensures BareWorks(known, bare, attempts, createFails) <==> db.Some? && (fromCache || !createFails)
  {
    if i: nat :| FirstSuccess(known, bare, attempts, i) && (bare[i] in CachedAfter(known, bare, i) || !createFails) {
      OutcomeIsFirst(known, bare, attempts, db, fromCache, after, i);
    }
  }

  class Connections {
    var knownDBs: Known
    var open: set<Handle>
    var next: Handle

    /** The open handles are exactly the cached ones. */
    ghost predicate Valid()
      reads this
    {
      && Conserved(open, knownDBs)
      && (forall h :: h in open ==> h < next)
    }

    constructor ()
      ensures Valid() && knownDBs == map[]
    {
      knownDBs, open, next := map[], {}, 0;
    }

    /** Returns the handle for a URI, from the cache or newly opened, if it answers a ping; a handle that does
        not is closed and forgotten. */
    method GetGenericDB(uri: string, a: Attempt) returns (db: Option<Handle>, fromCache: bool)
      requires Valid()
      modifies this
      ensures Valid()
      ensures db.Some? <==> (uri in old(knownDBs) || a.opens) && a.pings
      ensures db.Some? ==>
                && uri in knownDBs && knownDBs[uri] == db.value && db.value in open
                && (fromCache <==> uri in old(knownDBs))
                && knownDBs - {uri} == old(knownDBs) - {uri}
                && (fromCache ==> knownDBs == old(knownDBs) && open == old(open))
      ensures db.None? ==> knownDBs == old(knownDBs) - {uri} && !fromCache
    {
      var cached := uri in knownDBs;
      if !cached {
        if a.opens {
          OpeningConserves(open, knownDBs, uri, next);
          knownDBs := knownDBs[uri := next];
          open := open + {next};
          next := next + 1;
        } else {
          return None, cached;
        }
      }
      var handle := knownDBs[uri];
      if !a.pings {
        ClosingConserves(open, knownDBs, uri);
        open := open - {handle};
        knownDBs := knownDBs - {uri};
        return None, false;
      }
      db, fromCache := Some(handle), cached;
    }

    /** Tries the hosts in the order of the list and returns the first that works. */
    method OpenFirst(uris: seq<string>, attempts: seq<Attempt>) returns (db: Option<Handle>, fromCache: bool)
      requires Valid() && uris != [] && |attempts| == |uris|
      modifies this
      ensures Valid()
      ensures Outcome(old(knownDBs), uris, attempts, db, fromCache, knownDBs)
    {
      db, fromCache := None, false;
      for i := 0 to |uris|
        invariant Valid() && db.None? && !fromCache && knownDBs == CachedAfter(old(knownDBs), uris, i)
        invariant forall j: nat :: j < i ==> !Succeeds(CachedAfter(old(knownDBs), uris, j), uris[j], attempts[j])
      {
        db, fromCache := GetGenericDB(uris[i], attempts[i]);
        if db.Some? {
          assert FirstSuccess(old(knownDBs), uris, attempts, i);
          return;
        }
        CachedAfterNext(old(knownDBs), uris, i);
      }
    }

    /** Opens the backend database: first without a schema, to create it the first time, then with it. What the
        first loop leads to is returned in `bareDb`, `bareCached` and `middle`. The failure of the second loop
        is not reported. */
    method OpenDb(bare: seq<string>, bareAttempts: seq<Attempt>, createFails: bool,
                  full: seq<string>, fullAttempts: seq<Attempt>)
      returns (db: Option<Handle>, failed: bool, ghost bareDb: Option<Handle>, ghost bareCached: bool, ghost middle: Known)
      requires Valid() && bare != [] && |bareAttempts| == |bare| && full != [] && |fullAttempts| == |full|
      modifies this
      ensures Valid()
      ensures Outcome(old(knownDBs), bare, bareAttempts, bareDb, bareCached, middle)
      ensures failed <==> bareDb.None? || (!bareCached && createFails)
      ensures failed ==> db == bareDb && knownDBs == middle
      ensures !failed ==> exists fullCached :: Outcome(middle, full, fullAttempts, db, fullCached, knownDBs)
      ensures failed <==> !BareWorks(old(knownDBs), bare, bareAttempts, createFails)
      ensures (forall u :: u in bare ==> u !in full) ==>
                (!failed && db.None? <==> BareWorks(old(knownDBs), bare, bareAttempts, createFails)
                                           && NoSuccess(old(knownDBs), full, fullAttempts))
    {
      var fromCache;
      db, fromCache := OpenFirst(bare, bareAttempts);
      bareDb, bareCached, middle := db, fromCache, knownDBs;
      BareWorksIs(old(knownDBs), bare, bareAttempts, createFails, db, fromCache, middle);
      if db.None? {
        failed := true;
        return;
      }
      if !fromCache && createFails {
        failed := true;
        return;
      }
      db, fromCache := OpenFirst(full, fullAttempts);
      failed := false;
      OutcomeIsFirst(middle, full, fullAttempts, db, fromCache, knownDBs, 0);
      if forall u :: u in bare ==> u !in full {
        forall u | u in full
          ensures u in middle <==> u in old(knownDBs)
        {
          OutcomeElsewhere(old(knownDBs), bare, bareAttempts, bareDb, bareCached, middle, u);
        }
        NoSuccessAgrees(middle, old(knownDBs), full, fullAttempts);
      }
    }
  }

  /** The outcome is decided by the attempts: a handle if and only if one succeeds, and then that of the first
      which does. */
  lemma OutcomeIsFirst(before: Known, uris: seq<string>, attempts: seq<Attempt>, db: Option<Handle>, fromCache: bool,
                       after: Known, i: nat)
    requires |attempts| == |uris| && Outcome(before, uris, attempts, db, fromCache, after)
    ensures db.None? <==> NoSuccess(before, uris, attempts)
    ensures FirstSuccess(before, uris, attempts, i) ==>
              db.Some? && Decided(CachedAfter(before, uris, i), uris[i], db.value, fromCache, after)
  {
    if db.Some? {
      var k: nat :| FirstSuccess(before, uris, attempts, k)
                    && Decided(CachedAfter(before, uris, k), uris[k], db.value, fromCache, after);
      assert FirstSuccess(before, uris, attempts, i) ==> !(i < k) && !(k < i);
    }
  }

  /** When every host fails, none of them stays cached. */
  lemma AllFailedNoneCached(known: Known, uris: seq<string>, u: string)
    requires u in uris
    ensures u !in CachedAfter(known, uris, |uris|)
  {
    var i :| 0 <= i < |uris| && uris[i] == u;
  }

  /** The first opening of the database reports no error and yet hands out no handle exactly when a host answers
      without a schema, the schema is there or can be created, and no host answers with it. */
  method NoErrorNoHandle(bare: seq<string>, bareAttempts: seq<Attempt>, createFails: bool,
                         full: seq<string>, fullAttempts: seq<Attempt>)
    returns (db: Option<Handle>, failed: bool)
    requires bare != [] && |bareAttempts| == |bare| && full != [] && |fullAttempts| == |full|
    requires forall u :: u in bare ==> u !in full
    ensures !failed && db.None? <==> BareWorks(map[], bare, bareAttempts, createFails) && NoSuccess(map[], full, fullAttempts)
  {
    var c := new Connections();
    ghost var bareDb, bareCached, middle;
    db, failed, bareDb, bareCached, middle := c.OpenDb(bare, bareAttempts, createFails, full, fullAttempts);
  }

  /** For instance a single host that loses its schema between the two loops. */
  lemma LosesSchema(bare: string, full: string)
    ensures BareWorks(map[], [bare], [Attempt(true, true)], false) && NoSuccess(map[], [full], [Attempt(true, false)])
  {
    assert FirstSuccess(map[], [bare], [Attempt(true, true)], 0);
  }
}
