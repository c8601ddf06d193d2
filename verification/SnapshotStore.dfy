/** The file snapshot store: a directory of published snapshots `name/` and unfinished ones `name.tmp/`, each
    holding a metadata file and a state file. */
module SnapshotStore {
  import opened Bytes
  import opened Wrappers
  import opened SnapshotNames
  import opened SnapshotOrder
  import opened Crc64

  /** The capacity of the write buffer in front of the state file. */
  const BUFFER_SIZE := 4096

  /** One snapshot directory. A file that does not exist, or metadata that cannot be read, is None. */
  datatype Dir = Dir(meta: Option<Meta>, state: Option<seq<byte>>)

  type Dirs = map<string, Dir>

  predicate IsTmp(name: string) {
    HasSuffix(name, TMP_SUFFIX)
  }

  /** The metadata found in the directories that are not temporary. */
  ghost function Published(dirs: Dirs): set<Meta> {
    set d | d in dirs && !IsTmp(d) && dirs[d].meta.Some? :: dirs[d].meta.value
  }

  /** A directory is named after its own snapshot and holds the state its checksum speaks of. */
  ghost predicate Complete(d: string, dir: Dir) {
    && dir.meta.Some? && dir.state.Some?
    && dir.meta.value.id == d
    && dir.meta.value.size == |dir.state.value|
    && dir.meta.value.crc == Some(Checksum(dir.state.value))
  }

  /** Readable metadata in a directory that is not temporary names that directory. Directories whose metadata cannot
      be read may be there as well; they are not listed. */
  ghost predicate Sound(dirs: Dirs) {
    forall d :: d in dirs && !IsTmp(d) && dirs[d].meta.Some? ==> dirs[d].meta.value.id == d
  }

  /** No published snapshot is damaged. */
  ghost predicate Intact(dirs: Dirs) {
    forall d :: d in dirs && !IsTmp(d) && dirs[d].meta.Some? ==> Complete(d, dirs[d])
  }

  lemma PublishedDistinct(dirs: Dirs)
    requires Sound(dirs)
    ensures DistinctIds(Published(dirs))
    ensures forall m :: m in Published(dirs) <==> (m.id in dirs && !IsTmp(m.id) && dirs[m.id].meta == Some(m))
  {
    forall m
      ensures m in Published(dirs) <==> (m.id in dirs && !IsTmp(m.id) && dirs[m.id].meta == Some(m))
    {
      if m in Published(dirs) {
        var d :| d in dirs && !IsTmp(d) && dirs[d].meta.Some? && dirs[d].meta.value == m;
        assert m.id == d;
      }
    }
  }

  /** Nothing outside the temporary directories has changed. */
  ghost predicate SamePublished(before: Dirs, after: Dirs) {
    forall d :: !IsTmp(d) ==> (d in before <==> d in after) && (d in before ==> before[d] == after[d])
  }

  lemma SamePublishedKeeps(before: Dirs, after: Dirs)
    requires SamePublished(before, after)
    ensures Published(before) == Published(after) && (Sound(before) ==> Sound(after)) && (Intact(before) ==> Intact(after))
  {
    forall m
      ensures m in Published(before) <==> m in Published(after)
    {
      if m in Published(before) {
        var d :| d in before && !IsTmp(d) && before[d].meta.Some? && before[d].meta.value == m;
        assert d in after && after[d] == before[d];
      }
      if m in Published(after) {
        var d :| d in after && !IsTmp(d) && after[d].meta.Some? && after[d].meta.value == m;
        assert d in before && after[d] == before[d];
      }
    }
  }

  /** Nothing has changed but the state file of one directory. */
  ghost predicate OnlyStateChanged(before: Dirs, after: Dirs, d: string) {
    && d in before
    && exists data :: after == before[d := before[d].(state := Some(data))]
  }

  lemma OnlyStateChangedRefl(dirs: Dirs, d: string)
    requires d in dirs && dirs[d].state.Some?
    ensures OnlyStateChanged(dirs, dirs, d)
  {
    assert dirs == dirs[d := dirs[d].(state := Some(dirs[d].state.value))];
  }

  lemma OnlyStateChangedTrans(a: Dirs, b: Dirs, c: Dirs, d: string)
    requires OnlyStateChanged(a, b, d) && OnlyStateChanged(b, c, d)
    ensures OnlyStateChanged(a, c, d)
  {
    var data :| c == b[d := b[d].(state := Some(data))];
    assert c == a[d := a[d].(state := Some(data))];
  }

  lemma TakeInOrder(start: seq<byte>, b: seq<byte>, n: nat, k: nat)
    requires n + k <= |b|
    ensures (start + b[..n]) + b[n..][..k] == start + b[..n + k]
  {
  }

  lemma OnlyStateChangedKeeps(before: Dirs, after: Dirs, d: string)
    requires OnlyStateChanged(before, after, d) && IsTmp(d)
    ensures SamePublished(before, after)
  {
  }

  /** Whatever happens to a temporary directory, the published snapshots stay the same. */
  lemma TouchTmp(before: Dirs, tmp: string, dir: Dir)
    requires IsTmp(tmp)
    ensures SamePublished(before, before[tmp := dir]) && SamePublished(before, before - {tmp})
    ensures Published(before[tmp := dir]) == Published(before) == Published(before - {tmp})
    ensures Sound(before) ==> Sound(before[tmp := dir]) && Sound(before - {tmp})
    ensures before[tmp := dir] - {tmp} == before - {tmp}
  {
    SamePublishedKeeps(before, before[tmp := dir]);
    SamePublishedKeeps(before, before - {tmp});
  }

  /** Removing directories by name removes exactly the snapshots with these names. */
  lemma RemovalPublished(dirs: Dirs, names: set<string>)
    requires Sound(dirs)
    ensures Sound(dirs - names)
    ensures Published(dirs - names) == set m | m in Published(dirs) && m.id !in names
  {
    PublishedDistinct(dirs);
    PublishedDistinct(dirs - names);
  }

  /** The disk under the store's path. Renaming and removing a directory are single steps. */
  class Disk {
    var dirs: Dirs

    constructor ()
      ensures dirs == map[]
    {
      dirs := map[];
    }
  }

  datatype OpenError = NoMetadata | NoState | CrcMismatch

  /** Which steps of an operation fail. Failing is also how an operation stops half-way. Metadata is written through
      a buffer whose last flush is deferred: when only that flush fails, which is `flushMeta`, the metadata is lost
      and no error is reported. */
  datatype CreateFaults = CreateFaults(mkdir: bool, writeMeta: bool, flushMeta: bool, createState: bool)

  /** What goes wrong in a reap: the first or the second scan of the directory fails, and the directories with the
      names in `stuck` cannot be removed. */
  datatype ReapFaults = ReapFaults(firstScan: bool, secondScan: bool, stuck: set<string>)

  const UNDISTURBED := ReapFaults(false, false, {})

  datatype FinalizeFault = NoFault | FlushFails | CloseFails
  datatype CloseFaults = CloseFaults(finalize: FinalizeFault, writeMeta: bool, flushMeta: bool, rename: bool, reap: ReapFaults)
  datatype CancelFaults = CancelFaults(finalize: FinalizeFault, remove: bool)

  class FileSnapshotStore {
    const disk: Disk
    const retain: nat

    ghost predicate Valid()
      reads this, disk
    {
      retain >= 1 && Sound(disk.dirs)
    }

    constructor (disk: Disk, retain: nat)
      requires retain >= 1
      ensures this.disk == disk && this.retain == retain && (Valid() <==> Sound(disk.dirs))
    {
      this.disk, this.retain := disk, retain;
    }

    /** All published snapshots, newest first, unless the scan of the directory fails. It is scanned in an arbitrary
        order. */
    method GetSnapshots(scanFails: bool) returns (snapshots: seq<Meta>, failed: bool)
      requires Sound(disk.dirs)
      ensures failed <==> scanFails
      ensures !failed ==> IsListing(snapshots, Published(disk.dirs))
      ensures failed ==> snapshots == []
    {
      snapshots, failed := [], scanFails;
      if scanFails {
        return;
      }
      var names := disk.dirs.Keys;
      ghost var seen: Dirs := map[];
      PublishedDistinct(disk.dirs);
      while names != {}
        invariant names <= disk.dirs.Keys
        invariant Descending(snapshots)
        invariant forall m :: m in snapshots <==> m in Published(disk.dirs) && m.id !in names
        decreases names
      {
        var name :| name in names;
        names := names - {name};
        if !IsTmp(name) && disk.dirs[name].meta.Some? {
          var meta := disk.dirs[name].meta.value;
          assert meta.id == name;
          var grown := Insert(snapshots, meta);
          assert forall m :: m in grown <==> m in Elements(grown);
          assert forall m :: m in snapshots <==> m in Elements(snapshots);
          snapshots := grown;
        }
      }
      assert forall m :: m in snapshots <==> m in Published(disk.dirs);
    }

    /** The newest published snapshots, at most `retain` of them. */
    method List(scanFails: bool) returns (snapMeta: seq<Meta>, failed: bool)
      requires Valid()
      ensures failed <==> scanFails
      ensures !failed ==> Descending(snapMeta) && Elements(snapMeta) == Top(Published(disk.dirs), retain)
      ensures failed ==> snapMeta == []
    {
      var snapshots;
      snapshots, failed := GetSnapshots(scanFails);
      snapMeta := [];
      if failed {
        return;
      }
      ListingTop(snapshots, Published(disk.dirs), retain);
      for i := 0 to |snapshots|
        invariant snapMeta == snapshots[..i] && i < retain
      {
        snapMeta := snapMeta + [snapshots[i]];
        if |snapMeta| == retain {
          break;
        }
      }
    }

    /** Opens a snapshot by its name and verifies its checksum. */
    method Open(id: string) returns (r: Result<(Meta, seq<byte>), OpenError>)
      ensures id !in disk.dirs || disk.dirs[id].meta.None? ==> r == Err(NoMetadata)
      ensures id in disk.dirs && Complete(id, disk.dirs[id]) ==>
                r == Ok((disk.dirs[id].meta.value, disk.dirs[id].state.value))
      ensures id in disk.dirs && disk.dirs[id].meta.Some? && disk.dirs[id].state.None? ==> r == Err(NoState)
      ensures id in disk.dirs && disk.dirs[id].meta.Some? && disk.dirs[id].state.Some? ==>
                (r == Err(CrcMismatch) <==> disk.dirs[id].meta.value.crc != Some(Checksum(disk.dirs[id].state.value)))
      ensures r.Ok? ==> id in disk.dirs && disk.dirs[id] == Dir(Some(r.value.0), Some(r.value.1))
                        && r.value.0.crc == Some(Checksum(r.value.1))
    {
      if id !in disk.dirs || disk.dirs[id].meta.None? {
        return Err(NoMetadata);
      }
      var meta := disk.dirs[id].meta.value;
      if disk.dirs[id].state.None? {
        return Err(NoState);
      }
      var data := disk.dirs[id].state.value;
      if meta.crc != Some(Checksum(data)) {
        return Err(CrcMismatch);
      }
      r := Ok((meta, data));
    }

    /** Opens a snapshot one byte of whose state has been altered since it was completed. */
    method OpenAltered(id: string, front: seq<byte>, was: byte, now: byte, rest: seq<byte>)
      returns (r: Result<(Meta, seq<byte>), OpenError>)
      requires id in disk.dirs && disk.dirs[id].state == Some(front + [now] + rest) && was != now
      requires Complete(id, disk.dirs[id].(state := Some(front + [was] + rest)))
      ensures r == Err(CrcMismatch)
    {
      OneByteNoticed(front, was, now, rest);
      r := Open(id);
    }

    /** Starts a new snapshot in a temporary directory. Returns null when a step fails. */
    method Create(index: nat, term: nat, peers: seq<byte>, msec: nat, faults: CreateFaults)
      returns (sink: FileSnapshotSink?)
      requires Valid()
      modifies disk
      ensures Valid() && SamePublished(old(disk.dirs), disk.dirs)
      ensures Published(disk.dirs) == Published(old(disk.dirs))
      ensures sink == null <==> faults.mkdir || faults.writeMeta || faults.createState
      ensures sink != null ==>
                && fresh(sink) && sink.Valid() && sink.store == this && !sink.closed && sink.written == []
                && sink.meta == Meta(SnapshotName(term, index, msec), term, index, peers, 0, None)
                && disk.dirs == old(disk.dirs)[sink.DirName() := Dir(if faults.flushMeta then None else Some(sink.meta), Some([]))]
    {
      ghost var before := disk.dirs;
      var name := SnapshotName(term, index, msec);
      NameIsPermanent(term, index, msec);
      var tmp := name + TMP_SUFFIX;
      SamePublishedKeeps(before, before);
      if faults.mkdir {
        return null;
      }
      var dir := if tmp in disk.dirs then disk.dirs[tmp] else Dir(None, None);
      disk.dirs := disk.dirs[tmp := dir];
      TouchTmp(before, tmp, dir);
      dir := dir.(meta := None);
      var meta := Meta(name, term, index, peers, 0, None);
      if !faults.writeMeta && !faults.flushMeta {
        dir := dir.(meta := Some(meta));
      }
      disk.dirs := disk.dirs[tmp := dir];
      TouchTmp(before, tmp, dir);
      assert disk.dirs == before[tmp := dir];
      if faults.writeMeta || faults.createState {
        return null;
      }
      dir := dir.(state := Some([]));
      disk.dirs := disk.dirs[tmp := dir];
      TouchTmp(before, tmp, dir);
      assert disk.dirs == before[tmp := dir];
      sink := new FileSnapshotSink(this, name, meta);
    }

    /** Removes one snapshot directory, if that works. */
    method Remove(id: string, stuck: set<string>)
      modifies disk
      ensures disk.dirs == old(disk.dirs) - (if id in stuck then {} else {id})
    {
      if id !in stuck {
        disk.dirs := disk.dirs - {id};
      }
    }

    /** Removes the listed snapshots that are newer than the current one. */
    method DropNewer(snapshots: seq<Meta>, current: Meta, stuck: set<string>) returns (deprecatedSnapshotsReaped: bool)
      modifies disk
      ensures disk.dirs == old(disk.dirs) - NewerNames(snapshots, current, stuck)
      ensures deprecatedSnapshotsReaped <==> exists m :: m in snapshots && Newer(m, current)
    {
      deprecatedSnapshotsReaped := false;
      for i := 0 to |snapshots|
        invariant disk.dirs == old(disk.dirs) - NewerNames(snapshots[..i], current, stuck)
        invariant deprecatedSnapshotsReaped <==> exists m :: m in snapshots[..i] && Newer(m, current)
      {
        assert snapshots[..i + 1] == snapshots[..i] + [snapshots[i]];
        if Newer(snapshots[i], current) {
          Remove(snapshots[i].id, stuck);
          deprecatedSnapshotsReaped := true;
        }
      }
      assert snapshots[..|snapshots|] == snapshots;
    }

    /** Removes the listed snapshots from position `retain` on. */
    method Trim(snapshots: seq<Meta>, stuck: set<string>)
      modifies disk
      ensures disk.dirs == old(disk.dirs) - NamesFrom(snapshots, retain, stuck)
    {
      var i := retain;
      while i < |snapshots|
        invariant retain <= i
        invariant disk.dirs == old(disk.dirs) - NamesFrom(if i <= |snapshots| then snapshots[..i] else snapshots, retain, stuck)
      {
        assert snapshots[..i + 1] == snapshots[..i] + [snapshots[i]];
        Remove(snapshots[i].id, stuck);
        i := i + 1;
      }
      assert snapshots[..|snapshots|] == snapshots;
    }

    /** Drops the snapshots newer than the current one, then trims what is left to `retain`. It stops with an error
        when a scan of the directory fails; the second scan takes place only if there was something to drop. */
    method ReapSnapshots(current: Meta, faults: ReapFaults) returns (failed: bool)
      requires Valid()
      modifies disk
      ensures Valid()
      ensures failed <==> ReapFails(old(Published(disk.dirs)), current, faults)
      ensures Published(disk.dirs) == Left(old(Published(disk.dirs)), current, retain, faults)
      ensures disk.dirs == old(disk.dirs) - Unpublished(old(disk.dirs), disk.dirs)
    {
      ghost var start := disk.dirs;
      var snapshots;
      snapshots, failed := GetSnapshots(faults.firstScan);
      if failed {
        RemovedNames(start, start);
        return;
      }
      ListingMembers(snapshots, Published(start));
      var deprecatedSnapshotsReaped := DropNewer(snapshots, current, faults.stuck);
      DroppedAreNewer(start, snapshots, current, faults.stuck);
      if deprecatedSnapshotsReaped {
        snapshots, failed := GetSnapshots(faults.secondScan);
        if failed {
          RemovedNames(start, disk.dirs);
          return;
        }
      } else {
        NothingNewer(start, snapshots, current, faults.stuck);
      }
      ghost var middle := disk.dirs;
      Trim(snapshots, faults.stuck);
      TrimmedBeyondTop(middle, snapshots, retain, faults.stuck);
      RemovedNames(start, disk.dirs);
    }
  }

  /** Some snapshot is newer than the current one. */
  ghost predicate SomeNewer(p: set<Meta>, current: Meta) {
    exists m :: m in p && Newer(m, current)
  }

  ghost predicate ReapFails(p: set<Meta>, current: Meta, faults: ReapFaults) {
    faults.firstScan || (faults.secondScan && SomeNewer(p, current))
  }

  /** The snapshots left by a reap: all of them when the first scan fails, those that are not newer when the second
      does. */
  ghost function Left(p: set<Meta>, current: Meta, retain: nat, faults: ReapFaults): set<Meta> {
    if faults.firstScan then p
    else if ReapFails(p, current, faults) then NotNewer(p, current, faults.stuck)
    else Reaped(p, current, retain, faults.stuck)
  }

  ghost function NewerNames(snapshots: seq<Meta>, current: Meta, stuck: set<string>): set<string> {
    set m | m in snapshots && Newer(m, current) && m.id !in stuck :: m.id
  }

  ghost function NamesFrom(snapshots: seq<Meta>, n: nat, stuck: set<string>): set<string> {
    set k | n <= k < |snapshots| && snapshots[k].id !in stuck :: snapshots[k].id
  }

  /** The names of the snapshots published before and no longer after. */
  ghost function Unpublished(before: Dirs, after: Dirs): set<string> {
    set m | m in Published(before) && m !in Published(after) :: m.id
  }

  /** Opens a store; retaining nothing is refused, and so is a path that cannot be made or written to. */
  method NewFileSnapshotStore(disk: Disk, retain: int, mkdirFails: bool, permissionTestFails: bool)
    returns (store: FileSnapshotStore?)
    ensures store == null <==> retain < 1 || mkdirFails || permissionTestFails
    ensures store != null ==> store.disk == disk && store.retain == retain && (store.Valid() <==> Sound(disk.dirs))
  {
    if retain < 1 || mkdirFails || permissionTestFails {
      return null;
    }
    store := new FileSnapshotStore(disk, retain);
  }

  lemma ListingMembers(snapshots: seq<Meta>, p: set<Meta>)
    requires IsListing(snapshots, p)
    ensures forall m :: m in snapshots <==> m in p
  {
    assert forall m :: m in snapshots <==> m in Elements(snapshots);
  }

  lemma DroppedAreNewer(dirs: Dirs, snapshots: seq<Meta>, current: Meta, stuck: set<string>)
    requires Sound(dirs) && IsListing(snapshots, Published(dirs))
    ensures var left := dirs - NewerNames(snapshots, current, stuck);
            Sound(left) && Published(left) == NotNewer(Published(dirs), current, stuck)
    ensures forall d :: d in NewerNames(snapshots, current, stuck) ==> d in dirs && !IsTmp(d) && dirs[d].meta.Some?
  {
    ListingMembers(snapshots, Published(dirs));
    PublishedDistinct(dirs);
    RemovalPublished(dirs, NewerNames(snapshots, current, stuck));
  }

  lemma NothingNewer(dirs: Dirs, snapshots: seq<Meta>, current: Meta, stuck: set<string>)
    requires Sound(dirs) && IsListing(snapshots, Published(dirs))
    requires !exists m :: m in snapshots && Newer(m, current)
    ensures NotNewer(Published(dirs), current, stuck) == Published(dirs)
    ensures dirs - NewerNames(snapshots, current, stuck) == dirs
  {
    ListingMembers(snapshots, Published(dirs));
    assert NewerNames(snapshots, current, stuck) == {};
  }

  lemma TrimmedBeyondTop(dirs: Dirs, snapshots: seq<Meta>, retain: nat, stuck: set<string>)
    requires Sound(dirs) && IsListing(snapshots, Published(dirs))
    ensures var left := dirs - NamesFrom(snapshots, retain, stuck);
            Sound(left) && Published(left) == Trimmed(Published(dirs), retain, stuck)
    ensures forall d :: d in NamesFrom(snapshots, retain, stuck) ==> d in dirs && !IsTmp(d) && dirs[d].meta.Some?
  {
    ListingMembers(snapshots, Published(dirs));
    var kept := Published(dirs);
    PublishedDistinct(dirs);
    RemovalPublished(dirs, NamesFrom(snapshots, retain, stuck));
    forall m | m in kept
      ensures m.id !in NamesFrom(snapshots, retain, stuck) <==> m in Trimmed(kept, retain, stuck)
    {
      assert m in Elements(snapshots);
      var j :| 0 <= j < |snapshots| && snapshots[j] == m;
      RankIsPosition(snapshots, kept, j);
      if m.id in NamesFrom(snapshots, retain, stuck) {
        var k :| retain <= k < |snapshots| && snapshots[k].id !in stuck && snapshots[k].id == m.id;
        assert snapshots[k] in Elements(snapshots);
        RankIsPosition(snapshots, kept, k);
      }
    }
  }

  /** What is gone is exactly what is no longer published. */
  lemma RemovedNames(start: Dirs, end: Dirs)
    requires Sound(start) && Sound(end) && SubDirs(end, start)
    requires forall d :: d in start && d !in end ==> !IsTmp(d) && start[d].meta.Some?
    ensures end == start - Unpublished(start, end)
  {
    PublishedDistinct(start);
    PublishedDistinct(end);
    forall d
      ensures d in end <==> d in start && d !in Unpublished(start, end)
    {
      if d in start && d !in end {
        assert start[d].meta.value in Published(start);
      }
    }
  }

  ghost predicate SubDirs(a: Dirs, b: Dirs) {
    forall d :: d in a ==> d in b && a[d] == b[d]
  }

  /** A snapshot being written. What is written goes through a buffer into the state file and, in the same
      pieces, into the digest. */
  class FileSnapshotSink {
    const store: FileSnapshotStore
    const name: string
    var meta: Meta
    var buffered: seq<byte>
    var register: bv64
    var closed: bool
    var broken: bool
    ghost var written: seq<byte>

    function DirName(): (dir: string)
      ensures dir == name + ".tmp"
    {
      name + TMP_SUFFIX
    }

    ghost predicate Valid()
      reads this, store, store.disk
    {
      && store.Valid()
      && IsTmp(DirName()) && !IsTmp(name) && TrimSuffix(DirName(), TMP_SUFFIX) == name && meta.id == name
      && |buffered| <= BUFFER_SIZE
      && (!closed ==>
            && !broken
            && DirName() in store.disk.dirs && store.disk.dirs[DirName()].state.Some?
            && store.disk.dirs[DirName()].state.value + buffered == written
            && register == Feed(START, store.disk.dirs[DirName()].state.value))
    }

    constructor (store: FileSnapshotStore, name: string, meta: Meta)
      requires store.Valid()
      requires IsTmp(name + TMP_SUFFIX) && !IsTmp(name) && TrimSuffix(name + TMP_SUFFIX, TMP_SUFFIX) == name && meta.id == name
      requires name + TMP_SUFFIX in store.disk.dirs && store.disk.dirs[name + TMP_SUFFIX].state == Some([])
      ensures Valid() && this.store == store && this.name == name && this.meta == meta && !closed && written == []
    {
      this.store, this.name, this.meta := store, name, meta;
      buffered, register, closed, broken, written := [], START, false, false, [];
    }

    /** The state file as it is on disk. */
    ghost function OnDisk(): seq<byte>
      requires Valid() && !closed
      reads this, store, store.disk
    {
      store.disk.dirs[DirName()].state.value
    }

    /** Hands data that has been taken out of the buffer, or bypasses it, to the state file and the digest. */
    method Emit(data: seq<byte>)
      requires store.Valid() && IsTmp(DirName())
      requires DirName() in store.disk.dirs && store.disk.dirs[DirName()].state.Some?
      requires register == Feed(START, store.disk.dirs[DirName()].state.value)
      modifies this`register, store.disk
      ensures store.Valid() && SamePublished(old(store.disk.dirs), store.disk.dirs)
      ensures var dir := old(store.disk.dirs)[DirName()];
              store.disk.dirs == old(store.disk.dirs)[DirName() := dir.(state := Some(dir.state.value + data))]
      ensures register == Feed(START, store.disk.dirs[DirName()].state.value)
    {
      ghost var before := store.disk.dirs;
      var dir := store.disk.dirs[DirName()];
      FeedConcat(START, dir.state.value, data);
      store.disk.dirs := store.disk.dirs[DirName() := dir.(state := Some(dir.state.value + data))];
      register := Feed(register, data);
      SamePublishedKeeps(before, store.disk.dirs);
    }

    method Flush()
      requires Valid() && !closed
      modifies this`buffered, this`register, store.disk
      ensures Valid() && buffered == [] && OnDisk() == written
      ensures SamePublished(old(store.disk.dirs), store.disk.dirs)
      ensures store.disk.dirs == old(store.disk.dirs)[DirName() := old(store.disk.dirs)[DirName()].(state := Some(written))]
    {
      Emit(buffered);
      buffered := [];
      assert OnDisk() + [] == OnDisk();
    }

    /** Puts data that fits into the buffer. */
    method Keep(p: seq<byte>)
      requires Valid() && !closed && |p| <= BUFFER_SIZE - |buffered|
      modifies this`buffered, this`written
      ensures Valid() && written == old(written) + p
    {
      assert OnDisk() + (buffered + p) == (OnDisk() + buffered) + p;
      buffered := buffered + p;
      written := written + p;
    }

    /** Writes data past an empty buffer. */
    method Bypass(p: seq<byte>)
      requires Valid() && !closed && buffered == []
      modifies this`register, this`written, store.disk
      ensures Valid() && written == old(written) + p
      ensures OnlyStateChanged(old(store.disk.dirs), store.disk.dirs, DirName())
    {
      assert OnDisk() + [] == OnDisk();
      Emit(p);
      written := written + p;
      assert OnDisk() + [] == OnDisk();
    }

    /** One round of a write that does not fit the buffer: an empty buffer is bypassed, any other is topped
        up and flushed. Returns how much of `p` has been taken. */
    method Overflow(p: seq<byte>) returns (k: nat)
      requires Valid() && !closed && |p| > BUFFER_SIZE - |buffered|
      modifies this`buffered, this`register, this`written, store.disk
      ensures Valid() && k <= |p| && written == old(written) + p[..k] && buffered == []
      ensures k == 0 ==> |old(buffered)| > 0
      ensures OnlyStateChanged(old(store.disk.dirs), store.disk.dirs, DirName())
    {
      if |buffered| == 0 {
        Bypass(p);
        k := |p|;
        assert p[..k] == p;
      } else {
        k := BUFFER_SIZE - |buffered|;
        Keep(p[..k]);
        Flush();
      }
    }

    /** The rounds of a write until what is left fits the buffer. Returns how much of `b` has been taken. */
    method Drain(b: seq<byte>) returns (n: nat)
      requires Valid() && !closed
      modifies this`buffered, this`register, this`written, store.disk
      ensures Valid() && n <= |b| && |b| - n <= BUFFER_SIZE - |buffered| && written == old(written) + b[..n]
      ensures OnlyStateChanged(old(store.disk.dirs), store.disk.dirs, DirName())
    {
      ghost var start, before := written, store.disk.dirs;
      n := 0;
      assert start + b[..0] == start;
      OnlyStateChangedRefl(before, DirName());
      while |b| - n > BUFFER_SIZE - |buffered|
        invariant Valid() && n <= |b|
        invariant written == start + b[..n]
        invariant OnlyStateChanged(before, store.disk.dirs, DirName())
        decreases |b| - n, |buffered|
      {
        ghost var middle := store.disk.dirs;
        var k := Overflow(b[n..]);
        TakeInOrder(start, b, n, k);
        OnlyStateChangedTrans(before, middle, store.disk.dirs, DirName());
        n := n + k;
      }
    }

    /** Appends to an open snapshot. After the end of the snapshot the buffer goes on taking what fits, but nothing
        of it reaches the disk, and the first overflow breaks it for good. */
    method Write(b: seq<byte>) returns (n: nat, failed: bool)
      requires Valid()
      modifies this`buffered, this`register, this`written, this`broken, store.disk
      ensures Valid()
      ensures !closed ==> written == old(written) + b && n == |b| && !failed
                          && OnlyStateChanged(old(store.disk.dirs), store.disk.dirs, DirName())
      ensures closed ==> store.disk.dirs == old(store.disk.dirs) && written == old(written) && n <= |b|
                         && (failed <==> old(broken) || |b| > 4096 - |old(buffered)|) && (failed <==> broken)
                         && n == (if !failed then |b| else if old(broken) || |old(buffered)| == 0 then 0 else 4096 - |old(buffered)|)
                         && buffered == old(buffered) + b[..n]
    {
      if closed {
        n, failed := WriteClosed(b);
        return;
      }
      n := Drain(b);
      TakeInOrder(old(written), b, n, |b| - n);
      assert b[n..][..|b| - n] == b[n..] && b[..|b|] == b;
      Keep(b[n..]);
      n, failed := |b|, false;
    }

    method WriteClosed(b: seq<byte>) returns (n: nat, failed: bool)
      requires Valid() && closed
      modifies this`buffered, this`broken
      ensures Valid() && n <= |b|
      ensures (failed <==> old(broken) || |b| > BUFFER_SIZE - |old(buffered)|) && (failed <==> broken)
      ensures n == if !failed then |b| else if old(broken) || |old(buffered)| == 0 then 0 else BUFFER_SIZE - |old(buffered)|
      ensures buffered == old(buffered) + b[..n]
    {
      if broken {
        return 0, true;
      }
      if |b| > BUFFER_SIZE - |buffered| {
        n := if |buffered| == 0 then 0 else BUFFER_SIZE - |buffered|;
        buffered := buffered + b[..n];
        broken := true;
        return n, true;
      }
      buffered := buffered + b;
      n, failed := |b|, false;
    }

    /** Flushes the buffer and completes the metadata. */
    method Finalize()
      requires Valid() && !closed
      modifies this`buffered, this`register, this`meta, store.disk
      ensures Valid() && buffered == [] && OnDisk() == written
      ensures SamePublished(old(store.disk.dirs), store.disk.dirs)
      ensures store.disk.dirs == old(store.disk.dirs)[DirName() := old(store.disk.dirs)[DirName()].(state := Some(written))]
      ensures meta == old(meta).(size := |written|, crc := Some(Checksum(written)))
    {
      Flush();
      meta := meta.(size := |store.disk.dirs[DirName()].state.value|, crc := Some(Sum(register)));
    }

    /** The directory that Close moves into place. */
    ghost function Finished(faults: CloseFaults): Dir
      reads this
    {
      Dir(if faults.flushMeta then None else Some(meta), Some(written))
    }

    /** Writes the completed metadata and moves the directory into place. Fails, leaving the published
        snapshots alone, if a step fails or the name is already taken. */
    method Publish(faults: CloseFaults) returns (failed: bool)
      requires Valid() && !closed && buffered == [] && meta.size == |written| && meta.crc == Some(Checksum(written))
      modifies store.disk, this`closed
      ensures closed && Valid()
      ensures failed <==> faults.writeMeta || faults.rename || name in old(store.disk.dirs)
      ensures failed ==> SamePublished(old(store.disk.dirs), store.disk.dirs)
      ensures !failed ==> store.disk.dirs == (old(store.disk.dirs) - {DirName()})[name := Finished(faults)]
    {
      closed := true;
      ghost var before := store.disk.dirs;
      var dir := store.disk.dirs[DirName()];
      assert dir.state == Some(written) by {
        assert dir.state.value + [] == dir.state.value;
      }
      if faults.writeMeta {
        store.disk.dirs := store.disk.dirs[DirName() := dir.(meta := None)];
        SamePublishedKeeps(before, store.disk.dirs);
        return true;
      }
      store.disk.dirs := store.disk.dirs[DirName() := dir.(meta := if faults.flushMeta then None else Some(meta))];
      var newPath := TrimSuffix(DirName(), TMP_SUFFIX);
      if faults.rename || newPath in store.disk.dirs {
        SamePublishedKeeps(before, store.disk.dirs);
        return true;
      }
      var moved := store.disk.dirs[DirName()];
      store.disk.dirs := (store.disk.dirs - {DirName()})[newPath := moved];
      failed := false;
    }

    /** A step up to the rename fails. */
    ghost predicate StopsEarly(faults: CloseFaults)
      reads this, store, store.disk
    {
      faults.finalize != NoFault || faults.writeMeta || faults.rename || name in store.disk.dirs
    }

    /** Ends the snapshot successfully: publishes it and reaps old ones. A second call, or one after Cancel,
        does nothing. The error of the reap is reported as if it were one of closing. */
    method Close(faults: CloseFaults) returns (failed: bool)
      requires Valid()
      modifies this`closed, this`broken, this`buffered, this`register, this`meta, store.disk
      ensures Valid() && closed
      ensures old(closed) ==> !failed && store.disk.dirs == old(store.disk.dirs) && meta == old(meta)
      ensures !old(closed) && old(StopsEarly(faults)) ==>
                failed && SamePublished(old(store.disk.dirs), store.disk.dirs)
                && Published(store.disk.dirs) == Published(old(store.disk.dirs))
      ensures !old(closed) && !old(StopsEarly(faults)) ==>
                && meta == old(meta).(size := |written|, crc := Some(Checksum(written)))
                && ClosedInto(old(store.disk.dirs), store.disk.dirs, DirName(), name, Finished(faults), meta, store.retain, faults.reap)
                && (failed <==> ReapFails(old(Published(store.disk.dirs)), meta, faults.reap))
      ensures !old(closed) && failed && !faults.flushMeta ==>
                (Published(store.disk.dirs) == Published(old(store.disk.dirs)) <==> old(StopsEarly(faults)))
    {
      ghost var before := store.disk.dirs;
      SamePublishedKeeps(before, before);
      if closed {
        return false;
      }
      if faults.finalize != NoFault {
        StopFinalizing(faults.finalize);
        return true;
      }
      Finalize();
      ghost var flushed := store.disk.dirs;
      TouchTmp(before, DirName(), flushed[DirName()]);
      failed := Publish(faults);
      ghost var moved := store.disk.dirs;
      if failed {
        SamePublishedTrans(before, flushed, moved);
        return;
      }
      assert moved == (before - {DirName()})[name := Finished(faults)];
      MovePublishes(before, moved, DirName(), name, Finished(faults));
      failed := store.ReapSnapshots(meta, faults.reap);
      ReapedAfterMove(before, moved, store.disk.dirs, DirName(), name, Finished(faults));
      CurrentNotNewer(Published(before), Finished(faults), meta);
      if failed && !faults.flushMeta {
        FailedReapKeeps(Published(before) + {meta}, meta, store.retain, faults.reap);
        assert meta in Published(store.disk.dirs) && meta !in Published(before);
      }
    }

    /** Closing the open handles fails: either the buffer cannot be flushed, which breaks it, or the file cannot be
        closed after that. */
    method StopFinalizing(fault: FinalizeFault)
      requires Valid() && !closed && fault != NoFault
      modifies this`closed, this`broken, this`buffered, this`register, store.disk
      ensures Valid() && closed && (broken <==> fault == FlushFails)
      ensures SamePublished(old(store.disk.dirs), store.disk.dirs)
      ensures Published(store.disk.dirs) == Published(old(store.disk.dirs))
    {
      ghost var before := store.disk.dirs;
      SamePublishedKeeps(before, before);
      if fault == CloseFails {
        Flush();
        TouchTmp(before, DirName(), store.disk.dirs[DirName()]);
      } else {
        broken := true;
      }
      closed := true;
    }

    /** Ends the snapshot unsuccessfully: removes its temporary directory. */
    method Cancel(faults: CancelFaults) returns (failed: bool)
      requires Valid()
      modifies this`closed, this`broken, this`buffered, this`register, this`meta, store.disk
      ensures Valid() && closed
      ensures SamePublished(old(store.disk.dirs), store.disk.dirs)
      ensures Published(store.disk.dirs) == Published(old(store.disk.dirs))
      ensures old(closed) ==> !failed && store.disk.dirs == old(store.disk.dirs) && meta == old(meta)
      ensures !old(closed) ==> (failed <==> faults != CancelFaults(NoFault, false))
      ensures !old(closed) && !failed ==> store.disk.dirs == old(store.disk.dirs) - {DirName()}
    {
      ghost var before := store.disk.dirs;
      SamePublishedKeeps(before, before);
      if closed {
        return false;
      }
      if faults.finalize != NoFault {
        StopFinalizing(faults.finalize);
        return true;
      }
      Finalize();
      closed := true;
      TouchTmp(before, DirName(), store.disk.dirs[DirName()]);
      if !faults.remove {
        store.disk.dirs := store.disk.dirs - {DirName()};
      }
      failed := faults.remove;
    }
  }

  /** What a directory adds to the published snapshots. */
  ghost function Adds(dir: Dir): set<Meta> {
    if dir.meta.Some? then {dir.meta.value} else {}
  }

  /** The snapshot just published does not decide whether there is a newer one. */
  lemma CurrentNotNewer(p: set<Meta>, dir: Dir, current: Meta)
    requires dir.meta.Some? ==> dir.meta.value == current
    ensures SomeNewer(p + Adds(dir), current) <==> SomeNewer(p, current)
  {
    if m :| m in p + Adds(dir) && Newer(m, current) {
      assert m in p;
    }
    if m :| m in p && Newer(m, current) {
      assert m in p + Adds(dir);
    }
  }

  /** A reap that fails has not touched the current snapshot. */
  lemma FailedReapKeeps(p: set<Meta>, current: Meta, retain: nat, faults: ReapFaults)
    requires current in p && ReapFails(p, current, faults)
    ensures current in Left(p, current, retain, faults)
  {
  }

  /** The disk after a Close that has come past the rename: the new snapshot joins the published ones, unless its metadata was lost, and
      the reap is applied. */
  ghost predicate ClosedInto(before: Dirs, after: Dirs, tmp: string, name: string, dir: Dir, meta: Meta,
                             retain: nat, faults: ReapFaults) {
    && Published(after) == Left(Published(before) + Adds(dir), meta, retain, faults)
    && Rearranged(before, after, tmp, name, dir)
  }

  /** The new directory is there under its name if it is published at all, and when it cannot be read; no other
      directory is altered, and none goes away but the snapshot's own temporary one and published ones. */
  ghost predicate Rearranged(before: Dirs, after: Dirs, tmp: string, name: string, dir: Dir) {
    && (name in after <==> dir.meta.None? || dir.meta.value in Published(after))
    && (name in after ==> after[name] == dir)
    && (forall d :: d in after && d != name ==> d in before && after[d] == before[d])
    && (forall d :: d in before && d != tmp && (IsTmp(d) || before[d].meta.None?) ==> d in after)
    && tmp !in after
  }

  /** If the new snapshot is complete and none was damaged before, none is afterwards. */
  lemma RearrangedKeepsIntact(before: Dirs, after: Dirs, tmp: string, name: string, dir: Dir)
    requires Intact(before) && Rearranged(before, after, tmp, name, dir)
    requires dir.meta.Some? ==> Complete(name, dir)
    ensures Intact(after)
  {
    forall d | d in after && !IsTmp(d) && after[d].meta.Some?
      ensures Complete(d, after[d])
    {
      if d != name {
        assert after[d] == before[d];
      }
    }
  }

  lemma SamePublishedTrans(a: Dirs, b: Dirs, c: Dirs)
    requires SamePublished(a, b) && SamePublished(b, c)
    ensures SamePublished(a, c) && Published(a) == Published(c)
  {
    SamePublishedKeeps(a, b);
    SamePublishedKeeps(b, c);
  }

  lemma ReapedAfterMove(before: Dirs, moved: Dirs, after: Dirs, tmp: string, name: string, dir: Dir)
    requires Sound(moved) && Sound(after) && IsTmp(tmp) && !IsTmp(name) && name !in before
    requires dir.meta.Some? ==> dir.meta.value.id == name
    requires moved == (before - {tmp})[name := dir]
    requires after == moved - Unpublished(moved, after)
    ensures Rearranged(before, after, tmp, name, dir)
  {
    PublishedDistinct(moved);
    PublishedDistinct(after);
    forall d | d in Unpublished(moved, after)
      ensures !IsTmp(d) && d in moved && moved[d].meta.Some?
    {
      var m :| m in Published(moved) && m.id == d;
    }
    if name in after {
      assert after[name] == moved[name];
    }
  }

  /** Moving a finished directory into place publishes exactly its snapshot, if it can be read. */
  lemma MovePublishes(before: Dirs, after: Dirs, tmp: string, name: string, dir: Dir)
    requires Sound(before) && IsTmp(tmp) && !IsTmp(name) && name !in before
    requires after == (before - {tmp})[name := dir]
    requires dir.meta.Some? ==> dir.meta.value.id == name
    ensures Sound(after) && Published(after) == Published(before) + Adds(dir)
    ensures forall m :: m in Published(before) ==> m.id != name
  {
    PublishedDistinct(before);
    assert after[name] == dir;
    PublishedDistinct(after);
    forall m
      ensures m in Published(after) <==> m in Published(before) + Adds(dir)
    {
      if m.id != name {
        assert m.id in after && !IsTmp(m.id) ==> after[m.id] == before[m.id];
      }
    }
  }

  // ---------------------------------------------------------------------------------------------
  // A whole snapshot

  function Flatten(chunks: seq<seq<byte>>): seq<byte> {
    if chunks == [] then [] else Flatten(chunks[..|chunks| - 1]) + chunks[|chunks| - 1]
  }

  /** Writes all chunks to a fresh sink; `after` is the disk then. */
  method WriteAll(sink: FileSnapshotSink, chunks: seq<seq<byte>>) returns (ghost after: Dirs)
    requires sink.Valid() && !sink.closed && sink.written == []
    modifies sink`buffered, sink`register, sink`written, sink`broken, sink.store.disk
    ensures sink.Valid() && sink.written == Flatten(chunks) && after == sink.store.disk.dirs
    ensures OnlyStateChanged(old(sink.store.disk.dirs), after, sink.DirName())
    ensures SamePublished(old(sink.store.disk.dirs), after) && Published(after) == Published(old(sink.store.disk.dirs))
  {
    ghost var start := sink.store.disk.dirs;
    OnlyStateChangedRefl(start, sink.DirName());
    for i := 0 to |chunks|
      invariant sink.Valid() && sink.written == Flatten(chunks[..i])
      invariant OnlyStateChanged(start, sink.store.disk.dirs, sink.DirName())
    {
      ghost var middle := sink.store.disk.dirs;
      assert chunks[..i + 1][..i] == chunks[..i];
      var _, _ := sink.Write(chunks[i]);
      OnlyStateChangedTrans(start, middle, sink.store.disk.dirs, sink.DirName());
    }
    assert chunks[..|chunks|] == chunks;
    OnlyStateChangedKeeps(start, sink.store.disk.dirs, sink.DirName());
    SamePublishedKeeps(start, sink.store.disk.dirs);
    after := sink.store.disk.dirs;
  }

  /** Only the temporary directory `tmp` differs. */
  ghost predicate OnlyTmpChanged(before: Dirs, after: Dirs, tmp: string) {
    forall d :: d != tmp ==> (d in before <==> d in after) && (d in before ==> before[d] == after[d])
  }

  lemma RearrangedSince(start: Dirs, before: Dirs, after: Dirs, tmp: string, name: string, dir: Dir)
    requires OnlyTmpChanged(start, before, tmp) && Rearranged(before, after, tmp, name, dir)
    ensures Rearranged(start, after, tmp, name, dir)
  {
  }

  function MetaOf(index: nat, term: nat, peers: seq<byte>, msec: nat, data: seq<byte>): Meta {
    Meta(SnapshotName(term, index, msec), term, index, peers, |data|, Some(Checksum(data)))
  }

  /** Create, Write for every chunk, Close, without faults. Closing fails exactly when the name is taken. */
  method TakeSnapshot(store: FileSnapshotStore, index: nat, term: nat, peers: seq<byte>, msec: nat, chunks: seq<seq<byte>>)
    returns (failed: bool)
    requires store.Valid()
    modifies store.disk
    ensures store.Valid()
    ensures failed <==> SnapshotName(term, index, msec) in old(store.disk.dirs)
    ensures failed ==> SamePublished(old(store.disk.dirs), store.disk.dirs)
    ensures var meta := MetaOf(index, term, peers, msec, Flatten(chunks));
            !failed ==> ClosedInto(old(store.disk.dirs), store.disk.dirs, meta.id + TMP_SUFFIX, meta.id,
                                   Dir(Some(meta), Some(Flatten(chunks))), meta, store.retain, UNDISTURBED)
  {
    ghost var start := store.disk.dirs;
    NameIsPermanent(term, index, msec);
    var sink := store.Create(index, term, peers, msec, CreateFaults(false, false, false, false));
    ghost var written := WriteAll(sink, chunks);
    assert OnlyTmpChanged(start, written, sink.DirName());
    failed := sink.Close(CloseFaults(NoFault, false, false, false, UNDISTURBED));
    if failed {
      SamePublishedTrans(start, written, store.disk.dirs);
    } else {
      RearrangedSince(start, written, store.disk.dirs, sink.DirName(), sink.name, sink.Finished(CloseFaults(NoFault, false, false, false, UNDISTURBED)));
    }
  }

  /** After a snapshot has been taken, opening it gives back the chunks as one, whatever their sizes, exactly when it
      has survived its own reap. */
  method RoundTrip(store: FileSnapshotStore, index: nat, term: nat, peers: seq<byte>, msec: nat, chunks: seq<seq<byte>>)
    returns (meta: Meta, failed: bool, r: Result<(Meta, seq<byte>), OpenError>)
    requires store.Valid()
    modifies store.disk
    ensures meta == MetaOf(index, term, peers, msec, Flatten(chunks))
    ensures failed <==> SnapshotName(term, index, msec) in old(store.disk.dirs)
    ensures !failed ==> (r.Ok? <==> |Shadowing(meta, old(Published(store.disk.dirs)))| < store.retain)
    ensures !failed ==> r == if r.Ok? then Ok((meta, Flatten(chunks))) else Err(NoMetadata)
    ensures store.Valid()
    ensures !failed ==> ClosedInto(old(store.disk.dirs), store.disk.dirs, meta.id + TMP_SUFFIX, meta.id,
                                   Dir(Some(meta), Some(Flatten(chunks))), meta, store.retain, UNDISTURBED)
  {
    ghost var before := Published(store.disk.dirs);
    failed := TakeSnapshot(store, index, term, peers, msec, chunks);
    meta := MetaOf(index, term, peers, msec, Flatten(chunks));
    ClosedSurvives(before + {meta}, meta, store.retain);
    SelfNotShadowing(meta, before);
    r := store.Open(meta.id);
  }

  lemma SelfNotShadowing(m: Meta, p: set<Meta>)
    ensures Shadowing(m, p + {m}) == Shadowing(m, p)
  {
    StringLessTotal(m.id, m.id);
  }

  /** A snapshot just closed may be gone at once: on an empty disk that keeps one snapshot, after a first one at the
      same term and index under a greater name. */
  method ClosedMayVanish(index: nat, term: nat, peers: seq<byte>, m: nat, first: seq<seq<byte>>, n: nat, second: seq<seq<byte>>)
    returns (failed: bool, r: Result<(Meta, seq<byte>), OpenError>)
    requires StringLess(SnapshotName(term, index, n), SnapshotName(term, index, m))
    ensures !failed && r == Err(NoMetadata)
  {
    var disk := new Disk();
    var store := new FileSnapshotStore(disk, 1);
    assert Published(disk.dirs) == {};
    var meta, _, _ := RoundTrip(store, index, term, peers, m, first);
    ClosedSurvives({meta}, meta, 1);
    SelfNotShadowing(meta, {});
    assert Published(disk.dirs) == {meta};
    StringLessTotal(SnapshotName(term, index, m), SnapshotName(term, index, n));
    NameIsPermanent(term, index, n);
    var meta';
    meta', failed, r := RoundTrip(store, index, term, peers, n, second);
    assert Shadowing(meta', {meta}) == {meta};
  }

  /** Such names arise when the clock is set back, and when the number of its digits grows. */
  lemma VanishingNames(term: nat, index: nat)
    ensures StringLess(SnapshotName(term, index, 10), SnapshotName(term, index, 20))
    ensures StringLess(SnapshotName(term, index, 10), SnapshotName(term, index, 9))
  {
    assert |Decimal(10)| == |Decimal(20)| == 2;
    NameOrderIsTimeOrder(term, index, 10, 20);
    OutOfStep();
    NameOrderMayDiffer(term, index, 9, 10);
  }

  /** A snapshot may be published although closing it reports a failure: here on an empty disk, with the first scan
      of the reap failing. It can be listed and opened afterwards. */
  method FailedCloseMayPublish(index: nat, term: nat, peers: seq<byte>, msec: nat, chunks: seq<seq<byte>>)
    returns (failed: bool, listed: seq<Meta>, r: Result<(Meta, seq<byte>), OpenError>)
    ensures var meta := MetaOf(index, term, peers, msec, Flatten(chunks));
            failed && listed == [meta] && r == Ok((meta, Flatten(chunks)))
  {
    var disk := new Disk();
    var store := new FileSnapshotStore(disk, 1);
    assert Published(disk.dirs) == {};
    NameIsPermanent(term, index, msec);
    var sink := store.Create(index, term, peers, msec, CreateFaults(false, false, false, false));
    ghost var _ := WriteAll(sink, chunks);
    failed := sink.Close(CloseFaults(NoFault, false, false, false, ReapFaults(true, false, {})));
    ghost var meta := MetaOf(index, term, peers, msec, Flatten(chunks));
    assert Published(disk.dirs) == {meta};
    var scanFailed;
    listed, scanFailed := store.List(false);
    OneIsListed(listed, meta);
    r := store.Open(SnapshotName(term, index, msec));
  }

  lemma OneIsListed(listed: seq<Meta>, m: Meta)
    requires Descending(listed) && Elements(listed) == Top({m}, 1)
    ensures listed == [m]
  {
    LessTotal(m, m);
    assert (set x | x in {m} && Less(m, x)) == {};
    assert Top({m}, 1) == {m};
    ElementsSize(listed);
    assert |Elements(listed)| == 1 && listed[0] in Elements(listed);
  }

  /** When the second scan fails, closing reports a failure after the newer snapshots have been dropped and before
      any has been trimmed. */
  lemma FailedSecondScan(p: set<Meta>, current: Meta, retain: nat, stuck: set<string>)
    requires SomeNewer(p, current)
    ensures ReapFails(p, current, ReapFaults(false, true, stuck))
    ensures Left(p, current, retain, ReapFaults(false, true, stuck))
            == set m | m in p && (m.term < current.term || (m.term == current.term && m.index <= current.index) || m.id in stuck)
  {
    assert NotNewer(p, current, stuck)
           == set m | m in p && (m.term < current.term || (m.term == current.term && m.index <= current.index) || m.id in stuck);
  }
}
