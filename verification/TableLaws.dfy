/** What single operations do to the watch table, entry by entry: which entries are made, under
    which names and descriptors, and that all others stay. */
module TableLaws {
  import opened Bytes
  import opened Fids
  import opened Stats
  import opened Watches
  import F = WatchFiles

  // ---------------------------------------------------------------- entering a watch

  /** A watch takes every index entry that is vacant and no other, and is kept if it takes one. */
  lemma FirstKeyWins(t: Table, w: Watch)
    ensures var t' := Register(t, w);
      && t'.byWd == (if w.wd in t.byWd then t.byWd else t.byWd[w.wd := t.nextId])
      && t'.byFilename == (if w.filename in t.byFilename then t.byFilename else t.byFilename[w.filename := t.nextId])
      && t'.byFid == (if w.fid.None? || Key(w.fid.value) in t.byFid then t.byFid
                      else t.byFid[Key(w.fid.value) := t.nextId])
    ensures var t' := Register(t, w);
      && t'.watches == (if t'.byWd == t.byWd && t'.byFid == t.byFid && t'.byFilename == t.byFilename
                        then t.watches else t.watches[t.nextId := w])
      && t' == t.(nextId := t.nextId + 1, watches := t'.watches, byWd := t'.byWd, byFid := t'.byFid,
                  byFilename := t'.byFilename)
  {
  }

  lemma NewDescriptor(t: Table)
    requires Valid(t) && |t.byWd| < MAX_WD
    ensures IsFreeWd(t.byWd.Keys, FreshWd(t.byWd.Keys, t.nextFanotifyWd, MAX_WD))
  {
    FewWatchesLeaveRoom(t);
    var f :| IsFreeWd(t.byWd.Keys, f);
    FreshWdIsFree(t.byWd.Keys, t.nextFanotifyWd, MAX_WD, f);
  }

  /** The descriptor handed out is the first free one on the way round from the last. */
  lemma {:induction false} FirstFreeDescriptor(used: set<int>, n: int, fuel: nat, f: int)
    requires IsCounter(n) && IsFreeWd(used, f) && Distance(n, f) <= fuel + 1
    ensures Distance(n, FreshWd(used, n, fuel)) <= Distance(n, f)
    decreases fuel
  {
    if fuel != 0 && NextWd(n) in used {
      FirstFreeDescriptor(used, NextWd(n), fuel - 1, f);
      FreshWdIsFree(used, NextWd(n), fuel - 1, f);
    }
  }

  /** A watch with a descriptor of our own, under a fid that is not known. */
  lemma OwnWatch(t: Table, fid: bytes, name: bytes, dirf: int)
    requires Valid(t) && |t.byWd| < MAX_WD && Key(fid) !in t.byFid
    ensures var (t', r) := CreateWatch(t, 0, Some(fid), name, dirf);
      && r == Some(t'.nextFanotifyWd) && IsFreeWd(t.byWd.Keys, t'.nextFanotifyWd) && t'.nextId == t.nextId + 1
      && t'.watches == t.watches[t.nextId := Watch(Some(fid), name, t'.nextFanotifyWd, dirf, ZERO)]
      && t'.byWd == t.byWd[t'.nextFanotifyWd := t.nextId] && t'.byFid == t.byFid[Key(fid) := t.nextId]
      && t'.byFilename == if name in t.byFilename then t.byFilename else t.byFilename[name := t.nextId]
  {
    NewDescriptor(t);
  }

  /** A new fid is registered under the path found for it and a descriptor that was free, which
      is the one reported. */
  lemma NewFidIsNamed(t: Table, fid: bytes, path: bytes)
    requires Valid(t) && |t.byWd| < MAX_WD && Key(fid) !in t.byFid
    ensures var (t', wd) := ResolveEvent(t, fid, Some(path));
      && IsFreeWd(t.byWd.Keys, wd)
      && t'.watches == t.watches[t.nextId := Watch(Some(fid), path, wd, 0, ZERO)]
      && t'.byWd == t.byWd[wd := t.nextId] && t'.byFid == t.byFid[Key(fid) := t.nextId]
      && t'.byFilename == if path in t.byFilename then t.byFilename else t.byFilename[path := t.nextId]
  {
    OwnWatch(t, fid, path, 0);
  }

  // ---------------------------------------------------------------- watching a file

  /** Under inotify a new descriptor gets the path of the file, ending in a slash for a directory. */
  lemma InotifyWatchIsNamed(t: Table, path: bytes, add: F.Adding)
    requires F.FromSystem(add) && add.wd > 0 && add.wd !in t.byWd
    ensures var t' := F.AddWatch(t, path, add);
      var name := if add.isdir && (path == [] || path[|path| - 1] != 47) then path + [47] else path;
      && t'.watches == t.watches[t.nextId := Watch(None, name, add.wd, 0, ZERO)]
      && t'.byWd == t.byWd[add.wd := t.nextId] && t'.byFid == t.byFid
      && t'.byFilename == if name in t.byFilename then t.byFilename else t.byFilename[name := t.nextId]
  {
  }

  /** A descriptor that is known already keeps its watch. */
  lemma KnownDescriptorKeepsItsWatch(t: Table, path: bytes, add: F.Adding)
    requires F.FromSystem(add) && add.wd > 0 && add.wd in t.byWd && t.byWd[add.wd] in t.watches
    requires t.byWd[add.wd] < t.nextId
    ensures var t' := F.AddWatch(t, path, add);
      && t'.byWd == t.byWd && t'.watches[t.byWd[add.wd]] == t.watches[t.byWd[add.wd]]
  {
  }

  /** The key of the filesystem of a directory. */
  function MountKey(add: F.Adding): FidKey
    requires add.enc.fsid.Some?
  {
    Key(FsidKey(F.BlankFid(add.enc.fsid.value)))
  }

  /** A file marked under fanotify that is no directory is registered under its path. */
  lemma MarkedFileIsNamed(t: Table, path: bytes, add: F.Adding)
    requires Valid(t) && |t.byWd| < MAX_WD && F.FromSystem(add) && F.Encodes(add)
    requires add.wd == 0 && !add.isdir && Key(F.FidOfFile(add)) !in t.byFid
    ensures var (t', wd) := (F.AddWatch(t, path, add), F.AddWatch(t, path, add).nextFanotifyWd);
      && IsFreeWd(t.byWd.Keys, wd)
      && t'.watches == t.watches[t.nextId := Watch(Some(F.FidOfFile(add)), path, wd, 0, ZERO)]
      && t'.byWd == t.byWd[wd := t.nextId] && t'.byFid == t.byFid[Key(F.FidOfFile(add)) := t.nextId]
  {
    OwnWatch(t, F.FidOfFile(add), path, 0);
  }

  /** Two entries are made one after the other. */
  ghost predicate EntersTwo(t: Table, t': Table, first: Watch, second: Watch)
    requires first.fid.Some? && second.fid.Some?
  {
    && first.wd !in t.byWd && second.wd !in t.byWd && first.wd != second.wd
    && t'.watches == t.watches[t.nextId := first][t.nextId + 1 := second]
    && t'.byWd == t.byWd[first.wd := t.nextId][second.wd := t.nextId + 1]
    && t'.byFid == t.byFid[Key(first.fid.value) := t.nextId][Key(second.fid.value) := t.nextId + 1]
  }

  lemma TwoOwnWatches(t: Table, fid: bytes, name: bytes, dirf: int, fid': bytes, name': bytes, dirf': int)
    requires Valid(t) && |t.byWd| + 2 <= MAX_WD
    requires Key(fid) !in t.byFid && Key(fid') !in t.byFid && Key(fid) != Key(fid')
    ensures var t1 := CreateWatch(t, 0, Some(fid), name, dirf).0;
      var t2 := CreateWatch(t1, 0, Some(fid'), name', dirf').0;
      EntersTwo(t, t2, Watch(Some(fid), name, t1.nextFanotifyWd, dirf, ZERO),
                Watch(Some(fid'), name', t2.nextFanotifyWd, dirf', ZERO))
  {
    OwnWatch(t, fid, name, dirf);
    F.CreatedIsFound(t, 0, Some(fid), name, dirf);
    OwnWatch(CreateWatch(t, 0, Some(fid), name, dirf).0, fid', name', dirf');
  }

  /** A directory p marked under fanotify has two entries: that of its filesystem is named p,
      with the descriptor that handles are opened by; its own is named p with one slash at the
      end, with the descriptor the directory was opened by. */
  lemma MarkedDirectoryIsNamed(t: Table, p: bytes, add: F.Adding, path: bytes)
    requires Valid(t) && |t.byWd| + 2 <= MAX_WD && F.FromSystem(add) && F.Encodes(add) && F.NO_KEY !in t.byFid
    requires add.wd == 0 && add.isdir && MountKey(add) !in t.byFid
    requires Key(F.FidOfFile(add)) !in t.byFid && Key(F.FidOfFile(add)) != MountKey(add)
    requires path == p + [47] || (path == p && (p == [] || p[|p| - 1] != 47))
    ensures exists wd, wd' ::
      EntersTwo(t, F.AddWatch(t, path, add),
                Watch(Some(FsidKey(F.BlankFid(add.enc.fsid.value))), p, wd, add.enc.mountFd, ZERO),
                Watch(Some(F.FidOfFile(add)), p + [47], wd', add.enc.dirFd, ZERO))
  {
    var name := p + [47];
    if path == name { assert path[|path| - 1] == 47; }
    assert name[..|name| - 1] == p && F.RegisteredName(path, add) == name;
    var (mount, fid) := (FsidKey(F.BlankFid(add.enc.fsid.value)), F.FidOfFile(add));
    TwoOwnWatches(t, mount, p, add.enc.mountFd, fid, name, add.enc.dirFd);
  }

  /** If the file of a directory cannot be told, its filesystem has its entry all the same. */
  lemma FilesystemStays(t: Table, p: bytes, add: F.Adding)
    requires Valid(t) && |t.byWd| < MAX_WD && F.FromSystem(add) && !F.Encodes(add) && F.NO_KEY !in t.byFid
    requires add.wd == 0 && add.isdir && add.enc.fsid.Some? && add.enc.mountFd >= 0 && MountKey(add) !in t.byFid
    ensures F.AddError(add) == Some(0)
    ensures var t' := F.AddWatch(t, p + [47], add);
      && t'.byFid == t.byFid[MountKey(add) := t.nextId]
      && t'.watches == t.watches[t.nextId :=
           Watch(Some(FsidKey(F.BlankFid(add.enc.fsid.value))), p, t'.nextFanotifyWd, add.enc.mountFd, ZERO)]
  {
    assert F.RegisteredName(p + [47], add) == p + [47] && (p + [47])[..|p + [47]| - 1] == p;
    OwnWatch(t, FsidKey(F.BlankFid(add.enc.fsid.value)), p, add.enc.mountFd);
  }

  predicate TellsTheFile(add: F.Adding) {
    add.enc.fsid.Some? && add.enc.handle.Some? && (add.isdir ==> add.enc.mountFd >= 0 && add.enc.dirFd >= 0)
  }

  /** A request fails if the system refuses it, with the reason it gives along with -1, or, marked
      under fanotify, for lack of an answer that tells the file, without a reason. */
  lemma RequestFailsExactlyWhen(add: F.Adding)
    ensures add.wd > 0 ==> F.AddError(add) == None
    ensures add.wd == -1 ==> F.AddError(add) == Some(add.errno)
    ensures add.wd < -1 ==> F.AddError(add) == Some(0)
    ensures add.wd == 0 ==> F.AddError(add) == if TellsTheFile(add) then None else Some(0)
  {
  }

  // ---------------------------------------------------------------- dropping and renaming a watch

  /** Dropping a watch takes its own entries out of every index and leaves all others. */
  lemma OnlyTheWatchGoes(t: Table, id: nat)
    requires id in t.watches
    ensures var (t', w) := (DestroyWatch(t, id), t.watches[id]);
      && t'.watches.Keys == t.watches.Keys - {id} && t'.byWd.Keys == t.byWd.Keys - {w.wd}
      && t'.byFilename.Keys == t.byFilename.Keys - {w.filename}
      && t'.byFid.Keys == t.byFid.Keys - (if w.fid.Some? then {Key(w.fid.value)} else {})
      && (forall i :: i in t'.watches ==> t'.watches[i] == t.watches[i])
      && (forall k :: k in t'.byWd ==> t'.byWd[k] == t.byWd[k])
      && (forall k :: k in t'.byFid ==> t'.byFid[k] == t.byFid[k])
      && (forall k :: k in t'.byFilename ==> t'.byFilename[k] == t.byFilename[k])
  {
  }

  /** A watch goes if and only if it is no fanotify watch and the kernel has dropped it; the
      error left tells the three other outcomes apart. */
  lemma GoesExactlyWhen(t: Table, id: Option<nat>, status: int, error: int)
    requires id.Some? ==> id.value in t.watches
    ensures var (t', ok) := RemoveWatch(t, id, status);
      && (t' == t || (id.Some? && t' == DestroyWatch(t, id.value)))
      && (id.Some? ==> (id.value !in t'.watches <==> t.watches[id.value].fid.None? && status >= 0))
      && (!ok <==> id.Some? && id.value in t'.watches)
    ensures var e := RemovalError(t, id, status, error);
      && (id.None? ==> e == error)
      && (id.Some? && t.watches[id.value].fid.Some? ==> e == 0)
      && (id.Some? && t.watches[id.value].fid.None? ==> e == if status < 0 then status else 0)
  {
  }

  /** A renamed watch bears its new name, is found under it if no other was, and is not found
      under its old one. */
  lemma RenamedWatchIsFound(t: Table, id: nat, name: bytes)
    requires Valid(t) && id in t.watches
    ensures var (t', former) := (SetFilename(t, Some(id), name), t.watches[id].filename);
      && t'.watches == t.watches[id := t.watches[id].(filename := name)]
      && t'.byWd == t.byWd && t'.byFid == t.byFid && name in t'.byFilename
      && (name !in t.byFilename ==> t'.byFilename[name] == id)
      && (name != former && former in t'.byFilename ==> t'.byFilename[former] != id)
      && (forall k :: k in t.byFilename && k != former && k != name ==>
            k in t'.byFilename && t'.byFilename[k] == t.byFilename[k])
  {
  }

  /** A name with the old prefix gets the new one, unless it is the new one itself; an empty prefix
      is never replaced or put in. */
  lemma PrefixIsReplaced(t: Table, id: nat, oldname: bytes, newname: bytes)
    requires Valid(t) && id in t.watches
    ensures var (t', n) := (RenamePrefix(t, id, oldname, newname), t.watches[id].filename);
      && t'.watches == t.watches[id := t.watches[id].(filename :=
           if oldname <= n && n != newname then newname + n[|oldname|..] else n)]
      && t'.byWd == t.byWd && t'.byFid == t.byFid
    ensures ReplaceFilename(t, [], newname) == t && ReplaceFilename(t, oldname, []) == t
  {
  }

  /** Names are replaced in the order of their bytes: the first byte that differs decides, and a
      name comes before those it begins. */
  lemma {:induction false} OrderOfNames(p: bytes, x: byte, y: byte, s: bytes, r: bytes)
    requires x < y
    ensures Less(p + [x] + s, p + [y] + r) && !Less(p + [y] + r, p + [x] + s)
    ensures Less(p, p + [x] + s) && !Less(p + [x] + s, p)
  {
    var (a, b) := (p + [x] + s, p + [y] + r);
    if p != [] {
      OrderOfNames(p[1..], x, y, s, r);
      assert a[0] == b[0] == p[0] && a[1..] == p[1..] + [x] + s && b[1..] == p[1..] + [y] + r;
    }
  }

  /** A handle that is open is not opened again, and one that gets no descriptor stays closed. */
  lemma OpeningMayFail(t: Table, fanotify: bool, ok: bool)
    ensures t.initialized ==> Init(t, fanotify, ok) == t
    ensures !t.initialized && !ok ==> Init(t, fanotify, ok) == t.(fanotify := fanotify)
    ensures !t.initialized && ok ==> Init(t, fanotify, ok).initialized && Init(t, fanotify, ok).fanotify == fanotify
  {
  }

  /** Closing a handle forgets every watch; opening it again starts without any entry. */
  lemma NothingIsLeft(t: Table, fanotify: bool)
    requires t.initialized
    ensures var t' := Cleanup(t);
      && t'.watches == map[] && t'.byWd == map[] && t'.byFid == map[] && t'.byFilename == map[]
      && !t'.initialized && !t'.collecting
    ensures var t' := Init(Cleanup(t), fanotify, true);
      && t'.watches == map[] && t'.byWd == map[] && t'.byFid == map[] && t'.byFilename == map[]
      && t'.initialized && t'.fanotify == fanotify && !t'.collecting
  {
  }

  // ---------------------------------------------------------------- lookups

  /** A name leads to the descriptor of a watch that bears it, and to -1 if none does. */
  lemma DescriptorOfName(t: Table, name: bytes)
    requires Valid(t)
    ensures name in t.byFilename && name != [] ==>
      exists id :: id in t.watches && t.watches[id].filename == name && WdFromFilename(t, name) == t.watches[id].wd
    ensures name !in t.byFilename || name == [] ==> WdFromFilename(t, name) == -1
  {
    if name in t.byFilename { assert t.byFilename[name] in t.watches; }
  }

  /** A descriptor leads to the name of its watch or, for a fid under filesystem marks, to the
      path found for it now. */
  lemma NameOfDescriptor(t: Table, wd: int, filesystem: bool, resolve: bytes -> Option<bytes>)
    requires Valid(t)
    ensures wd == 0 || wd !in t.byWd ==> FilenameFromWd(t, wd, filesystem, resolve) == []
    ensures wd != 0 && wd in t.byWd ==>
      var (w, name) := (t.watches[t.byWd[wd]], FilenameFromWd(t, wd, filesystem, resolve));
      && (w.fid.None? || !filesystem || resolve(w.fid.value).None? ==> name == w.filename)
      && (w.fid.Some? && filesystem && resolve(w.fid.value).Some? ==> Some(name) == resolve(w.fid.value))
  {
  }

  // ---------------------------------------------------------------- counting

  predicate Counts(s: WatchStats, s': WatchStats, c: Counter, hit: bool) {
    Count(s', c) == (Count(s, c) + if hit then 1 else 0) % 0x1_0000_0000
  }

  lemma RecordingCounts(s: WatchStats, mask: Word, c: Counter)
    ensures Counts(s, Record(s, mask), c, Hits(mask, c))
  {
    RecordCounts(s, mask, c);
    HitByMeansHits(mask, c);
  }

  lemma UnchangedCounts(s: WatchStats, c: Counter)
    ensures Counts(s, s, c, false)
  {
  }

  /** An event is counted for the watch of its descriptor and in the totals, and for no other
      watch; without a watch it is not counted at all. */
  lemma CountedOnce(t: Table, wd: int, mask: Word, id: nat, c: Counter)
    requires Valid(t) && id in t.watches
    ensures var t' := RecordEvent(t, wd, mask);
      && t' == t.(watches := t'.watches, totals := t'.totals) && t'.watches.Keys == t.watches.Keys
      && Counts(t.totals, t'.totals, c, wd in t.byWd && Hits(mask, c))
      && t'.watches[id] == t.watches[id].(stats := t'.watches[id].stats)
      && Counts(t.watches[id].stats, t'.watches[id].stats, c, wd in t.byWd && id == t.byWd[wd] && Hits(mask, c))
  {
    RecordingCounts(t.totals, mask, c);
    UnchangedCounts(t.totals, c);
    RecordingCounts(t.watches[id].stats, mask, c);
    UnchangedCounts(t.watches[id].stats, c);
  }

  /** After a reset the totals are zero, as are the counters of every indexed watch if statistics
      were collected before; nothing else changes. */
  lemma CountersStartAgain(t: Table, c: Counter)
    requires Valid(t)
    ensures var t' := InitializeStats(t);
      && t' == t.(watches := t'.watches, totals := t'.totals, collecting := true)
      && t'.watches.Keys == t.watches.Keys && Count(t'.totals, c) == 0
      && (forall id :: id in t.watches ==>
            && t'.watches[id] == t.watches[id].(stats := t'.watches[id].stats)
            && (t.collecting && id in t.byWd.Values ==> Count(t'.watches[id].stats, c) == 0)
            && (!t.collecting || id !in t.byWd.Values ==> t'.watches[id].stats == t.watches[id].stats))
  {
  }
}
