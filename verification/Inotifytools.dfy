/** The handle of the library: the watch table as an object whose methods update its
    indexes step by step.  Each method is tied to the operation on values of the same name. */
module Handle {
  import opened Bytes
  import opened Stats
  import opened Fids
  import W = Watches

  method LeastKey(keys: set<bytes>) returns (m: bytes)
    requires keys != {}
    ensures IsLeast(m, keys)
  {
    LeastExists(keys);
    ghost var least :| IsLeast(least, keys);
    assert least in keys && forall x :: x in keys ==> x == least || Less(least, x);
    m :| m in keys && forall x :: x in keys ==> x == m || Less(m, x);
  }

  method KeysInOrder(s: set<bytes>) returns (keys: seq<bytes>)
    ensures keys == SortedKeys(s)
  {
    var rest := s;
    keys := [];
    while rest != {}
      invariant keys + SortedKeys(rest) == SortedKeys(s)
    {
      var m := LeastKey(rest);
      SortedKeysStep(rest, m);
      assert keys + [m] + SortedKeys(rest - {m}) == keys + SortedKeys(rest);
      keys := keys + [m];
      rest := rest - {m};
    }
  }

  /** The values of an index in key order. */
  method EntriesInOrder(index: map<bytes, nat>) returns (ids: seq<nat>)
    ensures ids == W.Entries(index)
  {
    var keys := KeysInOrder(index.Keys);
    SortedKeysAreTheKeys(index.Keys);
    ids := seq(|keys|, i requires 0 <= i < |keys| => assert keys[i] in keys; index[keys[i]]);
  }

  class Inotifytools {
    var error: int
    var initialized: bool
    var fanotifyMode: bool
    var collectStats: bool
    var watches: map<nat, W.Watch>
    var nextId: nat
    var nextFanotifyWd: int
    var byWd: map<int, nat>
    var byFid: map<FidKey, nat>
    var byFilename: map<bytes, nat>
    var totals: WatchStats

    ghost function State(): W.Table
      reads `watches, `nextId, `nextFanotifyWd, `byWd, `byFid, `byFilename
      reads `totals, `collectStats, `initialized, `fanotifyMode
    {
      W.Table(watches, nextId, nextFanotifyWd, byWd, byFid, byFilename, totals, collectStats, initialized, fanotifyMode)
    }

    ghost predicate Valid()
      reads `watches, `nextId, `nextFanotifyWd, `byWd, `byFid, `byFilename
      reads `totals, `collectStats, `initialized, `fanotifyMode
    {
      W.Valid(State())
    }

    constructor ()
      ensures Valid() && State() == W.EMPTY && error == 0
    {
      error, initialized, fanotifyMode, collectStats := 0, false, false, false;
      watches, nextId, nextFanotifyWd := map[], 1, 0;
      byWd, byFid, byFilename, totals := map[], map[], map[], ZERO;
    }

    /** `fd` is what the kernel answers to the request for a descriptor, `errno` its reason. */
    method Init(fanotify: bool, fd: int, errno: int) returns (ok: bool)
      requires Valid()
      modifies this
      ensures Valid() && State() == W.Init(old(State()), fanotify, fd >= 0)
      ensures ok == (old(initialized) || fd >= 0)
      ensures error == if old(initialized) then old(error) else if fd < 0 then errno else 0
    {
      W.InitAndCleanupKeepValid(State(), fanotify, fd >= 0);
      if initialized {
        return true;
      }
      error := 0;
      fanotifyMode := fanotify;
      if fd < 0 {
        error := errno;
        return false;
      }
      collectStats := false;
      initialized := true;
      byWd, byFid, byFilename := map[], map[], map[];
      return true;
    }

    method Cleanup()
      requires Valid()
      modifies this
      ensures Valid() && State() == W.Cleanup(old(State()))
      ensures error == if old(initialized) then 0 else old(error)
    {
      W.InitAndCleanupKeepValid(State(), false, false);
      if !initialized {
        return;
      }
      initialized := false;
      collectStats := false;
      error := 0;
      byWd, byFid, byFilename := map[], map[], map[];
      watches := map[];
    }

    /** Fanotify has no descriptors: go round the cycle of positive numbers until an
        unused one turns up. */
    method NextFreeWd() returns (d: int)
      requires Valid()
      requires exists f :: W.IsFreeWd(byWd.Keys, f)
      modifies `nextFanotifyWd
      ensures d == nextFanotifyWd == W.FreshWd(byWd.Keys, old(nextFanotifyWd), W.MAX_WD)
      ensures W.IsFreeWd(byWd.Keys, d)
    {
      ghost var f :| W.IsFreeWd(byWd.Keys, f);
      ghost var fuel: nat := W.MAX_WD;
      W.FreshWdIsFree(byWd.Keys, nextFanotifyWd, fuel, f);
      while true
        invariant W.IsCounter(nextFanotifyWd) && W.Distance(nextFanotifyWd, f) <= fuel + 1
        invariant W.FreshWd(byWd.Keys, nextFanotifyWd, fuel) == W.FreshWd(byWd.Keys, old(nextFanotifyWd), W.MAX_WD)
        decreases fuel
      {
        nextFanotifyWd := if nextFanotifyWd == W.MAX_WD then -0x8000_0000 else nextFanotifyWd + 1;
        if nextFanotifyWd <= 0 {
          nextFanotifyWd := 1;
        }
        if nextFanotifyWd !in byWd {
          return nextFanotifyWd;
        }
        fuel := fuel - 1;
      }
    }

    method EnterFid(fid: Option<bytes>, id: nat) returns (inserted: bool)
      modifies `byFid
      ensures byFid == W.InsertFid(old(byFid), fid, id)
      ensures inserted == (fid.Some? && Key(fid.value) !in old(byFid))
    {
      if fid.Some? {
        var key := Key(fid.value);
        if key !in byFid {
          byFid := byFid[key := id];
          return true;
        }
      }
      return false;
    }

    method Enter(w: W.Watch)
      modifies this
      ensures error == old(error)
      ensures State() == W.Register(old(State()), w)
    {
      var id := nextId;
      nextId := nextId + 1;
      var inserted := false;
      if w.wd !in byWd {
        byWd := byWd[w.wd := id];
        inserted := true;
      }
      var insertedFid := EnterFid(w.fid, id);
      inserted := inserted || insertedFid;
      if w.filename !in byFilename {
        byFilename := byFilename[w.filename := id];
        inserted := true;
      }
      if inserted {
        watches := watches[id := w];
      }
    }

    /** Register a watch under every key it has that is vacant; wd 0 asks for a descriptor
        of our own. */
    method CreateWatch(wd: int, fid: Option<bytes>, filename: bytes, dirf: int) returns (r: Option<int>)
      requires Valid()
      requires wd == 0 ==> exists f :: W.IsFreeWd(byWd.Keys, f)
      modifies this
      ensures Valid() && error == old(error)
      ensures (State(), r) == W.CreateWatch(old(State()), wd, fid, filename, dirf)
      ensures wd == 0 ==> r.Some? && W.IsFreeWd(old(byWd.Keys), r.value)
    {
      W.CreateKeepsValid(State(), wd, fid, filename, dirf);
      if wd < 0 {
        return None;
      }
      var d := wd;
      if wd == 0 {
        d := NextFreeWd();
      }
      Enter(W.Watch(fid, filename, d, dirf, ZERO));
      return Some(d);
    }

    /** The descriptor a fanotify event is reported under; `path` is the path found for its
        fid, used to register it when it is new. */
    method ResolveEvent(fid: bytes, path: Option<bytes>) returns (wd: int)
      requires Valid()
      requires Key(fid) !in byFid && path.Some? ==> exists f :: W.IsFreeWd(byWd.Keys, f)
      modifies this
      ensures Valid() && error == old(error)
      ensures (State(), wd) == W.ResolveEvent(old(State()), fid, path)
      ensures |byWd| <= |old(byWd)| + 1 && fanotifyMode == old(fanotifyMode)
    {
      W.ResolveAddsAtMostOne(State(), fid, path);
      var key := Key(fid);
      if key in byFid {
        return watches[byFid[key]].wd;
      }
      if path.None? {
        return 0;
      }
      var r := CreateWatch(0, Some(fid), path.value, 0);
      return r.value;
    }

    method DestroyWatch(id: nat)
      requires Valid() && id in watches
      modifies this
      ensures Valid() && error == old(error)
      ensures State() == W.DestroyWatch(old(State()), id)
    {
      W.DestroyKeepsValid(State(), id);
      var w := watches[id];
      byWd := byWd - {w.wd};
      if w.fid.Some? {
        byFid := byFid - {Key(w.fid.value)};
      }
      byFilename := byFilename - {w.filename};
      watches := watches - {id};
    }

    method RenameWatch(id: nat, newname: bytes)
      requires Valid() && id in watches
      modifies this
      ensures Valid() && error == old(error)
      ensures State() == W.RenameWatch(old(State()), id, newname)
    {
      W.RenameKeepsValid(State(), id, newname);
      var current := watches[id].filename;
      if current in byFilename && byFilename[current] == id {
        byFilename := byFilename - {current};
      }
      if newname !in byFilename {
        byFilename := byFilename[newname := id];
      }
      watches := watches[id := watches[id].(filename := newname)];
    }

    method SetFilenameByWd(wd: int, filename: bytes)
      requires Valid()
      modifies this
      ensures Valid() && error == old(error)
      ensures State() == W.SetFilename(old(State()), W.Lookup(old(byWd), wd), filename)
    {
      if wd in byWd {
        RenameWatch(byWd[wd], filename);
      }
    }

    method SetFilenameByFilename(oldname: bytes, newname: bytes)
      requires Valid()
      modifies this
      ensures Valid() && error == old(error)
      ensures State() == W.SetFilename(old(State()), W.Lookup(old(byFilename), oldname), newname)
    {
      if oldname in byFilename {
        RenameWatch(byFilename[oldname], newname);
      }
    }

    /** Replace a name prefix on all indexed watches, one at a time in name order. */
    method ReplaceFilename(oldname: bytes, newname: bytes)
      requires Valid()
      modifies this
      ensures Valid() && error == old(error)
      ensures State() == W.ReplaceFilename(old(State()), oldname, newname)
      ensures fanotifyMode == old(fanotifyMode) && byFid == old(byFid)
    {
      if oldname == [] || newname == [] {
        return;
      }
      var entries := EntriesInOrder(byFilename);
      for i := 0 to |entries|
        invariant Valid() && error == old(error) && fanotifyMode == old(fanotifyMode) && byFid == old(byFid)
        invariant W.RenamePrefixes(State(), entries[i..], oldname, newname)
               == W.RenamePrefixes(old(State()), entries, oldname, newname)
      {
        var id := entries[i];
        assert entries[i..][1..] == entries[i + 1..];
        if id in watches {
          var cur := watches[id].filename;
          if oldname <= cur && cur != newname {
            RenameWatch(id, newname + cur[|oldname|..]);
          }
        }
      }
    }

    /** Ask the kernel to drop a watch; fanotify has no object to drop. */
    method RemoveInotifyWatch(id: nat, status: int) returns (ok: bool)
      requires Valid() && id in watches
      modifies this
      ensures State() == old(State())
      ensures ok == (watches[id].fid.None? && status >= 0)
      ensures error == if watches[id].fid.None? && status < 0 then status else 0
    {
      error := 0;
      if watches[id].fid.Some? {
        return false;
      }
      if status < 0 {
        error := status;
        return false;
      }
      return true;
    }

    method RemoveWatch(id: Option<nat>, status: int) returns (ok: bool)
      requires Valid() && (id.Some? ==> id.value in watches)
      modifies this
      ensures Valid() && (State(), ok) == W.RemoveWatch(old(State()), id, status)
      ensures error == W.RemovalError(old(State()), id, status, old(error))
    {
      if id.None? {
        return true;
      }
      ok := RemoveInotifyWatch(id.value, status);
      if !ok {
        return false;
      }
      DestroyWatch(id.value);
      return true;
    }

    method RemoveWatchByWd(wd: int, status: int) returns (ok: bool)
      requires Valid()
      modifies this
      ensures Valid() && (State(), ok) == W.RemoveWatch(old(State()), W.Lookup(old(byWd), wd), status)
      ensures error == W.RemovalError(old(State()), W.Lookup(old(byWd), wd), status, old(error))
    {
      ok := RemoveWatch(W.Lookup(byWd, wd), status);
    }

    method RemoveWatchByFilename(filename: bytes, status: int) returns (ok: bool)
      requires Valid()
      modifies this
      ensures Valid() && (State(), ok) == W.RemoveWatch(old(State()), W.Lookup(old(byFilename), filename), status)
      ensures error == W.RemovalError(old(State()), W.Lookup(old(byFilename), filename), status, old(error))
    {
      ok := RemoveWatch(W.Lookup(byFilename, filename), status);
    }

    /** The descriptor recorded for a name, or -1. */
    method WdFromFilename(filename: bytes) returns (wd: int)
      requires Valid()
      ensures wd == W.WdFromFilename(State(), filename)
    {
      if filename == [] || filename !in byFilename {
        return -1;
      }
      return watches[byFilename[filename]].wd;
    }

    method RecordStats(wd: int, mask: Word)
      requires Valid()
      modifies this
      ensures Valid() && error == old(error)
      ensures State() == W.RecordEvent(old(State()), wd, mask)
    {
      W.RecordKeepsValid(State(), wd, mask);
      if wd !in byWd {
        return;
      }
      var id := byWd[wd];
      if id in watches {
        watches := watches[id := watches[id].(stats := Record(watches[id].stats, mask))];
      }
      totals := Record(totals, mask);
    }

    method ClearCounters()
      modifies `watches
      ensures watches == W.ClearCounters(old(watches), byWd.Values)
    {
      var ids := byWd.Values;
      while ids != {}
        invariant ids <= byWd.Values
        invariant watches == W.ClearCounters(old(watches), byWd.Values - ids)
      {
        var id :| id in ids;
        ids := ids - {id};
        if id in watches {
          watches := watches[id := watches[id].(stats := ZERO)];
        }
      }
    }

    /** Start collecting statistics, or reset them. */
    method InitializeStats()
      requires Valid()
      modifies this
      ensures Valid() && error == old(error)
      ensures State() == W.InitializeStats(old(State()))
    {
      W.InitializeStatsKeepsValid(State());
      if collectStats {
        ClearCounters();
      }
      totals := ZERO;
      collectStats := true;
    }
  }
}
