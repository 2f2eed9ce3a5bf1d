/** Following directory creation and moves, so that the recorded names stay the real paths. */
module MoveTracking {
  import opened Bytes
  import opened EventBits
  import opened EventReader
  import F = WatchFiles
  import W = Watches
  import H = Handle
  import R = RecursiveWatch
  import P = PrefixReplace

  /** What the system answers while an event is handled: whether the directory is there, the
      tree below it, the reply to the removal of a watch, and the path of a fid (none unless
      whole filesystems are marked). */
  datatype Answers = Answers(isdir: bool, tree: R.Answer, removal: int, resolve: bytes -> Option<bytes>)

  datatype Tracker = Tracker(table: W.Table, movedFrom: Option<bytes>)

  predicate IsOn(ev: Event, bit: nat) { bit in BitsOf(ev.mask) }

  /** The path of the directory an event is about, in the form it is recorded in. */
  function Dirpath(t: W.Table, ev: Event, resolve: bytes -> Option<bytes>): Option<bytes> {
    var filename := W.FilenameFromWd(t, ev.wd, true, resolve);
    if filename == [] || !IsOn(ev, IN_ISDIR) then None
    else Some(filename + (if t.fanotify then [] else ev.name) + [SLASH])
  }

  function OrEmpty(o: Option<bytes>): bytes { if o.Some? then o.value else [] }

  /** A move that is not continued left the tree. */
  function GiveUpMove(s: Tracker, ev: Event, removal: int): Tracker
    requires W.NamesIndexed(s.table)
  {
    if s.movedFrom.Some? && !IsOn(ev, IN_MOVED_TO)
    then Tracker(W.RemoveWatch(s.table, W.Lookup(s.table.byFilename, s.movedFrom.value), removal).0, None)
    else s
  }

  ghost function HandleEvent(s: Tracker, ev: Event, recursive: bool, ans: Answers): Tracker
    requires W.NamesIndexed(s.table)
  {
    var s1 := GiveUpMove(s, ev, ans.removal);
    var d := Dirpath(s1.table, ev, ans.resolve);
    if !recursive then s1
    else if IsOn(ev, IN_CREATE) || (s1.movedFrom.None? && IsOn(ev, IN_MOVED_TO)) then
      if d.Some? && ans.isdir then s1.(table := R.Watched(s1.table, ans.tree, d.value, [])) else s1
    else if IsOn(ev, IN_MOVED_FROM) then
      s1.(movedFrom := if W.WdFromFilename(s1.table, OrEmpty(d)) == -1 then None else d)
    else if IsOn(ev, IN_MOVED_TO) then
      Tracker(W.ReplaceFilename(s1.table, s1.movedFrom.value, OrEmpty(d)), None)
    else s1
  }

  class MoveTracker {
    var movedFrom: Option<bytes>

    constructor ()
      ensures movedFrom == None
    {
      movedFrom := None;
    }

    method DirpathFromEvent(lib: H.Inotifytools, ev: Event, resolve: bytes -> Option<bytes>) returns (d: Option<bytes>)
      requires lib.Valid()
      ensures d == Dirpath(lib.State(), ev, resolve)
    {
      if ev.wd == 0 || ev.wd !in lib.byWd {
        return None;
      }
      var w := lib.watches[lib.byWd[ev.wd]];
      var found := if w.fid.Some? then resolve(w.fid.value) else None;
      var filename := if found.Some? then found.value else w.filename;
      if filename == [] || IN_ISDIR !in BitsOf(ev.mask) {
        return None;
      }
      return Some(filename + (if lib.fanotifyMode then [] else ev.name) + [SLASH]);
    }

    method GiveUp(lib: H.Inotifytools, ev: Event, removal: int)
      requires lib.Valid()
      modifies this, lib
      ensures lib.Valid() && |lib.byWd| <= |old(lib.byWd)| && lib.byFid.Keys <= old(lib.byFid.Keys)
      ensures Tracker(lib.State(), movedFrom) == old(GiveUpMove(Tracker(lib.State(), movedFrom), ev, removal))
    {
      if movedFrom.Some? && IN_MOVED_TO !in BitsOf(ev.mask) {
        RemovalShrinks(lib.State(), W.Lookup(lib.byFilename, movedFrom.value), removal);
        var _ := lib.RemoveWatchByFilename(movedFrom.value, removal);
        movedFrom := None;
      }
    }

    method Handle(lib: H.Inotifytools, ev: Event, recursive: bool, ans: Answers)
      requires lib.Valid() && F.NO_KEY !in lib.byFid
      requires R.HasRoomFor(lib.State(), ans.tree, R.Size(ans.tree))
      modifies this, lib
      ensures lib.Valid() && F.NO_KEY !in lib.byFid
      ensures Tracker(lib.State(), movedFrom) == old(HandleEvent(Tracker(lib.State(), movedFrom), ev, recursive, ans))
    {
      var mask := BitsOf(ev.mask);
      GiveUp(lib, ev, ans.removal);
      if !recursive {
        return;
      }
      var path := DirpathFromEvent(lib, ev, ans.resolve);
      if IN_CREATE in mask || (movedFrom.None? && IN_MOVED_TO in mask) {
        if path.Some? && ans.isdir {
          var _ := R.WatchRecursively(lib, ans.tree, path.value, []);
        }
      } else if IN_MOVED_FROM in mask {
        movedFrom := path;
        var wd := lib.WdFromFilename(OrEmpty(movedFrom));
        if wd == -1 {
          movedFrom := None;
        }
      } else if IN_MOVED_TO in mask {
        lib.ReplaceFilename(movedFrom.value, OrEmpty(path));
        movedFrom := None;
      }
    }
  }

  lemma RemovalShrinks(t: W.Table, id: Option<nat>, status: int)
    requires id.Some? ==> id.value in t.watches
    ensures var t' := W.RemoveWatch(t, id, status).0; |t'.byWd| <= |t.byWd| && t'.byFid.Keys <= t.byFid.Keys
  {
    var t' := W.RemoveWatch(t, id, status).0;
    W.SubsetSize(t'.byWd.Keys, t.byWd.Keys);
    assert |t'.byWd| == |t'.byWd.Keys| && |t.byWd| == |t.byWd.Keys|;
  }

  // ---------------------------------------------------------------- the world

  /** Where the watched directories really are, by descriptor. */
  type World = map<int, bytes>

  ghost predicate IsWorld(where: World) {
    && (forall wd :: wd in where ==> wd > 0 && where[wd] != [])
    && (forall c, d :: c in where && d in where && where[c] == where[d] ==> c == d)
  }

  /** A watch bears the real path of its directory and is found under it. */
  ghost predicate IsAccurate(t: W.Table, where: World, id: nat)
    requires id in t.watches
  {
    var w := t.watches[id];
    && w.fid.None? && w.wd in where && w.filename == where[w.wd]
    && w.wd in t.byWd && t.byWd[w.wd] == id
    && w.filename in t.byFilename && t.byFilename[w.filename] == id
  }

  ghost predicate Accurate(t: W.Table, where: World) {
    && W.Valid(t) && !t.fanotify && t.byFid == map[] && IsWorld(where) && t.byWd.Keys == where.Keys
    && forall id :: id in t.watches ==> IsAccurate(t, where, id)
  }

  function Below(where: World, ev: Event): bytes
    requires ev.wd in where
  {
    where[ev.wd] + ev.name + [SLASH]
  }

  /** A rename takes everything under p to q; an empty directory at q is gone. */
  function Renamed(where: World, p: bytes, q: bytes): World {
    map wd | wd in where && where[wd] != q :: if p <= where[wd] then q + where[wd][|p|..] else where[wd]
  }

  /** Watches are added: a directory that is watched already keeps its descriptor. */
  ghost predicate Grows(where: World, after: World, regs: seq<R.Registration>) {
    && IsWorld(after)
    && (forall wd :: wd in where ==> wd in after && after[wd] == where[wd])
    && (forall k :: 0 <= k < |regs| ==> regs[k].wd in after && after[regs[k].wd] == regs[k].name)
    && (forall wd :: wd in after && wd !in where ==> exists k :: 0 <= k < |regs| && regs[k].wd == wd)
  }

  /** What a walk registers. */
  function RegsOf(t: R.Tree, path: bytes, excludes: seq<bytes>): seq<R.Registration> {
    R.VisitsExist(t, path, excludes);
    R.Registrations(t, path, R.Walk(t, path, excludes).visits)
  }

  /** The tree without what lies under a path. */
  function Without(where: World, path: bytes): World {
    map wd | wd in where && !(path <= where[wd]) :: where[wd]
  }

  function Minus(where: World, path: bytes): World {
    map wd | wd in where && where[wd] != path :: where[wd]
  }

  ghost predicate IsWatched(where: World, path: bytes) {
    exists wd :: wd in where && where[wd] == path
  }

  /** Nothing is watched at the path or under it. */
  ghost predicate Unrecorded(where: World, path: bytes) {
    forall wd :: wd in where ==> !(path <= where[wd])
  }

  ghost predicate HasNothingBelow(where: World, path: bytes) {
    forall wd :: wd in where && path <= where[wd] ==> where[wd] == path
  }

  lemma DirpathIsReal(t: W.Table, where: World, ev: Event, resolve: bytes -> Option<bytes>)
    requires Accurate(t, where) && ev.wd in where
    ensures Dirpath(t, ev, resolve) == if IsOn(ev, IN_ISDIR) then Some(Below(where, ev)) else None
  {
    assert IsAccurate(t, where, t.byWd[ev.wd]);
  }

  lemma NameIsVacant(t: W.Table, where: World, name: bytes)
    requires Accurate(t, where) && forall c :: c in where ==> where[c] != name
    ensures name !in t.byFilename
  {
    forall n | n in t.byFilename ensures n != name {
      assert IsAccurate(t, where, t.byFilename[n]);
    }
  }

  lemma RegisterIsAccurate(t: W.Table, where: World, name: bytes, wd: int)
    requires Accurate(t, where) && wd > 0 && name != []
    requires if wd in where then where[wd] == name else (forall c :: c in where ==> where[c] != name)
    ensures Accurate(W.CreateWatch(t, wd, None, name, 0).0, where[wd := name])
  {
    var t' := W.CreateWatch(t, wd, None, name, 0).0;
    W.CreateKeepsValid(t, wd, None, name, 0);
    if wd in where {
      assert IsAccurate(t, where, t.byWd[wd]);
      assert where[wd := name] == where;
      assert t' == t.(nextId := t.nextId + 1);
    } else {
      NameIsVacant(t, where, name);
      forall id | id in t'.watches ensures IsAccurate(t', where[wd := name], id) {
        if id != t.nextId { assert IsAccurate(t, where, id); }
      }
    }
  }

  lemma NoGrowth(where: World, after: World)
    requires Grows(where, after, [])
    ensures where == after
  {
    var regs: seq<R.Registration> := [];
    assert Grows(where, after, regs);
    assert forall wd :: wd in where.Keys <==> wd in after.Keys;
    assert where.Keys == after.Keys;
    forall wd | wd in where ensures where[wd] == after[wd] {
      assert after[wd] == where[wd];
    }
    SameMap(where, after);
  }

  lemma SameMap<K, V>(a: map<K, V>, b: map<K, V>)
    requires a.Keys == b.Keys && forall k :: k in a ==> a[k] == b[k]
    ensures a == b
  {
  }

  lemma GrowsOn(where: World, after: World, regs: seq<R.Registration>)
    requires Grows(where, after, regs) && regs != []
    ensures Grows(where[regs[0].wd := regs[0].name], after, regs[1..])
    ensures regs[0].wd > 0 && regs[0].name != []
    ensures var r := regs[0];
      if r.wd in where then where[r.wd] == r.name else forall c :: c in where ==> where[c] != r.name
  {
    var r := regs[0];
    var where1 := where[r.wd := r.name];
    assert regs[0].wd in after;
    forall wd | wd in after && wd !in where1 ensures exists k :: 0 <= k < |regs[1..]| && regs[1..][k].wd == wd {
      var k :| 0 <= k < |regs| && regs[k].wd == wd;
      assert regs[1..][k - 1].wd == wd;
    }
  }

  lemma {:induction false} GrowthIsAccurate(t: W.Table, where: World, after: World, regs: seq<R.Registration>)
    requires Accurate(t, where) && Grows(where, after, regs)
    ensures Accurate(R.RegisterAll(t, regs), after)
    decreases |regs|
  {
    if regs == [] {
      NoGrowth(where, after);
    } else {
      var r := regs[0];
      GrowsOn(where, after, regs);
      RegisterIsAccurate(t, where, r.name, r.wd);
      GrowthIsAccurate(W.CreateWatch(t, r.wd, None, r.name, 0).0, where[r.wd := r.name], after, regs[1..]);
    }
  }

  lemma RenamedIsAWorld(where: World, p: bytes, q: bytes)
    requires IsWorld(where) && q != [] && forall wd :: wd in where ==> !(q <= where[wd])
    ensures IsWorld(Renamed(where, p, q)) && Renamed(where, p, q).Keys == where.Keys
  {
    var after := Renamed(where, p, q);
    forall wd | wd in where ensures wd in after {
      assert q <= q && !(q <= where[wd]);
    }
    forall c, d | c in after && d in after && after[c] == after[d] ensures c == d {
      RenamedApart(where[c], where[d], p, q);
    }
  }

  lemma RelabelledIsAccurate(t: W.Table, t': W.Table, where: World, p: bytes, q: bytes, id: nat)
    requires P.Relabels(t, t', p, q) && id in t.watches && id in t'.watches
    requires IsAccurate(t, where, id) && !(q <= t.watches[id].filename)
    requires t.watches[id].wd in Renamed(where, p, q)
    ensures IsAccurate(t', Renamed(where, p, q), id)
  {
    var name := t.watches[id].filename;
    assert P.IsIndexed(t, id);
    assert q <= q && name != q;
    assert P.Now(name, t.byFilename.Keys, p, q) == Renamed(where, p, q)[t.watches[id].wd];
  }

  lemma RenameIsAccurate(t: W.Table, where: World, p: bytes, q: bytes)
    requires Accurate(t, where) && p != [] && q != []
    requires forall wd :: wd in where ==> !(q <= where[wd])
    ensures Accurate(W.ReplaceFilename(t, p, q), Renamed(where, p, q))
  {
    var t', after := W.ReplaceFilename(t, p, q), Renamed(where, p, q);
    forall k | k in t.byFilename ensures !(q <= k) {
      assert IsAccurate(t, where, t.byFilename[k]);
    }
    NothingCollides(t, p, q);
    P.ReplaceIsSimultaneous(t, p, q);
    W.RenamePrefixesKeepsValid(t, W.Entries(t.byFilename), p, q);
    RenamedIsAWorld(where, p, q);
    forall id | id in t'.watches ensures IsAccurate(t', after, id) {
      assert IsAccurate(t, where, id);
      RelabelledIsAccurate(t, t', where, p, q, id);
    }
  }

  lemma NothingCollides(t: W.Table, p: bytes, q: bytes)
    requires forall k :: k in t.byFilename ==> !(q <= k)
    ensures P.NoCollision(t.byFilename, p, q)
  {
    forall k | k in t.byFilename ensures !P.Collides(t.byFilename, k, p, q) {
      assert q <= q + k[if p <= k then |p| else 0..];
    }
  }

  lemma RenamedApart(m: bytes, n: bytes, p: bytes, q: bytes)
    requires !(q <= m) && !(q <= n)
    requires (if p <= m then q + m[|p|..] else m) == (if p <= n then q + n[|p|..] else n)
    ensures m == n
  {
    assert q <= q + m[if p <= m then |p| else 0..] && q <= q + n[if p <= n then |p| else 0..];
    if p <= m && p <= n {
      assert m[|p|..] == (q + m[|p|..])[|q|..] && n[|p|..] == (q + n[|p|..])[|q|..];
      assert m == p + m[|p|..] && n == p + n[|p|..];
    }
  }

  lemma RemovalIsAccurate(t: W.Table, where: World, path: bytes)
    requires Accurate(t, where) && path in t.byFilename
    ensures Accurate(W.DestroyWatch(t, t.byFilename[path]), Minus(where, path))
  {
    var id := t.byFilename[path];
    var t', after := W.DestroyWatch(t, id), Minus(where, path);
    W.DestroyKeepsValid(t, id);
    assert IsAccurate(t, where, id);
    forall i | i in t'.watches ensures IsAccurate(t', after, i) {
      assert IsAccurate(t, where, i);
    }
    forall wd ensures wd in t'.byWd <==> wd in after {
      if wd in where && where[wd] == path { assert wd == t.watches[id].wd; }
    }
    assert t'.byWd.Keys == after.Keys;
  }

  /** What a table takes the tree to be. */
  ghost function Believed(t: W.Table): World {
    map wd | wd in t.byWd && t.byWd[wd] in t.watches :: t.watches[t.byWd[wd]].filename
  }

  lemma AccurateIsBelieved(t: W.Table, where: World)
    requires Accurate(t, where)
    ensures Believed(t) == where
  {
    var all := Believed(t);
    forall wd | wd in where ensures wd in all && all[wd] == where[wd] {
      assert wd in t.byWd.Keys && IsAccurate(t, where, t.byWd[wd]);
    }
    assert all.Keys <= t.byWd.Keys && all.Keys == where.Keys;
    SameMap(all, where);
  }

  lemma RecordedName(t: W.Table, where: World, path: bytes)
    requires Accurate(t, where) && path != []
    ensures path in t.byFilename <==> IsWatched(where, path)
    ensures W.WdFromFilename(t, path) != -1 <==> path in t.byFilename
  {
    if path in t.byFilename {
      assert IsAccurate(t, where, t.byFilename[path]);
    }
    forall wd | wd in where ensures where[wd] in t.byFilename {
      assert IsAccurate(t, where, t.byWd[wd]);
    }
  }
}
