/** Fanotify mode: descriptors are our own, watches are identified by fids. */
module FanotifyIdentity {
  import opened Bytes
  import opened Fids
  import opened Watches
  import opened Runs

  /** What can happen between init and cleanup in fanotify mode: every watch comes with a
      fid and asks for a descriptor. */
  predicate FanotifyOp(op: Op) {
    match op
    case Create(wd, fid, _, _) => wd == 0 && fid.Some?
    case Close => false
    case _ => true
  }

  /** `byWd` is in bijection with the live watches, each of which has a fid. */
  ghost predicate FanotifyValid(t: Table) {
    && Valid(t)
    && t.initialized
    && (forall id :: id in t.watches ==>
          && t.watches[id].fid.Some?
          && 1 <= t.watches[id].wd
          && t.watches[id].wd in t.byWd && t.byWd[t.watches[id].wd] == id)
  }

  /** `later` still knows every key of `earlier` by the same descriptor. */
  ghost predicate SameIdentities(earlier: Table, later: Table) {
    forall k :: k in earlier.byFid && earlier.byFid[k] in earlier.watches ==>
      && k in later.byFid && later.byFid[k] in later.watches
      && later.watches[later.byFid[k]].wd == earlier.watches[earlier.byFid[k]].wd
  }

  lemma CreateKeepsIdentities(t: Table, fid: bytes, filename: bytes, dirf: int)
    requires FanotifyValid(t) && !Exhausted(t)
    ensures var r := CreateWatch(t, 0, Some(fid), filename, dirf);
      && FanotifyValid(r.0) && SameIdentities(t, r.0)
      && r.1.Some? && r.1.value !in t.byWd && r.1.value > 0
      && (Key(fid) !in t.byFid ==> Key(fid) in r.0.byFid && r.0.watches[r.0.byFid[Key(fid)]].wd == r.1.value)
  {
    var f :| IsFreeWd(t.byWd.Keys, f);
    FreshWdIsFree(t.byWd.Keys, t.nextFanotifyWd, MAX_WD, f);
    CreateKeepsValid(t, 0, Some(fid), filename, dirf);
    var r := CreateWatch(t, 0, Some(fid), filename, dirf);
    assert r.0.watches == t.watches[t.nextId := Watch(Some(fid), filename, r.1.value, dirf, Stats.ZERO)];
  }

  lemma RenameKeepsIdentities(t: Table, id: nat, name: bytes)
    requires FanotifyValid(t) && id in t.watches
    ensures FanotifyValid(RenameWatch(t, id, name)) && SameIdentities(t, RenameWatch(t, id, name))
  {
    RenameKeepsValid(t, id, name);
  }

  lemma {:induction false} RenamePrefixesKeepsIdentities(t: Table, ids: seq<nat>, oldname: bytes, newname: bytes)
    requires FanotifyValid(t)
    ensures var t' := RenamePrefixes(t, ids, oldname, newname); FanotifyValid(t') && SameIdentities(t, t')
    decreases |ids|
  {
    if ids != [] {
      if Moves(t, ids[0], oldname, newname) {
        RenameKeepsIdentities(t, ids[0], newname + t.watches[ids[0]].filename[|oldname|..]);
      }
      RenamePrefixesKeepsIdentities(RenamePrefix(t, ids[0], oldname, newname), ids[1..], oldname, newname);
    }
  }

  lemma StepKeepsIdentities(t: Table, op: Op)
    requires FanotifyValid(t) && FanotifyOp(op) && Step(t, op).Continues?
    ensures FanotifyValid(Step(t, op).table) && SameIdentities(t, Step(t, op).table)
  {
    match op {
      case Create(wd, fid, filename, dirf) => CreateKeepsIdentities(t, fid.value, filename, dirf);
      case Resolve(fid, path) =>
        if Key(fid) !in t.byFid && path.Some? { CreateKeepsIdentities(t, fid, path.value, 0); }
      case SetByWd(wd, newname) =>
        if wd in t.byWd { RenameKeepsIdentities(t, t.byWd[wd], newname); }
      case SetByFilename(oldname, newname) =>
        if oldname in t.byFilename { RenameKeepsIdentities(t, t.byFilename[oldname], newname); }
      case Replace(oldname, newname) =>
        RenamePrefixesKeepsIdentities(t, Entries(t.byFilename), oldname, newname);
      case RecordOne(wd, mask) => RecordKeepsValid(t, wd, mask);
      case ResetStats => InitializeStatsKeepsValid(t);
      case _ =>
    }
  }

  /** Over any run in fanotify mode a fid key that has a descriptor keeps it. */
  lemma {:induction false} IdentitiesAreStable(t: Table, ops: seq<Op>)
    requires FanotifyValid(t)
    requires forall op :: op in ops ==> FanotifyOp(op)
    requires Run(t, ops).Continues?
    ensures FanotifyValid(Run(t, ops).table) && SameIdentities(t, Run(t, ops).table)
    decreases |ops|
  {
    if ops != [] {
      StepKeepsIdentities(t, ops[0]);
      IdentitiesAreStable(Step(t, ops[0]).table, ops[1..]);
    }
  }

  /** Opening a handle that holds no watches starts a fanotify session. */
  lemma SessionStarts(t: Table)
    requires Valid(t) && !t.initialized && t.watches == map[]
    ensures FanotifyValid(Init(t, true, true))
  {
  }

  /** Once an event has been reported under a descriptor, every later event whose fid has the
      same key is reported under that descriptor, and changes nothing. */
  lemma LaterEventsReportTheSameWd(t: Table, fid: bytes, path: Option<bytes>, ops: seq<Op>,
                                   fid2: bytes, path2: Option<bytes>)
    requires FanotifyValid(t) && !Exhausted(t)
    requires forall op :: op in ops ==> FanotifyOp(op)
    requires Key(fid2) == Key(fid)
    requires var r := ResolveEvent(t, fid, path); r.1 != 0 && Run(r.0, ops).Continues?
    ensures var r := ResolveEvent(t, fid, path);
      var later := Run(r.0, ops).table;
      Key(fid2) in later.byFid && later.byFid[Key(fid2)] in later.watches
      && ResolveEvent(later, fid2, path2) == (later, r.1)
  {
    var r := ResolveEvent(t, fid, path);
    if Key(fid) !in t.byFid { CreateKeepsIdentities(t, fid, path.value, 0); }
    IdentitiesAreStable(r.0, ops);
  }

  /** Different keys are different descriptors, and descriptors stand for live watches. */
  lemma DistinctKeysHaveDistinctWds(t: Table, j: FidKey, k: FidKey)
    requires FanotifyValid(t) && j in t.byFid && k in t.byFid
    ensures t.watches[t.byFid[j]].wd == t.watches[t.byFid[k]].wd <==> j == k
    ensures t.byWd.Values == t.watches.Keys && OneToOne(t.byWd)
  {
    forall id | id in t.watches ensures id in t.byWd.Values {
      var wd := t.watches[id].wd;
      assert wd in t.byWd && t.byWd[wd] == id;
    }
    forall id | id in t.byWd.Values ensures id in t.watches {
      var wd := SomeKey(t.byWd, id);
    }
  }
}
