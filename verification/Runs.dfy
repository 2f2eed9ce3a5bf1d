/** Whole runs over a handle: any sequence of public operations, with the kernel's answers
    as parameters of the operations. */
module Runs {
  import opened Bytes
  import opened Stats
  import opened Fids
  import opened Watches

  datatype Op =
    | Create(wd: int, fid: Option<bytes>, filename: bytes, dirf: int)
    | Resolve(eventFid: bytes, path: Option<bytes>)
    | SetByWd(wd: int, newname: bytes)
    | SetByFilename(oldname: bytes, newname: bytes)
    | Replace(oldname: bytes, newname: bytes)
    | RemoveByWd(wd: int, status: int)
    | RemoveByFilename(filename: bytes, status: int)
    | RecordOne(wd: int, mask: Word)
    | ResetStats
    | Open(fanotify: bool, ok: bool)
    | Close

  /** A step goes on, panics on a dead id, or never ends looking for a free descriptor. */
  datatype Outcome = Continues(table: Table) | Panics | Diverges

  predicate Dead(t: Table, id: Option<nat>) { id.Some? && id.value !in t.watches }

  ghost function Step(t: Table, op: Op): Outcome {
    match op
    case Create(wd, fid, filename, dirf) =>
      if wd == 0 && Exhausted(t) then Diverges
      else Continues(CreateWatch(t, wd, fid, filename, dirf).0)
    case Resolve(fid, path) =>
      if Dead(t, Lookup(t.byFid, Key(fid))) then Panics
      else if Key(fid) !in t.byFid && path.Some? && Exhausted(t) then Diverges
      else Continues(ResolveEvent(t, fid, path).0)
    case SetByWd(wd, newname) =>
      if Dead(t, Lookup(t.byWd, wd)) then Panics
      else Continues(SetFilename(t, Lookup(t.byWd, wd), newname))
    case SetByFilename(oldname, newname) =>
      if Dead(t, Lookup(t.byFilename, oldname)) then Panics
      else Continues(SetFilename(t, Lookup(t.byFilename, oldname), newname))
    case Replace(oldname, newname) =>
      Continues(ReplaceFilename(t, oldname, newname))
    case RemoveByWd(wd, status) =>
      if Dead(t, Lookup(t.byWd, wd)) then Panics
      else Continues(RemoveWatch(t, Lookup(t.byWd, wd), status).0)
    case RemoveByFilename(filename, status) =>
      if Dead(t, Lookup(t.byFilename, filename)) then Panics
      else Continues(RemoveWatch(t, Lookup(t.byFilename, filename), status).0)
    case RecordOne(wd, mask) =>
      Continues(if t.collecting then RecordEvent(t, wd, mask) else t)
    case ResetStats => Continues(InitializeStats(t))
    case Open(fanotify, ok) => Continues(Init(t, fanotify, ok))
    case Close => Continues(Cleanup(t))
  }

  ghost function Run(t: Table, ops: seq<Op>): Outcome
    decreases |ops|
  {
    if ops == [] then Continues(t)
    else
      var r := Step(t, ops[0]);
      if r.Continues? then Run(r.table, ops[1..]) else r
  }

  lemma StepKeepsValid(t: Table, op: Op)
    requires Valid(t)
    ensures !Step(t, op).Panics?
    ensures Step(t, op).Continues? ==> Valid(Step(t, op).table)
    ensures Step(t, op).Diverges? ==> Exhausted(t)
  {
    match op {
      case Create(wd, fid, filename, dirf) =>
        if wd != 0 || !Exhausted(t) { CreateKeepsValid(t, wd, fid, filename, dirf); }
      case Resolve(fid, path) =>
        if Key(fid) !in t.byFid && path.Some? && !Exhausted(t) { CreateKeepsValid(t, 0, Some(fid), path.value, 0); }
      case SetByWd(wd, newname) =>
        if wd in t.byWd { RenameKeepsValid(t, t.byWd[wd], newname); }
      case SetByFilename(oldname, newname) =>
        if oldname in t.byFilename { RenameKeepsValid(t, t.byFilename[oldname], newname); }
      case Replace(oldname, newname) =>
        RenamePrefixesKeepsValid(t, Entries(t.byFilename), oldname, newname);
      case RemoveByWd(wd, status) =>
        if wd in t.byWd { DestroyKeepsValid(t, t.byWd[wd]); }
      case RemoveByFilename(filename, status) =>
        if filename in t.byFilename { DestroyKeepsValid(t, t.byFilename[filename]); }
      case RecordOne(wd, mask) => RecordKeepsValid(t, wd, mask);
      case ResetStats => InitializeStatsKeepsValid(t);
      case Open(fanotify, ok) => InitAndCleanupKeepValid(t, fanotify, ok);
      case Close => InitAndCleanupKeepValid(t, false, false);
    }
  }

  /** No run, whatever it does and however entries shadow each other, leaves a dangling
      index entry or looks up a dead watch; only a handle out of descriptors can hang. */
  lemma {:induction false} RunsNeverDangle(t: Table, ops: seq<Op>)
    requires Valid(t)
    ensures !Run(t, ops).Panics?
    ensures Run(t, ops).Continues? ==> Valid(Run(t, ops).table)
    decreases |ops|
  {
    if ops != [] {
      StepKeepsValid(t, ops[0]);
      var r := Step(t, ops[0]);
      if r.Continues? { RunsNeverDangle(r.table, ops[1..]); }
    }
  }

  lemma SomeKey<K, V>(m: map<K, V>, v: V) returns (k: K)
    requires v in m.Values
    ensures k in m && m[k] == v
  {
    k :| k in m && m[k] == v;
  }

  ghost predicate OneToOne<K(!new)>(index: map<K, nat>) {
    forall j, k :: j in index && k in index && index[j] == index[k] ==> j == k
  }

  /** From a new handle every reachable table has only live, correctly keyed index entries,
      and no id twice in one index. */
  lemma ReachableTables(ops: seq<Op>)
    requires Run(EMPTY, ops).Continues?
    ensures var t := Run(EMPTY, ops).table;
      NoDangling(t) && OneToOne(t.byWd) && OneToOne(t.byFid) && OneToOne(t.byFilename)
  {
    RunsNeverDangle(EMPTY, ops);
  }
}
