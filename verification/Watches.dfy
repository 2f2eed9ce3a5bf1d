/** The watch table: one map of watches under three partial indexes.  Insertion keeps
    the first entry under a key, deletion goes by key, so entries can shadow each other. */
module Watches {
  import opened Bytes
  import opened Stats
  import opened Fids

  const MAX_WD := 0x7fff_ffff

  datatype Watch = Watch(fid: Option<bytes>, filename: bytes, wd: int, dirf: int, stats: WatchStats)

  /** The state of a handle, as a value. */
  datatype Table = Table(
    watches: map<nat, Watch>,
    nextId: nat,
    nextFanotifyWd: int,
    byWd: map<int, nat>,
    byFid: map<FidKey, nat>,
    byFilename: map<bytes, nat>,
    totals: WatchStats,
    collecting: bool,
    initialized: bool,
    fanotify: bool)

  const EMPTY := Table(map[], 1, 0, map[], map[], map[], ZERO, false, false, false)

  // ---------------------------------------------------------------- allocation of descriptors

  /** A 32-bit increment that starts again at 1 instead of going negative. */
  function NextWd(n: int): int {
    if n < 0 || n == MAX_WD then 1 else n + 1
  }

  predicate IsCounter(n: int) { -0x8000_0000 <= n <= MAX_WD }

  predicate IsFreeWd(used: set<int>, wd: int) {
    1 <= wd <= MAX_WD && wd !in used
  }

  /** The first unused descriptor after n, going round the cycle at most `fuel` times. */
  function FreshWd(used: set<int>, n: int, fuel: nat): int
    decreases fuel, used
  {
    if fuel == 0 || NextWd(n) !in used then NextWd(n) else FreshWd(used, NextWd(n), fuel - 1)
  }

  /** How many increments lead from n to f, at least one and at most the whole cycle. */
  function Distance(n: int, f: int): int {
    if n < 0 then f else if n < f then f - n else MAX_WD - n + f
  }

  lemma {:induction false} FreshWdIsFree(used: set<int>, n: int, fuel: nat, f: int)
    requires IsCounter(n) && IsFreeWd(used, f) && Distance(n, f) <= fuel + 1
    ensures IsFreeWd(used, FreshWd(used, n, fuel))
    ensures IsCounter(FreshWd(used, n, fuel))
    decreases fuel
  {
    if fuel != 0 && NextWd(n) in used {
      FreshWdIsFree(used, NextWd(n), fuel - 1, f);
    }
  }

  /** The descriptors 1 to n. */
  function Positive(n: nat): (r: set<int>)
    ensures |r| == n
    ensures forall x :: x in r <==> 1 <= x <= n
  {
    if n == 0 then {} else Positive(n - 1) + {n}
  }

  lemma {:induction false} SubsetSize<T>(a: set<T>, b: set<T>)
    requires a <= b
    ensures |a| <= |b|
  {
    if a != {} {
      var x :| x in a;
      SubsetSize(a - {x}, b - {x});
    }
  }

  /** Pigeonhole: while fewer than 2^31-1 positive descriptors are in use, one is free. */
  lemma SomeWdIsFree(used: set<int>)
    requires |set wd | wd in used && 1 <= wd <= MAX_WD| < MAX_WD
    ensures exists f :: IsFreeWd(used, f)
  {
    var taken := set wd | wd in used && 1 <= wd <= MAX_WD;
    if forall f :: f in Positive(MAX_WD) ==> f in taken {
      SubsetSize(Positive(MAX_WD), taken);
      assert false;
    }
    var f :| f in Positive(MAX_WD) && f !in taken;
    assert IsFreeWd(used, f);
  }

  // ---------------------------------------------------------------- operations on values

  function Insert<K>(index: map<K, nat>, k: K, id: nat): map<K, nat> {
    if k in index then index else index[k := id]
  }

  function InsertFid(index: map<FidKey, nat>, fid: Option<bytes>, id: nat): map<FidKey, nat> {
    if fid.Some? then Insert(index, Key(fid.value), id) else index
  }

  /** Enter a watch under every key it has that is still vacant; a watch that finds no
      vacancy at all is dropped. */
  function Register(t: Table, w: Watch): Table {
    var id := t.nextId;
    var byWd := Insert(t.byWd, w.wd, id);
    var byFid := InsertFid(t.byFid, w.fid, id);
    var byFilename := Insert(t.byFilename, w.filename, id);
    var inserted := w.wd !in t.byWd || (w.fid.Some? && Key(w.fid.value) !in t.byFid) || w.filename !in t.byFilename;
    t.(nextId := id + 1, byWd := byWd, byFid := byFid, byFilename := byFilename,
       watches := if inserted then t.watches[id := w] else t.watches)
  }

  function CreateWatch(t: Table, wd: int, fid: Option<bytes>, filename: bytes, dirf: int): (Table, Option<int>) {
    if wd < 0 then (t, None)
    else if wd == 0 then
      var d := FreshWd(t.byWd.Keys, t.nextFanotifyWd, MAX_WD);
      (Register(t.(nextFanotifyWd := d), Watch(fid, filename, d, dirf, ZERO)), Some(d))
    else
      (Register(t, Watch(fid, filename, wd, dirf, ZERO)), Some(wd))
  }

  function DestroyWatch(t: Table, id: nat): Table
    requires id in t.watches
  {
    var w := t.watches[id];
    t.(byWd := t.byWd - {w.wd},
       byFid := if w.fid.Some? then t.byFid - {Key(w.fid.value)} else t.byFid,
       byFilename := t.byFilename - {w.filename},
       watches := t.watches - {id})
  }

  /** Move an id from its current name to a new one: it leaves the current name only if it
      holds it, and takes the new one only if that is vacant. */
  function Relocate(index: map<bytes, nat>, id: nat, current: bytes, newname: bytes): map<bytes, nat> {
    Insert(if current in index && index[current] == id then index - {current} else index, newname, id)
  }

  function RenameWatch(t: Table, id: nat, newname: bytes): Table
    requires id in t.watches
  {
    t.(byFilename := Relocate(t.byFilename, id, t.watches[id].filename, newname),
       watches := t.watches[id := t.watches[id].(filename := newname)])
  }

  predicate Moves(t: Table, id: nat, oldname: bytes, newname: bytes) {
    id in t.watches && oldname <= t.watches[id].filename && t.watches[id].filename != newname
  }

  function RenamePrefix(t: Table, id: nat, oldname: bytes, newname: bytes): Table {
    if Moves(t, id, oldname, newname)
    then RenameWatch(t, id, newname + t.watches[id].filename[|oldname|..])
    else t
  }

  function RenamePrefixes(t: Table, ids: seq<nat>, oldname: bytes, newname: bytes): Table
    decreases |ids|
  {
    if ids == [] then t else RenamePrefixes(RenamePrefix(t, ids[0], oldname, newname), ids[1..], oldname, newname)
  }

  /** The ids of an index in the order of their keys. */
  ghost function Entries(index: map<bytes, nat>): seq<nat> {
    var keys := SortedKeys(index.Keys);
    SortedKeysAreTheKeys(index.Keys);
    seq(|keys|, i requires 0 <= i < |keys| => assert keys[i] in keys; index[keys[i]])
  }

  ghost function ReplaceFilename(t: Table, oldname: bytes, newname: bytes): Table {
    if oldname == [] || newname == [] then t
    else RenamePrefixes(t, Entries(t.byFilename), oldname, newname)
  }

  function SetFilename(t: Table, id: Option<nat>, name: bytes): Table
    requires id.Some? ==> id.value in t.watches
  {
    if id.Some? then RenameWatch(t, id.value, name) else t
  }

  /** `status` is what the kernel answers to the request to drop the watch. */
  function RemoveWatch(t: Table, id: Option<nat>, status: int): (Table, bool)
    requires id.Some? ==> id.value in t.watches
  {
    if id.None? then (t, true)
    else if t.watches[id.value].fid.Some? || status < 0 then (t, false)
    else (DestroyWatch(t, id.value), true)
  }

  function RecordEvent(t: Table, wd: int, mask: Word): Table {
    if wd in t.byWd then
      var id := t.byWd[wd];
      t.(watches := if id in t.watches
                    then t.watches[id := t.watches[id].(stats := Record(t.watches[id].stats, mask))]
                    else t.watches,
         totals := Record(t.totals, mask))
    else t
  }

  function ClearCounters(watches: map<nat, Watch>, ids: set<nat>): map<nat, Watch> {
    map id | id in watches :: if id in ids then watches[id].(stats := ZERO) else watches[id]
  }

  function InitializeStats(t: Table): Table {
    t.(watches := if t.collecting then ClearCounters(t.watches, t.byWd.Values) else t.watches,
       totals := ZERO,
       collecting := true)
  }

  /** `ok` says whether the kernel handed out a descriptor. */
  function Init(t: Table, fanotify: bool, ok: bool): Table {
    if t.initialized then t
    else if !ok then t.(fanotify := fanotify)
    else t.(fanotify := fanotify, collecting := false, initialized := true,
            byWd := map[], byFid := map[], byFilename := map[])
  }

  function Cleanup(t: Table): Table {
    if !t.initialized then t
    else t.(initialized := false, collecting := false,
            byWd := map[], byFid := map[], byFilename := map[], watches := map[])
  }

  /** No descriptor is left to hand out. */
  ghost predicate Exhausted(t: Table) { forall f :: !IsFreeWd(t.byWd.Keys, f) }

  lemma FewWatchesLeaveRoom(t: Table)
    requires |t.byWd| < MAX_WD
    ensures !Exhausted(t)
  {
    var used := t.byWd.Keys;
    var taken := set wd | wd in used && 1 <= wd <= MAX_WD;
    SubsetSize(taken, used);
    SomeWdIsFree(used);
  }

  function Lookup<K>(index: map<K, nat>, k: K): Option<nat> {
    if k in index then Some(index[k]) else None
  }

  /** The error a request to drop a watch leaves. */
  function RemovalError(t: Table, id: Option<nat>, status: int, error: int): int
    requires id.Some? ==> id.value in t.watches
  {
    if id.None? then error
    else if t.watches[id.value].fid.None? && status < 0 then status
    else 0
  }

  /** The name of a watch; under filesystem marks the path currently found for its fid comes
      first. */
  function FilenameFromWatch(t: Table, id: nat, filesystem: bool, resolve: bytes -> Option<bytes>): bytes {
    if id !in t.watches then []
    else
      var w := t.watches[id];
      if w.fid.Some? && filesystem && resolve(w.fid.value).Some? then resolve(w.fid.value).value else w.filename
  }

  /** The name of the watch of a descriptor, empty if it has none. */
  function FilenameFromWd(t: Table, wd: int, filesystem: bool, resolve: bytes -> Option<bytes>): bytes {
    if wd == 0 || wd !in t.byWd then [] else FilenameFromWatch(t, t.byWd[wd], filesystem, resolve)
  }

  function WdFromFilename(t: Table, filename: bytes): int {
    if filename != [] && filename in t.byFilename && t.byFilename[filename] in t.watches
    then t.watches[t.byFilename[filename]].wd
    else -1
  }

  /** What a fanotify event does to the table, and the descriptor it reports: the one its
      fid has, else a new one under the path found for it, else (no path) 0. */
  function ResolveEvent(t: Table, fid: bytes, path: Option<bytes>): (Table, int)
    requires Key(fid) in t.byFid ==> t.byFid[Key(fid)] in t.watches
  {
    if Key(fid) in t.byFid then (t, t.watches[t.byFid[Key(fid)]].wd)
    else if path.None? then (t, 0)
    else
      var r := CreateWatch(t, 0, Some(fid), path.value, 0);
      (r.0, r.1.value)
  }

  lemma ResolveAddsAtMostOne(t: Table, fid: bytes, path: Option<bytes>)
    requires Key(fid) in t.byFid ==> t.byFid[Key(fid)] in t.watches
    ensures var t' := ResolveEvent(t, fid, path).0;
      |t'.byWd| <= |t.byWd| + 1 && t'.fanotify == t.fanotify
  {
  }

  // ---------------------------------------------------------------- the invariant

  ghost predicate WdsIndexed(t: Table) {
    forall wd :: wd in t.byWd ==> t.byWd[wd] in t.watches && t.watches[t.byWd[wd]].wd == wd
  }

  ghost predicate FidsIndexed(t: Table) {
    forall k :: k in t.byFid ==>
      && t.byFid[k] in t.watches
      && t.watches[t.byFid[k]].fid.Some? && Key(t.watches[t.byFid[k]].fid.value) == k
  }

  ghost predicate NamesIndexed(t: Table) {
    forall n :: n in t.byFilename ==>
      t.byFilename[n] in t.watches && t.watches[t.byFilename[n]].filename == n
  }

  /** Every id in an index is live and its watch carries the key it sits under. */
  ghost predicate NoDangling(t: Table) {
    WdsIndexed(t) && FidsIndexed(t) && NamesIndexed(t)
  }

  ghost predicate Valid(t: Table) {
    && NoDangling(t)
    && (forall id :: id in t.watches ==> id < t.nextId)
    && IsCounter(t.nextFanotifyWd)
  }

  lemma RegisterKeepsValid(t: Table, w: Watch)
    requires Valid(t)
    ensures Valid(Register(t, w))
  {
    var t' := Register(t, w);
    assert WdsIndexed(t');
    assert FidsIndexed(t');
    assert NamesIndexed(t');
  }

  lemma CreateKeepsValid(t: Table, wd: int, fid: Option<bytes>, filename: bytes, dirf: int)
    requires Valid(t)
    requires wd == 0 ==> exists f :: IsFreeWd(t.byWd.Keys, f)
    ensures Valid(CreateWatch(t, wd, fid, filename, dirf).0)
  {
    if wd == 0 {
      var f :| IsFreeWd(t.byWd.Keys, f);
      FreshWdIsFree(t.byWd.Keys, t.nextFanotifyWd, MAX_WD, f);
      RegisterKeepsValid(t.(nextFanotifyWd := FreshWd(t.byWd.Keys, t.nextFanotifyWd, MAX_WD)),
                         Watch(fid, filename, FreshWd(t.byWd.Keys, t.nextFanotifyWd, MAX_WD), dirf, ZERO));
    } else if wd > 0 {
      RegisterKeepsValid(t, Watch(fid, filename, wd, dirf, ZERO));
    }
  }

  lemma DestroyKeepsValid(t: Table, id: nat)
    requires Valid(t) && id in t.watches
    ensures Valid(DestroyWatch(t, id))
  {
  }

  lemma RenameKeepsValid(t: Table, id: nat, name: bytes)
    requires Valid(t) && id in t.watches
    ensures Valid(RenameWatch(t, id, name))
  {
  }

  lemma {:induction false} RenamePrefixesKeepsValid(t: Table, ids: seq<nat>, oldname: bytes, newname: bytes)
    requires Valid(t)
    ensures Valid(RenamePrefixes(t, ids, oldname, newname))
    ensures RenamePrefixes(t, ids, oldname, newname).byWd == t.byWd
    ensures RenamePrefixes(t, ids, oldname, newname).byFid == t.byFid
    decreases |ids|
  {
    if ids != [] {
      if Moves(t, ids[0], oldname, newname) {
        RenameKeepsValid(t, ids[0], newname + t.watches[ids[0]].filename[|oldname|..]);
      }
      RenamePrefixesKeepsValid(RenamePrefix(t, ids[0], oldname, newname), ids[1..], oldname, newname);
    }
  }

  lemma InitAndCleanupKeepValid(t: Table, fanotify: bool, ok: bool)
    requires Valid(t)
    ensures Valid(Init(t, fanotify, ok)) && Valid(Cleanup(t))
  {
  }

  lemma RecordKeepsValid(t: Table, wd: int, mask: Word)
    requires Valid(t)
    ensures Valid(RecordEvent(t, wd, mask))
  {
  }

  lemma InitializeStatsKeepsValid(t: Table)
    requires Valid(t)
    ensures Valid(InitializeStats(t))
  {
  }
}
