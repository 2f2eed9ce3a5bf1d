/** Setting up watches on single files, under inotify and under fanotify. */
module WatchFiles {
  import opened Bytes
  import opened Fids
  import opened Stats
  import W = Watches
  import H = Handle

  const MAX_FID_LEN := 20

  /** What the system answers while the fid of a file just marked is made: the id of its
      filesystem, a descriptor of the directory to open handles by, the file handle (its length
      and type in eight bytes, then the handle itself), and a descriptor of the directory. */
  datatype Encoding = Encoding(fsid: Option<bytes>, mountFd: int, handle: Option<bytes>, dirFd: int)

  /** The answer to a request for a watch: a positive descriptor (inotify), 0 and the answers
      that identify the file (fanotify), or a negative number and, for -1, the reason; and
      whether the file is a directory. */
  datatype Adding = Adding(wd: int, errno: int, isdir: bool, enc: Encoding)

  /** Filesystem ids have eight bytes, and handles the length their first eight bytes tell. */
  predicate FromSystem(add: Adding) {
    && (add.enc.fsid.Some? ==> |add.enc.fsid.value| == 8)
    && (add.enc.handle.Some? ==> 8 <= |add.enc.handle.value| <= 8 + MAX_FID_LEN)
  }

  predicate EndsWithSlash(p: bytes) { p != [] && p[|p| - 1] == SLASH }

  function Slashed(p: bytes): bytes { if EndsWithSlash(p) then p else p + [SLASH] }

  // ---------------------------------------------------------------- fids

  function Zeros(n: nat): (r: bytes)
    ensures |r| == n
  {
    seq(n, _ => 0)
  }

  /** A fid in the making: only the filesystem id is set. */
  function BlankFid(fsid: bytes): bytes { [0, 0, 0, 0] + fsid + Zeros(8 + MAX_FID_LEN) }

  function EncodedFid(isdir: bool, fsid: bytes, handle: bytes): (f: bytes)
    requires |fsid| == 8 && 8 <= |handle| <= 8 + MAX_FID_LEN
  {
    var kind := if isdir then INFO_DFID else INFO_FID;
    SetHdrLen([kind, 0, 0, 0] + fsid + handle + Zeros(8 + MAX_FID_LEN - |handle|), HANDLE_OFF + |handle|)
  }

  /** A fid without a length has the empty key. */
  const NO_KEY := FidKey(0, [])

  lemma BlankFidHasNoKey(fsid: bytes)
    ensures Key(BlankFid(fsid)) == NO_KEY
  {
    var f := BlankFid(fsid);
    assert f[2] == 0 && f[3] == 0;
    assert HdrLen(f) == 0;
  }

  lemma EncodedFidIs(isdir: bool, fsid: bytes, handle: bytes)
    requires |fsid| == 8 && 8 <= |handle| <= 8 + MAX_FID_LEN
    ensures var f := EncodedFid(isdir, fsid, handle);
      && |f| == FID_HDR + MAX_FID_LEN && HdrLen(f) == HANDLE_OFF + |handle| >= FID_HDR
      && f[0] == (if isdir then INFO_DFID else INFO_FID) && f[1] == 0
      && f[4..12] == fsid && f[12..HdrLen(f)] == handle
  {
    var f := EncodedFid(isdir, fsid, handle);
    var body := [if isdir then INFO_DFID else INFO_FID, 0, 0, 0] + fsid + handle + Zeros(8 + MAX_FID_LEN - |handle|);
    assert f[4..] == body[4..] == fsid + handle + Zeros(8 + MAX_FID_LEN - |handle|);
    assert f[4..12] == f[4..][..8] && f[12..HdrLen(f)] == f[4..][8..8 + |handle|];
  }

  /** Two files have the same key exactly if both or neither is a directory and their
      filesystem and handle are the same. */
  lemma EncodedFidsIdentifyFiles(d1: bool, fsid1: bytes, h1: bytes, d2: bool, fsid2: bytes, h2: bytes)
    requires |fsid1| == |fsid2| == 8 && 8 <= |h1| <= 8 + MAX_FID_LEN && 8 <= |h2| <= 8 + MAX_FID_LEN
    ensures Key(EncodedFid(d1, fsid1, h1)) == Key(EncodedFid(d2, fsid2, h2)) <==> d1 == d2 && fsid1 == fsid2 && h1 == h2
  {
    var (f, g) := (EncodedFid(d1, fsid1, h1), EncodedFid(d2, fsid2, h2));
    EncodedFidIs(d1, fsid1, h1);
    EncodedFidIs(d2, fsid2, h2);
    KeyIdentifiesRecord(f, g);
    if Key(f) == Key(g) {
      var n := HdrLen(f);
      forall i | 0 <= i < n ensures f[i] == g[i] { assert At(f, i) == At(g, i); }
      assert f[..n] == g[..n];
      forall i | 0 <= i < 8 ensures fsid1[i] == fsid2[i] { assert f[4..12][i] == f[4 + i] == g[4 + i] == g[4..12][i]; }
      assert f[12..n] == f[..n][12..] == g[..n][12..] == g[12..n];
    }
  }

  // ---------------------------------------------------------------- one watch

  /** All the answers needed for a fid are there. */
  predicate Encodes(add: Adding) {
    && add.enc.fsid.Some? && add.enc.handle.Some?
    && (add.isdir ==> add.enc.mountFd >= 0 && add.enc.dirFd >= 0)
  }

  function FidOfFile(add: Adding): bytes
    requires FromSystem(add) && Encodes(add)
  {
    EncodedFid(add.isdir, add.enc.fsid.value, add.enc.handle.value)
  }

  function DirOfFile(add: Adding): int { if add.isdir then add.enc.dirFd else 0 }

  function AddError(add: Adding): Option<int> {
    if add.wd > 0 || (add.wd == 0 && Encodes(add)) then None
    else Some(if add.wd == -1 then add.errno else 0)
  }

  /** The name a file is registered under: a directory's ends in a slash. */
  function RegisteredName(path: bytes, add: Adding): bytes {
    if add.isdir then Slashed(path) else path
  }

  /** The entry of a directory's filesystem, with the descriptor to open its handles by. */
  function AddMount(t: W.Table, name: bytes, add: Adding): W.Table
    requires name != []
  {
    if add.enc.fsid.Some? && add.enc.mountFd >= 0 && NO_KEY !in t.byFid then
      W.CreateWatch(t, 0, Some(FsidKey(BlankFid(add.enc.fsid.value))), name[..|name| - 1], add.enc.mountFd).0
    else t
  }

  /** What the answer does to the table, whether the request succeeds or not. */
  function AddWatch(t: W.Table, path: bytes, add: Adding): W.Table
    requires FromSystem(add)
  {
    var name := RegisteredName(path, add);
    if add.wd > 0 then W.CreateWatch(t, add.wd, None, name, 0).0
    else if add.wd < 0 then t
    else
      var t1 := if add.isdir then AddMount(t, name, add) else t;
      if Encodes(add) then
        W.CreateWatch(t1, 0, Some(FidOfFile(add)), name, DirOfFile(add)).0
      else t1
  }

  /** There is room for the two descriptors of our own a watch may take. */
  predicate HasRoom(t: W.Table, add: Adding) { add.wd == 0 ==> |t.byWd| + 2 <= W.MAX_WD }

  lemma InsertedKeys<K>(index: map<K, nat>, k: K, id: nat)
    ensures W.Insert(index, k, id).Keys == index.Keys + {k}
    ensures |W.Insert(index, k, id)| <= |index| + 1
  {
  }

  /** The keys a table has after a watch is entered: all there were, and those of the watch. */
  lemma RegisteredKeys(t: W.Table, w: W.Watch)
    ensures var t' := W.Register(t, w);
      && t'.byWd.Keys == t.byWd.Keys + {w.wd} && |t'.byWd| <= |t.byWd| + 1
      && t'.byFid.Keys == t.byFid.Keys + (if w.fid.Some? then {Key(w.fid.value)} else {})
      && t'.byFilename.Keys == t.byFilename.Keys + {w.filename}
      && t'.fanotify == t.fanotify
  {
    InsertedKeys(t.byWd, w.wd, t.nextId);
    InsertedKeys(t.byFilename, w.filename, t.nextId);
    if w.fid.Some? { InsertedKeys(t.byFid, Key(w.fid.value), t.nextId); }
  }

  lemma CreatedIsFound(t: W.Table, wd: int, fid: Option<bytes>, name: bytes, dirf: int)
    requires W.Valid(t) && wd >= 0 && (wd == 0 ==> |t.byWd| < W.MAX_WD)
    ensures var t' := W.CreateWatch(t, wd, fid, name, dirf).0;
      && W.Valid(t') && |t'.byWd| <= |t.byWd| + 1 && (wd > 0 ==> wd in t'.byWd) && name in t'.byFilename
      && t'.byFid.Keys == t.byFid.Keys + (if fid.Some? then {Key(fid.value)} else {})
      && t.byWd.Keys <= t'.byWd.Keys && t.byFilename.Keys <= t'.byFilename.Keys && t'.fanotify == t.fanotify
  {
    if wd == 0 { W.FewWatchesLeaveRoom(t); }
    W.CreateKeepsValid(t, wd, fid, name, dirf);
    var d := if wd == 0 then W.FreshWd(t.byWd.Keys, t.nextFanotifyWd, W.MAX_WD) else wd;
    RegisteredKeys(if wd == 0 then t.(nextFanotifyWd := d) else t, W.Watch(fid, name, d, dirf, ZERO));
  }

  lemma EncodedIsNotBlank(add: Adding)
    requires FromSystem(add) && Encodes(add)
    ensures Key(FidOfFile(add)) != NO_KEY
  {
    EncodedFidIs(add.isdir, add.enc.fsid.value, add.enc.handle.value);
  }

  lemma MountIsFound(t: W.Table, name: bytes, add: Adding)
    requires W.Valid(t) && name != [] && FromSystem(add) && |t.byWd| < W.MAX_WD && NO_KEY !in t.byFid
    ensures var t' := AddMount(t, name, add);
      && W.Valid(t') && |t'.byWd| <= |t.byWd| + 1 && NO_KEY !in t'.byFid && t'.fanotify == t.fanotify
      && t.byWd.Keys <= t'.byWd.Keys && t.byFid.Keys <= t'.byFid.Keys && t.byFilename.Keys <= t'.byFilename.Keys
      && (add.enc.fsid.Some? && add.enc.mountFd >= 0 ==> Key(FsidKey(BlankFid(add.enc.fsid.value))) in t'.byFid)
  {
    if add.enc.fsid.Some? && add.enc.mountFd >= 0 {
      var f := FsidKey(BlankFid(add.enc.fsid.value));
      assert HdrLen(f) == FID_HDR;
      CreatedIsFound(t, 0, Some(f), name[..|name| - 1], add.enc.mountFd);
    }
  }

  /** Whatever the answers, the table stays valid and grows by at most two; after a success the
      file is found by its name and by its descriptor or fid, and for a directory under
      fanotify the entry of its filesystem as well. */
  lemma AddedIsFound(t: W.Table, path: bytes, add: Adding)
    requires W.Valid(t) && FromSystem(add) && NO_KEY !in t.byFid && HasRoom(t, add)
    ensures var t' := AddWatch(t, path, add);
      && W.Valid(t') && |t'.byWd| <= |t.byWd| + 2 && NO_KEY !in t'.byFid && t'.fanotify == t.fanotify
      && t.byWd.Keys <= t'.byWd.Keys && t.byFid.Keys <= t'.byFid.Keys && t.byFilename.Keys <= t'.byFilename.Keys
      && (AddError(add).None? ==> RegisteredName(path, add) in t'.byFilename)
      && (AddError(add).None? && add.wd > 0 ==> add.wd in t'.byWd)
      && (AddError(add).None? && add.wd == 0 ==>
            && Key(FidOfFile(add)) in t'.byFid
            && (add.isdir ==> Key(FsidKey(BlankFid(add.enc.fsid.value))) in t'.byFid))
  {
    var name := RegisteredName(path, add);
    if add.wd > 0 {
      CreatedIsFound(t, add.wd, None, name, 0);
    } else if add.wd == 0 {
      var t1 := if add.isdir then AddMount(t, name, add) else t;
      if add.isdir { MountIsFound(t, name, add); }
      if Encodes(add) {
        EncodedIsNotBlank(add);
        CreatedIsFound(t1, 0, Some(FidOfFile(add)), name, DirOfFile(add));
      }
    }
  }

  // ---------------------------------------------------------------- on a handle

  /** The fid of a file just marked, and a descriptor of it if it is a directory; registers the
      filesystem of a directory on the way. */
  method EncodeFid(lib: H.Inotifytools, name: bytes, add: Adding) returns (fid: Option<(bytes, int)>)
    requires lib.Valid() && FromSystem(add) && NO_KEY !in lib.byFid && |lib.byWd| < W.MAX_WD
    requires add.isdir ==> name != []
    modifies lib
    ensures lib.Valid() && lib.error == old(lib.error)
    ensures lib.State() == if add.isdir then AddMount(old(lib.State()), name, add) else old(lib.State())
    ensures fid == if Encodes(add) then Some((FidOfFile(add), DirOfFile(add))) else None
  {
    if add.enc.fsid.None? {
      return None;
    }
    var f := BlankFid(add.enc.fsid.value);
    BlankFidHasNoKey(add.enc.fsid.value);
    if add.isdir && Key(f) !in lib.byFid {
      if add.enc.mountFd < 0 {
        return None;
      }
      W.FewWatchesLeaveRoom(lib.State());
      var _ := lib.CreateWatch(0, Some(FsidKey(f)), name[..|name| - 1], add.enc.mountFd);
    }
    if add.enc.handle.None? {
      return None;
    }
    var dirf := 0;
    if add.isdir {
      dirf := add.enc.dirFd;
      if dirf < 0 {
        return None;
      }
    }
    return Some((EncodedFid(add.isdir, add.enc.fsid.value, add.enc.handle.value), dirf));
  }

  /** The watch of a file marked under fanotify. */
  method AddMarked(lib: H.Inotifytools, name: bytes, add: Adding) returns (ok: bool)
    requires lib.Valid() && FromSystem(add) && NO_KEY !in lib.byFid && |lib.byWd| + 2 <= W.MAX_WD
    requires add.wd == 0 && (add.isdir ==> name != [])
    modifies lib
    ensures lib.Valid() && lib.error == old(lib.error) && ok == Encodes(add)
    ensures var t1 := if add.isdir then AddMount(old(lib.State()), name, add) else old(lib.State());
      lib.State() == if ok then W.CreateWatch(t1, 0, Some(FidOfFile(add)), name, DirOfFile(add)).0 else t1
  {
    if add.isdir { MountIsFound(lib.State(), name, add); }
    var f := EncodeFid(lib, name, add);
    if f.None? {
      return false;
    }
    W.FewWatchesLeaveRoom(lib.State());
    var _ := lib.CreateWatch(0, Some(f.value.0), name, f.value.1);
    return true;
  }

  /** Set up one watch. */
  method AddOne(lib: H.Inotifytools, path: bytes, add: Adding) returns (ok: bool)
    requires lib.Valid() && FromSystem(add) && NO_KEY !in lib.byFid && HasRoom(lib.State(), add)
    requires lib.error == 0
    modifies lib
    ensures lib.Valid() && NO_KEY !in lib.byFid && |lib.byWd| <= |old(lib.byWd)| + 2
    ensures lib.State() == AddWatch(old(lib.State()), path, add)
    ensures ok == AddError(add).None? && lib.error == (if ok then 0 else AddError(add).value)
  {
    AddedIsFound(lib.State(), path, add);
    if add.wd < 0 {
      if add.wd == -1 {
        lib.error := add.errno;
      }
      return false;
    }
    var name := if !add.isdir then path else if EndsWithSlash(path) then path else path + [SLASH];
    if add.wd == 0 {
      ok := AddMarked(lib, name, add);
      return ok;
    }
    var _ := lib.CreateWatch(add.wd, None, name, 0);
    return true;
  }

  method WatchFile(lib: H.Inotifytools, path: bytes, add: Adding) returns (ok: bool)
    requires lib.Valid() && FromSystem(add) && NO_KEY !in lib.byFid && HasRoom(lib.State(), add)
    modifies lib
    ensures lib.Valid() && NO_KEY !in lib.byFid && |lib.byWd| <= |old(lib.byWd)| + 2
    ensures lib.State() == AddWatch(old(lib.State()), path, add)
    ensures ok == AddError(add).None? && lib.error == (if ok then 0 else AddError(add).value)
  {
    lib.error := 0;
    ok := AddOne(lib, path, add);
  }

  /** A file to watch, with the answers. */
  datatype Request = Request(path: bytes, add: Adding)

  predicate AreRequests(rs: seq<Request>) {
    forall i :: 0 <= i < |rs| ==> FromSystem(rs[i].add)
  }

  /** The table and the error after a list of requests, up to the first that fails. */
  function AddAll(t: W.Table, rs: seq<Request>): (W.Table, Option<int>)
    requires AreRequests(rs)
    decreases |rs|
  {
    if rs == [] then (t, None)
    else
      var t1 := AddWatch(t, rs[0].path, rs[0].add);
      if AddError(rs[0].add).Some? then (t1, AddError(rs[0].add)) else AddAll(t1, rs[1..])
  }

  /** Set up watches on a list of files; stop at the first that fails. */
  method WatchFiles(lib: H.Inotifytools, files: seq<Request>) returns (ok: bool)
    requires lib.Valid() && AreRequests(files) && NO_KEY !in lib.byFid
    requires (exists i :: 0 <= i < |files| && files[i].add.wd == 0) ==> |lib.byWd| + 2 * |files| <= W.MAX_WD
    modifies lib
    ensures lib.Valid() && NO_KEY !in lib.byFid && |lib.byWd| <= |old(lib.byWd)| + 2 * |files|
    ensures lib.State() == AddAll(old(lib.State()), files).0
    ensures var e := AddAll(old(lib.State()), files).1; ok == e.None? && lib.error == (if ok then 0 else e.value)
  {
    lib.error := 0;
    for i := 0 to |files|
      invariant lib.Valid() && NO_KEY !in lib.byFid && lib.error == 0 && |lib.byWd| <= |old(lib.byWd)| + 2 * i
      invariant AddAll(lib.State(), files[i..]) == AddAll(old(lib.State()), files)
    {
      assert files[i..][0] == files[i] && files[i..][1..] == files[i + 1..];
      var added := AddOne(lib, files[i].path, files[i].add);
      if !added {
        return false;
      }
    }
    return true;
  }
}
