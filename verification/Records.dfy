/** Events as the kernel lays them out, written from their fields.  What the reader takes from a
    record is what was put into it, and a stream of such records is parsed into them. */
module Records {
  import opened Bytes
  import opened Fids
  import opened Framing
  import opened EventReader
  import MaskStrings
  import Stats
  import W = Watches
  import M = WatchFiles
  import L = TableLaws

  // ---------------------------------------------------------------- inotify

  /** The fields of `struct inotify_event`; the name is padded with NULs. */
  datatype InotifyEvent = InotifyEvent(wd: int, mask: u32, cookie: u32, name: bytes, padding: nat)

  predicate IsInotifyEvent(e: InotifyEvent) {
    -0x8000_0000 <= e.wd < 0x8000_0000 && 0 !in e.name && |e.name| + e.padding < 0x1_0000_0000
  }

  function InotifyRecord(e: InotifyEvent): (r: bytes)
    requires IsInotifyEvent(e)
    ensures |r| == 16 + |e.name| + e.padding
  {
    U32Bytes(if e.wd < 0 then e.wd + 0x1_0000_0000 else e.wd) + U32Bytes(e.mask) + U32Bytes(e.cookie)
    + U32Bytes(|e.name| + e.padding) + (e.name + M.Zeros(e.padding))
  }

  lemma FieldAt(s: bytes, pre: bytes, v: u32, post: bytes)
    requires s == pre + U32Bytes(v) + post
    ensures U32At(s, |pre|) == v
  {
    U32RoundTrip(v, pre, post);
  }

  lemma InotifyFields(e: InotifyEvent)
    requires IsInotifyEvent(e)
    ensures var r := InotifyRecord(e);
      && U32At(r, 0) == (if e.wd < 0 then e.wd + 0x1_0000_0000 else e.wd) && U32At(r, 4) == e.mask
      && U32At(r, 8) == e.cookie && U32At(r, 12) == |e.name| + e.padding
  {
    var (wd, len) := (if e.wd < 0 then e.wd + 0x1_0000_0000 else e.wd, |e.name| + e.padding);
    FourFields(wd, e.mask, e.cookie, len, e.name + M.Zeros(e.padding), InotifyRecord(e));
  }

  lemma FourFields(v0: u32, v1: u32, v2: u32, v3: u32, tail: bytes, r: bytes)
    requires r == U32Bytes(v0) + U32Bytes(v1) + U32Bytes(v2) + U32Bytes(v3) + tail
    ensures U32At(r, 0) == v0 && U32At(r, 4) == v1 && U32At(r, 8) == v2 && U32At(r, 12) == v3
  {
    var (a, b, c, d) := (U32Bytes(v0), U32Bytes(v1), U32Bytes(v2), U32Bytes(v3));
    assert r == [] + a + (b + c + d + tail);
    FieldAt(r, [], v0, b + c + d + tail);
    assert r == a + b + (c + d + tail);
    FieldAt(r, a, v1, c + d + tail);
    assert r == (a + b) + c + (d + tail);
    FieldAt(r, a + b, v2, d + tail);
    FieldAt(r, a + b + c, v3, tail);
  }

  lemma PaddedName(name: bytes, padding: nat)
    requires 0 !in name
    ensures MaskStrings.CString(name + M.Zeros(padding)) == name
  {
    var s := name + M.Zeros(padding);
    assert s[..|name|] == name;
    MaskStrings.IndexOfIs(s, 0, |name|);
  }

  /** An event is one record, and it is read as it was written. */
  lemma InotifyEventIsRead(e: InotifyEvent)
    requires IsInotifyEvent(e)
    ensures IsRecord(false, InotifyRecord(e))
    ensures EventAt(InotifyRecord(e), 0) == Event(e.wd, e.mask, e.cookie, |e.name| + e.padding, e.name)
  {
    var r := InotifyRecord(e);
    InotifyFields(e);
    assert r[16..] == e.name + M.Zeros(e.padding) == r[16..|r|];
    PaddedName(e.name, e.padding);
  }

  predicate AreInotifyEvents(es: seq<InotifyEvent>) {
    forall i :: 0 <= i < |es| ==> IsInotifyEvent(es[i])
  }

  function InotifyRecords(es: seq<InotifyEvent>): seq<bytes>
    requires AreInotifyEvents(es)
  {
    seq(|es|, i requires 0 <= i < |es| => InotifyRecord(es[i]))
  }

  /** A stream of events is parsed into the records of the events. */
  lemma {:induction false} InotifyStreamIsParsed(es: seq<InotifyEvent>)
    requires AreInotifyEvents(es)
    ensures WholeRecords(false, Flat(InotifyRecords(es)))
    ensures Frames(false, Flat(InotifyRecords(es))) == InotifyRecords(es)
  {
    if es != [] {
      var rs := InotifyRecords(es);
      InotifyStreamIsParsed(es[1..]);
      assert rs[1..] == InotifyRecords(es[1..]);
      InotifyEventIsRead(es[0]);
      FramesCons(false, rs[0], Flat(rs[1..]));
      assert rs == [rs[0]] + rs[1..];
    }
  }

  // ---------------------------------------------------------------- fanotify

  /** The fields of `struct fanotify_event_metadata` with one `struct fanotify_event_info_fid`
      behind it: `head` is the version and the length of the metadata, `high` the upper half of
      the mask, `more` whatever else there is. */
  datatype FanotifyEvent = FanotifyEvent(
    head: bytes, mask: u32, high: u32, fd: u32, pid: u32,
    kind: byte, fsid: bytes, handleType: u32, handle: bytes, name: bytes, more: bytes)

  /** Behind the handle an event on a directory entry (2) has its name, with a final NUL, and an
      event on a file (1) or a directory (3) whatever pads the handle. */
  predicate IsFanotifyEvent(e: FanotifyEvent) {
    && |e.head| == 4 && |e.fsid| == 8 && e.kind in {1, 2, 3}
    && |e.name| != 1
    && 20 + |e.handle| + |e.name| < 0x1_0000 && 44 + |e.handle| + |e.name| + |e.more| < 0x1_0000_0000
  }

  /** A fid record: its kind, its length, the filesystem, the handle and the name. */
  function Info(kind: byte, fsid: bytes, handleType: u32, handle: bytes, name: bytes): (r: bytes)
    requires |fsid| == 8 && 20 + |handle| + |name| < 0x1_0000
    ensures |r| == 20 + |handle| + |name|
  {
    [kind, 0] + U16Bytes(20 + |handle| + |name|) + fsid + U32Bytes(|handle|) + U32Bytes(handleType) + handle + name
  }

  function FanotifyRecord(e: FanotifyEvent): (r: bytes)
    requires IsFanotifyEvent(e)
    ensures |r| == 44 + |e.handle| + |e.name| + |e.more|
  {
    U32Bytes(44 + |e.handle| + |e.name| + |e.more|) + e.head
    + (U32Bytes(e.mask) + U32Bytes(e.high)) + (U32Bytes(e.fd) + U32Bytes(e.pid))
    + (Info(e.kind, e.fsid, e.handleType, e.handle, e.name) + e.more)
  }

  lemma MetadataFields(e: FanotifyEvent)
    requires IsFanotifyEvent(e)
    ensures var r := FanotifyRecord(e);
      && U32At(r, 0) == |r| && U32At(r, 8) == e.mask && U32At(r, 20) == e.pid
      && r[24..] == Info(e.kind, e.fsid, e.handleType, e.handle, e.name) + e.more
  {
    var r := FanotifyRecord(e);
    var tail := Info(e.kind, e.fsid, e.handleType, e.handle, e.name) + e.more;
    var (b, c) := (U32Bytes(e.mask) + U32Bytes(e.high), U32Bytes(e.fd) + U32Bytes(e.pid));
    assert r == U32Bytes(|r|) + e.head + b + c + tail;
    MetadataLayout(r, |r|, e.head, b, c, tail);
    FieldAt(b, [], e.mask, U32Bytes(e.high));
    FieldAt(c, U32Bytes(e.fd), e.pid, []);
  }

  lemma MetadataLayout(r: bytes, size: u32, head: bytes, b: bytes, c: bytes, tail: bytes)
    requires |head| == 4 && |b| == |c| == 8 && r == U32Bytes(size) + head + b + c + tail
    ensures U32At(r, 0) == size && U32At(r, 8) == U32At(b, 0) && U32At(r, 20) == U32At(c, 4) && r[24..] == tail
  {
    assert r == [] + U32Bytes(size) + (head + b + c + tail);
    FieldAt(r, [], size, head + b + c + tail);
    assert r[8..16] == b && r[16..24] == c;
    forall i: nat | i < 8 ensures At(r, 8 + i) == At(b, i) && At(r, 16 + i) == At(c, i) {
      assert r[8..16][i] == r[8 + i] && r[16..24][i] == r[16 + i];
    }
    assert At(r, 8 + 0) == At(b, 0) && At(r, 8 + 1) == At(b, 1) && At(r, 8 + 2) == At(b, 2) && At(r, 8 + 3) == At(b, 3);
    assert At(r, 16 + 4) == At(c, 4) && At(r, 16 + 5) == At(c, 5);
    assert At(r, 16 + 6) == At(c, 6) && At(r, 16 + 7) == At(c, 7);
  }

  /** Numbers are written with their lowest byte first. */
  lemma LowestByteFirst(f: bytes)
    requires f == [1, 2, 3, 4]
    ensures U32Bytes(0x0403_0201) == f && U16Bytes(0x0201) == f[..2]
    ensures U32At(f, 0) == 0x0403_0201 && U16At(f, 2) == 0x0403
  {
  }

  lemma U16RoundTripBack(v: int)
    requires 0 <= v < 0x1_0000
    ensures U16Bytes(v)[0] as int + 0x100 * U16Bytes(v)[1] as int == v
  {
  }

  lemma InfoFields(kind: byte, fsid: bytes, handleType: u32, handle: bytes, name: bytes)
    requires |fsid| == 8 && 20 + |handle| + |name| < 0x1_0000
    ensures var f := Info(kind, fsid, handleType, handle, name);
      && f[0] == kind && f[1] == 0 && U16At(f, 2) == |f| && f[4..12] == fsid
      && U32At(f, 12) == |handle| && U32At(f, 16) == handleType
      && f[20..20 + |handle|] == handle && f[20 + |handle|..] == name
  {
    var f := Info(kind, fsid, handleType, handle, name);
    var (n, h, t) := (U16Bytes(|f|), U32Bytes(|handle|), U32Bytes(handleType));
    U16RoundTripBack(|f|);
    assert f[2] == n[0] && f[3] == n[1];
    var pre := [kind, 0] + n + fsid;
    assert f == pre + h + (t + handle + name);
    FieldAt(f, pre, |handle|, t + handle + name);
    assert f == (pre + h) + t + (handle + name);
    FieldAt(f, pre + h, handleType, handle + name);
    assert f[4..12] == fsid;
  }

  /** What is behind the handle is no name if it is empty, starts with a NUL or is just ".". */
  predicate IsNoName(name: bytes) {
    name == [] || name[0] == 0 || (name[0] == 46 && |name| >= 2 && name[1] == 0)
  }

  /** The name of an event: only events on directory entries have one. */
  function NameOfEvent(e: FanotifyEvent): bytes {
    if e.kind == 2 && !IsNoName(e.name) then e.name else []
  }

  /** What of it counts for the key: all, unless it is the place of a name that is none. */
  function KeptInKey(e: FanotifyEvent): bytes {
    if e.kind == 2 && IsNoName(e.name) then [] else e.name
  }

  /** What an event is looked up by. */
  function LookedUpBy(e: FanotifyEvent): bytes
    requires IsFanotifyEvent(e)
  {
    Info(e.kind, e.fsid, e.handleType, e.handle, KeptInKey(e))
  }

  lemma ShiftedField(r: bytes, o: nat, s: bytes, f: bytes, i: nat)
    requires o <= |r| && r[o..] == s && f <= s && i < |f|
    ensures At(r, o + i) == At(f, i)
  {
    assert r[o..][i] == f[i];
  }

  lemma InfoInRecord(e: FanotifyEvent)
    requires IsFanotifyEvent(e)
    ensures var r := FanotifyRecord(e);
      && At(r, 24) == e.kind && U16At(r, 26) == 20 + |e.handle| + |e.name| && U32At(r, 36) == |e.handle|
      && r[44 + |e.handle|..44 + |e.handle| + |e.name|] == e.name
      && r[24..44 + |e.handle| + |e.name|] == Info(e.kind, e.fsid, e.handleType, e.handle, e.name)
  {
    var (r, f) := (FanotifyRecord(e), Info(e.kind, e.fsid, e.handleType, e.handle, e.name));
    MetadataFields(e);
    InfoFields(e.kind, e.fsid, e.handleType, e.handle, e.name);
    forall i: nat | i < |f| ensures At(r, 24 + i) == At(f, i) { ShiftedField(r, 24, f + e.more, f, i); }
    assert At(r, 24 + 0) == At(f, 0);
    assert At(r, 24 + 2) == At(f, 2) && At(r, 24 + 3) == At(f, 3);
    assert At(r, 24 + 12) == At(f, 12) && At(r, 24 + 13) == At(f, 13);
    assert At(r, 24 + 14) == At(f, 14) && At(r, 24 + 15) == At(f, 15);
    assert r[24..24 + |f|] == r[24..][..|f|] == f;
    assert r[44 + |e.handle|..44 + |e.handle| + |e.name|] == r[24..24 + |f|][20 + |e.handle|..];
  }

  lemma FanotifyEventIsARecord(e: FanotifyEvent)
    requires IsFanotifyEvent(e)
    ensures IsRecord(true, FanotifyRecord(e))
  {
    MetadataFields(e);
    InfoInRecord(e);
  }

  lemma NoNameOfRecord(e: FanotifyEvent)
    requires IsFanotifyEvent(e)
    ensures var r := FanotifyRecord(e);
      && (NoName(r) <==> e.kind != 2 || IsNoName(e.name)) && NameOffset(r) == 44 + |e.handle|
      && DeclaredName(r) == if e.kind == 2 then |e.name| else 0
  {
    var r := FanotifyRecord(e);
    InfoInRecord(e);
    if e.name != [] {
      var n := r[44 + |e.handle|..44 + |e.handle| + |e.name|];
      assert At(r, 44 + |e.handle|) == n[0] && At(r, 44 + |e.handle| + 1) == n[1];
    }
  }

  lemma CutInfo(kind: byte, fsid: bytes, handleType: u32, handle: bytes, name: bytes, kept: bytes)
    requires |fsid| == 8 && 20 + |handle| + |name| < 0x1_0000 && kept <= name
    ensures var f := Info(kind, fsid, handleType, handle, name);
      SetHdrLen(f[..20 + |handle| + |kept|], 20 + |handle| + |kept|) == Info(kind, fsid, handleType, handle, kept)
  {
    var (f, g) := (Info(kind, fsid, handleType, handle, name), Info(kind, fsid, handleType, handle, kept));
    var n := 20 + |handle| + |kept|;
    var front := fsid + U32Bytes(|handle|) + U32Bytes(handleType) + handle;
    assert f == [kind, 0] + U16Bytes(20 + |handle| + |name|) + (front + name);
    assert g == [kind, 0] + U16Bytes(n) + (front + kept);
    KeptFront(f, kind, U16Bytes(20 + |handle| + |name|), front, name, kept);
  }

  lemma KeptFront(f: bytes, kind: byte, len: bytes, front: bytes, name: bytes, kept: bytes)
    requires |len| == 2 && kept <= name && f == [kind, 0] + len + (front + name)
    ensures var n := 4 + |front| + |kept|; n <= |f| && f[..n][..2] == [kind, 0] && f[..n][4..] == front + kept
  {
    var n := 4 + |front| + |kept|;
    assert name[..|kept|] == kept;
    assert f[..n] == [kind, 0] + len + (front + kept);
  }

  lemma CutFid(e: FanotifyEvent, r: bytes, kept: bytes, n: int)
    requires IsFanotifyEvent(e) && HasRecord(true, r) && FidLength(r) == n == 20 + |e.handle| + |kept| && kept <= e.name
    requires 44 + |e.handle| + |e.name| <= |r|
    requires r[24..44 + |e.handle| + |e.name|] == Info(e.kind, e.fsid, e.handleType, e.handle, e.name)
    ensures FidOf(r) == Info(e.kind, e.fsid, e.handleType, e.handle, kept)
  {
    assert r[24..24 + n] == r[24..44 + |e.handle| + |e.name|][..n];
    CutInfo(e.kind, e.fsid, e.handleType, e.handle, e.name, kept);
  }

  /** The name and the fid an event is converted with: a name that is none is dropped from both,
      any other is kept, what pads a handle is kept in the fid alone, and no byte behind the fid
      record matters. */
  lemma FanotifyEventIsRead(e: FanotifyEvent)
    requires IsFanotifyEvent(e)
    ensures var r := FanotifyRecord(e);
      && IsRecord(true, r) && U32At(r, 8) == e.mask && U32At(r, 20) == e.pid
      && FidOf(r) == LookedUpBy(e) && NameOf(r) == NameOfEvent(e)
  {
    var r := FanotifyRecord(e);
    FanotifyEventIsARecord(e);
    MetadataFields(e);
    InfoInRecord(e);
    NoNameOfRecord(e);
    CutFid(e, r, KeptInKey(e), 20 + |e.handle| + |KeptInKey(e)|);
  }

  lemma DigitsBack(a: int, b: int, c: int, d: int, v: int)
    requires 0 <= a < 0x100 && 0 <= b < 0x100 && 0 <= c < 0x100 && 0 <= d < 0x100
    requires v == a + 0x100 * b + 0x1_0000 * c + 0x100_0000 * d
    ensures v % 0x100 == a && v / 0x100 % 0x100 == b
    ensures v / 0x100 / 0x100 % 0x100 == c && v / 0x100 / 0x100 / 0x100 == d
  {
    assert v / 0x100 == b + 0x100 * c + 0x1_0000 * d;
    assert v / 0x100 / 0x100 == c + 0x100 * d;
  }

  lemma U32Back(r: bytes, o: nat)
    requires o + 4 <= |r|
    ensures U32Bytes(U32At(r, o)) == r[o..o + 4]
  {
    DigitsBack(r[o] as int, r[o + 1] as int, r[o + 2] as int, r[o + 3] as int, U32At(r, o));
  }

  lemma U16Back(r: bytes, o: nat)
    requires o + 2 <= |r|
    ensures U16Bytes(U16At(r, o)) == r[o..o + 2]
  {
    U16RoundTrip(r[o], r[o + 1]);
  }

  lemma InfoBack(f: bytes, h: nat)
    requires |f| >= 20 + h && f[1] == 0 && U16At(f, 2) == |f| && U32At(f, 12) == h
    ensures 20 + h + |f[20 + h..]| < 0x1_0000
    ensures Info(f[0], f[4..12], U32At(f, 16), f[20..20 + h], f[20 + h..]) == f
  {
    U16Back(f, 2);
    U32Back(f, 12);
    U32Back(f, 16);
    assert f == f[..2] + f[2..4] + f[4..12] + f[12..16] + f[16..20] + f[20..20 + h] + f[20 + h..];
    assert f[..2] == [f[0], 0];
  }

  lemma MetadataBack(r: bytes)
    requires |r| >= 24
    ensures U32Bytes(U32At(r, 0)) + r[4..8] + (U32Bytes(U32At(r, 8)) + U32Bytes(U32At(r, 12)))
            + (U32Bytes(U32At(r, 16)) + U32Bytes(U32At(r, 20))) + r[24..] == r
  {
    U32Back(r, 0);
    U32Back(r, 8);
    U32Back(r, 12);
    U32Back(r, 16);
    U32Back(r, 20);
    assert r[8..12] + r[12..16] == r[8..16] && r[16..20] + r[20..24] == r[16..24];
  }

  /** The fid record within a record. */
  lemma InfoOf(r: bytes, n: int)
    requires IsRecord(true, r) && r[25] == 0 && n == U16At(r, 26)
    ensures 24 + n <= |r|
    ensures var (f, h) := (r[24..24 + n], U32At(r, 36));
      && |f| >= 20 + h && f[0] == r[24] && f[1] == 0 && U16At(f, 2) == |f| && U32At(f, 12) == h
      && |f| != 21 + h && f[0] in {1, 2, 3} && U32At(r, 0) == |r|
  {
    var f := r[24..24 + n];
    assert forall i: nat :: i < |f| ==> At(f, i) == At(r, 24 + i);
    assert At(f, 2) == At(r, 26) && At(f, 3) == At(r, 27);
    assert At(f, 12) == At(r, 36) && At(f, 13) == At(r, 37) && At(f, 14) == At(r, 38) && At(f, 15) == At(r, 39);
  }

  /** Every record the reader frames is one written from fields, so what is said of those holds for
      all. */
  lemma EveryRecordIsWritten(r: bytes) returns (e: FanotifyEvent)
    requires IsRecord(true, r) && r[25] == 0
    ensures IsFanotifyEvent(e) && FanotifyRecord(e) == r
  {
    hide IsRecord, HasRecord, RecordLength, U16At, U32At;
    var n := U16At(r, 26);
    InfoOf(r, n);
    var (f, h) := (r[24..24 + n], U32At(r, 36));
    InfoBack(f, h);
    MetadataBack(r);
    e := FanotifyEvent(r[4..8], U32At(r, 8), U32At(r, 12), U32At(r, 16), U32At(r, 20), f[0], f[4..12], U32At(f, 16),
                       f[20..20 + h], f[20 + h..], r[24 + n..]);
    assert r[24..] == f + r[24 + n..];
  }

  lemma SameInfo(kind: byte, fsid: bytes, t: u32, h: bytes, name: bytes,
                 kind': byte, fsid': bytes, t': u32, h': bytes, name': bytes)
    requires |fsid| == |fsid'| == 8 && 20 + |h| + |name| < 0x1_0000 && 20 + |h'| + |name'| < 0x1_0000
    requires Info(kind, fsid, t, h, name) == Info(kind', fsid', t', h', name')
    ensures kind == kind' && fsid == fsid' && t == t' && h == h' && name == name'
  {
    InfoFields(kind, fsid, t, h, name);
    InfoFields(kind', fsid', t', h', name');
  }

  lemma InfoKey(kind: byte, fsid: bytes, handleType: u32, handle: bytes, name: bytes)
    requires |fsid| == 8 && 20 + |handle| + |name| < 0x1_0000
    ensures var f := Info(kind, fsid, handleType, handle, name); Key(f) == FidKey(|f|, f)
  {
    var f := Info(kind, fsid, handleType, handle, name);
    InfoFields(kind, fsid, handleType, handle, name);
    forall i | 0 <= i < |f| ensures Key(f).bytes[i] == f[i] {}
    assert Key(f).bytes == f;
  }

  /** The name of a fanotify event as it is handed out: without its NUL and what follows. */
  lemma NameIsHandedOut(n: bytes, padding: bytes)
    requires 0 !in n
    ensures MaskStrings.CString(n + [0] + padding) == n
  {
    var s := n + [0] + padding;
    assert s[..|n|] == n;
    MaskStrings.IndexOfIs(s, 0, |n|);
  }

  /** The key an event is looked up by. */
  function KeyOf(e: FanotifyEvent): FidKey
    requires IsFanotifyEvent(e)
  {
    FanotifyEventIsARecord(e);
    Key(FidOf(FanotifyRecord(e)))
  }

  /** Two events have the same key exactly if they are of one kind and agree in filesystem,
      handle and name, names that are none being equal. */
  lemma SameKeyExactlyWhen(e: FanotifyEvent, f: FanotifyEvent)
    requires IsFanotifyEvent(e) && IsFanotifyEvent(f)
    ensures KeyOf(e) == KeyOf(f) <==>
      && e.kind == f.kind && e.fsid == f.fsid && e.handleType == f.handleType && e.handle == f.handle
      && (e.name == f.name || (e.kind == 2 && IsNoName(e.name) && IsNoName(f.name)))
  {
    FanotifyEventIsRead(e);
    FanotifyEventIsRead(f);
    var (m, n) := (KeptInKey(e), KeptInKey(f));
    InfoKey(e.kind, e.fsid, e.handleType, e.handle, m);
    InfoKey(f.kind, f.fsid, f.handleType, f.handle, n);
    if LookedUpBy(e) == LookedUpBy(f) {
      SameInfo(e.kind, e.fsid, e.handleType, e.handle, m, f.kind, f.fsid, f.handleType, f.handle, n);
    }
  }

  /** The event tells of the file the system answered for: of a directory itself (3) or of a file
      itself (1), with its filesystem and handle. */
  predicate TellsOf(e: FanotifyEvent, add: M.Adding) {
    && IsFanotifyEvent(e) && e.kind == (if add.isdir then 3 else 1) && e.name == []
    && add.enc.fsid == Some(e.fsid) && |e.handle| <= 20
    && add.enc.handle == Some(U32Bytes(|e.handle|) + U32Bytes(e.handleType) + e.handle)
  }

  lemma EncodedIsInfo(kind: byte, fsid: bytes, handleType: u32, handle: bytes)
    requires |fsid| == 8 && |handle| <= 20
    ensures M.EncodedFid(kind == 3, fsid, U32Bytes(|handle|) + U32Bytes(handleType) + handle)
         == Info(if kind == 3 then 3 else 1, fsid, handleType, handle, []) + M.Zeros(20 - |handle|)
  {
    var k: byte := if kind == 3 then 3 else 1;
    var h := U32Bytes(|handle|) + U32Bytes(handleType) + handle;
    var f := [k, 0, 0, 0] + fsid + h + M.Zeros(20 - |handle|);
    assert f[..2] == [k, 0] && f[4..] == fsid + h + M.Zeros(20 - |handle|);
    assert Info(k, fsid, handleType, handle, []) == [k, 0] + U16Bytes(20 + |handle|) + (fsid + h);
    Associates([k, 0] + U16Bytes(20 + |handle|), fsid + h, M.Zeros(20 - |handle|));
  }

  lemma PaddedKey(f: bytes, zeros: bytes)
    requires |f| >= 4 && U16At(f, 2) == |f|
    ensures Key(f + zeros) == Key(f)
  {
    var g := f + zeros;
    assert forall i: nat :: i < |f| ==> At(g, i) == At(f, i);
    assert At(g, 2) == At(f, 2) && At(g, 3) == At(f, 3);
    KeyIdentifiesRecord(g, f);
  }

  /** An event on a file that was marked has the key the file was registered by. */
  lemma MarkedFileIsMet(e: FanotifyEvent, add: M.Adding)
    requires TellsOf(e, add) && M.FromSystem(add) && M.Encodes(add)
    ensures KeyOf(e) == Key(M.FidOfFile(add))
  {
    FanotifyEventIsRead(e);
    var f := Info(e.kind, e.fsid, e.handleType, e.handle, []);
    InfoFields(e.kind, e.fsid, e.handleType, e.handle, []);
    EncodedIsInfo(e.kind, e.fsid, e.handleType, e.handle);
    PaddedKey(f, M.Zeros(20 - |e.handle|));
  }

  /** The table has one watch more: that of a fid, under a path and a descriptor that was free. */
  ghost predicate Enters(t0: W.Table, t1: W.Table, fid: bytes, path: bytes, wd: int) {
    && W.IsFreeWd(t0.byWd.Keys, wd)
    && t1.watches == t0.watches[t0.nextId := W.Watch(Some(fid), path, wd, 0, Stats.ZERO)]
    && t1.byWd == t0.byWd[wd := t0.nextId] && t1.byFid == t0.byFid[Key(fid) := t0.nextId]
    && t1.byFilename == if path in t0.byFilename then t0.byFilename else t0.byFilename[path := t0.nextId]
  }

  /** The descriptor of a key, a new one under the path found for it, or 0. */
  ghost predicate Finds(t0: W.Table, fid: bytes, path: Option<bytes>, wd: int, t1: W.Table) {
    if Key(fid) in t0.byFid then
      t1 == t0 && t0.byFid[Key(fid)] in t0.watches && wd == t0.watches[t0.byFid[Key(fid)]].wd
    else if path.None? then t1 == t0 && wd == 0
    else Enters(t0, t1, fid, path.value, wd)
  }

  lemma ResolvingFinds(t0: W.Table, fid: bytes, path: Option<bytes>)
    requires W.Valid(t0) && |t0.byWd| < W.MAX_WD
    requires forall id :: id in t0.watches ==> 0 < t0.watches[id].wd < 0x8000_0000
    ensures var (t1, wd) := W.ResolveEvent(t0, fid, path); Finds(t0, fid, path, wd, t1) && 0 <= wd < 0x8000_0000
  {
    if Key(fid) !in t0.byFid && path.Some? { L.NewFidIsNamed(t0, fid, path.value); }
  }

  lemma SmallDescriptor(wd: int)
    requires 0 <= wd < 0x8000_0000
    ensures ToI32(ToU32(wd)) == wd
  {
  }

  /** A table of fanotify watches with descriptors as the kernel counts them, and room for more. */
  ghost predicate IsFanotifyTable(t: W.Table) {
    && W.Valid(t) && t.fanotify && |t.byWd| < W.MAX_WD
    && forall id :: id in t.watches ==> 0 < t.watches[id].wd < 0x8000_0000
  }

  /** What an event becomes: its mask and name, and the descriptor its key has, or a new one under
      the path found for it, or else 0. */
  ghost predicate Becomes(
    resolve: bytes -> Option<bytes>, t0: W.Table, e: FanotifyEvent, ev: Event, t1: W.Table)
    requires IsFanotifyEvent(e)
  {
    && ev.mask == e.mask && ev.len == |NameOfEvent(e)| && ev.name == MaskStrings.CString(NameOfEvent(e))
    && Finds(t0, LookedUpBy(e), resolve(LookedUpBy(e)), ev.wd, t1)
  }

  /** Every event a reader presents under fanotify has become this of the record framed. */
  lemma EventIsConverted(resolve: bytes -> Option<bytes>, t0: W.Table, e: FanotifyEvent, ev: Event, t1: W.Table)
    requires IsFanotifyEvent(e)
    ensures Key(LookedUpBy(e)) == KeyOf(e)
    ensures IsFanotifyTable(t0) && Presents(resolve, t0, FanotifyRecord(e), ev, t1) ==> Becomes(resolve, t0, e, ev, t1)
  {
    FanotifyEventIsRead(e);
    if IsFanotifyTable(t0) && Presents(resolve, t0, FanotifyRecord(e), ev, t1) {
      var r := FanotifyRecord(e);
      var wd :| Resolved(resolve, t0, r, t1, wd) && InInotifyForm(r, wd, ev);
      ResolvingFinds(t0, LookedUpBy(e), resolve(LookedUpBy(e)));
      SmallDescriptor(wd);
    }
  }

  /** A filesystem is registered by the fid of no file: of kind 1, with an empty handle. */
  lemma FilesystemHasItsFid(fsid: bytes)
    requires |fsid| == 8
    ensures FsidKey(M.BlankFid(fsid)) == Info(1, fsid, 0, [], [])
  {
    var f := M.BlankFid(fsid);
    assert f[4..12] == fsid && Fsid(f) == fsid;
    var body := [1, 0, 0, 0] + fsid + [0, 0, 0, 0, 0, 0, 0, 0];
    assert body[..2] == [1, 0] && body[4..] == fsid + [0, 0, 0, 0, 0, 0, 0, 0];
    assert U32Bytes(0) == [0, 0, 0, 0];
    assert Info(1, fsid, 0, [], []) == [1, 0] + U16Bytes(20) + (fsid + ([0, 0, 0, 0] + [0, 0, 0, 0]));
  }
}
