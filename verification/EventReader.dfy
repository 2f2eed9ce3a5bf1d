/** Reading events: records are framed out of a fixed buffer that is refilled, compacted and
    emptied as events are taken from it. */
module EventReader {
  import opened Bytes
  import opened Fids
  import opened Framing
  import opened EventBits
  import MaskStrings
  import F = Formatter
  import W = Watches
  import Stats
  import H = Handle

  /** An event as callers see it; the name ends at its first NUL. */
  datatype Event = Event(wd: int, mask: u32, cookie: u32, len: u32, name: bytes)

  function ToI32(v: u32): int {
    if v < 0x8000_0000 then v else v - 0x1_0000_0000
  }

  function Min(a: nat, b: nat): nat { if a < b then a else b }

  /** The event at an offset of a buffer. */
  function EventAt(b: bytes, o: nat): Event {
    var len := U32At(b, o + 12);
    var start := Min(o + EVENT_SIZE, |b|);
    Event(ToI32(U32At(b, o)), U32At(b, o + 4), U32At(b, o + 8), len,
          if len > 0 then MaskStrings.CString(b[start..Min(start + len, |b|)]) else [])
  }

  lemma EventOfRecord(b: bytes, o: nat, r: bytes)
    requires IsRecord(false, r) && o + |r| <= |b| && b[o..o + |r|] == r
    ensures EventAt(b, o) == EventAt(r, 0)
  {
    forall i: nat | i < |r| ensures At(b, o + i) == At(r, i) {
      assert b[o..o + |r|][i] == r[i];
    }
    assert b[o + EVENT_SIZE..o + |r|] == r[EVENT_SIZE..];
    assert r[EVENT_SIZE..|r|] == r[EVENT_SIZE..];
  }

  /** The length of the directory part of a name: up to its last slash. */
  function DirnameLength(s: bytes): (n: nat)
    ensures n <= |s|
  {
    if s == [] then 0 else if s[|s| - 1] == SLASH then |s| else DirnameLength(s[..|s| - 1])
  }

  /** The recorded path of an event.  Fanotify names include the file, inotify names do not. */
  function SubjectOf(t: W.Table, ev: Event, filesystem: bool, resolve: bytes -> Option<bytes>): (e: F.Subject)
    ensures e.dirnamelen <= |e.filename|
  {
    var s := W.FilenameFromWd(t, ev.wd, filesystem, resolve);
    var n := if t.fanotify && DirnameLength(s) > 0 then DirnameLength(s) else |s|;
    F.Subject(s, n, if |s| > n then s[n..] else if ev.len > 0 then ev.name else [], ev.mask, ev.cookie, F.Unset)
  }

  /** The filter on events: a pattern, whether it selects instead of rejects, and whether new
      directories pass in any case. */
  datatype Filter = Filter(pattern: Option<bytes -> bool>, invert: bool, recursive: bool)

  /** What decides about a framed event. */
  datatype Verdict = Verdict(event: Event, text: bytes, own: bool)

  predicate Passes(f: Filter, v: Verdict) {
    && !v.own
    && (f.pattern.None? || IsNewDirectory(f, v.event) || f.pattern.value(v.text) == f.invert)
  }

  predicate IsNewDirectory(f: Filter, ev: Event) {
    var mask := BitsOf(ev.mask);
    f.recursive && IN_ISDIR in mask && (IN_CREATE in mask || IN_MOVED_TO in mask)
  }

  // ---------------------------------------------------------------- fanotify records

  function ToU32(v: int): u32 { v % 0x1_0000_0000 }

  /** Where the name of a fanotify event would start. */
  function NameOffset(w: bytes): nat { META_LEN + FID_HDR + U32At(w, META_LEN + HANDLE_OFF) }

  /** The name bytes the record declares after its handle. */
  function DeclaredName(w: bytes): int {
    if At(w, META_LEN) != INFO_DFID_NAME then 0
    else U16At(w, META_LEN + 2) - (FID_HDR + U32At(w, META_LEN + HANDLE_OFF))
  }

  /** An empty (zero-padded) name and "." are no names: they do not count for the fid. */
  predicate NoName(w: bytes) {
    DeclaredName(w) <= 0 || At(w, NameOffset(w)) == 0
    || (At(w, NameOffset(w)) == DOT && At(w, NameOffset(w) + 1) == 0)
  }

  function NameLength(w: bytes): int { if NoName(w) then 0 else DeclaredName(w) }

  function FidLength(w: bytes): int {
    if NoName(w) then U16At(w, META_LEN + 2) - DeclaredName(w) else U16At(w, META_LEN + 2)
  }

  /** The fid an event is looked up by: its record without a name that is none. */
  function FidOf(w: bytes): bytes
    requires HasRecord(true, w)
  {
    SetHdrLen(w[META_LEN..META_LEN + FidLength(w)], FidLength(w))
  }

  function NameOf(w: bytes): bytes
    requires HasRecord(true, w)
  {
    if NoName(w) then [] else w[NameOffset(w)..NameOffset(w) + NameLength(w)]
  }

  /** Nothing after the record matters. */
  lemma RecordFields(w: bytes, r: bytes)
    requires IsRecord(true, r) && r <= w
    ensures HasRecord(true, w) && RecordLength(true, w) == |r| && FidOf(w) == FidOf(r) && NameOf(w) == NameOf(r)
    ensures U32At(w, 8) == U32At(r, 8) && U32At(w, 20) == U32At(r, 20)
  {
    forall i: nat | i < |r| ensures At(w, i) == At(r, i) {}
    assert DeclaredName(w) == DeclaredName(r) && NameOffset(w) == NameOffset(r);
    assert DeclaredName(r) > 0 ==> NameOffset(r) + 1 < |r|;
    assert NoName(w) == NoName(r) && FidLength(w) == FidLength(r);
    var n := META_LEN + FidLength(r);
    assert n <= |r|;
    assert w[META_LEN..n] == r[META_LEN..n];
  }

  /** The descriptor a record is reported under, and the watches afterwards. */
  ghost predicate Resolved(resolve: bytes -> Option<bytes>, t0: W.Table, r: bytes, t1: W.Table, wd: int) {
    && HasRecord(true, r) && (Key(FidOf(r)) in t0.byFid ==> t0.byFid[Key(FidOf(r))] in t0.watches)
    && W.ResolveEvent(t0, FidOf(r), resolve(FidOf(r))) == (t1, wd)
  }

  /** The inotify form of a fanotify record. */
  ghost predicate InInotifyForm(r: bytes, wd: int, ev: Event)
    requires HasRecord(true, r)
  {
    && ev.wd == ToI32(ToU32(wd)) && ev.mask == U32At(r, 8)
    && ev.len == |NameOf(r)| && ev.name == MaskStrings.CString(NameOf(r))
  }

  ghost predicate Converted(resolve: bytes -> Option<bytes>, t0: W.Table, r: bytes, ev: Event, t1: W.Table) {
    exists wd :: Resolved(resolve, t0, r, t1, wd) && InInotifyForm(r, wd, ev)
  }

  /** The event a record is presented as: an inotify record is read as it is. */
  ghost predicate Presents(resolve: bytes -> Option<bytes>, t0: W.Table, r: bytes, ev: Event, t1: W.Table) {
    if t0.fanotify then Converted(resolve, t0, r, ev, t1) else t1 == t0 && ev == EventAt(r, 0)
  }

  /** What is left of a buffer when the length in the fid header at `meta` is overwritten. */
  ghost predicate PatchedAt(before: bytes, after: bytes, meta: nat) {
    && |before| == |after|
    && forall i :: 0 <= i < |before| && i != meta + META_LEN + 2 && i != meta + META_LEN + 3 ==> after[i] == before[i]
  }

  lemma PatchedSuffix(before: bytes, after: bytes, meta: nat)
    requires PatchedAt(before, after, meta) && meta <= |before|
    ensures PatchedAt(before[meta..], after[meta..], 0)
  {
    var x, y := before[meta..], after[meta..];
    forall i | 0 <= i < |x| && i != META_LEN + 2 && i != META_LEN + 3 ensures y[i] == x[i] {
      assert x[i] == before[meta + i] && y[i] == after[meta + i];
    }
  }

  lemma PatchedTail(before: bytes, after: bytes, meta: nat, j: nat, n: nat)
    requires PatchedAt(before, after, meta) && meta + META_LEN + 4 <= j <= n <= |before|
    ensures after[j..n] == before[meta..n][j - meta..]
  {
    var x, y := after[j..n], before[meta..n][j - meta..];
    forall i | 0 <= i < n - j ensures x[i] == y[i] {
      assert x[i] == after[j + i] && y[i] == before[j + i];
    }
  }

  lemma PatchedName(before: bytes, after: bytes, meta: nat, i: nat, n: nat)
    requires PatchedAt(before, after, meta) && META_LEN + 4 <= i && meta + i + n <= |before|
    ensures after[meta + i..meta + i + n] == before[meta..][i..i + n]
  {
    SliceOfDrop(before, meta, i, i + n);
    assert after[meta + i..meta + i + n] == before[meta + i..meta + i + n];
  }

  lemma PatchedFid(w: bytes, w': bytes)
    requires HasRecord(true, w) && PatchedAt(w, w', 0) && U16At(w', META_LEN + 2) == FidLength(w)
    ensures META_LEN + FidLength(w) <= |w| && w'[META_LEN..META_LEN + FidLength(w)] == FidOf(w)
  {
    var (n, b) := (META_LEN + FidLength(w), U16Bytes(FidLength(w)));
    U16RoundTrip(w'[META_LEN + 2], w'[META_LEN + 3]);
    assert [w'[META_LEN + 2], w'[META_LEN + 3]] == b;
    SetsLength(w[META_LEN..n], w'[META_LEN..n], FidLength(w), b);
  }

  lemma SetsLength(f: bytes, g: bytes, len: int, b: bytes)
    requires |f| == |g| >= 4 && 0 <= len < 0x1_0000 && b == U16Bytes(len) && g[2] == b[0] && g[3] == b[1]
    requires forall i :: 0 <= i < |f| && i != 2 && i != 3 ==> g[i] == f[i]
    ensures g == SetHdrLen(f, len)
  {
  }

  lemma HeaderFields(before: bytes, after: bytes, wd: u32, mask: u32, len: u32)
    requires |before| == |after| == 2 * CAP
    requires forall i :: 0 <= i < 4 ==> after[CAP + i] == U32Bytes(wd)[i]
    requires forall i :: 0 <= i < 4 ==> after[CAP + 4 + i] == U32Bytes(mask)[i]
    requires forall k :: CAP + 8 <= k < CAP + 12 ==> after[k] == before[k]
    requires forall i :: 0 <= i < 4 ==> after[CAP + 12 + i] == U32Bytes(len)[i]
    ensures U32At(after, CAP) == wd && U32At(after, CAP + 4) == mask && U32At(after, CAP + 12) == len
    ensures U32At(after, CAP + 8) == U32At(before, CAP + 8)
  {
    assert after[CAP..CAP + 4] == U32Bytes(wd);
    assert after[CAP + 4..CAP + 8] == U32Bytes(mask);
    assert after[CAP + 12..CAP + 16] == U32Bytes(len);
    U32AtBytes(after, CAP, wd);
    U32AtBytes(after, CAP + 4, mask);
    U32AtBytes(after, CAP + 12, len);
  }

  lemma WrittenEvent(b: bytes, wd: u32, mask: u32, name: bytes)
    requires |b| == 2 * CAP && |name| <= CAP - EVENT_SIZE
    requires U32At(b, CAP) == wd && U32At(b, CAP + 4) == mask && U32At(b, CAP + 12) == |name|
    requires b[CAP + EVENT_SIZE..CAP + EVENT_SIZE + |name|] == name
    ensures EventAt(b, CAP) == Event(ToI32(wd), mask, U32At(b, CAP + 8), |name|, MaskStrings.CString(name))
  {
  }

  lemma U32AtBytes(b: bytes, o: nat, v: u32)
    requires o + 4 <= |b| && b[o..o + 4] == U32Bytes(v)
    ensures U32At(b, o) == v
  {
    U32RoundTrip(v, b[..o], b[o + 4..]);
    assert b == b[..o] + U32Bytes(v) + b[o + 4..];
  }

  /** A read is needed: no whole event is left (for fanotify: not even a header). */
  predicate NeedsRead(fanotify: bool, p: bytes) {
    if fanotify then |p| < EVENT_SIZE else !HasRecord(false, p)
  }

  /** The outcome of a refill: whether there is something to frame, from where, what is there
      or still pending, the replies left, and the bytes read. */
  datatype Supply = Supply(ok: bool, first: nat, window: bytes, script: seq<Reply>, got: bytes)

  /** A timeout or an error leaves the pending bytes alone, unless a split event had just been
      compacted: then they are lost. */
  function Supplied(fanotify: bool, first: nat, pending: bytes, script: seq<Reply>): Supply {
    if !NeedsRead(fanotify, pending) then Supply(true, first, pending, script, [])
    else
      var (base, kept) := (Base(fanotify, first, pending), if Compacts(fanotify, pending) then [] else pending);
      if script == [] then Supply(false, base, kept, [], [])
      else
        match script[0]
        case Data(chunk) => Supply(true, base, pending + chunk, script[1..], chunk)
        case _ => Supply(false, base, kept, script[1..], [])
  }

  ghost predicate Sound(
    fanotify: bool, first: nat, rest: bytes, script: seq<Reply>, stream: bytes, framed: seq<bytes>) {
    Accounts(fanotify, stream, framed, rest) && Served(fanotify, first, rest, script)
  }

  /** Under the kernel's contract nothing is lost and there is a whole event to frame. */
  lemma SupplyIsSound(fanotify: bool, first: nat, pending: bytes, script: seq<Reply>, stream: bytes, framed: seq<bytes>)
    requires Sound(fanotify, first, pending, script, stream, framed) && (pending == [] ==> first == 0)
    ensures NeedsRead(fanotify, pending) && script != [] && script[0].Data? ==>
      script[0].chunk != [] && Base(fanotify, first, pending) + |pending| + |script[0].chunk| <= CAP
    ensures var s := Supplied(fanotify, first, pending, script);
      && Sound(fanotify, s.first, s.window, s.script, stream + s.got, framed)
      && (s.ok ==> HasRecord(fanotify, s.window))
      && (!s.ok ==> s.window == pending && s.got == [])
      && Consumes(s.ok, script, s.script)
      && stream + s.got + ToCome(s.script) == stream + ToCome(script)
      && |s.window| + |ToCome(s.script)| == |pending| + |ToCome(script)|
  {
    ServedNow(fanotify, first, pending, script);
    var s := Supplied(fanotify, first, pending, script);
    AccountsForMore(fanotify, stream, framed, pending, s.got);
    assert s.got + ToCome(s.script) == ToCome(script);
    Associates(stream, s.got, ToCome(s.script));
  }

  lemma StoredBehind(before: bytes, after: bytes, first: nat, held: nat, chunk: bytes)
    requires first <= held && held + |chunk| <= |before| == |after|
    requires forall k :: 0 <= k < held ==> after[k] == before[k]
    requires forall k :: 0 <= k < |chunk| ==> after[held + k] == chunk[k]
    ensures after[first..held + |chunk|] == before[first..held] + chunk
  {
    SplitSlice(after, first, held, held + |chunk|);
    assert after[first..held] == before[first..held] && after[held..held + |chunk|] == chunk;
  }

  /** Where the next byte is once a record of n bytes has been cut off. */
  function After(first: nat, n: nat, w: bytes): nat {
    if n == |w| then 0 else first + n
  }

  lemma FramingIsSound(fanotify: bool, first: nat, w: bytes, script: seq<Reply>, stream: bytes, framed: seq<bytes>)
    returns (r: bytes)
    requires HasRecord(fanotify, w) && Sound(fanotify, first, w, script, stream, framed)
    ensures |r| >= EVENT_SIZE && r <= w && IsRecord(fanotify, r)
    ensures Sound(fanotify, After(first, |r|, w), w[|r|..], script, stream, framed + [r])
  {
    r := w[..RecordLength(fanotify, w)];
    RecordStandsAlone(fanotify, w);
    ServedNow(fanotify, first, w, script);
    AccountsForRecord(fanotify, stream, framed, w);
  }

  /** The error a reply sets, if it sets one. */
  function Errno(reply: Reply, current: int): int {
    match reply
    case PollError(e) => e
    case IoctlError(e) => e
    case ReadError(e) => e
    case _ => current
  }

  /** The error left by a refill that fails. */
  function Failure(script: seq<Reply>, current: int): int {
    if script == [] then current else Errno(script[0], current)
  }

  /** The replies used up by one refill. */
  predicate Consumes(ok: bool, before: seq<Reply>, after: seq<Reply>) {
    if ok then after == before || (before != [] && before[0].Data? && after == before[1..])
    else after == if before == [] then [] else before[1..]
  }

  /** What a refill does to the replies, the stream and the error. */
  ghost predicate Answered(
    ok: bool, script0: seq<Reply>, stream0: bytes, error0: int, script: seq<Reply>, stream: bytes, error: int) {
    && stream + ToCome(script) == stream0 + ToCome(script0)
    && error == (if ok then error0 else Failure(script0, error0))
    && Consumes(ok, script0, script)
  }

  ghost predicate AllRejected(f: Filter, judged: seq<Verdict>) {
    forall v :: v in judged ==> !Passes(f, v)
  }

  /** States linked by a relation, with a label and a result for each link. */
  ghost predicate IsChain<T, R, V>(step: (T, R, V, T) -> bool, ts: seq<T>, rs: seq<R>, vs: seq<V>) {
    |ts| == |rs| + 1 == |vs| + 1 && forall i :: 0 <= i < |rs| ==> step(ts[i], rs[i], vs[i], ts[i + 1])
  }

  lemma ChainMore<T, R, V>(step: (T, R, V, T) -> bool, ts: seq<T>, rs: seq<R>, vs: seq<V>, r: R, v: V, t: T)
    requires IsChain(step, ts, rs, vs) && step(ts[|ts| - 1], r, v, t)
    ensures IsChain(step, ts + [t], rs + [r], vs + [v])
  {
  }

  lemma ChainJoin<T, R, V>(
    step: (T, R, V, T) -> bool, ts: seq<T>, rs: seq<R>, vs: seq<V>, ts': seq<T>, rs': seq<R>, vs': seq<V>)
    requires IsChain(step, ts, rs, vs) && IsChain(step, ts', rs', vs') && ts[|ts| - 1] == ts'[0]
    ensures IsChain(step, ts + ts'[1..], rs + rs', vs + vs')
    ensures (ts + ts'[1..])[0] == ts[0] && (ts + ts'[1..])[|ts + ts'[1..]| - 1] == ts'[|ts'| - 1]
  {
    var all := ts + ts'[1..];
    forall i | 0 <= i < |rs + rs'| ensures step(all[i], (rs + rs')[i], (vs + vs')[i], all[i + 1]) {
      if i < |rs| {
        assert step(ts[i], rs[i], vs[i], ts[i + 1]);
      } else {
        var j := i - |rs|;
        assert step(ts'[j], rs'[j], vs'[j], ts'[j + 1]);
        assert all[i] == ts'[j] && all[i + 1] == ts'[j + 1];
      }
    }
  }

  /** The events that pass the filter, in order. */
  function Passing(f: Filter, judged: seq<Verdict>): seq<Event> {
    if judged == [] then []
    else
      var (init, v) := (judged[..|judged| - 1], judged[|judged| - 1]);
      Passing(f, init) + if Passes(f, v) then [v.event] else []
  }

  lemma {:induction false} PassingMore(f: Filter, a: seq<Verdict>, b: seq<Verdict>)
    ensures Passing(f, a + b) == Passing(f, a) + Passing(f, b)
  {
    if b == [] {
      assert a + b == a;
    } else {
      var init := b[..|b| - 1];
      assert (a + b)[..|a + b| - 1] == a + init;
      PassingMore(f, a, init);
      Associates(Passing(f, a), Passing(f, init), if Passes(f, b[|b| - 1]) then [b[|b| - 1].event] else []);
    }
  }

  lemma {:induction false} NonePasses(f: Filter, judged: seq<Verdict>)
    requires AllRejected(f, judged)
    ensures Passing(f, judged) == []
  {
    if judged != [] { NonePasses(f, judged[..|judged| - 1]); }
  }

  lemma OnePasses(f: Filter, judged: seq<Verdict>, ev: Event)
    requires OnlyLastPasses(f, judged, ev)
    ensures Passing(f, judged) == [ev]
  {
    NonePasses(f, judged[..|judged| - 1]);
  }

  /** The watches without their statistics. */
  ghost function Bare(t: W.Table): W.Table {
    t.(watches := map id | id in t.watches :: t.watches[id].(stats := Stats.ZERO), totals := Stats.ZERO)
  }

  lemma CountingIsBare(t: W.Table, ev: Event)
    ensures Bare(CountedIn(t, ev)) == Bare(t)
  {
    assert Bare(CountedIn(t, ev)).watches == Bare(t).watches;
  }

  lemma BareSubject(t: W.Table, ev: Event, filesystem: bool, resolve: bytes -> Option<bytes>)
    ensures SubjectOf(Bare(t), ev, filesystem, resolve) == SubjectOf(t, ev, filesystem, resolve)
  {
  }

  lemma BareRegister(t: W.Table, w: W.Watch)
    requires w.stats == Stats.ZERO
    ensures Bare(W.Register(t, w)) == W.Register(Bare(t), w)
  {
    assert Bare(W.Register(t, w)).watches == W.Register(Bare(t), w).watches;
  }

  lemma BareResolve(t0: W.Table, fid: bytes, path: Option<bytes>)
    requires Key(fid) in t0.byFid ==> t0.byFid[Key(fid)] in t0.watches
    ensures var (t1, wd) := W.ResolveEvent(t0, fid, path);
      W.ResolveEvent(Bare(t0), fid, path) == (Bare(t1), wd)
  {
    if Key(fid) !in t0.byFid && path.Some? {
      var d := W.FreshWd(t0.byWd.Keys, t0.nextFanotifyWd, W.MAX_WD);
      var t := t0.(nextFanotifyWd := d);
      assert Bare(t) == Bare(t0).(nextFanotifyWd := d);
      BareRegister(t, W.Watch(Some(fid), path.value, d, 0, Stats.ZERO));
    }
  }

  lemma BarePresents(resolve: bytes -> Option<bytes>, t0: W.Table, r: bytes, ev: Event, t1: W.Table)
    requires Presents(resolve, t0, r, ev, t1)
    ensures Presents(resolve, Bare(t0), r, ev, Bare(t1))
  {
    if t0.fanotify {
      var wd :| Resolved(resolve, t0, r, t1, wd) && InInotifyForm(r, wd, ev);
      BareResolve(t0, FidOf(r), resolve(FidOf(r)));
      assert Resolved(resolve, Bare(t0), r, Bare(t1), wd);
    }
  }

  /** The filter let the last event through and no other. */
  ghost predicate OnlyLastPasses(f: Filter, judged: seq<Verdict>, ev: Event) {
    && judged != [] && judged[|judged| - 1].event == ev
    && Passes(f, judged[|judged| - 1]) && AllRejected(f, judged[..|judged| - 1])
  }

  /** The error of the last reply used up, if it is one. */
  function LastError(used: seq<Reply>): int {
    if used == [] then 0 else Errno(used[|used| - 1], 0)
  }

  /** What a reader has gone through, and what one call adds to it. */
  datatype History = History(script: seq<Reply>, stream: bytes, framed: seq<bytes>, verdicts: seq<Verdict>)
  datatype News = News(records: seq<bytes>, judged: seq<Verdict>, used: seq<Reply>)

  const NO_NEWS := News([], [], [])

  /** The news come after what was there; bytes move from the script to the stream. */
  ghost predicate Extends(h0: History, news: News, h: History) {
    && h.framed == h0.framed + news.records && h.verdicts == h0.verdicts + news.judged
    && h0.script == news.used + h.script
    && h.stream + ToCome(h.script) == h0.stream + ToCome(h0.script)
  }

  lemma ExtendsMore(h0: History, n1: News, h1: History, n2: News, h2: History)
    requires Extends(h0, n1, h1) && Extends(h1, n2, h2)
    ensures Extends(h0, Later(n1, n2), h2)
  {
    Associates(h0.framed, n1.records, n2.records);
    Associates(h0.verdicts, n1.judged, n2.judged);
    Associates(n1.used, n2.used, h2.script);
  }

  function Later(n1: News, n2: News): News {
    News(n1.records + n2.records, n1.judged + n2.judged, n1.used + n2.used)
  }

  /** What one refill uses up. */
  function UsedUp(before: seq<Reply>, after: seq<Reply>): seq<Reply> {
    if after == before || before == [] then [] else [before[0]]
  }

  lemma UsedUpIsConsumed(ok: bool, before: seq<Reply>, after: seq<Reply>)
    requires Consumes(ok, before, after)
    ensures before == UsedUp(before, after) + after
    ensures LastError(UsedUp(before, after)) == if ok then 0 else Failure(before, 0)
  {
    assert before != [] ==> |before[1..]| < |before|;
  }

  lemma AnsweredExtends(ok: bool, h0: History, records: seq<bytes>, judged: seq<Verdict>, h: History, error: int)
    requires Answered(ok, h0.script, h0.stream, 0, h.script, h.stream, error)
    requires h.framed == h0.framed + records && h.verdicts == h0.verdicts + judged
    ensures Extends(h0, News(records, judged, UsedUp(h0.script, h.script)), h)
    ensures error == LastError(UsedUp(h0.script, h.script)) && (ok ==> error == 0)
  {
    UsedUpIsConsumed(ok, h0.script, h.script);
  }

  lemma NewsAddUp(f: Filter, n1: News, n2: News)
    requires AllRejected(f, n1.judged) && LastError(n1.used) == 0 && |n2.judged| <= 1
    ensures LastError(Later(n1, n2).used) == LastError(n2.used)
    ensures n2.judged == [] || !Passes(f, n2.judged[0]) ==> AllRejected(f, Later(n1, n2).judged)
    ensures n2.judged != [] && Passes(f, n2.judged[0]) ==> OnlyLastPasses(f, Later(n1, n2).judged, n2.judged[0].event)
  {
    var all := n1.judged + n2.judged;
    if n2.judged == [] {
      assert all == n1.judged;
    } else {
      assert all[..|all| - 1] == n1.judged && n2.judged == [n2.judged[0]];
    }
  }

  /** An event that is passed on is counted for its watch. */
  function CountedIn(t: W.Table, ev: Event): W.Table { W.RecordEvent(t, ev.wd, BitsOf(ev.mask)) }

  class EventReader {
    const lib: H.Inotifytools
    const evbuf: array<byte>
    const filter: Filter
    const selfPid: u32
    const filesystem: bool
    /** The path the system finds for a fid, if any. */
    const resolve: bytes -> Option<bytes>
    var firstByte: nat
    var held: nat
    var thisBytes: nat
    var retOff: nat
    /** The answers the kernel has still to give. */
    var script: seq<Reply>
    ghost var stream: bytes
    ghost var framed: seq<bytes>
    ghost var verdicts: seq<Verdict>

    constructor (lib: H.Inotifytools, script: seq<Reply>, filter: Filter, selfPid: u32, filesystem: bool,
                 resolve: bytes -> Option<bytes>)
      requires lib.Valid()
      ensures this.lib == lib && this.script == script && this.filter == filter && this.selfPid == selfPid
      ensures this.filesystem == filesystem && this.resolve == resolve && fresh(evbuf)
      ensures Valid() && Past() == History(script, [], [], []) && Pending() == []
      ensures firstByte == 0
    {
      this.lib := lib;
      this.script, this.filter, this.selfPid := script, filter, selfPid;
      this.filesystem, this.resolve := filesystem, resolve;
      evbuf := new byte[2 * CAP](_ => 0);
      firstByte, held, thisBytes, retOff := 0, 0, 0, 0;
      stream, framed, verdicts := [], [], [];
    }

    /** The bytes read but not framed; byte 0 as the next one means there are none. */
    ghost function Pending(): bytes
      reads `firstByte, `held, evbuf
      requires firstByte <= held <= evbuf.Length
    {
      if firstByte == 0 then [] else evbuf[firstByte..held]
    }

    ghost predicate Valid()
      reads `firstByte, `held, evbuf
    {
      && evbuf.Length == 2 * CAP && held <= CAP && firstByte <= held
      && (firstByte != 0 ==> firstByte < held)
    }

    /** Every byte read is framed or pending, in order, and the replies still to come suit
        what is pending. */
    ghost predicate Accounted()
      reads `firstByte, `held, `script, `stream, `framed, evbuf, lib`fanotifyMode
      requires Valid()
    {
      Sound(lib.fanotifyMode, firstByte, Pending(), script, stream, framed)
    }

    /** Between a refill and the framing of an event: what is there to frame. */
    ghost function Window(): bytes
      reads `firstByte, `held, `thisBytes, evbuf
      requires firstByte <= held + thisBytes <= evbuf.Length
    {
      evbuf[firstByte..held + thisBytes]
    }

    method RdU32(off: nat) returns (v: u32)
      requires off + 4 <= evbuf.Length
      ensures v == U32At(evbuf[..], off)
    {
      v := evbuf[off] as int + 0x100 * evbuf[off + 1] as int
        + 0x1_0000 * evbuf[off + 2] as int + 0x100_0000 * evbuf[off + 3] as int;
    }

    /** Move the pending bytes to the front of the buffer. */
    method Compact()
      requires Valid() && firstByte != 0
      modifies this`held, this`firstByte, evbuf
      ensures held == |old(Pending())| && firstByte == 0 && evbuf[..held] == old(Pending())
    {
      var have := held - firstByte;
      ghost var p := Pending();
      forall i | 0 <= i < have {
        evbuf[i] := evbuf[firstByte + i];
      }
      assert evbuf[..have] == p;
      held := have;
      firstByte := 0;
    }

    /** What one read may deliver: no more than was asked for. */
    ghost predicate ReadFits()
      reads `firstByte, `held, `script, evbuf, lib`fanotifyMode
      requires Valid()
    {
      NeedsRead(lib.fanotifyMode, Pending()) && script != [] && script[0].Data? ==>
        script[0].chunk != []
        && Base(lib.fanotifyMode, firstByte, Pending()) + |Pending()| + |script[0].chunk| <= CAP
    }

    /** Decide whether an event is buffered; if one is split, move its part to the front. */
    method FindBuffered() returns (buffered: bool)
      requires Valid()
      modifies this`held, this`firstByte, this`thisBytes, this`retOff, evbuf
      ensures evbuf.Length == 2 * CAP && firstByte <= held <= CAP
      ensures buffered == !NeedsRead(lib.fanotifyMode, old(Pending()))
      ensures evbuf[firstByte..held] == old(Pending())
      ensures buffered ==> thisBytes == 0 && firstByte == old(firstByte)
      ensures !buffered ==>
        && Valid() && firstByte == Base(lib.fanotifyMode, old(firstByte), old(Pending()))
        && Pending() == if Compacts(lib.fanotifyMode, old(Pending())) then [] else old(Pending())
    {
      if firstByte != 0 && firstByte + EVENT_SIZE <= held {
        retOff := firstByte;
        var len := RdU32(retOff + 12);
        PendingHeader();
        if !lib.fanotifyMode && firstByte + EVENT_SIZE + len > held {
          Compact();
          return false;
        }
        thisBytes := 0;
        return true;
      } else if firstByte == 0 {
        held := 0;
      }
      return false;
    }

    lemma PendingHeader()
      requires Valid() && firstByte != 0 && firstByte + EVENT_SIZE <= held
      ensures U32At(evbuf[..], firstByte + 12) == U32At(Pending(), 12)
    {
      assert forall i :: 0 <= i < EVENT_SIZE ==> At(evbuf[..], firstByte + i) == At(Pending(), i);
    }

    /** Read the next chunk behind what is held. */
    method Read() returns (ok: bool)
      requires Valid()
      requires script != [] && script[0].Data? ==> script[0].chunk != [] && held + |script[0].chunk| <= CAP
      modifies this`thisBytes, this`script, this`stream, lib`error, evbuf
      ensures script == if old(script) == [] then [] else old(script)[1..]
      ensures ok <==> old(script) != [] && old(script)[0].Data?
      ensures ok ==>
        && thisBytes == |old(script)[0].chunk| && held + thisBytes <= CAP
        && Window() == old(evbuf[firstByte..held]) + old(script)[0].chunk
        && stream == old(stream) + old(script)[0].chunk
      ensures !ok ==> stream == old(stream) && Valid() && Pending() == old(Pending())
      ensures lib.error == if ok then old(lib.error) else Failure(old(script), old(lib.error))
    {
      if script == [] {
        return false;
      }
      var reply := script[0];
      script := script[1..];
      match reply {
        case PollError(errno) => lib.error := errno; return false;
        case Timeout => return false;
        case IoctlError(errno) => lib.error := errno; return false;
        case ReadError(errno) => lib.error := errno; return false;
        case EndOfFile => return false;
        case Data(chunk) =>
          Store(chunk);
          stream := stream + chunk;
          return true;
      }
    }

    method Store(chunk: bytes)
      requires Valid() && held + |chunk| <= CAP
      modifies this`thisBytes, evbuf
      ensures thisBytes == |chunk| && Window() == old(evbuf[firstByte..held]) + chunk
    {
      ghost var before := evbuf[..];
      forall i | 0 <= i < |chunk| {
        evbuf[held + i] := chunk[i];
      }
      thisBytes := |chunk|;
      StoredBehind(before, evbuf[..], firstByte, held, chunk);
    }

    /** Make sure there is an event to frame. */
    method Refill() returns (ok: bool, ghost s: Supply)
      requires Valid() && ReadFits()
      modifies this`held, this`firstByte, this`thisBytes, this`retOff, this`script, this`stream, lib`error, evbuf
      ensures lib.error == if ok then old(lib.error) else Failure(old(script), old(lib.error))
      ensures lib.State() == old(lib.State())
      ensures evbuf.Length == 2 * CAP && (ok ==> firstByte <= held + thisBytes <= CAP) && (!ok ==> Valid())
      ensures s == Supplied(lib.fanotifyMode, old(firstByte), old(Pending()), old(script))
      ensures
        && ok == s.ok && firstByte == s.first && script == s.script && stream == old(stream) + s.got
        && (if ok then Window() else Pending()) == s.window
    {
      s := Supplied(lib.fanotifyMode, firstByte, Pending(), script);
      var buffered := FindBuffered();
      if buffered {
        return true, s;
      }
      ok := Read();
    }

    /** Take an inotify event: it starts at the next byte and says how long it is. */
    method TakeInotifyEvent(ghost r: bytes)
      requires evbuf.Length == 2 * CAP && firstByte <= held + thisBytes <= CAP
      requires IsRecord(false, r) && r <= Window()
      modifies this`firstByte, this`retOff
      ensures firstByte == old(firstByte) + |r|
      ensures firstByte <= held + thisBytes && evbuf[firstByte..held + thisBytes] == old(Window())[|r|..]
      ensures retOff == old(firstByte) && EventAt(evbuf[..], retOff) == EventAt(r, 0)
    {
      SliceOfSlice(evbuf[..], firstByte, held + thisBytes, |r|);
      retOff := firstByte;
      ghost var w := Window();
      forall i: nat | i < EVENT_SIZE ensures At(evbuf[..], firstByte + i) == At(w, i) {}
      var len := RdU32(retOff + 12);
      firstByte := firstByte + EVENT_SIZE + len;
      EventOfRecord(evbuf[..], retOff, r);
    }

    /** Account for the bytes just read; when everything has been framed start over. */
    method Settle(ghost fanotify: bool, ghost w: bytes, ghost r: bytes, ghost first: nat)
      requires evbuf.Length == 2 * CAP && firstByte <= held + thisBytes <= CAP
      requires |r| <= |w| && r == w[..|r|] && r != [] && firstByte == first + |r|
      requires evbuf[firstByte..held + thisBytes] == w[|r|..]
      requires lib.fanotifyMode == fanotify
      requires Sound(fanotify, After(first, |r|, w), w[|r|..], script, stream, framed + [r])
      modifies this`firstByte, this`held, this`framed
      ensures Valid() && Accounted() && Pending() == w[|r|..] && framed == old(framed) + [r]
    {
      held := held + thisBytes;
      assert firstByte == held <==> |r| == |w|;
      if firstByte == held {
        firstByte := 0;
      }
      framed := framed + [r];
      assert Pending() == w[|r|..];
    }

    // -------------------------------------------------------------- fanotify

    method WrU32(off: nat, v: u32)
      requires off + 4 <= evbuf.Length
      modifies evbuf
      ensures forall i :: 0 <= i < evbuf.Length ==>
        evbuf[i] == if off <= i < off + 4 then U32Bytes(v)[i - off] else old(evbuf[i])
    {
      var b := U32Bytes(v);
      evbuf[off] := b[0];
      evbuf[off + 1] := b[1];
      evbuf[off + 2] := b[2];
      evbuf[off + 3] := b[3];
    }

    /** Cut a name that is none out of the length in the header of the event at `meta`. */
    method DropEmptyName(meta: nat) returns (nameLen: nat)
      requires evbuf.Length == 2 * CAP && meta <= CAP
      requires HasRecord(true, evbuf[meta..]) && meta + RecordLength(true, evbuf[meta..]) <= CAP
      modifies evbuf
      ensures nameLen == NameLength(old(evbuf[meta..]))
      ensures PatchedAt(old(evbuf[..]), evbuf[..], meta)
      ensures evbuf[meta + META_LEN..meta + META_LEN + FidLength(old(evbuf[meta..]))] == FidOf(old(evbuf[meta..]))
      ensures U16At(evbuf[meta..], META_LEN + 2) == FidLength(old(evbuf[meta..]))
    {
      ghost var before := evbuf[..];
      var w := evbuf[meta..];
      assert w == before[meta..];
      nameLen := NameLength(w);
      var declared := DeclaredName(w);
      assert U16At(w, META_LEN + 2) - declared >= 0;
      if declared > 0 && nameLen == 0 {
        var b := U16Bytes(U16At(w, META_LEN + 2) - declared);
        evbuf[meta + META_LEN + 2] := b[0];
        evbuf[meta + META_LEN + 3] := b[1];
      }
      assert evbuf[meta..] == evbuf[..][meta..] && PatchedAt(before, evbuf[..], meta);
      PatchedSuffix(before, evbuf[..], meta);
      PatchedFid(w, evbuf[meta..]);
      SliceOfDrop(evbuf[..], meta, META_LEN, META_LEN + FidLength(w));
    }

    /** Write an event in inotify form into the second half of the buffer.  The cookie is not
        written. */
    method WriteEvent(wd: u32, mask: u32, name: bytes)
      requires evbuf.Length == 2 * CAP && |name| <= CAP - EVENT_SIZE
      modifies evbuf
      ensures firstByte <= CAP ==> evbuf[firstByte..CAP] == old(evbuf[firstByte..CAP])
      ensures EventAt(evbuf[..], CAP)
           == Event(ToI32(wd), mask, old(U32At(evbuf[..], CAP + 8)), |name|, MaskStrings.CString(name))
    {
      ghost var before := evbuf[..];
      WrU32(CAP, wd);
      WrU32(CAP + 4, mask);
      WrU32(CAP + 12, |name|);
      forall i | 0 <= i < |name| {
        evbuf[CAP + EVENT_SIZE + i] := name[i];
      }
      HeaderFields(before, evbuf[..], wd, mask, |name|);
      assert evbuf[..][CAP + EVENT_SIZE..CAP + EVENT_SIZE + |name|] == name;
      WrittenEvent(evbuf[..], wd, mask, name);
    }

    /** Read the fid and the name of the fanotify event at `meta`. */
    method ReadFid(meta: nat) returns (fid: bytes, name: bytes)
      requires evbuf.Length == 2 * CAP && meta <= CAP
      requires HasRecord(true, evbuf[meta..]) && meta + RecordLength(true, evbuf[meta..]) <= CAP
      modifies evbuf
      ensures PatchedAt(old(evbuf[..]), evbuf[..], meta)
      ensures fid == FidOf(old(evbuf[meta..])) && name == NameOf(old(evbuf[meta..]))
    {
      ghost var before, w := evbuf[..], evbuf[meta..];
      assert w == before[meta..];
      var nameOff := meta + NameOffset(evbuf[meta..]);
      var nameLen := DropEmptyName(meta);
      var hl := U16At(evbuf[meta..], META_LEN + 2);
      fid := evbuf[meta + META_LEN..meta + META_LEN + hl];
      name := [];
      if nameLen > 0 {
        PatchedName(before, evbuf[..], meta, NameOffset(w), nameLen);
        name := evbuf[nameOff..nameOff + nameLen];
        assert name == evbuf[..][nameOff..nameOff + nameLen];
      }
    }

    /** Read the fanotify event at the next byte and step over it. */
    method ReadFanotifyRecord() returns (fid: bytes, name: bytes, mask: u32, pid: u32)
      requires evbuf.Length == 2 * CAP && firstByte <= CAP
      requires HasRecord(true, evbuf[firstByte..])
      requires firstByte + RecordLength(true, evbuf[firstByte..]) <= CAP
      modifies this`firstByte, evbuf
      ensures var w := old(evbuf[firstByte..]);
        firstByte == old(firstByte) + RecordLength(true, w)
        && fid == FidOf(w) && name == NameOf(w) && mask == U32At(w, 8) && pid == U32At(w, 20)
      ensures U32At(evbuf[..], CAP + 8) == old(U32At(evbuf[..], CAP + 8))
      ensures evbuf[firstByte..CAP] == old(evbuf[firstByte..CAP])[RecordLength(true, old(evbuf[firstByte..]))..]
    {
      var meta := firstByte;
      ghost var before := evbuf[..];
      mask := U32At(evbuf[meta..], 8);
      pid := U32At(evbuf[meta..], 20);
      firstByte := firstByte + RecordLength(true, evbuf[meta..]);
      fid, name := ReadFid(meta);
      PatchedTail(before, evbuf[..], meta, firstByte, CAP);
      assert evbuf[firstByte..CAP] == evbuf[..][firstByte..CAP];
    }

    /** The descriptor of a fid; a new one is registered under the path found for it. */
    method LookUp(fid: bytes, ghost r: bytes) returns (wd: int)
      requires lib.Valid() && HasRecord(true, r) && fid == FidOf(r) && !W.Exhausted(lib.State())
      modifies lib
      ensures lib.Valid() && lib.error == old(lib.error) && lib.fanotifyMode == old(lib.fanotifyMode)
      ensures |lib.byWd| <= |old(lib.byWd)| + 1
      ensures Resolved(resolve, old(lib.State()), r, lib.State(), wd)
    {
      wd := lib.ResolveEvent(fid, resolve(fid));
    }

    /** Turn the fanotify event at the next byte into an inotify event in the second half of
        the buffer, looking its fid up in the watch table. */
    method ConvertFanotifyEvent(ghost r: bytes) returns (pid: u32)
      requires evbuf.Length == 2 * CAP && firstByte <= CAP && lib.Valid()
      requires IsRecord(true, r) && r <= evbuf[firstByte..] && firstByte + |r| <= CAP
      requires !W.Exhausted(lib.State())
      modifies this`firstByte, this`retOff, evbuf, lib
      ensures lib.Valid() && lib.error == old(lib.error)
      ensures |lib.byWd| <= |old(lib.byWd)| + 1 && lib.fanotifyMode == old(lib.fanotifyMode)
      ensures firstByte == old(firstByte) + |r| && retOff == CAP && pid == U32At(r, 20)
      ensures Converted(resolve, old(lib.State()), r, EventAt(evbuf[..], CAP), lib.State())
      ensures evbuf[firstByte..CAP] == old(evbuf[firstByte..CAP])[|r|..]
    {
      RecordFields(evbuf[firstByte..], r);
      var fid, name, mask, p := ReadFanotifyRecord();
      pid := p;
      retOff := CAP;
      var wd := LookUp(fid, r);
      WriteEvent(ToU32(wd), mask, name);
      assert InInotifyForm(r, wd, EventAt(evbuf[..], CAP));
    }

    // -------------------------------------------------------------- the event loop

    /** How many bytes are not framed yet. */
    ghost function Ahead(): nat
      reads `firstByte, `held, `script, evbuf
      requires Valid()
    {
      |Pending()| + |ToCome(script)|
    }

    /** Something to frame is there, and the rest of the replies suits it. */
    ghost predicate ReadyToFrame()
      reads `firstByte, `held, `thisBytes, `script, `stream, `framed, evbuf, lib`fanotifyMode
    {
      && evbuf.Length == 2 * CAP && firstByte <= held + thisBytes <= CAP
      && HasRecord(lib.fanotifyMode, Window())
      && Sound(lib.fanotifyMode, firstByte, Window(), script, stream, framed)
    }

    /** A refill under the kernel's contract: either there is an event to frame, or nothing
        has changed but the replies. */
    method NextWindow() returns (ok: bool)
      requires Valid() && Accounted()
      modifies this`held, this`firstByte, this`thisBytes, this`retOff, this`script, this`stream, lib`error, evbuf
      ensures ok ==> ReadyToFrame()
      ensures ok ==> |Window()| + |ToCome(script)| == old(Ahead())
      ensures !ok ==> Valid() && Accounted() && Ahead() == old(Ahead())
      ensures Answered(ok, old(script), old(stream), old(lib.error), script, stream, lib.error)
    {
      ghost var fanotify := lib.fanotifyMode;
      SupplyIsSound(fanotify, firstByte, Pending(), script, stream, framed);
      ghost var s;
      ok, s := Refill();
      assert Sound(fanotify, s.first, s.window, s.script, stream, framed);
      if ok {
        assert Window() == s.window && ReadyToFrame();
      } else {
        assert Pending() == s.window && Ahead() == old(Ahead());
      }
    }

    /** The event is one of our own process. */
    predicate IsOwn(r: bytes) { selfPid != 0 && selfPid == U32At(r, 20) }

    /** The event at `retOff` is what this record is presented as. */
    ghost predicate Presented(t0: W.Table, r: bytes)
      reads `retOff, evbuf, lib
    {
      Presents(resolve, t0, r, EventAt(evbuf[..], retOff), lib.State())
    }

    /** The fanotify branch of framing. */
    method TakeFanotifyEvent(ghost r: bytes) returns (own: bool)
      requires evbuf.Length == 2 * CAP && firstByte <= held + thisBytes <= CAP && lib.Valid()
      requires IsRecord(true, r) && r <= Window()
      requires |lib.byWd| < W.MAX_WD && lib.fanotifyMode
      modifies this`firstByte, this`retOff, evbuf, lib
      ensures retOff == CAP && lib.Valid() && lib.error == old(lib.error) && lib.fanotifyMode
      ensures |lib.byWd| <= |old(lib.byWd)| + 1
      ensures firstByte == old(firstByte) + |r| && evbuf[firstByte..held + thisBytes] == old(Window())[|r|..]
      ensures Presented(old(lib.State()), r) && own == IsOwn(r)
    {
      ghost var first, before := firstByte, evbuf[..];
      PrefixOfMore(r, evbuf[..], firstByte, held + thisBytes);
      W.FewWatchesLeaveRoom(lib.State());
      var pid := ConvertFanotifyEvent(r);
      SameTail(before, evbuf[..], first, firstByte, held + thisBytes, CAP);
      own := selfPid != 0 && selfPid == pid;
    }

    /** This record comes next, and cutting it off keeps the account of the stream. */
    ghost predicate ComesNext(r: bytes)
      reads `firstByte, `held, `thisBytes, `script, `stream, `framed, evbuf, lib`fanotifyMode
    {
      && evbuf.Length == 2 * CAP && firstByte <= held + thisBytes <= CAP
      && r != [] && IsRecord(lib.fanotifyMode, r) && r <= Window()
      && Sound(lib.fanotifyMode, After(firstByte, |r|, Window()), Window()[|r|..], script, stream, framed + [r])
    }

    method FrameInotify(ghost r: bytes)
      requires ComesNext(r) && !lib.fanotifyMode
      modifies this`firstByte, this`held, this`retOff, this`framed
      ensures Valid() && Accounted() && framed == old(framed) + [r] && |Pending()| < |old(Window())|
      ensures retOff <= CAP && Presented(lib.State(), r)
    {
      ghost var w, first := Window(), firstByte;
      TakeInotifyEvent(r);
      Settle(false, w, r, first);
    }

    method FrameFanotify(ghost r: bytes) returns (own: bool)
      requires ComesNext(r) && lib.fanotifyMode && lib.Valid() && |lib.byWd| < W.MAX_WD
      modifies this`firstByte, this`held, this`retOff, this`framed, evbuf, lib
      ensures lib.fanotifyMode && Valid() && Accounted() && framed == old(framed) + [r] && |Pending()| < |old(Window())|
      ensures retOff == CAP && lib.Valid() && lib.error == old(lib.error)
      ensures |lib.byWd| <= |old(lib.byWd)| + 1
      ensures Presented(old(lib.State()), r) && own == IsOwn(r)
    {
      ghost var w, first := Window(), firstByte;
      own := TakeFanotifyEvent(r);
      Settle(true, w, r, first);
    }

    /** Replies and pending bytes are few enough for the descriptors that are left. */
    ghost predicate EnoughDescriptors()
      reads `firstByte, `held, `script, evbuf, lib`fanotifyMode, lib`byWd
      requires Valid()
    {
      lib.fanotifyMode ==> |lib.byWd| + Ahead() < W.MAX_WD
    }

    ghost predicate Steady()
      reads `firstByte, `held, `script, `stream, `framed, evbuf, lib
    {
      Valid() && Accounted() && lib.Valid() && EnoughDescriptors()
    }

    /** Frame the next event. */
    method FrameNext(ghost r: bytes) returns (own: bool)
      requires ComesNext(r) && lib.Valid()
      requires lib.fanotifyMode ==> |lib.byWd| + |Window()| + |ToCome(script)| < W.MAX_WD
      modifies this`firstByte, this`held, this`retOff, this`framed, evbuf, lib
      ensures Steady() && lib.fanotifyMode == old(lib.fanotifyMode)
      ensures framed == old(framed) + [r] && |Pending()| < |old(Window())|
      ensures lib.error == old(lib.error) && retOff <= CAP
      ensures Presented(old(lib.State()), r) && own == (lib.fanotifyMode && IsOwn(r))
    {
      own := false;
      if lib.fanotifyMode {
        own := FrameFanotify(r);
      } else {
        FrameInotify(r);
      }
    }

    method CurrentEvent() returns (ev: Event)
      requires evbuf.Length == 2 * CAP && retOff <= CAP
      ensures ev == EventAt(evbuf[..], retOff)
    {
      ev := EventAt(evbuf[..], retOff);
    }

    /** The verdict on the event at `retOff`. */
    ghost function VerdictHere(own: bool): Verdict
      reads `retOff, evbuf, lib
    {
      var ev := EventAt(evbuf[..], retOff);
      Verdict(ev, F.PathText(SubjectOf(lib.State(), ev, filesystem, resolve)), own)
    }

    /** Judge the event at `retOff`. */
    method Judge(own: bool) returns (passes: bool)
      requires evbuf.Length == 2 * CAP && retOff <= CAP
      ensures passes == Passes(filter, VerdictHere(own))
    {
      if own {
        return false;
      }
      passes := true;
      if filter.pattern.Some? {
        var ev := CurrentEvent();
        if !IsNewDirectory(filter, ev) {
          var t := W.Table(lib.watches, lib.nextId, lib.nextFanotifyWd, lib.byWd, lib.byFid, lib.byFilename,
                           lib.totals, lib.collectStats, lib.initialized, lib.fanotifyMode);
          var e := SubjectOf(t, ev, filesystem, resolve);
          var text := F.FormatPath(e);
          var matched := filter.pattern.value(text);
          passes := matched == filter.invert;
        }
      }
    }

    ghost predicate Running()
      reads `firstByte, `held, `script, `stream, `framed, `verdicts, evbuf, lib
    {
      Steady() && |verdicts| == |framed|
    }

    /** Wait until there is something to frame. */
    method Await() returns (ok: bool, ghost r: bytes)
      requires Steady()
      modifies this`held, this`firstByte, this`thisBytes, this`retOff, this`script, this`stream, lib`error, evbuf
      ensures ok ==> ComesNext(r) && lib.Valid() && |Window()| + |ToCome(script)| == old(Ahead())
      ensures !ok ==> Steady() && Ahead() == old(Ahead())
      ensures Answered(ok, old(script), old(stream), old(lib.error), script, stream, lib.error)
    {
      hide HasRecord, IsRecord, RecordLength, ToCome, Sound;
      r := [];
      ok := NextWindow();
      if ok {
        r := FramingIsSound(lib.fanotifyMode, firstByte, Window(), script, stream, framed);
        assert ComesNext(r);
      }
    }

    /** Refill if needed and frame one event. */
    method NextRecord() returns (filled: bool, own: bool, ghost r: bytes)
      requires Steady()
      modifies this`firstByte, this`held, this`thisBytes, this`retOff, this`script, this`stream, this`framed, evbuf, lib
      ensures Steady() && lib.fanotifyMode == old(lib.fanotifyMode)
      ensures !filled ==> framed == old(framed)
      ensures filled ==> framed == old(framed) + [r] && retOff <= CAP && Ahead() < old(Ahead())
      ensures Answered(filled, old(script), old(stream), old(lib.error), script, stream, lib.error)
      ensures if filled then Presented(old(lib.State()), r) && own == (lib.fanotifyMode && IsOwn(r))
              else lib.State() == old(lib.State())
    {
      own := false;
      filled, r := Await();
      if filled {
        own := FrameNext(r);
      }
    }

    ghost function Past(): History
      reads `script, `stream, `framed, `verdicts
    {
      History(script, stream, framed, verdicts)
    }

    /** A framed record, the verdict on it, and the watches before and after. */
    ghost predicate Steps(t0: W.Table, r: bytes, v: Verdict, t1: W.Table) {
      && Presents(resolve, t0, r, v.event, t1)
      && v.text == F.PathText(SubjectOf(t1, v.event, filesystem, resolve))
      && v.own == (t0.fanotify && IsOwn(r))
    }

    ghost function StepRelation(): (W.Table, bytes, Verdict, W.Table) -> bool {
      (t0, r, v, t1) => Steps(t0, r, v, t1)
    }

    /** The watches from one record to the next. */
    ghost predicate InTurn(tables: seq<W.Table>, records: seq<bytes>, judged: seq<Verdict>) {
      IsChain(StepRelation(), tables, records, judged)
    }

    lemma StepInTurn(tables: seq<W.Table>, records: seq<bytes>, judged: seq<Verdict>, i: nat)
      requires InTurn(tables, records, judged) && i < |records|
      ensures Steps(tables[i], records[i], judged[i], tables[i + 1])
    {
      assert StepRelation()(tables[i], records[i], judged[i], tables[i + 1]);
    }

    /** Judge the record just framed. */
    method JudgeNext(own: bool, ghost r: bytes, ghost t0: W.Table) returns (passes: bool, ghost v: Verdict)
      requires retOff <= CAP
      requires Steady() && |framed| == |verdicts| + 1
      requires Presented(t0, r) && own == (t0.fanotify && IsOwn(r))
      modifies this`verdicts
      ensures Running()
      ensures verdicts == old(verdicts) + [v] && v.event == EventAt(evbuf[..], retOff)
      ensures passes == Passes(filter, v) && Steps(t0, r, v, lib.State())
    {
      passes := Judge(own);
      v := VerdictHere(own);
      verdicts := verdicts + [v];
    }

    /** One turn of the event loop: frame one event and judge it. */
    method Turn() returns (filled: bool, passes: bool, ghost news: News)
      requires Running() && lib.error == 0
      modifies this`firstByte, this`held, this`thisBytes, this`retOff, this`script, this`stream
      modifies this`framed, this`verdicts, evbuf, lib
      ensures Running() && lib.fanotifyMode == old(lib.fanotifyMode)
      ensures Extends(old(Past()), news, Past())
      ensures !filled ==>
        news.records == [] && news.judged == [] && lib.error == LastError(news.used) && lib.State() == old(lib.State())
      ensures filled ==>
        && |news.records| == |news.judged| == 1 && passes == Passes(filter, news.judged[0])
        && lib.error == LastError(news.used) == 0 && retOff <= CAP && news.judged[0].event == EventAt(evbuf[..], retOff)
        && Ahead() < old(Ahead())
        && Steps(old(lib.State()), news.records[0], news.judged[0], lib.State())
    {
      passes := false;
      var own;
      ghost var r, past, watches := [], Past(), lib.State();
      filled, own, r := NextRecord();
      news := News([], [], UsedUp(past.script, script));
      if filled {
        ghost var v;
        passes, v := JudgeNext(own, r, watches);
        news := News([r], [v], UsedUp(past.script, script));
      }
      AnsweredExtends(filled, past, news.records, news.judged, Past(), lib.error);
    }

    /** What has been gone through since h0 and t0. */
    ghost predicate SoFar(h0: History, t0: W.Table, news: News, tables: seq<W.Table>, h: History, t: W.Table) {
      Extends(h0, news, h) && InTurn(tables, news.records, news.judged) && tables[0] == t0 && tables[|tables| - 1] == t
    }

    lemma InTurnMore(tables: seq<W.Table>, n1: News, n2: News, t2: W.Table)
      requires InTurn(tables, n1.records, n1.judged) && |n2.records| == |n2.judged| == 1
      requires Steps(tables[|tables| - 1], n2.records[0], n2.judged[0], t2)
      ensures InTurn(tables + [t2], Later(n1, n2).records, Later(n1, n2).judged)
    {
      assert n2.records == [n2.records[0]] && n2.judged == [n2.judged[0]];
      ChainMore(StepRelation(), tables, n1.records, n1.judged, n2.records[0], n2.judged[0], t2);
    }

    lemma OneMore(h0: History, t0: W.Table, n1: News, tables: seq<W.Table>, h1: History, t1: W.Table,
                  n2: News, h2: History, t2: W.Table)
      requires SoFar(h0, t0, n1, tables, h1, t1) && Extends(h1, n2, h2)
      requires |n2.records| == |n2.judged| == 1 && Steps(t1, n2.records[0], n2.judged[0], t2)
      ensures SoFar(h0, t0, Later(n1, n2), tables + [t2], h2, t2)
    {
      ExtendsMore(h0, n1, h1, n2, h2);
      InTurnMore(tables, n1, n2, t2);
    }

    lemma NoMore(h0: History, t0: W.Table, n1: News, tables: seq<W.Table>, h1: History, t1: W.Table,
                 n2: News, h2: History)
      requires SoFar(h0, t0, n1, tables, h1, t1) && Extends(h1, n2, h2)
      requires n2.records == [] && n2.judged == []
      ensures SoFar(h0, t0, Later(n1, n2), tables, h2, t1)
    {
      ExtendsMore(h0, n1, h1, n2, h2);
      assert n1.records + [] == n1.records && n1.judged + [] == n1.judged;
    }

    /** The verdict on an inotify record, given the watches. */
    ghost function VerdictOn(t: W.Table, r: bytes): Verdict {
      var ev := EventAt(r, 0);
      Verdict(ev, F.PathText(SubjectOf(t, ev, filesystem, resolve)), false)
    }

    ghost function VerdictsOn(t: W.Table, rs: seq<bytes>): seq<Verdict> {
      seq(|rs|, i requires 0 <= i < |rs| => VerdictOn(t, rs[i]))
    }

    /** In inotify mode the watches stay as they are while events are framed. */
    lemma {:induction false} InotifyKeepsTheWatches(tables: seq<W.Table>, news: News, k: nat)
      requires InTurn(tables, news.records, news.judged) && !tables[0].fanotify && k < |tables|
      ensures tables[k] == tables[0]
      ensures k < |news.records| ==> news.judged[k].event == EventAt(news.records[k], 0)
    {
      if k > 0 {
        InotifyKeepsTheWatches(tables, news, k - 1);
        StepInTurn(tables, news.records, news.judged, k - 1);
      }
      if k < |news.records| {
        StepInTurn(tables, news.records, news.judged, k);
      }
    }

    /** In inotify mode every record is judged alike. */
    lemma InotifyVerdicts(t0: W.Table, tables: seq<W.Table>, news: News)
      requires InTurn(tables, news.records, news.judged) && !t0.fanotify && tables[0] == Bare(t0)
      ensures news.judged == VerdictsOn(t0, news.records)
    {
      forall i | 0 <= i < |news.records| ensures news.judged[i] == VerdictOn(t0, news.records[i]) {
        InotifyKeepsTheWatches(tables, news, i);
        InotifyKeepsTheWatches(tables, news, i + 1);
        StepInTurn(tables, news.records, news.judged, i);
        BareSubject(t0, news.judged[i].event, filesystem, resolve);
      }
    }

    lemma BareSteps(t0: W.Table, r: bytes, v: Verdict, t1: W.Table)
      requires Steps(t0, r, v, t1)
      ensures Steps(Bare(t0), r, v, Bare(t1))
    {
      BarePresents(resolve, t0, r, v.event, t1);
      BareSubject(t1, v.event, filesystem, resolve);
    }

    /** Statistics have no say in how events are presented and judged. */
    lemma BareInTurn(tables: seq<W.Table>, records: seq<bytes>, judged: seq<Verdict>)
      requires InTurn(tables, records, judged)
      ensures InTurn(AllBare(tables), records, judged)
    {
      forall i | 0 <= i < |records| ensures Steps(Bare(tables[i]), records[i], judged[i], Bare(tables[i + 1])) {
        StepInTurn(tables, records, judged, i);
        BareSteps(tables[i], records[i], judged[i], tables[i + 1]);
      }
    }

    ghost function AllBare(tables: seq<W.Table>): seq<W.Table> {
      seq(|tables|, i requires 0 <= i < |tables| => Bare(tables[i]))
    }

    /** The watches, statistics aside, from one record to the next since the first. */
    ghost predicate WatchesSince(t0: W.Table, tables: seq<W.Table>, h: History, t: W.Table) {
      InTurn(tables, h.framed, h.verdicts) && tables[0] == Bare(t0) && tables[|tables| - 1] == Bare(t)
    }

    /** The watches of one call go on with those of the calls before it. */
    lemma WatchesGoOn(t0: W.Table, tables: seq<W.Table>, h1: History, t1: W.Table,
                      news: News, more: seq<W.Table>, h2: History, t2: W.Table)
      requires WatchesSince(t0, tables, h1, t1) && SoFar(h1, t1, news, more, h2, t2)
      ensures WatchesSince(t0, tables + AllBare(more)[1..], h2, t2)
    {
      BareInTurn(more, news.records, news.judged);
      ChainJoin(StepRelation(), tables, h1.framed, h1.verdicts, AllBare(more), news.records, news.judged);
    }

    /** Frame events up to the first that passes the filter. */
    method NextPassing() returns (ok: bool, ghost news: News, ghost tables: seq<W.Table>)
      requires Running()
      modifies this`firstByte, this`held, this`thisBytes, this`retOff, this`script, this`stream
      modifies this`framed, this`verdicts, evbuf, lib
      ensures Running() && lib.fanotifyMode == old(lib.fanotifyMode)
      ensures SoFar(old(Past()), old(lib.State()), news, tables, Past(), lib.State())
      ensures !ok ==> AllRejected(filter, news.judged) && lib.error == LastError(news.used)
      ensures ok ==> lib.error == 0 && retOff <= CAP && OnlyLastPasses(filter, news.judged, EventAt(evbuf[..], retOff))
    {
      ghost var start, watches := Past(), lib.State();
      news, tables := NO_NEWS, [lib.State()];
      while true
        invariant Running() && lib.fanotifyMode == old(lib.fanotifyMode)
        invariant SoFar(start, watches, news, tables, Past(), lib.State())
        invariant LastError(news.used) == 0 && AllRejected(filter, news.judged)
        decreases Ahead()
      {
        lib.error := 0;
        ghost var past, now, more := Past(), lib.State(), NO_NEWS;
        var filled, passes;
        filled, passes, more := Turn();
        NewsAddUp(filter, news, more);
        if !filled {
          NoMore(start, watches, news, tables, past, now, more, Past());
          news := Later(news, more);
          return false, news, tables;
        }
        OneMore(start, watches, news, tables, past, now, more, Past(), lib.State());
        news, tables := Later(news, more), tables + [lib.State()];
        if passes {
          return true, news, tables;
        }
      }
    }

    /** Count the event at `retOff` when statistics are collected. */
    method CountEvent()
      requires Running() && retOff <= CAP
      modifies lib
      ensures Running() && lib.fanotifyMode == old(lib.fanotifyMode) && lib.error == old(lib.error)
      ensures lib.State() == if old(lib.collectStats) then CountedIn(old(lib.State()), EventAt(evbuf[..], retOff))
                             else old(lib.State())
    {
      if lib.collectStats {
        var ev := CurrentEvent();
        lib.RecordStats(ev.wd, BitsOf(ev.mask));
      }
    }

    /** Advance to the next event that passes the filter; it is then at `retOff`. */
    method NextEventsRaw(numEvents: int) returns (ok: bool, ghost news: News, ghost tables: seq<W.Table>)
      requires Running()
      modifies this`firstByte, this`held, this`thisBytes, this`retOff, this`script, this`stream
      modifies this`framed, this`verdicts, evbuf, lib
      ensures Running() && lib.fanotifyMode == old(lib.fanotifyMode)
      ensures numEvents < 1 ==> !ok && news == NO_NEWS && lib.error == old(lib.error)
      ensures !ok && numEvents >= 1 ==> AllRejected(filter, news.judged) && lib.error == LastError(news.used)
      ensures ok ==> lib.error == 0 && retOff <= CAP && OnlyLastPasses(filter, news.judged, EventAt(evbuf[..], retOff))
      ensures tables != [] && SoFar(old(Past()), old(lib.State()), news, tables, Past(), tables[|tables| - 1])
      ensures lib.State() ==
        var t := tables[|tables| - 1];
        if ok && t.collecting then CountedIn(t, EventAt(evbuf[..], retOff)) else t
    {
      news, tables := NO_NEWS, [lib.State()];
      if numEvents < 1 {
        return false, news, tables;
      }
      ok, news, tables := NextPassing();
      if ok {
        CountEvent();
      }
    }

    /** What a client has got since the start. */
    ghost predicate HasGot(start: History, t0: W.Table, news: News, tables: seq<W.Table>, delivered: seq<Event>,
                           h: History, t: W.Table)
    {
      Extends(start, news, h) && delivered == Passing(filter, h.verdicts) && WatchesSince(t0, tables, h, t)
    }

    ghost predicate Serves(start: History, t0: W.Table, news: News, tables: seq<W.Table>, delivered: seq<Event>)
      reads `firstByte, `held, `script, `stream, `framed, `verdicts, evbuf, lib
    {
      Running() && HasGot(start, t0, news, tables, delivered, Past(), lib.State())
    }

    lemma GetsMore(start: History, t0: W.Table, news: News, tables: seq<W.Table>, delivered: seq<Event>,
                   h1: History, t1: W.Table, ok: bool, ev: Event, more: News, turns: seq<W.Table>,
                   h2: History, t2: W.Table)
      requires HasGot(start, t0, news, tables, delivered, h1, t1)
      requires turns != [] && SoFar(h1, t1, more, turns, h2, turns[|turns| - 1])
      requires if ok then OnlyLastPasses(filter, more.judged, ev) else AllRejected(filter, more.judged)
      requires t2 == turns[|turns| - 1] || t2 == CountedIn(turns[|turns| - 1], ev)
      ensures HasGot(start, t0, Later(news, more), tables + AllBare(turns)[1..],
                     delivered + if ok then [ev] else [], h2, t2)
    {
      ExtendsMore(start, news, h1, more, h2);
      Delivers(filter, h1.verdicts, more.judged, ok, ev);
      WatchesGoOn(t0, tables, h1, t1, more, turns, h2, turns[|turns| - 1]);
      CountingIsBare(turns[|turns| - 1], ev);
    }

    lemma Delivers(f: Filter, before: seq<Verdict>, judged: seq<Verdict>, ok: bool, ev: Event)
      requires if ok then OnlyLastPasses(f, judged, ev) else AllRejected(f, judged)
      ensures Passing(f, before + judged) == Passing(f, before) + if ok then [ev] else []
    {
      PassingMore(f, before, judged);
      if ok { OnePasses(f, judged, ev); } else { NonePasses(f, judged); }
    }

    /** The next event for a client, if there is one in time. */
    method NextEvents(
      numEvents: int, ghost start: History, ghost t0: W.Table, ghost news: News, ghost tables: seq<W.Table>,
      ghost delivered: seq<Event>)
      returns (ok: bool, ev: Event, ghost more: News, ghost tables': seq<W.Table>)
      requires Serves(start, t0, news, tables, delivered)
      modifies this`firstByte, this`held, this`thisBytes, this`retOff, this`script, this`stream
      modifies this`framed, this`verdicts, evbuf, lib
      ensures lib.fanotifyMode == old(lib.fanotifyMode)
      ensures Serves(start, t0, Later(news, more), tables', delivered + if ok then [ev] else [])
    {
      ghost var past, now, turns := Past(), lib.State(), [];
      ok, more, turns := NextEventsRaw(numEvents);
      ev := Event(0, 0, 0, 0, []);
      if ok {
        ev := CurrentEvent();
      }
      GetsMore(start, t0, news, tables, delivered, past, now, ok, ev, more, turns, Past(), lib.State());
      tables' := tables + AllBare(turns)[1..];
    }
  }

  /** A client that asks for events again and again: under the kernel's contract, whatever
      timeouts and errors come in between, the events framed are the beginning of the parse of
      all bytes read, the pending bytes parse to the rest, and the client gets exactly the
      framed events that pass the filter, in order.  Each is judged under the watches of its
      turn, which only the framing of records changes. */
  method ReadEvents(lib: H.Inotifytools, script: seq<Reply>, filter: Filter, selfPid: u32, filesystem: bool,
                    resolve: bytes -> Option<bytes>, calls: seq<int>)
    returns (r: EventReader, delivered: seq<Event>, ghost used: seq<Reply>, ghost tables: seq<W.Table>)
    requires lib.Valid() && Served(lib.fanotifyMode, 0, [], script)
    requires lib.fanotifyMode ==> |lib.byWd| + |ToCome(script)| < W.MAX_WD
    modifies lib
    ensures r.lib == lib && r.Running() && lib.fanotifyMode == old(lib.fanotifyMode)
    ensures script == used + r.script && r.stream == ToCome(used)
    ensures WholeRecords(lib.fanotifyMode, ToCome(used)) ==>
      && WholeRecords(lib.fanotifyMode, r.Pending())
      && Frames(lib.fanotifyMode, ToCome(used)) == r.framed + Frames(lib.fanotifyMode, r.Pending())
    ensures WholeChunks(lib.fanotifyMode, script) ==> WholeRecords(lib.fanotifyMode, ToCome(used))
    ensures delivered == Passing(filter, r.verdicts)
    ensures r.InTurn(tables, r.framed, r.verdicts)
    ensures tables[0] == Bare(old(lib.State())) && tables[|tables| - 1] == Bare(lib.State())
    ensures !lib.fanotifyMode ==> r.verdicts == r.VerdictsOn(old(lib.State()), r.framed)
  {
    r := new EventReader(lib, script, filter, selfPid, filesystem, resolve);
    delivered := [];
    ghost var start, t0, news := r.Past(), lib.State(), NO_NEWS;
    tables := [Bare(t0)];
    for i := 0 to |calls|
      invariant r.lib == lib && r.filter == filter && lib.fanotifyMode == old(lib.fanotifyMode)
      invariant r.Serves(start, t0, news, tables, delivered)
      invariant fresh(r) && fresh(r.evbuf)
    {
      var ok, ev;
      ghost var more;
      ok, ev, more, tables := r.NextEvents(calls[i], start, t0, news, tables, delivered);
      news := Later(news, more);
      if ok {
        delivered := delivered + [ev];
      }
    }
    used := news.used;
    if !lib.fanotifyMode {
      r.InotifyVerdicts(t0, tables, News(r.framed, r.verdicts, []));
    }
    WhatWasRead(lib.fanotifyMode, script, news, r.Past(), r.Pending());
  }

  /** The parse of all bytes read, after a run. */
  lemma WhatWasRead(fanotify: bool, script: seq<Reply>, news: News, now: History, pending: bytes)
    requires Extends(History(script, [], [], []), news, now) && Accounts(fanotify, now.stream, now.framed, pending)
    ensures script == news.used + now.script && now.stream == ToCome(news.used)
    ensures WholeRecords(fanotify, now.stream) ==>
      && WholeRecords(fanotify, pending)
      && Frames(fanotify, now.stream) == now.framed + Frames(fanotify, pending)
    ensures WholeChunks(fanotify, script) ==> WholeRecords(fanotify, now.stream)
  {
    StreamIsWhatWasRead(History(script, [], [], []), news, now);
    if WholeRecords(fanotify, now.stream) {
      AccountsForTheParse(fanotify, now.stream, now.framed, pending);
    }
    if WholeChunks(fanotify, script) {
      UsedChunksAreWhole(fanotify, news.used, now.script);
    }
  }

  lemma StreamIsWhatWasRead(start: History, news: News, now: History)
    requires Extends(start, news, now) && start.stream == []
    ensures now.stream == ToCome(news.used)
  {
    ToComeAppend(news.used, now.script);
    var all := now.stream + ToCome(now.script);
    assert all == ToCome(news.used) + ToCome(now.script);
    assert now.stream == all[..|all| - |ToCome(now.script)|];
  }

  lemma UsedChunksAreWhole(fanotify: bool, used: seq<Reply>, rest: seq<Reply>)
    requires WholeChunks(fanotify, used + rest)
    ensures WholeRecords(fanotify, ToCome(used))
  {
    forall i | 0 <= i < |used| && used[i].Data?
      ensures 0 < |used[i].chunk| <= CAP && WholeRecords(fanotify, used[i].chunk)
    {
      assert (used + rest)[i] == used[i];
    }
    WholeChunksAddUp(fanotify, used);
  }
}
