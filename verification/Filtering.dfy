/** What the filter on events looks at: the path of an event, put together from the recorded name of
    its watch and the name in the event. */
module Filtering {
  import opened Bytes
  import opened EventReader
  import F = Formatter
  import Fids
  import R = Framing
  import W = Watches

  /** The watch of a descriptor is named s, or, where whole filesystems are marked, the path found
      for its fid now is s. */
  predicate IsNamed(t: W.Table, wd: int, s: bytes, filesystem: bool, resolve: bytes -> Option<bytes>) {
    && wd != 0 && wd in t.byWd && t.byWd[wd] in t.watches
    && var w := t.watches[t.byWd[wd]];
       if w.fid.Some? && filesystem && resolve(w.fid.value).Some?
       then resolve(w.fid.value) == Some(s) else w.filename == s
  }

  /** No more than 4096 bytes of a text. */
  function Cut(s: bytes): bytes { if |s| <= 4096 then s else s[..4096] }

  /** Directory and name; a directory that leaves no room stands alone, one that does not fit is
      left out. */
  function Path(dir: bytes, name: bytes): bytes {
    if |dir| > 4096 then Cut(name) else if |dir| >= 4095 then dir else Cut(dir + name)
  }

  function NameIn(ev: Event): bytes { if ev.len > 0 then ev.name else [] }

  /** Fanotify names of files include the file itself. */
  predicate IsWholePath(t: W.Table, s: bytes) {
    t.fanotify && 47 in s && s[|s| - 1] != 47
  }

  lemma {:induction false} LastSlash(s: bytes)
    ensures 0 <= DirnameLength(s) <= |s|
    ensures 47 in s <==> DirnameLength(s) > 0
    ensures DirnameLength(s) > 0 ==> s[DirnameLength(s) - 1] == 47
    ensures 47 !in s[DirnameLength(s)..]
  {
    if s != [] && s[|s| - 1] != 47 {
      var init := s[..|s| - 1];
      LastSlash(init);
      assert s == init + [s[|s| - 1]];
      assert s[DirnameLength(s)..] == init[DirnameLength(s)..] + [s[|s| - 1]];
    }
  }

  /** The text the filter matches: under inotify, and under fanotify for a watched directory, the
      recorded name followed by that in the event; under fanotify for anything else the recorded
      path alone, which short of 4096 bytes is whole. */
  lemma TextOfEvent(t: W.Table, ev: Event, s: bytes, filesystem: bool, resolve: bytes -> Option<bytes>)
    requires IsNamed(t, ev.wd, s, filesystem, resolve)
    ensures !IsWholePath(t, s) ==> F.PathText(SubjectOf(t, ev, filesystem, resolve)) == Path(s, NameIn(ev))
    ensures IsWholePath(t, s) && |s| < 4096 ==> F.PathText(SubjectOf(t, ev, filesystem, resolve)) == s
  {
    var e := SubjectOf(t, ev, filesystem, resolve);
    LastSlash(s);
    assert e.filename == s;
    if IsWholePath(t, s) {
      var n := DirnameLength(s);
      assert s[..n] + s[n..] == s;
    } else {
      assert e.dirnamelen == |s| && e.eventname == NameIn(ev);
      DirectoryAndName(e, s, NameIn(ev));
    }
  }

  lemma DirectoryAndName(e: F.Subject, s: bytes, name: bytes)
    requires e.filename == s && e.dirnamelen == |s| && e.eventname == name
    ensures F.PathText(e) == Path(s, name)
  {
    assert s[..|s|] == s;
    assert [] + name == name;
  }

  /** An event without a watch is matched by its own name. */
  lemma TextWithoutWatch(t: W.Table, ev: Event, filesystem: bool, resolve: bytes -> Option<bytes>)
    requires ev.wd == 0 || ev.wd !in t.byWd
    ensures F.PathText(SubjectOf(t, ev, filesystem, resolve)) == Cut(NameIn(ev))
  {
    assert [] + NameIn(ev) == NameIn(ev);
  }

  /** A new directory, by the bits of its mask, passes in recursive mode. */
  predicate IsNew(f: Filter, ev: Event) {
    f.recursive && 30 in BitsOf(ev.mask) && (8 in BitsOf(ev.mask) || 7 in BitsOf(ev.mask))
  }

  /** The path of an event, given the recorded name. */
  function Text(t: W.Table, s: bytes, ev: Event): bytes {
    if IsWholePath(t, s) then s else Path(s, NameIn(ev))
  }

  /** What the filter does with an event that is framed in its turn. */
  lemma PassesExactlyWhen(
    reader: EventReader, tables: seq<W.Table>, records: seq<bytes>, judged: seq<Verdict>, i: nat, s: bytes)
    requires reader.InTurn(tables, records, judged) && i < |records|
    requires IsNamed(tables[i + 1], judged[i].event.wd, s, reader.filesystem, reader.resolve)
    requires IsWholePath(tables[i + 1], s) ==> |s| < 4096
    ensures var (f, ev) := (reader.filter, judged[i].event);
      Passes(f, judged[i]) <==>
        && !judged[i].own
        && (f.pattern.None? || IsNew(f, ev) || f.pattern.value(Text(tables[i + 1], s, ev)) == f.invert)
    ensures judged[i].own <==>
      tables[i].fanotify && reader.selfPid != 0 && reader.selfPid == Fids.U32At(records[i], 20)
  {
    reader.StepInTurn(tables, records, judged, i);
    TextOfEvent(tables[i + 1], judged[i].event, s, reader.filesystem, reader.resolve);
  }

  /** Under inotify a call hands out an event on a watched directory s if and only if the pattern
      says so of s followed by the name in the event, new directories aside. */
  lemma HandedOutExactlyWhen(
    reader: EventReader, tables: seq<W.Table>, news: News, ok: bool, handed: Event, i: nat, s: bytes)
    requires reader.InTurn(tables, news.records, news.judged) && !tables[0].fanotify && i < |news.records|
    requires if ok then OnlyLastPasses(reader.filter, news.judged, handed) else AllRejected(reader.filter, news.judged)
    requires IsNamed(tables[0], EventAt(news.records[i], 0).wd, s, reader.filesystem, reader.resolve)
    ensures var (f, ev) := (reader.filter, EventAt(news.records[i], 0));
      && (ok && i == |news.records| - 1 ==> handed == ev)
      && (ok && i == |news.records| - 1 <==>
            f.pattern.None? || IsNew(f, ev) || f.pattern.value(Path(s, NameIn(ev))) == f.invert)
  {
    reader.InotifyKeepsTheWatches(tables, news, i);
    reader.InotifyKeepsTheWatches(tables, news, i + 1);
    PassesExactlyWhen(reader, tables, news.records, news.judged, i, s);
    if i < |news.judged| - 1 || !ok { assert news.judged[i] in news.judged[..|news.judged| - 1] || !ok; }
  }

  /** "/a/" is watched and "x" in it changes: the text is "/a/x". */
  lemma NameIsPartOfTheText(t: W.Table, ev: Event, resolve: bytes -> Option<bytes>)
    requires !t.fanotify && IsNamed(t, ev.wd, [47, 97, 47], false, resolve) && ev.len == 16 && ev.name == [120]
    ensures F.PathText(SubjectOf(t, ev, false, resolve)) == [47, 97, 47, 120]
  {
    TextOfEvent(t, ev, [47, 97, 47], false, resolve);
    assert [47, 97, 47] + [120] == [47, 97, 47, 120];
  }

  /** The error a call leaves is that of the last reply, if that was a failing poll, ioctl or read. */
  lemma ErrorOfTheLastReply(used: seq<R.Reply>, e: int, chunk: bytes)
    ensures LastError(used + [R.PollError(e)]) == LastError(used + [R.IoctlError(e)]) == e
    ensures LastError(used + [R.ReadError(e)]) == e
    ensures LastError(used + [R.Timeout]) == LastError(used + [R.EndOfFile]) == LastError(used + [R.Data(chunk)]) == 0
    ensures LastError([]) == 0
  {
  }
}
