/** Framing of the kernel's byte stream: variable-length records, one after another. */
module Framing {
  import opened Bytes
  import opened Fids

  const EVENT_SIZE := 16
  const CAP := 65536

  /** The declared length of the record a byte string starts with. */
  function RecordLength(fanotify: bool, s: bytes): nat {
    if fanotify then U32At(s, 0) else EVENT_SIZE + U32At(s, 12)
  }

  /** A fanotify event as the kernel lays it out: metadata, then a fid record with its handle
      and, for a directory entry, a name within the event.  Names end in NUL, so none has just
      one byte. */
  predicate FanotifyLayout(s: bytes) {
    var (fidLen, hdrLen) := (FID_HDR + U32At(s, META_LEN + HANDLE_OFF), U16At(s, META_LEN + 2));
    && At(s, META_LEN) in {INFO_FID, INFO_DFID, INFO_DFID_NAME}
    && fidLen <= hdrLen <= RecordLength(true, s) - META_LEN && hdrLen != fidLen + 1
  }

  /** The string starts with a whole record. */
  predicate HasRecord(fanotify: bool, s: bytes) {
    && |s| >= EVENT_SIZE
    && RecordLength(fanotify, s) <= |s|
    && (fanotify ==> META_LEN + FID_HDR <= RecordLength(true, s) && FanotifyLayout(s))
  }

  predicate IsRecord(fanotify: bool, r: bytes) {
    HasRecord(fanotify, r) && RecordLength(fanotify, r) == |r|
  }

  /** Only the declared bytes of the record matter. */
  lemma RecordIsAPrefix(fanotify: bool, s: bytes, more: bytes)
    requires HasRecord(fanotify, s)
    ensures HasRecord(fanotify, s + more) && RecordLength(fanotify, s + more) == RecordLength(fanotify, s)
  {
    var t := s + more;
    assert forall i :: 0 <= i < |s| ==> At(t, i) == At(s, i);
  }

  lemma RecordStandsAlone(fanotify: bool, s: bytes)
    requires HasRecord(fanotify, s)
    ensures RecordLength(fanotify, s) >= EVENT_SIZE
    ensures IsRecord(fanotify, s[..RecordLength(fanotify, s)])
  {
    var r := s[..RecordLength(fanotify, s)];
    assert forall i :: 0 <= i < |r| ==> At(r, i) == At(s, i);
  }

  // ---------------------------------------------------------------- the parser

  /** A run of whole records. */
  predicate WholeRecords(fanotify: bool, s: bytes)
    decreases |s|
  {
    s == [] ||
    (HasRecord(fanotify, s) && RecordLength(fanotify, s) > 0 && WholeRecords(fanotify, s[RecordLength(fanotify, s)..]))
  }

  function Frames(fanotify: bool, s: bytes): seq<bytes>
    requires WholeRecords(fanotify, s)
    decreases |s|
  {
    if s == [] then []
    else
      var n := RecordLength(fanotify, s);
      [s[..n]] + Frames(fanotify, s[n..])
  }

  function Flat(rs: seq<bytes>): bytes {
    if rs == [] then [] else rs[0] + Flat(rs[1..])
  }

  lemma {:induction false} FlatAppend(rs: seq<bytes>, r: bytes)
    ensures Flat(rs + [r]) == Flat(rs) + r
  {
    if rs == [] {
      assert rs + [r] == [r] && [r][1..] == [];
    } else {
      assert (rs + [r])[1..] == rs[1..] + [r];
      FlatAppend(rs[1..], r);
    }
  }

  lemma FramesCons(fanotify: bool, r: bytes, rest: bytes)
    requires IsRecord(fanotify, r)
    ensures WholeRecords(fanotify, r + rest) <==> WholeRecords(fanotify, rest)
    ensures WholeRecords(fanotify, rest) ==> Frames(fanotify, r + rest) == [r] + Frames(fanotify, rest)
  {
    var s := r + rest;
    RecordIsAPrefix(fanotify, r, rest);
    assert s[..|r|] == r && s[|r|..] == rest;
  }

  /** Records that have been cut off the front of a stream, one by one, leave a run of whole
      records if and only if the stream was one... */
  lemma {:induction false} CuttingKeepsWholeness(fanotify: bool, rs: seq<bytes>, pending: bytes)
    requires forall i :: 0 <= i < |rs| ==> IsRecord(fanotify, rs[i])
    ensures WholeRecords(fanotify, Flat(rs) + pending) <==> WholeRecords(fanotify, pending)
  {
    if rs == [] {
      assert Flat(rs) + pending == pending;
    } else {
      var rest := Flat(rs[1..]) + pending;
      assert Flat(rs) + pending == rs[0] + rest;
      FramesCons(fanotify, rs[0], rest);
      CuttingKeepsWholeness(fanotify, rs[1..], pending);
    }
  }

  lemma FramesMore(fanotify: bool, rs: seq<bytes>, rest: bytes, pending: bytes)
    requires rs != [] && IsRecord(fanotify, rs[0]) && WholeRecords(fanotify, pending) && WholeRecords(fanotify, rest)
    requires Frames(fanotify, rest) == rs[1..] + Frames(fanotify, pending)
    ensures WholeRecords(fanotify, rs[0] + rest)
    ensures Frames(fanotify, rs[0] + rest) == rs + Frames(fanotify, pending)
  {
    FramesCons(fanotify, rs[0], rest);
    Associates([rs[0]], rs[1..], Frames(fanotify, pending));
    assert [rs[0]] + rs[1..] == rs;
  }

  lemma FlatMore(rs: seq<bytes>, pending: bytes)
    ensures rs == [] ==> Flat(rs) + pending == pending
    ensures rs != [] ==> Flat(rs) + pending == rs[0] + (Flat(rs[1..]) + pending)
  {
  }

  /** ... are then the first records of its parse, and the parse goes on with what is left. */
  lemma {:induction false} FramedRecordsAreTheParse(fanotify: bool, rs: seq<bytes>, pending: bytes)
    requires forall i :: 0 <= i < |rs| ==> IsRecord(fanotify, rs[i])
    requires WholeRecords(fanotify, pending)
    ensures WholeRecords(fanotify, Flat(rs) + pending)
    ensures Frames(fanotify, Flat(rs) + pending) == rs + Frames(fanotify, pending)
  {
    FlatMore(rs, pending);
    if rs == [] {
      assert [] + Frames(fanotify, pending) == Frames(fanotify, pending);
    } else {
      FramedRecordsAreTheParse(fanotify, rs[1..], pending);
      FramesMore(fanotify, rs, Flat(rs[1..]) + pending, pending);
    }
  }

  predicate AllRecords(fanotify: bool, rs: seq<bytes>) {
    rs != [] ==> AllRecords(fanotify, rs[..|rs| - 1]) && IsRecord(fanotify, rs[|rs| - 1])
  }

  lemma {:induction false} EachIsARecord(fanotify: bool, rs: seq<bytes>)
    requires AllRecords(fanotify, rs)
    ensures forall i :: 0 <= i < |rs| ==> IsRecord(fanotify, rs[i])
  {
    if rs != [] { EachIsARecord(fanotify, rs[..|rs| - 1]); }
  }

  /** A stream consists of the framed records and the rest, in order. */
  ghost predicate Accounts(fanotify: bool, stream: bytes, framed: seq<bytes>, rest: bytes) {
    AllRecords(fanotify, framed) && stream == Flat(framed) + rest
  }

  /** So if the stream is a run of whole events, what has been framed is the beginning of its
      parse and what is left parses to the remainder: nothing lost, repeated or misaligned. */
  lemma AccountsForTheParse(fanotify: bool, stream: bytes, framed: seq<bytes>, rest: bytes)
    requires Accounts(fanotify, stream, framed, rest) && WholeRecords(fanotify, stream)
    ensures WholeRecords(fanotify, rest) && Frames(fanotify, stream) == framed + Frames(fanotify, rest)
  {
    EachIsARecord(fanotify, framed);
    CuttingKeepsWholeness(fanotify, framed, rest);
    FramedRecordsAreTheParse(fanotify, framed, rest);
  }

  lemma AccountsForMore(fanotify: bool, stream: bytes, framed: seq<bytes>, rest: bytes, got: bytes)
    requires Accounts(fanotify, stream, framed, rest)
    ensures Accounts(fanotify, stream + got, framed, rest + got)
  {
    Associates(Flat(framed), rest, got);
  }

  lemma AccountsForRecord(fanotify: bool, stream: bytes, framed: seq<bytes>, rest: bytes)
    requires Accounts(fanotify, stream, framed, rest) && HasRecord(fanotify, rest)
    ensures var n := RecordLength(fanotify, rest);
      Accounts(fanotify, stream, framed + [rest[..n]], rest[n..])
  {
    var n := RecordLength(fanotify, rest);
    RecordStandsAlone(fanotify, rest);
    FlatAppend(framed, rest[..n]);
    assert (framed + [rest[..n]])[..|framed|] == framed;
    Associates(Flat(framed), rest[..n], rest[n..]);
    assert rest[..n] + rest[n..] == rest;
  }

  // ---------------------------------------------------------------- the kernel

  /** What the kernel answers when asked for more. */
  datatype Reply =
    | PollError(errno: int)
    | Timeout
    | IoctlError(errno: int)
    | ReadError(errno: int)
    | EndOfFile
    | Data(chunk: bytes)

  /** A partial event with a whole header is moved to the front before more is read. */
  predicate Compacts(fanotify: bool, pending: bytes) {
    !fanotify && |pending| >= EVENT_SIZE && !HasRecord(false, pending)
  }

  /** Where a read puts its bytes: behind what is pending, which may have been moved to the
      front. */
  function Base(fanotify: bool, first: nat, pending: bytes): nat {
    if pending == [] || Compacts(fanotify, pending) then 0 else first
  }

  /** The replies suit a reader that has `pending` bytes left, starting at `first`: a read
      that is needed completes an event and fits, and the leftover of a compacted event is
      completed before any timeout or error. */
  ghost predicate Served(fanotify: bool, first: nat, pending: bytes, script: seq<Reply>)
    decreases |script|, |pending|
  {
    if HasRecord(fanotify, pending) && RecordLength(fanotify, pending) > 0 then
      var n := RecordLength(fanotify, pending);
      Served(fanotify, if n == |pending| then 0 else first + n, pending[n..], script)
    else if fanotify && |pending| >= EVENT_SIZE then false
    else if script == [] then !Compacts(fanotify, pending)
    else
      match script[0]
      case Data(chunk) =>
        var base := Base(fanotify, first, pending);
        && chunk != [] && base + |pending| + |chunk| <= CAP
        && HasRecord(fanotify, pending + chunk)
        && Served(fanotify, base, pending + chunk, script[1..])
      case _ => !Compacts(fanotify, pending) && Served(fanotify, first, pending, script[1..])
  }

  /** What being served means for the next step. */
  lemma ServedNow(fanotify: bool, first: nat, pending: bytes, script: seq<Reply>)
    requires Served(fanotify, first, pending, script)
    ensures HasRecord(fanotify, pending) ==>
      var n := RecordLength(fanotify, pending);
      n > 0 && Served(fanotify, if n == |pending| then 0 else first + n, pending[n..], script)
    ensures fanotify && |pending| >= EVENT_SIZE ==> HasRecord(fanotify, pending)
    ensures !HasRecord(fanotify, pending) && script != [] && script[0].Data? ==>
      var base := Base(fanotify, first, pending);
      var chunk := script[0].chunk;
      && chunk != [] && base + |pending| + |chunk| <= CAP
      && HasRecord(fanotify, pending + chunk) && Served(fanotify, base, pending + chunk, script[1..])
    ensures !HasRecord(fanotify, pending) && script != [] && !script[0].Data? ==>
      !Compacts(fanotify, pending) && Served(fanotify, first, pending, script[1..])
    ensures Compacts(fanotify, pending) ==> script != [] && script[0].Data?
  {
    if HasRecord(fanotify, pending) { RecordStandsAlone(fanotify, pending); }
  }

  /** The bytes that are still to be read. */
  function ToCome(script: seq<Reply>): bytes {
    if script == [] then []
    else (if script[0].Data? then script[0].chunk else []) + ToCome(script[1..])
  }

  lemma {:induction false} ToComeAppend(a: seq<Reply>, b: seq<Reply>)
    ensures ToCome(a + b) == ToCome(a) + ToCome(b)
  {
    if a == [] {
      assert a + b == b;
    } else {
      assert (a + b)[1..] == a[1..] + b;
      ToComeAppend(a[1..], b);
    }
  }

  lemma {:induction false} WholeRecordsAppend(fanotify: bool, a: bytes, b: bytes)
    requires WholeRecords(fanotify, a) && WholeRecords(fanotify, b)
    ensures WholeRecords(fanotify, a + b)
    decreases |a|
  {
    if a == [] {
      assert a + b == b;
    } else {
      var n := RecordLength(fanotify, a);
      RecordStandsAlone(fanotify, a);
      WholeRecordsAppend(fanotify, a[n..], b);
      FramesCons(fanotify, a[..n], a[n..] + b);
      assert a + b == a[..n] + (a[n..] + b);
    }
  }

  /** Reads of whole events add up to whole events. */
  lemma {:induction false} WholeChunksAddUp(fanotify: bool, script: seq<Reply>)
    requires WholeChunks(fanotify, script)
    ensures WholeRecords(fanotify, ToCome(script))
  {
    if script != [] {
      WholeChunksAddUp(fanotify, script[1..]);
      WholeRecordsAppend(fanotify, if script[0].Data? then script[0].chunk else [], ToCome(script[1..]));
    }
  }

  ghost predicate WholeChunks(fanotify: bool, script: seq<Reply>) {
    forall i :: 0 <= i < |script| && script[i].Data? ==>
      0 < |script[i].chunk| <= CAP && WholeRecords(fanotify, script[i].chunk)
  }

  /** The kernel's contract is enough: every read a nonempty run of whole events. */
  lemma {:induction false} WholeChunksAreServed(fanotify: bool, first: nat, pending: bytes, script: seq<Reply>)
    requires WholeRecords(fanotify, pending) && WholeChunks(fanotify, script)
    ensures Served(fanotify, first, pending, script)
    decreases |script|, |pending|
  {
    if pending != [] {
      var n := RecordLength(fanotify, pending);
      WholeChunksAreServed(fanotify, if n == |pending| then 0 else first + n, pending[n..], script);
    } else if script != [] {
      if script[0].Data? {
        assert [] + script[0].chunk == script[0].chunk;
        WholeChunksAreServed(fanotify, 0, script[0].chunk, script[1..]);
      } else {
        WholeChunksAreServed(fanotify, first, [], script[1..]);
      }
    }
  }

  /** So is a pair of reads that split an event, with or without its header complete. */
  lemma {:induction false} SplitEventsAreServed(
    fanotify: bool, first: nat, whole: bytes, part: bytes, rest: bytes, script: seq<Reply>)
    requires WholeRecords(fanotify, whole) && !HasRecord(fanotify, part) && (fanotify ==> |part| < EVENT_SIZE)
    requires rest != [] && WholeRecords(fanotify, part + rest)
    requires Base(fanotify, first + |whole|, part) + |part| + |rest| <= CAP
    requires WholeChunks(fanotify, script)
    ensures Served(fanotify, first, whole + part, [Data(rest)] + script)
    decreases |whole|
  {
    var all := [Data(rest)] + script;
    if whole == [] {
      assert whole + part == part && all[0] == Data(rest) && all[1..] == script;
      assert part + rest != [];
      WholeChunksAreServed(fanotify, Base(fanotify, first, part), part + rest, script);
    } else {
      var n := RecordLength(fanotify, whole);
      RecordIsAPrefix(fanotify, whole, part);
      assert (whole + part)[n..] == whole[n..] + part;
      var base := if n == |whole + part| then 0 else first + n;
      SplitEventsAreServed(fanotify, base, whole[n..], part, rest, script);
    }
  }

  /** How much room the rest of a split event needs: with its header there, only itself, since it
      is moved to the front of the 65536 bytes; with less than 16 bytes there, also the room before
      it. */
  lemma RestFitsExactlyWhen(fanotify: bool, first: nat, part: bytes, rest: bytes, script: seq<Reply>)
    requires part != [] && !HasRecord(fanotify, part) && (fanotify ==> |part| < 16)
    requires rest != [] && WholeRecords(fanotify, part + rest) && WholeChunks(fanotify, script)
    ensures Served(fanotify, first, part, [Data(rest)] + script) <==>
      (if |part| >= 16 then 0 else first) + |part| + |rest| <= 65536
  {
    assert [] + part == part;
    if (if |part| >= 16 then 0 else first) + |part| + |rest| <= 65536 {
      SplitEventsAreServed(fanotify, first, [], part, rest, script);
    } else if Served(fanotify, first, part, [Data(rest)] + script) {
      ServedNow(fanotify, first, part, [Data(rest)] + script);
    }
  }

  lemma TwoReads(a: bytes, b: bytes, script: seq<Reply>)
    ensures ToCome([Data(a), Data(b)] + script) == a + (b + ToCome(script))
    ensures ToCome([Data(a + b)] + script) == a + (b + ToCome(script))
  {
    var two, one := [Data(a), Data(b)] + script, [Data(a + b)] + script;
    assert two[1..] == [Data(b)] + script && two[1..][1..] == script && one[1..] == script;
    Associates(a, b, ToCome(script));
  }

  /** Two reads that split an event, from the start: the reader is served, and what it gets is
      the stream the unsplit read would have given. */
  lemma SplitReadsAreServed(fanotify: bool, whole: bytes, part: bytes, rest: bytes, script: seq<Reply>)
    requires whole != [] && WholeRecords(fanotify, whole)
    requires !HasRecord(fanotify, part) && (fanotify ==> |part| < EVENT_SIZE)
    requires rest != [] && WholeRecords(fanotify, part + rest)
    requires |whole| + |part| <= CAP && Base(fanotify, |whole|, part) + |part| + |rest| <= CAP
    requires WholeChunks(fanotify, script)
    ensures var split := [Data(whole + part), Data(rest)] + script;
      && Served(fanotify, 0, [], split)
      && ToCome(split) == ToCome([Data((whole + part) + rest)] + script)
      && WholeRecords(fanotify, ToCome(split))
  {
    SplitIsServed(fanotify, whole, part, rest, script);
    TwoReads(whole + part, rest, script);
    WholeChunksAddUp(fanotify, script);
    WholeRecordsAppend(fanotify, part + rest, ToCome(script));
    WholeRecordsAppend(fanotify, whole, (part + rest) + ToCome(script));
    Associates(part, rest, ToCome(script));
    Associates(whole, part, rest + ToCome(script));
  }

  lemma FirstRead(fanotify: bool, chunk: bytes, later: seq<Reply>)
    requires |chunk| <= CAP && HasRecord(fanotify, chunk) && Served(fanotify, 0, chunk, later)
    ensures Served(fanotify, 0, [], [Data(chunk)] + later)
  {
    var all := [Data(chunk)] + later;
    assert all[0] == Data(chunk) && all[1..] == later && [] + chunk == chunk;
  }

  lemma SplitIsServed(fanotify: bool, whole: bytes, part: bytes, rest: bytes, script: seq<Reply>)
    requires whole != [] && WholeRecords(fanotify, whole)
    requires !HasRecord(fanotify, part) && (fanotify ==> |part| < EVENT_SIZE)
    requires rest != [] && WholeRecords(fanotify, part + rest)
    requires |whole| + |part| <= CAP && Base(fanotify, |whole|, part) + |part| + |rest| <= CAP
    requires WholeChunks(fanotify, script)
    ensures Served(fanotify, 0, [], [Data(whole + part), Data(rest)] + script)
  {
    SplitEventsAreServed(fanotify, 0, whole, part, rest, script);
    RecordIsAPrefix(fanotify, whole, part);
    FirstRead(fanotify, whole + part, [Data(rest)] + script);
    assert [Data(whole + part)] + ([Data(rest)] + script) == [Data(whole + part), Data(rest)] + script;
  }

  /** What is left of a string once all whole records are cut off its front. */
  function Rest(fanotify: bool, s: bytes): (r: bytes)
    ensures |r| <= |s| && !HasRecord(fanotify, r)
    decreases |s|
  {
    if HasRecord(fanotify, s) then
      RecordStandsAlone(fanotify, s);
      Rest(fanotify, s[RecordLength(fanotify, s)..])
    else s
  }

  /** The replies suit a reader with an incomplete event at `first`, read by read: each read
      completes it and fits behind it, and nothing comes between the compaction of an event and
      its completion. */
  ghost predicate Suits(fanotify: bool, first: nat, part: bytes, script: seq<Reply>)
    decreases |script|
  {
    if fanotify && |part| >= EVENT_SIZE then false
    else if script == [] then !Compacts(fanotify, part)
    else
      match script[0]
      case Data(chunk) =>
        var base, s := Base(fanotify, first, part), part + chunk;
        && chunk != [] && base + |s| <= CAP && HasRecord(fanotify, s)
        && Suits(fanotify, RestAt(fanotify, base, s), Rest(fanotify, s), script[1..])
      case _ => !Compacts(fanotify, part) && Suits(fanotify, first, part, script[1..])
  }

  function RestAt(fanotify: bool, first: nat, s: bytes): nat {
    if s != [] && Rest(fanotify, s) == [] then 0 else first + |s| - |Rest(fanotify, s)|
  }

  lemma ServedFirst(fanotify: bool, first: nat, s: bytes, script: seq<Reply>)
    requires HasRecord(fanotify, s)
    ensures var n := RecordLength(fanotify, s);
      Served(fanotify, first, s, script) <==> Served(fanotify, if n == |s| then 0 else first + n, s[n..], script)
  {
    RecordStandsAlone(fanotify, s);
  }

  lemma RestFirst(fanotify: bool, first: nat, s: bytes)
    requires HasRecord(fanotify, s)
    ensures var n := RecordLength(fanotify, s);
      && n > 0 && Rest(fanotify, s) == Rest(fanotify, s[n..])
      && RestAt(fanotify, first, s) == RestAt(fanotify, if n == |s| then 0 else first + n, s[n..])
  {
    RecordStandsAlone(fanotify, s);
  }

  /** Framing whole records changes nothing about what the reader needs. */
  lemma {:induction false} ServedThroughRecords(fanotify: bool, first: nat, s: bytes, script: seq<Reply>)
    ensures Served(fanotify, first, s, script)
       <==> Served(fanotify, RestAt(fanotify, first, s), Rest(fanotify, s), script)
    decreases |s|
  {
    if HasRecord(fanotify, s) {
      var n := RecordLength(fanotify, s);
      ServedFirst(fanotify, first, s, script);
      RestFirst(fanotify, first, s);
      ServedThroughRecords(fanotify, if n == |s| then 0 else first + n, s[n..], script);
    }
  }

  /** Any chunking of the stream is served if and only if each single read suits the rest of
      the ones before it. */
  lemma {:induction false} AnyChunkingIsServed(fanotify: bool, first: nat, part: bytes, script: seq<Reply>)
    requires !HasRecord(fanotify, part)
    ensures Served(fanotify, first, part, script) <==> Suits(fanotify, first, part, script)
    decreases |script|
  {
    if script != [] {
      match script[0]
      case Data(chunk) =>
        var base, s := Base(fanotify, first, part), part + chunk;
        ServedThroughRecords(fanotify, base, s, script[1..]);
        AnyChunkingIsServed(fanotify, RestAt(fanotify, base, s), Rest(fanotify, s), script[1..]);
      case _ => AnyChunkingIsServed(fanotify, first, part, script[1..]);
    }
  }

  /** Cutting off records goes on where it stopped when more bytes come in. */
  lemma {:induction false} RestGoesOn(fanotify: bool, a: bytes, b: bytes)
    ensures Rest(fanotify, a + b) == Rest(fanotify, Rest(fanotify, a) + b)
    decreases |a|
  {
    if HasRecord(fanotify, a) {
      RecordStandsAlone(fanotify, a);
      RecordIsAPrefix(fanotify, a, b);
      var n := RecordLength(fanotify, a);
      assert (a + b)[n..] == a[n..] + b;
      RestGoesOn(fanotify, a[n..], b);
    }
  }
}
