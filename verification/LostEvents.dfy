/** What becomes of the stream when a split event, moved to the front of the buffer, is not
    completed by the next reply. */
module LostEvents {
  import opened Bytes
  import opened Fids
  import opened Framing
  import opened EventReader

  /** Some of the stream is neither framed nor pending. */
  predicate IsShort(stream: bytes, framed: seq<bytes>, rest: bytes) {
    |Flat(framed)| + |rest| < |stream|
  }

  lemma {:induction false} FlatOfBoth(a: seq<bytes>, b: seq<bytes>)
    ensures Flat(a + b) == Flat(a) + Flat(b)
  {
    if a == [] {
      assert a + b == b;
    } else {
      assert (a + b)[1..] == a[1..] + b;
      FlatOfBoth(a[1..], b);
      Associates(a[0], Flat(a[1..]), Flat(b));
    }
  }

  lemma {:induction false} FlatOfFrames(fanotify: bool, s: bytes)
    requires WholeRecords(fanotify, s)
    ensures Flat(Frames(fanotify, s)) == s
    decreases |s|
  {
    if s != [] {
      var n := RecordLength(fanotify, s);
      FlatOfFrames(fanotify, s[n..]);
      FlatOfBoth([s[..n]], Frames(fanotify, s[n..]));
      assert [s[..n]][1..] == [] && s[..n] + [] == s[..n];
      assert s[..n] + s[n..] == s;
    }
  }

  /** After a refill that fails, framed and pending bytes still make up the stream if and only
      if no split event had just been moved to the front; otherwise some of it is gone. */
  lemma PendingSurvivesExactlyWhen(
    fanotify: bool, first: nat, pending: bytes, script: seq<Reply>, stream: bytes, framed: seq<bytes>)
    requires Accounts(fanotify, stream, framed, pending)
    requires NeedsRead(fanotify, pending) && (script == [] || !script[0].Data?)
    ensures var s := Supplied(fanotify, first, pending, script);
      && !s.ok
      && (Accounts(fanotify, stream, framed, s.window) <==> !Compacts(fanotify, pending))
      && (IsShort(stream, framed, s.window) <==> Compacts(fanotify, pending))
  {
    var s := Supplied(fanotify, first, pending, script);
    if Compacts(fanotify, pending) { assert |Flat(framed) + s.window| < |stream|; }
  }

  /** What has been read, framed and is pending, and the steps from one state to the next: a
      refill, whatever the reply, and the framing of a record. */
  datatype Books = Books(stream: bytes, framed: seq<bytes>, rest: bytes)

  ghost predicate Refills(fanotify: bool, a: Books, b: Books) {
    exists first, script :: var s := Supplied(fanotify, first, a.rest, script);
      b == Books(a.stream + s.got, a.framed, s.window)
  }

  predicate FramesOne(fanotify: bool, a: Books, b: Books) {
    && HasRecord(fanotify, a.rest)
    && var n := RecordLength(fanotify, a.rest);
       b == Books(a.stream, a.framed + [a.rest[..n]], a.rest[n..])
  }

  lemma ShortStaysShort(fanotify: bool, a: Books, b: Books)
    requires Refills(fanotify, a, b) || FramesOne(fanotify, a, b)
    requires IsShort(a.stream, a.framed, a.rest)
    ensures IsShort(b.stream, b.framed, b.rest)
  {
    if FramesOne(fanotify, a, b) {
      FlatAppend(a.framed, a.rest[..RecordLength(fanotify, a.rest)]);
    }
  }

  /** Once bytes are lost, what is framed and pending is never the stream again, and when the
      stream is a run of whole events the events framed and the parse of the rest are never its
      parse: a later event is missing or framed in the wrong place. */
  lemma {:induction false} LossIsForGood(fanotify: bool, books: seq<Books>, k: nat)
    requires k < |books| && IsShort(books[0].stream, books[0].framed, books[0].rest)
    requires forall i :: 0 <= i < |books| - 1 ==>
      Refills(fanotify, books[i], books[i + 1]) || FramesOne(fanotify, books[i], books[i + 1])
    ensures var b := books[k];
      && IsShort(b.stream, b.framed, b.rest)
      && !Accounts(fanotify, b.stream, b.framed, b.rest)
      && (WholeRecords(fanotify, b.stream) && WholeRecords(fanotify, b.rest) ==>
            b.framed + Frames(fanotify, b.rest) != Frames(fanotify, b.stream))
    decreases k
  {
    if k > 0 {
      LossIsForGood(fanotify, books, k - 1);
      ShortStaysShort(fanotify, books[k - 1], books[k]);
    }
    ShortIsNotTheParse(fanotify, books[k].stream, books[k].framed, books[k].rest);
  }

  lemma ShortIsNotTheParse(fanotify: bool, stream: bytes, framed: seq<bytes>, rest: bytes)
    requires IsShort(stream, framed, rest)
    ensures !Accounts(fanotify, stream, framed, rest)
    ensures WholeRecords(fanotify, stream) && WholeRecords(fanotify, rest) ==>
      framed + Frames(fanotify, rest) != Frames(fanotify, stream)
  {
    assert |Flat(framed) + rest| == |Flat(framed)| + |rest|;
    if WholeRecords(fanotify, stream) && WholeRecords(fanotify, rest) {
      FlatOfFrames(fanotify, stream);
      FlatOfFrames(fanotify, rest);
      FlatOfBoth(framed, Frames(fanotify, rest));
    }
  }

  // ---------------------------------------------------------------- an example

  /** A bare event. */
  const BARE: bytes := [0, 0, 0, 0, 0, 0, 0, 0, 0, 0, 0, 0, 0, 0, 0, 0]

  /** The header of an event with a name of sixteen bytes. */
  const HEADER: bytes := [0, 0, 0, 0, 0, 0, 0, 0, 0, 0, 0, 0, 16, 0, 0, 0]

  lemma BareIsARecord()
    ensures IsRecord(false, BARE)
  {
  }

  lemma HeaderIsSplit()
    ensures NeedsRead(false, HEADER) && Compacts(false, HEADER)
    ensures IsRecord(false, HEADER + BARE)
  {
    var s := HEADER + BARE;
    assert At(s, 12) == 16 && At(s, 13) == 0 && At(s, 14) == 0 && At(s, 15) == 0;
  }

  /** A read ends behind the header of the second event; a timeout comes, then the name.  The
      name is framed as an event of its own. */
  lemma SplitThenTimeout()
    ensures var s1 := Supplied(false, 16, HEADER, [Timeout, Data(BARE)]);
      var s2 := Supplied(false, s1.first, s1.window, s1.script);
      && Accounts(false, BARE + HEADER, [BARE], HEADER)
      && !s1.ok && s1.window == [] && s2.ok && s2.window == BARE
      && WholeRecords(false, BARE + (HEADER + BARE)) && Frames(false, BARE + (HEADER + BARE)) == [BARE, HEADER + BARE]
      && FramesOne(false, Books(BARE + HEADER + BARE, [BARE], BARE), Books(BARE + HEADER + BARE, [BARE, BARE], []))
      && IsShort(BARE + HEADER + BARE, [BARE, BARE], [])
  {
    BareIsARecord();
    HeaderIsSplit();
    var event := HEADER + BARE;
    OneBareFramed();
    assert [Timeout, Data(BARE)][1..] == [Data(BARE)] && [] + BARE == BARE;
    assert event + [] == event && BARE + [] == BARE;
    FramesCons(false, event, []);
    FramesCons(false, BARE, event);
    assert BARE[..16] == BARE && BARE[16..] == [];
    FlatOfBoth([BARE], [BARE]);
    assert [BARE] + [BARE] == [BARE, BARE];
  }

  lemma OneBareFramed()
    ensures AllRecords(false, [BARE]) && Flat([BARE]) == BARE
  {
    BareIsARecord();
    assert [BARE][..0] == [] && [BARE][1..] == [] && BARE + [] == BARE;
  }
}
