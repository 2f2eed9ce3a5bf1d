/** Whole runs of the move tracker: changes of the watched tree, the events that tell of them,
    and the recorded names after each. */
module MoveRuns {
  import opened Bytes
  import opened EventBits
  import opened EventReader
  import opened MoveTracking
  import opened Stats
  import F = WatchFiles
  import W = Watches
  import R = RecursiveWatch

  // ---------------------------------------------------------------- changes and their events

  /** Answers of a system with inotify. */
  type InotifyAnswers = a: Answers | R.FromInotify(a.tree) witness Answers(false, R.Unopened(0), 0, _ => None)

  /** What happens to the watched tree.  A change is handled before the next one happens, and
      the two events of a move within the tree come one after the other.  A move out of the
      tree has only one event. */
  datatype Change =
    | Appears(ev: Event, ans: InotifyAnswers)
    | Moves(from: Event, to: Event, fromAns: InotifyAnswers, toAns: InotifyAnswers)
    | Leaves(last: Event, lastAns: InotifyAnswers)
    | Departs(gone: Event, goneAns: InotifyAnswers)
    | Nothing(other: Event, otherAns: InotifyAnswers)

  function Events(c: Change): (es: seq<(Event, InotifyAnswers)>)
    ensures es != []
  {
    match c
    case Appears(ev, ans) => [(ev, ans)]
    case Moves(from, to, fromAns, toAns) => [(from, fromAns), (to, toAns)]
    case Leaves(ev, ans) => [(ev, ans)]
    case Departs(ev, ans) => [(ev, ans)]
    case Nothing(ev, ans) => [(ev, ans)]
  }

  predicate IsMovedFrom(ev: Event) {
    IsOn(ev, IN_MOVED_FROM) && !IsOn(ev, IN_CREATE) && !IsOn(ev, IN_MOVED_TO)
  }

  predicate IsMovedTo(ev: Event) {
    IsOn(ev, IN_MOVED_TO) && !IsOn(ev, IN_CREATE) && !IsOn(ev, IN_MOVED_FROM)
  }

  predicate IsCreate(ev: Event) {
    IsOn(ev, IN_CREATE) && !IsOn(ev, IN_MOVED_FROM) && !IsOn(ev, IN_MOVED_TO)
  }

  predicate IsPlain(ev: Event) {
    !IsOn(ev, IN_CREATE) && !IsOn(ev, IN_MOVED_FROM) && !IsOn(ev, IN_MOVED_TO)
  }

  /** An event tells of one thing. */
  predicate IsSingle(ev: Event) { IsMovedFrom(ev) || IsMovedTo(ev) || IsCreate(ev) || IsPlain(ev) }

  /** Something is created in a watched directory or moved into it from outside; if it is a
      directory it is watched with everything below it. */
  ghost predicate AppearsIn(where: World, ev: Event, ans: InotifyAnswers, after: World) {
    && ev.wd in where && (IsCreate(ev) || IsMovedTo(ev))
    && if IsOn(ev, IN_ISDIR) && ans.isdir
       then Grows(where, after, RegsOf(ans.tree, Below(where, ev), []))
       else after == where
  }

  /** The first event of the move of a watched directory. */
  ghost predicate StartsMove(where: World, from: Event) {
    from.wd in where && IsOn(from, IN_ISDIR) && IsMovedFrom(from) && IsWatched(where, Below(where, from))
  }

  /** The events of a rename of a watched directory within the tree, not into itself. */
  ghost predicate MovesWithin(where: World, from: Event, to: Event) {
    && StartsMove(where, from) && to.wd in where && IsOn(to, IN_ISDIR) && IsMovedTo(to)
    && !(Below(where, from) <= where[to.wd])
  }

  ghost predicate Happens(where: World, c: Change, after: World) {
    match c
    case Appears(ev, ans) => AppearsIn(where, ev, ans, after)
    case Moves(from, to, _, _) =>
      && MovesWithin(where, from, to)
      && Unrecorded(where, Below(where, to))
      && after == Renamed(where, Below(where, from), Below(where, to))
    case Leaves(last, _) =>
      && StartsMove(where, last)
      && HasNothingBelow(where, Below(where, last))
      && after == Without(where, Below(where, last))
    case Departs(ev, _) =>
      && ev.wd in where && IsMovedFrom(ev)
      && (IsOn(ev, IN_ISDIR) ==> Unrecorded(where, Below(where, ev)))
      && after == where
    case Nothing(ev, _) => IsSingle(ev) && (IsPlain(ev) || ev.wd !in where) && after == where
  }

  // ---------------------------------------------------------------- handling events

  ghost predicate IsUsable(t: W.Table) { W.Valid(t) && F.NO_KEY !in t.byFid }

  ghost function HandleAll(s: Tracker, events: seq<(Event, InotifyAnswers)>): (r: Tracker)
    requires IsUsable(s.table)
    ensures IsUsable(r.table)
    decreases |events|
  {
    if events == [] then s
    else
      HandlingKeepsValid(s, events[0].0, events[0].1);
      HandleAll(HandleEvent(s, events[0].0, true, events[0].1), events[1..])
  }

  lemma GivingUpKeepsValid(s: Tracker, ev: Event, removal: int)
    requires IsUsable(s.table)
    ensures IsUsable(GiveUpMove(s, ev, removal).table)
  {
    if s.movedFrom.Some? && s.movedFrom.value in s.table.byFilename {
      W.DestroyKeepsValid(s.table, s.table.byFilename[s.movedFrom.value]);
    }
  }

  lemma HandlingKeepsValid(s: Tracker, ev: Event, ans: InotifyAnswers)
    requires IsUsable(s.table)
    ensures IsUsable(HandleEvent(s, ev, true, ans).table)
    ensures GiveUpMove(s, ev, ans.removal).table.byWd.Keys <= HandleEvent(s, ev, true, ans).table.byWd.Keys
  {
    GivingUpKeepsValid(s, ev, ans.removal);
    var s1 := GiveUpMove(s, ev, ans.removal);
    var d := Dirpath(s1.table, ev, ans.resolve);
    if d.Some? { R.VisitsAreFound(s1.table, ans.tree, d.value, []); }
    W.RenamePrefixesKeepsValid(s1.table, W.Entries(s1.table.byFilename), OrEmpty(s1.movedFrom), OrEmpty(d));
  }

  lemma HandleOne(s: Tracker, ev: Event, ans: InotifyAnswers)
    requires IsUsable(s.table)
    ensures HandleAll(s, [(ev, ans)]) == HandleEvent(s, ev, true, ans)
  {
    var es := [(ev, ans)];
    assert es[1..] == [];
  }

  lemma HandleFirst(s: Tracker, ev: Event, ans: InotifyAnswers, es: seq<(Event, InotifyAnswers)>)
    requires IsUsable(s.table)
    ensures IsUsable(HandleEvent(s, ev, true, ans).table)
    ensures HandleAll(s, [(ev, ans)] + es) == HandleAll(HandleEvent(s, ev, true, ans), es)
  {
    HandlingKeepsValid(s, ev, ans);
    assert ([(ev, ans)] + es)[1..] == es;
  }

  lemma HandleTwo(s: Tracker, e1: Event, a1: InotifyAnswers, e2: Event, a2: InotifyAnswers)
    requires IsUsable(s.table)
    ensures IsUsable(HandleEvent(s, e1, true, a1).table)
    ensures HandleAll(s, [(e1, a1), (e2, a2)]) == HandleEvent(HandleEvent(s, e1, true, a1), e2, true, a2)
  {
    var es := [(e1, a1), (e2, a2)];
    HandleFirst(s, e1, a1, [(e2, a2)]);
    assert [(e1, a1)] + [(e2, a2)] == es;
    HandleOne(HandleEvent(s, e1, true, a1), e2, a2);
  }

  // ---------------------------------------------------------------- no move pending

  ghost predicate Settled(s: Tracker, where: World) {
    Accurate(s.table, where) && s.movedFrom.None?
  }

  lemma AppearanceIsTracked(s: Tracker, where: World, ev: Event, ans: InotifyAnswers, after: World)
    requires Settled(s, where) && AppearsIn(where, ev, ans, after)
    ensures Settled(HandleEvent(s, ev, true, ans), after)
  {
    DirpathIsReal(s.table, where, ev, ans.resolve);
    if IsOn(ev, IN_ISDIR) && ans.isdir {
      R.WatchedIsRegistered(s.table, ans.tree, Below(where, ev), []);
      GrowthIsAccurate(s.table, where, after, RegsOf(ans.tree, Below(where, ev), []));
    }
  }

  /** The first event of a move only takes note of it. */
  lemma MoveIsNoted(s: Tracker, where: World, from: Event, ans: InotifyAnswers)
    requires Settled(s, where) && StartsMove(where, from)
    ensures HandleEvent(s, from, true, ans) == Tracker(s.table, Some(Below(where, from)))
  {
    DirpathIsReal(s.table, where, from, ans.resolve);
    RecordedName(s.table, where, Below(where, from));
  }

  lemma MoveIsDone(s: Tracker, where: World, p: bytes, to: Event, ans: InotifyAnswers)
    requires Accurate(s.table, where) && s.movedFrom == Some(p) && to.wd in where
    requires IsOn(to, IN_ISDIR) && IsMovedTo(to)
    ensures HandleEvent(s, to, true, ans) == Tracker(W.ReplaceFilename(s.table, p, Below(where, to)), None)
  {
    DirpathIsReal(s.table, where, to, ans.resolve);
  }

  lemma DepartureIsIgnored(s: Tracker, where: World, ev: Event, ans: InotifyAnswers)
    requires Settled(s, where) && Happens(where, Departs(ev, ans), where)
    ensures HandleEvent(s, ev, true, ans) == s
  {
    DirpathIsReal(s.table, where, ev, ans.resolve);
    if IsOn(ev, IN_ISDIR) {
      RecordedName(s.table, where, Below(where, ev));
      assert Below(where, ev) <= Below(where, ev);
    }
  }

  lemma NothingIsIgnored(s: Tracker, where: World, ev: Event, ans: InotifyAnswers)
    requires Settled(s, where) && Happens(where, Nothing(ev, ans), where)
    ensures HandleEvent(s, ev, true, ans) == s
  {
    if ev.wd !in where {
      assert ev.wd !in s.table.byWd.Keys;
      assert Dirpath(s.table, ev, ans.resolve) == None;
    }
  }

  lemma MoveIsAReplacement(
    s: Tracker, where: World, from: Event, to: Event, fromAns: InotifyAnswers, toAns: InotifyAnswers)
    requires Settled(s, where) && MovesWithin(where, from, to)
    ensures HandleAll(s, [(from, fromAns), (to, toAns)])
         == Tracker(W.ReplaceFilename(s.table, Below(where, from), Below(where, to)), None)
  {
    MoveIsNoted(s, where, from, fromAns);
    MoveIsDone(Tracker(s.table, Some(Below(where, from))), where, Below(where, from), to, toAns);
    HandleTwo(s, from, fromAns, to, toAns);
  }

  // ---------------------------------------------------------------- a move pending

  /** The recorded names are true.  After a move out of the tree one more is recorded: that of
      the directory that left, until the next event. */
  ghost predicate Following(s: Tracker, where: World) {
    match s.movedFrom
    case None => Accurate(s.table, where)
    case Some(p) =>
      var all := Believed(s.table);
      Accurate(s.table, all) && IsWatched(all, p) && HasNothingBelow(all, p) && where == Without(all, p)
  }

  /** A move is pending exactly after a move out of the tree. */
  ghost predicate CaughtUp(s: Tracker, c: Change, where: World) {
    Following(s, where) && (s.movedFrom.Some? <==> c.Leaves?)
  }

  /** The first of these events, if any, lets the tracker give up a pending move, and the kernel
      drops the watch when asked to. */
  predicate Settles(es: seq<(Event, InotifyAnswers)>) {
    es != [] ==> !IsOn(es[0].0, IN_MOVED_TO) && es[0].1.removal >= 0
  }

  lemma LeavingIsNoted(s: Tracker, where: World, ev: Event, ans: InotifyAnswers)
    requires Settled(s, where) && StartsMove(where, ev) && HasNothingBelow(where, Below(where, ev))
    ensures Following(HandleEvent(s, ev, true, ans), Without(where, Below(where, ev)))
    ensures HandleEvent(s, ev, true, ans).movedFrom.Some?
  {
    MoveIsNoted(s, where, ev, ans);
    AccurateIsBelieved(s.table, where);
  }

  lemma OnlyTheDirectory(where: World, path: bytes)
    requires HasNothingBelow(where, path)
    ensures Without(where, path) == Minus(where, path)
  {
    var x, y := Without(where, path), Minus(where, path);
    assert path <= path;
    forall wd ensures wd in x.Keys <==> wd in y.Keys {}
    assert x.Keys == y.Keys;
    SameMap(x, y);
  }

  /** Giving up a pending move removes just the directory that left. */
  lemma GivingUpRemoves(s: Tracker, where: World, p: bytes, ev: Event, removal: int)
    requires Accurate(s.table, where) && IsWatched(where, p) && p != [] && s.movedFrom == Some(p)
    requires !IsOn(ev, IN_MOVED_TO)
    ensures Settled(GiveUpMove(s, ev, removal), if removal >= 0 then Minus(where, p) else where)
  {
    RecordedName(s.table, where, p);
    assert IsAccurate(s.table, where, s.table.byFilename[p]);
    RemovalIsAccurate(s.table, where, p);
  }

  lemma PendingIsSettled(s: Tracker, where: World, c: Change)
    requires Following(s, where) && s.movedFrom.Some? && Settles(Events(c))
    ensures var s1 := GiveUpMove(s, Events(c)[0].0, Events(c)[0].1.removal);
      Settled(s1, where) && HandleAll(s, Events(c)) == HandleAll(s1, Events(c))
  {
    var (p, all) := (s.movedFrom.value, Believed(s.table));
    var (ev, ans) := Events(c)[0];
    OnlyTheDirectory(all, p);
    GivingUpRemoves(s, all, p, ev, ans.removal);
    assert HandleEvent(s, ev, true, ans) == HandleEvent(GiveUpMove(s, ev, ans.removal), ev, true, ans);
  }

  // ---------------------------------------------------------------- changes are tracked

  lemma SettledChangeIsTracked(s: Tracker, where: World, c: Change, after: World)
    requires Settled(s, where) && Happens(where, c, after)
    ensures CaughtUp(HandleAll(s, Events(c)), c, after)
  {
    match c {
      case Appears(ev, ans) =>
        HandleOne(s, ev, ans);
        AppearanceIsTracked(s, where, ev, ans, after);
      case Moves(from, to, fromAns, toAns) =>
        MoveIsAReplacement(s, where, from, to, fromAns, toAns);
        RenameIsAccurate(s.table, where, Below(where, from), Below(where, to));
      case Leaves(ev, ans) =>
        HandleOne(s, ev, ans);
        LeavingIsNoted(s, where, ev, ans);
      case Departs(ev, ans) =>
        HandleOne(s, ev, ans);
        DepartureIsIgnored(s, where, ev, ans);
      case Nothing(ev, ans) =>
        HandleOne(s, ev, ans);
        NothingIsIgnored(s, where, ev, ans);
    }
  }

  /** Each change, with its events handled, leaves the recorded names true; a pending move is
      settled by its first event. */
  lemma ChangeIsTracked(s: Tracker, where: World, c: Change, after: World)
    requires Following(s, where) && Happens(where, c, after)
    requires s.movedFrom.Some? ==> Settles(Events(c))
    ensures CaughtUp(HandleAll(s, Events(c)), c, after)
  {
    if s.movedFrom.Some? {
      PendingIsSettled(s, where, c);
      SettledChangeIsTracked(GiveUpMove(s, Events(c)[0].0, Events(c)[0].1.removal), where, c, after);
    } else {
      SettledChangeIsTracked(s, where, c, after);
    }
  }

  ghost function Follow(s: Tracker, changes: seq<Change>): Tracker
    requires IsUsable(s.table)
    decreases |changes|
  {
    if changes == [] then s else Follow(HandleAll(s, Events(changes[0])), changes[1..])
  }

  /** Over any run of creations, moves in, moves within the tree and moves of directories
      without watched subdirectories out of it, every watch keeps the real path of its
      directory, as long as all events are handled.  The change after a move out must not begin
      with a MOVED_TO, and the kernel must drop the watch of the directory that left. */
  lemma {:induction false} NamesStayTrue(s: Tracker, changes: seq<Change>, worlds: seq<World>)
    requires |worlds| == |changes| + 1 && Following(s, worlds[0])
    requires forall i :: 0 <= i < |changes| ==> Happens(worlds[i], changes[i], worlds[i + 1])
    requires s.movedFrom.Some? && changes != [] ==> Settles(Events(changes[0]))
    requires forall i :: 0 <= i < |changes| - 1 && changes[i].Leaves? ==> Settles(Events(changes[i + 1]))
    ensures Following(Follow(s, changes), worlds[|changes|])
    ensures changes != [] ==> (Follow(s, changes).movedFrom.Some? <==> changes[|changes| - 1].Leaves?)
    decreases |changes|
  {
    if changes != [] {
      var s1 := HandleAll(s, Events(changes[0]));
      ChangeIsTracked(s, worlds[0], changes[0], worlds[1]);
      assert CaughtUp(s1, changes[0], worlds[1]) && Follow(s, changes) == Follow(s1, changes[1..]);
      NamesStayTrue(s1, changes[1..], worlds[1..]);
      if |changes| == 1 { assert changes[1..] == []; }
    }
  }

  lemma NewHandleIsAccurate(t: W.Table)
    requires t == W.Init(W.EMPTY, false, true)
    ensures Accurate(t, map[])
  {
    assert t.watches == map[] && t.byWd == map[];
  }

  /** The first walk establishes what later changes keep. */
  lemma StartIsAccurate(tree: R.Answer, path: bytes, excludes: seq<bytes>, after: World)
    requires R.FromInotify(tree) && Grows(map[], after, RegsOf(tree, path, excludes))
    ensures Settled(Tracker(R.Watched(W.Init(W.EMPTY, false, true), tree, path, excludes), None), after)
  {
    var t := W.Init(W.EMPTY, false, true);
    NewHandleIsAccurate(t);
    R.WatchedIsRegistered(t, tree, path, excludes);
    GrowthIsAccurate(t, map[], after, RegsOf(tree, path, excludes));
  }

  // ---------------------------------------------------------------- events under a filter

  /** Verdicts on the events of a change; under inotify none is an event of our own. */
  predicate Judged(c: Change, vs: seq<Verdict>) {
    && |vs| == |Events(c)|
    && forall i :: 0 <= i < |vs| ==> vs[i].event == Events(c)[i].0 && !vs[i].own
  }

  predicate AllJudged(changes: seq<Change>, judged: seq<seq<Verdict>>) {
    |judged| == |changes| && forall i :: 0 <= i < |changes| ==> Judged(changes[i], judged[i])
  }

  /** The events that the reader hands out. */
  function Delivered(f: Filter, es: seq<(Event, InotifyAnswers)>, vs: seq<Verdict>): seq<(Event, InotifyAnswers)>
    requires |es| == |vs|
  {
    if es == [] then [] else (if Passes(f, vs[0]) then [es[0]] else []) + Delivered(f, es[1..], vs[1..])
  }

  function DeliveredInRun(f: Filter, changes: seq<Change>, judged: seq<seq<Verdict>>): seq<(Event, InotifyAnswers)>
    requires AllJudged(changes, judged)
  {
    if changes == [] then []
    else
      assert Judged(changes[0], judged[0]);
      Delivered(f, Events(changes[0]), judged[0]) + DeliveredInRun(f, changes[1..], judged[1..])
  }

  /** That a watched directory moves away is not filtered out. */
  predicate LetsMovesThrough(f: Filter, c: Change, vs: seq<Verdict>)
    requires Judged(c, vs)
  {
    c.Moves? || c.Leaves? ==> Passes(f, vs[0])
  }

  /** After every move out of the tree, the next event handed out settles it. */
  predicate MovesOutSettle(f: Filter, changes: seq<Change>, judged: seq<seq<Verdict>>)
    requires AllJudged(changes, judged)
  {
    changes != [] ==>
      && (changes[0].Leaves? ==> Settles(DeliveredInRun(f, changes[1..], judged[1..])))
      && MovesOutSettle(f, changes[1..], judged[1..])
  }

  lemma DeliveredOfTwo(f: Filter, es: seq<(Event, InotifyAnswers)>, vs: seq<Verdict>)
    requires |es| == |vs| && 1 <= |es| <= 2
    ensures Delivered(f, es, vs) ==
      (if Passes(f, vs[0]) then [es[0]] else []) + (if |es| == 2 && Passes(f, vs[1]) then [es[1]] else [])
  {
    if |es| == 2 { assert es[1..][1..] == []; }
  }

  /** If moves away pass, a change is handed out in full or is of no interest. */
  lemma AllOrNothing(where: World, c: Change, after: World, f: Filter, vs: seq<Verdict>)
    requires Happens(where, c, after) && f.recursive && Judged(c, vs) && LetsMovesThrough(f, c, vs)
    ensures var es := Delivered(f, Events(c), vs);
      es == Events(c) || (es == [] && after == where && !c.Moves? && !c.Leaves?)
  {
    DeliveredOfTwo(f, Events(c), vs);
    assert vs[0].event == Events(c)[0].0;
    if c.Moves? { assert vs[1].event == Events(c)[1].0; }
  }

  lemma FilteredChangeIsTracked(s: Tracker, where: World, c: Change, after: World, f: Filter, vs: seq<Verdict>)
    requires Following(s, where) && Happens(where, c, after)
    requires f.recursive && Judged(c, vs) && LetsMovesThrough(f, c, vs)
    requires s.movedFrom.Some? ==> Settles(Delivered(f, Events(c), vs))
    ensures var es := Delivered(f, Events(c), vs);
      && Following(HandleAll(s, es), after)
      && (HandleAll(s, es).movedFrom.Some? <==> if es == [] then s.movedFrom.Some? else c.Leaves?)
  {
    AllOrNothing(where, c, after, f, vs);
    if Delivered(f, Events(c), vs) == Events(c) { ChangeIsTracked(s, where, c, after); }
  }

  lemma {:induction false} HandleAllOf(s: Tracker, a: seq<(Event, InotifyAnswers)>, b: seq<(Event, InotifyAnswers)>)
    requires IsUsable(s.table)
    ensures HandleAll(s, a + b) == HandleAll(HandleAll(s, a), b)
    decreases |a|
  {
    if a == [] {
      assert a + b == b;
    } else {
      var (ev, ans) := a[0];
      assert a + b == [(ev, ans)] + (a[1..] + b);
      HandleFirst(s, ev, ans, a[1..] + b);
      HandleAllOf(HandleEvent(s, ev, true, ans), a[1..], b);
    }
  }

  /** Under any filter the names stay true over a run of changes, as long as it lets moves of
      watched directories through and the next event handed out after each move out of the tree
      settles it; all other events may be rejected. */
  lemma {:induction false} NamesStayTrueUnderAFilter(
    s: Tracker, f: Filter, changes: seq<Change>, judged: seq<seq<Verdict>>, worlds: seq<World>)
    requires |worlds| == |changes| + 1 && Following(s, worlds[0]) && f.recursive
    requires forall i :: 0 <= i < |changes| ==> Happens(worlds[i], changes[i], worlds[i + 1])
    requires AllJudged(changes, judged)
    requires forall i :: 0 <= i < |changes| ==> LetsMovesThrough(f, changes[i], judged[i])
    requires s.movedFrom.Some? ==> Settles(DeliveredInRun(f, changes, judged))
    requires MovesOutSettle(f, changes, judged)
    ensures Following(HandleAll(s, DeliveredInRun(f, changes, judged)), worlds[|changes|])
    decreases |changes|
  {
    if changes != [] {
      var es, rest := Delivered(f, Events(changes[0]), judged[0]), DeliveredInRun(f, changes[1..], judged[1..]);
      assert es == [] ==> es + rest == rest;
      FilteredChangeIsTracked(s, worlds[0], changes[0], worlds[1], f, judged[0]);
      NamesStayTrueUnderAFilter(HandleAll(s, es), f, changes[1..], judged[1..], worlds[1..]);
      HandleAllOf(s, es, rest);
    }
  }

  lemma {:induction false} RegisteringKeepsNames(t: W.Table, regs: seq<R.Registration>, wd: int)
    requires wd in t.byWd && t.byWd[wd] in t.watches && t.byWd[wd] < t.nextId
    ensures var t' := R.RegisterAll(t, regs);
      && wd in t'.byWd && t'.byWd[wd] == t.byWd[wd] && t.byWd[wd] in t'.watches
      && t'.watches[t.byWd[wd]] == t.watches[t.byWd[wd]]
    decreases |regs|
  {
    if regs != [] {
      RegisteringKeepsNames(W.CreateWatch(t, regs[0].wd, None, regs[0].name, 0).0, regs[1..], wd);
    }
  }

  /** With only its second event handled, a renamed directory keeps its old name, whatever is
      registered for it. */
  lemma SecondHalfAlone(s: Tracker, where: World, from: Event, to: Event, ans: InotifyAnswers)
    requires Settled(s, where) && MovesWithin(where, from, to) && Unrecorded(where, Below(where, to))
    ensures !Following(HandleEvent(s, to, true, ans), Renamed(where, Below(where, from), Below(where, to)))
  {
    var (p, q) := (Below(where, from), Below(where, to));
    var (s', after) := (HandleEvent(s, to, true, ans), Renamed(where, p, q));
    var wd :| wd in where && where[wd] == p;
    assert wd in s.table.byWd.Keys;
    var id := s.table.byWd[wd];
    assert IsAccurate(s.table, where, id);
    DirpathIsReal(s.table, where, to, ans.resolve);
    R.WatchedIsRegistered(s.table, ans.tree, q, []);
    RegisteringKeepsNames(s.table, RegsOf(ans.tree, q, []), wd);
    assert s'.table.watches[id].filename == p;
    assert p <= p && q <= q && after[wd] == q + [];
    assert !IsAccurate(s'.table, after, id);
  }

  /** With no move pending, a change leaves the names true under a filter if and only if it is
      not a move of a watched directory whose first event is rejected. */
  lemma FilteredChangeIsTrackedExactlyWhen(
    s: Tracker, where: World, c: Change, after: World, f: Filter, vs: seq<Verdict>)
    requires Settled(s, where) && Happens(where, c, after) && f.recursive && Judged(c, vs)
    ensures Following(HandleAll(s, Delivered(f, Events(c), vs)), after) <==> LetsMovesThrough(f, c, vs)
  {
    if LetsMovesThrough(f, c, vs) {
      FilteredChangeIsTracked(s, where, c, after, f, vs);
    } else {
      DeliveredOfTwo(f, Events(c), vs);
      if c.Moves? {
        assert vs[1].event == c.to;
        HandleOne(s, c.to, c.toAns);
        SecondHalfAlone(s, where, c.from, c.to, c.toAns);
      } else {
        var wd :| wd in where && where[wd] == Below(where, c.last);
        assert wd in s.table.byWd.Keys && Below(where, c.last) <= where[wd];
        StrayDescriptor(s, after, wd);
      }
    }
  }

  // ---------------------------------------------------------------- moves that are not tracked

  /** A rename may replace an empty directory.  If that directory was watched, its watch is
      gone but stays recorded: a move leaves the names true exactly when its destination was
      not watched. */
  lemma MoveIsTrackedExactlyWhen(s: Tracker, where: World, c: Change)
    requires c.Moves? && Settled(s, where) && MovesWithin(where, c.from, c.to)
    requires HasNothingBelow(where, Below(where, c.to))
    ensures Settled(HandleAll(s, Events(c)), Renamed(where, Below(where, c.from), Below(where, c.to)))
       <==> !IsWatched(where, Below(where, c.to))
  {
    var (p, q) := (Below(where, c.from), Below(where, c.to));
    RecordedName(s.table, where, q);
    MoveIsAReplacement(s, where, c.from, c.to, c.fromAns, c.toAns);
    if !IsWatched(where, q) {
      RenameIsAccurate(s.table, where, p, q);
    } else {
      var wd :| wd in where && where[wd] == q;
      W.RenamePrefixesKeepsValid(s.table, W.Entries(s.table.byFilename), p, q);
      assert wd in s.table.byWd.Keys && wd !in Renamed(where, p, q);
    }
  }

  /** A descriptor that is recorded though its directory is not in the tree. */
  lemma StrayDescriptor(s: Tracker, where: World, x: int)
    requires x in s.table.byWd && x !in where && s.movedFrom.None?
    ensures !Following(s, where)
  {
    assert x in s.table.byWd.Keys;
  }

  /** A MOVED_TO after a move out of the tree is taken for its second half. */
  lemma PairedByAdjacency(s: Tracker, where: World, c: Change, after: World, x: int)
    requires IsUsable(s.table) && s.movedFrom.Some? && Happens(where, c, after)
    requires IsOn(Events(c)[0].0, IN_MOVED_TO)
    requires x in s.table.byWd && x !in after
    ensures !CaughtUp(HandleAll(s, Events(c)), c, after)
  {
    var (ev, ans) := Events(c)[0];
    HandleOne(s, ev, ans);
    var d := OrEmpty(Dirpath(s.table, ev, ans.resolve));
    W.RenamePrefixesKeepsValid(s.table, W.Entries(s.table.byFilename), s.movedFrom.value, d);
    StrayDescriptor(HandleEvent(s, ev, true, ans), after, x);
  }

  /** A table that takes a directory outside for one of the tree goes on doing so. */
  lemma StrayStays(s: Tracker, all: World, where: World, c: Change, after: World, x: int)
    requires Settled(s, all) && Happens(where, c, after) && !IsOn(Events(c)[0].0, IN_MOVED_TO)
    requires forall wd :: wd in where ==> wd in all && all[wd] == where[wd]
    requires x in all && x !in where && x !in after
    ensures !CaughtUp(HandleAll(s, Events(c)), c, after)
  {
    assert x in s.table.byWd.Keys;
    match c {
      case Moves(from, to, fromAns, toAns) =>
        MoveIsAReplacement(s, all, from, to, fromAns, toAns);
        W.RenamePrefixesKeepsValid(s.table, W.Entries(s.table.byFilename), Below(all, from), Below(all, to));
        StrayDescriptor(HandleAll(s, Events(c)), after, x);
      case Leaves(ev, ans) =>
        HandleOne(s, ev, ans);
        LeavingWithAStray(s, all, where, ev, ans, after, x);
      case _ =>
        var (ev, ans) := Events(c)[0];
        HandleOne(s, ev, ans);
        HandlingKeepsValid(s, ev, ans);
        var s' := HandleEvent(s, ev, true, ans);
        assert x in s'.table.byWd.Keys;
        if s'.movedFrom.None? { StrayDescriptor(s', after, x); }
    }
  }

  lemma LeavingWithAStray(s: Tracker, all: World, where: World, ev: Event, ans: InotifyAnswers, after: World, x: int)
    requires Settled(s, all) && Happens(where, Leaves(ev, ans), after)
    requires forall wd :: wd in where ==> wd in all && all[wd] == where[wd]
    requires x in all && x !in where && x !in after
    ensures !Following(HandleEvent(s, ev, true, ans), after)
  {
    var p := Below(where, ev);
    var wd :| wd in where && where[wd] == p;
    assert all[wd] == p;
    MoveIsNoted(s, all, ev, ans);
    AccurateIsBelieved(s.table, all);
    assert all[x] != p;
    assert x !in Without(all, p) ==> p <= all[x];
  }

  /** A move out of the tree is caught up with, at the next change, if and only if nothing
      below the directory is watched, the next event is no MOVED_TO, and the kernel drops the
      watch. */
  lemma MoveOutIsTrackedExactlyWhen(
    s: Tracker, where: World, last: Event, lastAns: InotifyAnswers, c: Change, after: World)
    requires Settled(s, where) && StartsMove(where, last)
    requires Happens(Without(where, Below(where, last)), c, after)
    requires forall wd :: wd in where && Below(where, last) <= where[wd] ==> wd !in after
    ensures CaughtUp(HandleAll(s, [(last, lastAns)] + Events(c)), c, after)
       <==> HasNothingBelow(where, Below(where, last)) && Settles(Events(c))
  {
    var p := Below(where, last);
    var left := Without(where, p);
    var noted := Tracker(s.table, Some(p));
    HandleFirst(s, last, lastAns, Events(c));
    MoveIsNoted(s, where, last, lastAns);
    var wd :| wd in where && where[wd] == p;
    assert p <= p && wd in s.table.byWd.Keys;
    if IsOn(Events(c)[0].0, IN_MOVED_TO) {
      PairedByAdjacency(noted, left, c, after, wd);
    } else if HasNothingBelow(where, p) && Settles(Events(c)) {
      LeavingIsNoted(s, where, last, lastAns);
      ChangeIsTracked(noted, left, c, after);
    } else {
      LeftBehind(noted, where, p, wd, c, after);
    }
  }

  lemma GivingUpComesFirst(s: Tracker, es: seq<(Event, InotifyAnswers)>)
    requires IsUsable(s.table) && es != [] && s.movedFrom.Some? && !IsOn(es[0].0, IN_MOVED_TO)
    ensures var s1 := GiveUpMove(s, es[0].0, es[0].1.removal);
      IsUsable(s1.table) && HandleAll(s, es) == HandleAll(s1, es)
  {
    var (ev, ans) := es[0];
    GivingUpKeepsValid(s, ev, ans.removal);
    assert HandleEvent(s, ev, true, ans) == HandleEvent(GiveUpMove(s, ev, ans.removal), ev, true, ans);
  }

  lemma LeftBehind(s: Tracker, where: World, p: bytes, wd: int, c: Change, after: World)
    requires Accurate(s.table, where) && s.movedFrom == Some(p) && p != [] && wd in where && where[wd] == p
    requires Happens(Without(where, p), c, after) && !IsOn(Events(c)[0].0, IN_MOVED_TO)
    requires forall d :: d in where && p <= where[d] ==> d !in after
    requires !HasNothingBelow(where, p) || Events(c)[0].1.removal < 0
    ensures !CaughtUp(HandleAll(s, Events(c)), c, after)
  {
    var (ev, ans) := Events(c)[0];
    GivingUpRemoves(s, where, p, ev, ans.removal);
    GivingUpComesFirst(s, Events(c));
    var s1 := GiveUpMove(s, ev, ans.removal);
    assert p <= p;
    if ans.removal < 0 {
      StrayStays(s1, where, Without(where, p), c, after, wd);
    } else {
      var x :| x in where && p <= where[x] && where[x] != p;
      StrayStays(s1, Minus(where, p), Without(where, p), c, after, x);
    }
  }

  // ---------------------------------------------------------------- examples

  const ROOT: bytes := [SLASH]
  const A: bytes := [SLASH, 97, SLASH]
  const B: bytes := [SLASH, 98, SLASH]
  const A_C: bytes := [SLASH, 97, SLASH, 99, SLASH]

  /** A handle that watches three directories, the root first. */
  function Three(second: bytes, third: bytes): W.Table {
    W.Table(map[1 := W.Watch(None, ROOT, 1, 0, ZERO), 2 := W.Watch(None, second, 2, 0, ZERO),
                3 := W.Watch(None, third, 3, 0, ZERO)],
            4, 0, map[1 := 1, 2 := 2, 3 := 3], map[], map[ROOT := 1, second := 2, third := 3],
            ZERO, false, true, false)
  }

  function ThreeWorld(second: bytes, third: bytes): World { map[1 := ROOT, 2 := second, 3 := third] }

  predicate AreDistinct(second: bytes, third: bytes) {
    second != [] && third != [] && ROOT != second && second != third && third != ROOT
  }

  lemma ThreeIsValid(second: bytes, third: bytes)
    requires AreDistinct(second, third)
    ensures W.Valid(Three(second, third))
  {
  }

  lemma EachOfThree(second: bytes, third: bytes, id: nat)
    requires AreDistinct(second, third) && 1 <= id <= 3
    ensures id in Three(second, third).watches
    ensures IsAccurate(Three(second, third), ThreeWorld(second, third), id)
  {
  }

  lemma ThreeIsAWorld(second: bytes, third: bytes)
    requires AreDistinct(second, third)
    ensures IsWorld(ThreeWorld(second, third)) && Three(second, third).byWd.Keys == ThreeWorld(second, third).Keys
  {
  }

  lemma ThreeIsAccurate(second: bytes, third: bytes)
    requires AreDistinct(second, third)
    ensures Settled(Tracker(Three(second, third), None), ThreeWorld(second, third))
  {
    var t := Three(second, third);
    ThreeIsValid(second, third);
    ThreeIsAWorld(second, third);
    forall id | id in t.watches ensures IsAccurate(t, ThreeWorld(second, third), id) {
      EachOfThree(second, third, id);
    }
  }

  /** IN_MOVED_FROM | IN_ISDIR for "a" in the root. */
  predicate IsFromA(ev: Event) { ev.wd == 1 && ev.mask == 0x4000_0040 && ev.name == [97] }

  /** IN_MOVED_TO | IN_ISDIR for "b" in the root. */
  predicate IsToB(ev: Event) { ev.wd == 1 && ev.mask == 0x4000_0080 && ev.name == [98] }

  lemma Weights()
    ensures Pow2(IN_MOVED_FROM) == 0x40 && Pow2(IN_MOVED_TO) == 0x80 && Pow2(IN_CREATE) == 0x100
    ensures Pow2(IN_ISDIR) == 0x4000_0000
  {
    assert Pow2(8) == 0x100 && Pow2(16) == 0x1_0000 && Pow2(24) == 0x100_0000;
  }

  lemma BitByWeight(ev: Event, bit: nat, weight: nat, digit: int)
    requires weight == Pow2(bit) && digit == ev.mask / weight % 2
    ensures IsOn(ev, bit) <==> digit == 1
  {
    BitsAreBinaryDigits(ev.mask, bit);
  }

  lemma MaskBits(ev: Event, isdir: int, from: int, to: int, create: int)
    requires isdir == ev.mask / 0x4000_0000 % 2 && from == ev.mask / 0x40 % 2
    requires to == ev.mask / 0x80 % 2 && create == ev.mask / 0x100 % 2
    ensures IsOn(ev, IN_ISDIR) <==> isdir == 1
    ensures IsOn(ev, IN_MOVED_FROM) <==> from == 1
    ensures IsOn(ev, IN_MOVED_TO) <==> to == 1
    ensures IsOn(ev, IN_CREATE) <==> create == 1
  {
    Weights();
    BitByWeight(ev, IN_ISDIR, 0x4000_0000, isdir);
    BitByWeight(ev, IN_MOVED_FROM, 0x40, from);
    BitByWeight(ev, IN_MOVED_TO, 0x80, to);
    BitByWeight(ev, IN_CREATE, 0x100, create);
  }

  lemma MoveOfA(third: bytes, from: Event)
    requires AreDistinct(A, third) && IsFromA(from)
    ensures StartsMove(ThreeWorld(A, third), from) && Below(ThreeWorld(A, third), from) == A
  {
    var where := ThreeWorld(A, third);
    MaskBits(from, 1, 1, 0, 0);
    assert where[2] == A && where[1] == ROOT;
    assert ROOT + [97] + [SLASH] == A;
  }

  lemma MoveToB(third: bytes, to: Event)
    requires AreDistinct(A, third) && IsToB(to)
    ensures IsOn(to, IN_ISDIR) && IsMovedTo(to) && Below(ThreeWorld(A, third), to) == B
  {
    MaskBits(to, 1, 0, 1, 0);
    assert ThreeWorld(A, third)[1] == ROOT;
    assert ROOT + [98] + [SLASH] == B;
  }

  lemma BIsOccupied()
    ensures IsWatched(ThreeWorld(A, B), B) && HasNothingBelow(ThreeWorld(A, B), B)
  {
    assert ThreeWorld(A, B)[3] == B;
    assert !(B <= ROOT) && A[1] != B[1] && !(B <= A);
  }

  /** "/a/" is renamed onto the watched, empty "/b/". */
  lemma OccupiedDestination(from: Event, to: Event, ans: InotifyAnswers)
    requires IsFromA(from) && IsToB(to)
    ensures var (s, where) := (Tracker(Three(A, B), None), ThreeWorld(A, B));
      && Settled(s, where) && MovesWithin(where, from, to)
      && !Settled(HandleAll(s, Events(Moves(from, to, ans, ans))), Renamed(where, A, B))
  {
    var (s, where) := (Tracker(Three(A, B), None), ThreeWorld(A, B));
    ThreeIsAccurate(A, B);
    MoveOfA(B, from);
    MoveToB(B, to);
    assert !(A <= where[1]);
    BIsOccupied();
    MoveIsTrackedExactlyWhen(s, where, Moves(from, to, ans, ans));
  }

  /** "/a/" is moved out of the tree while "/a/c/" below it is watched: after the next event
      "/a/c/" is still recorded. */
  lemma WatchedSubdirectoryLeaves(from: Event, ans: InotifyAnswers, next: Event)
    requires IsFromA(from) && IsPlain(next)
    ensures var (s, where) := (Tracker(Three(A, A_C), None), ThreeWorld(A, A_C));
      && Settled(s, where) && StartsMove(where, from)
      && Happens(Without(where, A), Nothing(next, ans), Without(where, A))
      && !CaughtUp(HandleAll(s, [(from, ans)] + [(next, ans)]), Nothing(next, ans), Without(where, A))
  {
    var (s, where) := (Tracker(Three(A, A_C), None), ThreeWorld(A, A_C));
    ThreeIsAccurate(A, A_C);
    MoveOfA(A_C, from);
    assert where[3] == A_C && A <= A_C;
    MoveOutIsTrackedExactlyWhen(s, where, from, ans, Nothing(next, ans), Without(where, A));
  }

  const C: bytes := [SLASH, 99, SLASH]

  lemma NothingBelowA()
    ensures HasNothingBelow(ThreeWorld(A, C), A)
    ensures 1 in Without(ThreeWorld(A, C), A) && Without(ThreeWorld(A, C), A)[1] == ROOT
  {
    assert !(A <= ROOT) && A[1] != C[1] && !(A <= C);
    assert ThreeWorld(A, C)[1] == ROOT;
  }

  /** "/a/" is moved out of the tree, and the next event is a MOVED_TO of a directory from
      elsewhere that is gone again: nothing below "/a/" is watched, and still it is not given
      up. */
  lemma UnrelatedMoveIsPaired(from: Event, to: Event, ans: InotifyAnswers)
    requires IsFromA(from) && IsToB(to) && !ans.isdir
    ensures var (s, where) := (Tracker(Three(A, C), None), ThreeWorld(A, C));
      && Settled(s, where) && StartsMove(where, from) && HasNothingBelow(where, A)
      && Happens(Without(where, A), Appears(to, ans), Without(where, A))
      && !CaughtUp(HandleAll(s, [(from, ans)] + [(to, ans)]), Appears(to, ans), Without(where, A))
  {
    var (s, where) := (Tracker(Three(A, C), None), ThreeWorld(A, C));
    ThreeIsAccurate(A, C);
    MoveOfA(C, from);
    MoveToB(C, to);
    NothingBelowA();
    MoveOutIsTrackedExactlyWhen(s, where, from, ans, Appears(to, ans), Without(where, A));
  }

  /** "/a/" is renamed to "/b/" under a filter that rejects the path "/a". */
  lemma RejectedHalf(c: Change, f: Filter, vs: seq<Verdict>)
    requires c.Moves? && IsFromA(c.from) && IsToB(c.to) && Judged(c, vs) && vs[0].text == [SLASH, 97]
    requires f.recursive && f.pattern.Some? && f.pattern.value([SLASH, 97]) && !f.invert
    ensures var (s, where) := (Tracker(Three(A, C), None), ThreeWorld(A, C));
      && Settled(s, where) && Happens(where, c, Renamed(where, A, B))
      && !Following(HandleAll(s, Delivered(f, Events(c), vs)), Renamed(where, A, B))
  {
    var (s, where) := (Tracker(Three(A, C), None), ThreeWorld(A, C));
    ThreeIsAccurate(A, C);
    FromAToB(c);
    RejectsFrom(f, vs[0]);
    FilteredChangeIsTrackedExactlyWhen(s, where, c, Renamed(where, A, B), f, vs);
  }

  lemma FromAToB(c: Change)
    requires c.Moves? && IsFromA(c.from) && IsToB(c.to)
    ensures Happens(ThreeWorld(A, C), c, Renamed(ThreeWorld(A, C), A, B))
  {
    MoveOfA(C, c.from);
    MoveToB(C, c.to);
    assert A[1] != B[1] && C[1] != B[1];
    assert ThreeWorld(A, C)[1] == ROOT && !(A <= ROOT);
  }

  lemma RejectsFrom(f: Filter, v: Verdict)
    requires IsFromA(v.event) && f.pattern.Some? && f.pattern.value(v.text) && !f.invert
    ensures !Passes(f, v)
  {
    MaskBits(v.event, 1, 1, 0, 0);
  }
}
