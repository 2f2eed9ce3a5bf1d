/** The paths the move tracker works with, under fanotify as under inotify. */
module TrackedPaths {
  import opened Bytes
  import opened EventBits
  import opened EventReader
  import opened MoveTracking
  import Filtering
  import W = Watches
  import R = RecursiveWatch

  /** The watch of a descriptor is named s, or the path found for its fid now is s. */
  predicate IsNamed(t: W.Table, wd: int, s: bytes, resolve: bytes -> Option<bytes>) {
    Filtering.IsNamed(t, wd, s, true, resolve)
  }

  /** The bits of IN_ISDIR, IN_CREATE, IN_MOVED_FROM and IN_MOVED_TO. */
  predicate HasBits(ev: Event, isdir: bool, create: bool, from: bool, to: bool) {
    && (30 in BitsOf(ev.mask) <==> isdir) && (8 in BitsOf(ev.mask) <==> create)
    && (6 in BitsOf(ev.mask) <==> from) && (7 in BitsOf(ev.mask) <==> to)
  }

  /** The path of the directory an event is about: under fanotify the watch has it, under inotify
      the name of the event comes behind that of the watch. */
  function PathOf(t: W.Table, s: bytes, ev: Event): bytes {
    if t.fanotify then s + [47] else s + ev.name + [47]
  }

  lemma PathIs(t: W.Table, ev: Event, s: bytes, resolve: bytes -> Option<bytes>)
    requires IsNamed(t, ev.wd, s, resolve) && s != []
    ensures Dirpath(t, ev, resolve) == if 30 in BitsOf(ev.mask) then Some(PathOf(t, s, ev)) else None
  {
    if t.fanotify { assert s + [] == s; }
  }

  /** A new directory, created or moved in while no move is pending, is watched with everything
      below it; anything else that appears changes nothing. */
  lemma NewDirectoryIsWatched(s: Tracker, ev: Event, ans: Answers, dir: bytes, isdir: bool, create: bool)
    requires W.NamesIndexed(s.table) && s.movedFrom.None?
    requires IsNamed(s.table, ev.wd, dir, ans.resolve) && dir != [] && HasBits(ev, isdir, create, false, !create)
    ensures HandleEvent(s, ev, true, ans) ==
      if isdir && ans.isdir then s.(table := R.Watched(s.table, ans.tree, PathOf(s.table, dir, ev), [])) else s
  {
    PathIs(s.table, ev, dir, ans.resolve);
  }

  /** The name is recorded for a watch. */
  predicate IsRecorded(t: W.Table, name: bytes) {
    name in t.byFilename && t.byFilename[name] in t.watches && t.watches[t.byFilename[name]].wd > 0
  }

  /** A directory that moves away is noted if it is recorded; otherwise nothing is. */
  lemma MoveAwayIsNoted(s: Tracker, ev: Event, ans: Answers, dir: bytes)
    requires W.NamesIndexed(s.table) && s.movedFrom.None?
    requires IsNamed(s.table, ev.wd, dir, ans.resolve) && dir != [] && HasBits(ev, true, false, true, false)
    ensures IsRecorded(s.table, PathOf(s.table, dir, ev)) ==>
      HandleEvent(s, ev, true, ans) == Tracker(s.table, Some(PathOf(s.table, dir, ev)))
    ensures PathOf(s.table, dir, ev) !in s.table.byFilename ==> HandleEvent(s, ev, true, ans) == s
  {
    PathIs(s.table, ev, dir, ans.resolve);
  }

  /** The two events of a move of a recorded directory replace its path by the new one, and
      nothing stays pending. */
  lemma MoveReplacesThePath(s: Tracker, from: Event, fromAns: Answers, p: bytes, to: Event, toAns: Answers, q: bytes)
    requires W.NamesIndexed(s.table) && s.movedFrom.None?
    requires IsNamed(s.table, from.wd, p, fromAns.resolve) && p != [] && HasBits(from, true, false, true, false)
    requires IsNamed(s.table, to.wd, q, toAns.resolve) && q != [] && HasBits(to, true, false, false, true)
    requires IsRecorded(s.table, PathOf(s.table, p, from))
    ensures W.NamesIndexed(HandleEvent(s, from, true, fromAns).table)
    ensures HandleEvent(HandleEvent(s, from, true, fromAns), to, true, toAns)
         == Tracker(W.ReplaceFilename(s.table, PathOf(s.table, p, from), PathOf(s.table, q, to)), None)
  {
    MoveAwayIsNoted(s, from, fromAns, p);
    PathIs(s.table, to, q, toAns.resolve);
  }

  /** A MOVED_TO that is no directory ends a pending move and replaces nothing. */
  lemma NoDirectoryEndsTheMove(s: Tracker, to: Event, ans: Answers, q: bytes)
    requires W.NamesIndexed(s.table) && s.movedFrom.Some?
    requires IsNamed(s.table, to.wd, q, ans.resolve) && q != [] && HasBits(to, false, false, false, true)
    ensures HandleEvent(s, to, true, ans) == Tracker(s.table, None)
  {
    PathIs(s.table, to, q, ans.resolve);
  }

  /** A pending move that is not continued gives up the directory: under inotify it is dropped if
      the kernel agrees, under fanotify its watch stays. */
  lemma MoveIsGivenUp(s: Tracker, ev: Event, ans: Answers)
    requires W.NamesIndexed(s.table) && s.movedFrom.Some? && HasBits(ev, 30 in BitsOf(ev.mask), false, false, false)
    ensures var s1 := HandleEvent(s, ev, true, ans);
      && s1.movedFrom.None?
      && s1.table ==
           if s.movedFrom.value in s.table.byFilename
              && s.table.watches[s.table.byFilename[s.movedFrom.value]].fid.None? && ans.removal >= 0
           then W.DestroyWatch(s.table, s.table.byFilename[s.movedFrom.value]) else s.table
  {
  }

  /** Without -r nothing is followed: with no move pending no event ever changes anything. */
  lemma NothingIsFollowed(s: Tracker, ev: Event, ans: Answers)
    requires W.NamesIndexed(s.table) && s.movedFrom.None?
    ensures HandleEvent(s, ev, false, ans) == s
  {
  }

  /** An event on an unknown descriptor changes nothing while no move is pending. */
  lemma UnknownDescriptor(s: Tracker, ev: Event, ans: Answers)
    requires W.Valid(s.table) && s.movedFrom.None? && (ev.wd == 0 || ev.wd !in s.table.byWd)
    requires [] !in s.table.byFilename
    ensures HandleEvent(s, ev, true, ans) == s
  {
  }

  /** fanotify: "b" is created in "/a/" and watched as "/a/b/", whatever the event says. */
  lemma CreatedUnderFanotify(s: Tracker, ev: Event, ans: Answers)
    requires W.NamesIndexed(s.table) && s.movedFrom.None? && s.table.fanotify && ans.isdir && ev.name == [98]
    requires IsNamed(s.table, ev.wd, [47, 97, 47, 98], ans.resolve) && HasBits(ev, true, true, false, false)
    ensures HandleEvent(s, ev, true, ans) == s.(table := R.Watched(s.table, ans.tree, [47, 97, 47, 98, 47], []))
  {
    NewDirectoryIsWatched(s, ev, ans, [47, 97, 47, 98], true, true);
    assert [47, 97, 47, 98] + [47] == [47, 97, 47, 98, 47];
  }
}
