/** Watching a directory tree: the walk that registers directories, and which directories
    that is.  The file system answers each question of the walk once; the answers form a tree. */
module RecursiveWatch {
  import opened Bytes
  import opened Fids
  import opened WatchFiles
  import W = Watches
  import H = Handle

  const ENOENT := 2
  const EACCES := 13
  const ENOTDIR := 20
  const ELOOP := 40

  datatype Tree =
    | Unopened(errno: int)
    | NonDirectory(add: Adding)
    | Directory(entries: seq<Entry>, add: Adding)

  datatype Entry = Entry(name: bytes, stat: Stat)

  datatype Stat = StatFails(errno: int) | Leaf | Dir(child: Tree)

  type Address = seq<nat>

  /** `Unopened` is for errors other than ENOTDIR. */
  predicate IsAnswer(t: Tree) {
    match t
    case Unopened(e) => e != ENOTDIR
    case NonDirectory(add) => FromSystem(add)
    case Directory(entries, add) =>
      FromSystem(add) && forall i :: 0 <= i < |entries| && entries[i].stat.Dir? ==> IsAnswer(entries[i].stat.child)
  }

  type Answer = t: Tree | IsAnswer(t) witness Unopened(0)

  /** Inotify hands out no descriptor 0. */
  predicate FromInotify(t: Tree) {
    match t
    case Unopened(e) => true
    case NonDirectory(add) => add.wd != 0
    case Directory(entries, add) =>
      add.wd != 0 && forall i :: 0 <= i < |entries| && entries[i].stat.Dir? ==> FromInotify(entries[i].stat.child)
  }

  predicate Tolerated(errno: int) { errno == EACCES || errno == ENOENT || errno == ELOOP }

  predicate IsDots(name: bytes) { name == [DOT] || name == [DOT, DOT] }

  predicate ExcludedBy(nextFile: bytes, ex: bytes) {
    var l := if EndsWithSlash(ex) then |ex| - 1 else |ex|;
    |nextFile| == l + 1 && ex[..l] == nextFile[..l]
  }

  predicate IsExcluded(nextFile: bytes, excludes: seq<bytes>) {
    exists k :: 0 <= k < |excludes| && ExcludedBy(nextFile, excludes[k])
  }

  /** A directory is excluded by its name with or without the final slash, and by no other. */
  lemma ExcludedByName(dir: bytes, ex: bytes)
    ensures ExcludedBy(dir + [SLASH], ex) <==> ex == dir + [SLASH] || (ex == dir && !EndsWithSlash(dir))
  {
    var s := dir + [SLASH];
    assert s[..|dir|] == dir;
    if EndsWithSlash(ex) {
      assert ex == ex[..|ex| - 1] + [SLASH];
    } else {
      assert ex[..|ex|] == ex;
    }
  }

  // ---------------------------------------------------------------- what the walk can register

  /** The entry stops the walk of its directory: it cannot be examined, and not for lack of
      permission. */
  predicate Stops(e: Entry) {
    !IsDots(e.name) && e.stat.StatFails? && e.stat.errno != EACCES
  }

  /** The place of the first such entry from i on, or the number of entries. */
  function StopIndex(entries: seq<Entry>, i: nat): (k: nat)
    requires i <= |entries|
    ensures i <= k <= |entries|
    decreases |entries| - i
  {
    if i == |entries| || Stops(entries[i]) then i else StopIndex(entries, i + 1)
  }

  /** Its error. */
  function StopError(entries: seq<Entry>, i: nat): Option<int>
    requires i <= |entries|
    decreases |entries| - i
  {
    if i == |entries| then None
    else if Stops(entries[i]) then Some(entries[i].stat.errno)
    else StopError(entries, i + 1)
  }

  /** What goes wrong with a directory itself, whatever happens below it. */
  function OwnFailure(t: Tree): Option<int> {
    match t
    case Unopened(e) => Some(e)
    case NonDirectory(add) => AddError(add)
    case Directory(entries, add) => if StopError(entries, 0).Some? then StopError(entries, 0) else AddError(add)
  }

  predicate Watchable(t: Tree) { OwnFailure(t).None? }

  predicate Fatal(t: Tree) { OwnFailure(t).Some? && !Tolerated(OwnFailure(t).value) }

  function NextFile(path: bytes, e: Entry): bytes { Slashed(path) + e.name + [SLASH] }

  predicate Descends(e: Entry, path: bytes, excludes: seq<bytes>) {
    !IsDots(e.name) && e.stat.Dir? && !IsExcluded(NextFile(path, e), excludes)
  }

  predicate NoStopBefore(entries: seq<Entry>, i: nat) {
    i <= |entries| && forall j :: 0 <= j < i ==> !Stops(entries[j])
  }

  /** The address leads from the root through directories that are opened and not excluded;
      the root may be. */
  predicate Reached(t: Tree, path: bytes, excludes: seq<bytes>, a: Address)
    decreases |a|
  {
    a == [] ||
    (&& t.Directory? && a[0] < |t.entries| && NoStopBefore(t.entries, a[0])
     && Descends(t.entries[a[0]], path, excludes)
     && Reached(t.entries[a[0]].stat.child, NextFile(path, t.entries[a[0]]), excludes, a[1..]))
  }

  predicate Exists(t: Tree, a: Address)
    decreases |a|
  {
    a == [] ||
    (&& t.Directory? && a[0] < |t.entries| && t.entries[a[0]].stat.Dir?
     && Exists(t.entries[a[0]].stat.child, a[1..]))
  }

  function Sub(t: Tree, a: Address): Tree
    requires Exists(t, a)
    decreases |a|
  {
    if a == [] then t else Sub(t.entries[a[0]].stat.child, a[1..])
  }

  /** The name a directory is registered under. */
  function NameAt(t: Tree, path: bytes, a: Address): bytes
    requires Exists(t, a)
    decreases |a|
  {
    if a != [] then NameAt(t.entries[a[0]].stat.child, NextFile(path, t.entries[a[0]]), a[1..])
    else if t.NonDirectory? && !t.add.isdir then path
    else Slashed(path)
  }

  /** A directory the walk can register. */
  predicate IsTarget(t: Tree, path: bytes, excludes: seq<bytes>, a: Address) {
    Reached(t, path, excludes, a) && Exists(t, a) && Watchable(Sub(t, a))
  }

  /** A directory at which the walk must give up. */
  predicate IsFatal(t: Tree, path: bytes, excludes: seq<bytes>, a: Address) {
    Reached(t, path, excludes, a) && Exists(t, a) && Fatal(Sub(t, a))
  }

  // ---------------------------------------------------------------- what should be watched

  /** The address leads from the root through directories that are opened and not excluded,
      whatever else there is in them. */
  predicate Within(t: Tree, path: bytes, excludes: seq<bytes>, a: Address)
    decreases |a|
  {
    a == [] ||
    (&& t.Directory? && a[0] < |t.entries|
     && Descends(t.entries[a[0]], path, excludes)
     && Within(t.entries[a[0]].stat.child, NextFile(path, t.entries[a[0]]), excludes, a[1..]))
  }

  /** A directory that can be opened and watched. */
  predicate Addable(t: Tree) { !t.Unopened? && AddError(t.add).None? }

  /** A directory one would expect to be watched. */
  predicate Wanted(t: Tree, path: bytes, excludes: seq<bytes>, a: Address) {
    Within(t, path, excludes, a) && Exists(t, a) && Addable(Sub(t, a))
  }

  /** The walk gets to d, but an entry of d ends it there: d itself and what comes behind that
      entry are cut off. */
  predicate CutOff(t: Tree, path: bytes, excludes: seq<bytes>, d: Address, a: Address) {
    && Reached(t, path, excludes, d) && Exists(t, d) && Sub(t, d).Directory?
    && var stop := StopIndex(Sub(t, d).entries, 0);
       && stop < |Sub(t, d).entries|
       && (a == d || (|d| < |a| && d == a[..|d|] && stop < a[|d|]))
  }

  /** No directory one would expect to be watched is cut off. */
  ghost predicate NothingIsCutOff(t: Tree, path: bytes, excludes: seq<bytes>) {
    forall d, a :: CutOff(t, path, excludes, d, a) ==> !Wanted(t, path, excludes, a)
  }

  lemma {:induction false} StopIndexIsFirst(entries: seq<Entry>, i: nat)
    requires i <= |entries|
    ensures var k := StopIndex(entries, i);
      && (forall j :: i <= j < k ==> !Stops(entries[j]))
      && (k < |entries| ==> Stops(entries[k]))
      && (StopError(entries, i).None? <==> k == |entries|)
    decreases |entries| - i
  {
    if i < |entries| && !Stops(entries[i]) { StopIndexIsFirst(entries, i + 1); }
  }

  /** The root of a tree. */
  lemma RootIsCutOff(t: Tree, path: bytes, excludes: seq<bytes>, d: Address)
    requires Wanted(t, path, excludes, [])
    ensures CutOff(t, path, excludes, d, []) <==> d == [] && !IsTarget(t, path, excludes, [])
  {
    if t.Directory? { StopIndexIsFirst(t.entries, 0); }
  }

  /** Below an entry behind the one that ends the walk of the root, everything is cut off... */
  lemma BehindTheStop(t: Tree, path: bytes, excludes: seq<bytes>, a: Address)
    requires Wanted(t, path, excludes, a) && a != [] && StopIndex(t.entries, 0) < a[0]
    ensures CutOff(t, path, excludes, [], a) && !IsTarget(t, path, excludes, a)
  {
    StopIndexIsFirst(t.entries, 0);
    assert a[..0] == [];
  }

  /** ... and below one before it, what is cut off in its own tree. */
  lemma BeforeTheStop(t: Tree, path: bytes, excludes: seq<bytes>, i: nat, b: Address, d: Address)
    requires Wanted(t, path, excludes, [i] + b) && StopIndex(t.entries, 0) >= i
    ensures var (child, next) := (t.entries[i].stat.child, NextFile(path, t.entries[i]));
      && Wanted(child, next, excludes, b)
      && (IsTarget(t, path, excludes, [i] + b) <==> IsTarget(child, next, excludes, b))
      && (CutOff(t, path, excludes, d, [i] + b) <==> d != [] && d[0] == i && CutOff(child, next, excludes, d[1..], b))
  {
    var a := [i] + b;
    assert a[1..] == b && a[0] == i;
    StopIndexIsFirst(t.entries, 0);
    assert NoStopBefore(t.entries, i) && !Stops(t.entries[i]);
    Below(t, i, path, excludes, b);
    if d != [] && d[0] == i {
      var c := d[1..];
      assert d == [i] + c;
      Below(t, i, path, excludes, c);
      PrefixBelow(i, c, b);
    } else if d != [] && |d| <= |a| {
      assert a[..|d|][0] == i;
    }
  }

  lemma PrefixBelow(i: nat, c: Address, b: Address)
    ensures [i] + c == [i] + b <==> c == b
    ensures |c| < |b| ==> ([i] + b)[..|c| + 1] == [i] + b[..|c|] && ([i] + b)[|c| + 1] == b[|c|]
    ensures |c| < |b| ==> ([i] + c == ([i] + b)[..|c| + 1] <==> c == b[..|c|])
  {
    assert ([i] + c)[1..] == c && ([i] + b)[1..] == b;
    if |c| < |b| { assert ([i] + b[..|c|])[1..] == b[..|c|]; }
  }

  /** A directory one would expect to be watched can be registered exactly if it is not cut
      off. */
  lemma {:induction false} WantedIsATargetExactlyWhen(t: Tree, path: bytes, excludes: seq<bytes>, a: Address)
    requires Wanted(t, path, excludes, a)
    ensures IsTarget(t, path, excludes, a) <==> !exists d :: CutOff(t, path, excludes, d, a)
    decreases |a|
  {
    if a == [] {
      RootIsCutOff(t, path, excludes, []);
      forall d ensures CutOff(t, path, excludes, d, []) ==> !IsTarget(t, path, excludes, []) {
        RootIsCutOff(t, path, excludes, d);
      }
    } else if StopIndex(t.entries, 0) < a[0] {
      BehindTheStop(t, path, excludes, a);
    } else {
      var i, b := a[0], a[1..];
      var (child, next) := (t.entries[i].stat.child, NextFile(path, t.entries[i]));
      assert a == [i] + b;
      BeforeTheStop(t, path, excludes, i, b, []);
      WantedIsATargetExactlyWhen(child, next, excludes, b);
      forall d
        ensures CutOff(t, path, excludes, d, a) ==> CutOff(child, next, excludes, if d == [] then [] else d[1..], b)
      {
        BeforeTheStop(t, path, excludes, i, b, d);
      }
      forall c ensures CutOff(child, next, excludes, c, b) ==> CutOff(t, path, excludes, [i] + c, a) {
        BeforeTheStop(t, path, excludes, i, b, [i] + c);
        assert ([i] + c)[1..] == c;
      }
    }
  }

  lemma {:induction false} TargetsAreWanted(t: Tree, path: bytes, excludes: seq<bytes>, a: Address)
    requires IsTarget(t, path, excludes, a)
    ensures Wanted(t, path, excludes, a)
    decreases |a|
  {
    if a != [] {
      var i, b := a[0], a[1..];
      assert a == [i] + b;
      Below(t, i, path, excludes, b);
      TargetsAreWanted(t.entries[i].stat.child, NextFile(path, t.entries[i]), excludes, b);
    }
  }

  /** Post-order: a directory comes after everything below it, siblings in order. */
  predicate Before(a: Address, b: Address)
    decreases |a|
  {
    if b == [] then a != []
    else a != [] && (a[0] < b[0] || (a[0] == b[0] && Before(a[1..], b[1..])))
  }

  lemma {:induction false} BeforeIsALinearOrder(a: Address, b: Address)
    ensures a == b || Before(a, b) || Before(b, a)
    ensures !(Before(a, b) && (a == b || Before(b, a)))
    decreases |a|
  {
    if a != [] && b != [] && a[0] == b[0] {
      BeforeIsALinearOrder(a[1..], b[1..]);
      assert a == [a[0]] + a[1..] && b == [b[0]] + b[1..];
    }
  }

  // ---------------------------------------------------------------- what the walk does

  /** The directories registered, in order; on failure the error and where it arose. */
  datatype Outcome = Outcome(visits: seq<Address>, ok: bool, error: int, culprit: Address)

  function Under(i: nat, visits: seq<Address>): seq<Address> {
    seq(|visits|, k requires 0 <= k < |visits| => [i] + visits[k])
  }

  function Own(add: Adding): Outcome {
    if AddError(add).None? then Outcome([[]], true, 0, []) else Outcome([], false, AddError(add).value, [])
  }

  function Walk(t: Tree, path: bytes, excludes: seq<bytes>): Outcome
    decreases t, 1, 0
  {
    match t
    case Unopened(e) => Outcome([], false, e, [])
    case NonDirectory(add) => Own(add)
    case Directory(entries, add) =>
      var r := WalkEntries(t, 0, path, excludes);
      if r.ok then Own(add).(visits := r.visits + Own(add).visits) else r
  }

  /** The entries from i on. */
  function WalkEntries(t: Tree, i: nat, path: bytes, excludes: seq<bytes>): Outcome
    requires t.Directory? && i <= |t.entries|
    decreases t, 0, |t.entries| - i
  {
    if i == |t.entries| then Outcome([], true, 0, [])
    else
      var e := t.entries[i];
      if Stops(e) then Outcome([], false, e.stat.errno, [])
      else if Descends(e, path, excludes) then
        var c := Walk(e.stat.child, NextFile(path, e), excludes);
        if !c.ok && !Tolerated(c.error) then Outcome(Under(i, c.visits), false, c.error, [i] + c.culprit)
        else
          var r := WalkEntries(t, i + 1, path, excludes);
          r.(visits := Under(i, c.visits) + r.visits)
      else WalkEntries(t, i + 1, path, excludes)
  }

  // ---------------------------------------------------------------- the walk is right

  predicate InPostOrder(visits: seq<Address>) {
    forall i, j :: 0 <= i < j < |visits| ==> Before(visits[i], visits[j])
  }

  /** Up to the place of failure exactly the targets are visited, and nothing before it is
      fatal. */
  ghost predicate CoversAt(t: Tree, path: bytes, excludes: seq<bytes>, r: Outcome, a: Address) {
    && (a in r.visits <==> IsTarget(t, path, excludes, a) && (r.ok || Before(a, r.culprit)))
    && (IsFatal(t, path, excludes, a) ==> !r.ok && !Before(a, r.culprit))
  }

  ghost predicate Covers(t: Tree, path: bytes, excludes: seq<bytes>, r: Outcome) {
    InPostOrder(r.visits) && forall a :: CoversAt(t, path, excludes, r, a)
  }

  /** What was visited by the entries from one on. */
  ghost predicate CoversFrom(t: Tree, path: bytes, excludes: seq<bytes>, r: Outcome, i: nat) {
    && InPostOrder(r.visits)
    && forall a :: if a != [] && a[0] >= i then CoversAt(t, path, excludes, r, a) else a !in r.visits
  }

  /** The culprit fails with the error reported, and, unless it is the root, fatally. */
  ghost predicate Blames(t: Tree, path: bytes, excludes: seq<bytes>, r: Outcome) {
    !r.ok ==>
      && Reached(t, path, excludes, r.culprit) && Exists(t, r.culprit)
      && OwnFailure(Sub(t, r.culprit)) == Some(r.error)
      && (r.culprit == [] || !Tolerated(r.error))
  }

  /** The walk registers, in post-order, every directory that can be watched and is reached
      from the root, and fails exactly if the root or a directory reached fails fatally; it
      has then registered everything before that place. */
  lemma {:induction false} WalkIsRight(t: Tree, path: bytes, excludes: seq<bytes>)
    ensures var r := Walk(t, path, excludes);
      && Covers(t, path, excludes, r) && Blames(t, path, excludes, r)
      && (r.ok ==> Watchable(t) && r.error == 0)
    decreases t, 1, 0
  {
    if t.Directory? {
      EntriesAreRight(t, 0, path, excludes);
      var w := WalkEntries(t, 0, path, excludes);
      if w.ok {
        FirstStop(t.entries, 0, |t.entries|);
        OwnComesLast(t, path, excludes, w, Walk(t, path, excludes));
      } else {
        RootIsLast(t, path, excludes, w);
      }
    }
  }

  lemma {:induction false} FirstStop(entries: seq<Entry>, i: nat, k: nat)
    requires i <= k <= |entries| && NoStopBefore(entries, k)
    ensures StopError(entries, i) == StopError(entries, k)
    decreases k - i
  {
    if i < k { FirstStop(entries, i + 1, k); }
  }

  lemma OwnComesLast(t: Tree, path: bytes, excludes: seq<bytes>, w: Outcome, r: Outcome)
    requires t.Directory? && StopError(t.entries, 0).None?
    requires w.ok && CoversFrom(t, path, excludes, w, 0)
    requires r == Own(t.add).(visits := w.visits + Own(t.add).visits)
    ensures Covers(t, path, excludes, r) && Blames(t, path, excludes, r)
  {
    forall a ensures CoversAt(t, path, excludes, r, a) {
      if a != [] { assert CoversAt(t, path, excludes, w, a); }
    }
    forall j, k | 0 <= j < k < |r.visits| ensures Before(r.visits[j], r.visits[k]) {
      assert r.visits[j] == w.visits[j] && w.visits[j] in w.visits;
    }
  }

  lemma RootIsLast(t: Tree, path: bytes, excludes: seq<bytes>, w: Outcome)
    requires t.Directory? && !w.ok && CoversFrom(t, path, excludes, w, 0)
    requires w.culprit == [] ==> OwnFailure(t).Some?
    ensures Covers(t, path, excludes, w)
  {
    forall a ensures CoversAt(t, path, excludes, w, a) {}
  }

  lemma {:induction false} EntriesAreRight(t: Tree, i: nat, path: bytes, excludes: seq<bytes>)
    requires t.Directory? && NoStopBefore(t.entries, i)
    ensures var r := WalkEntries(t, i, path, excludes);
      && CoversFrom(t, path, excludes, r, i) && Blames(t, path, excludes, r)
      && (r.ok ==> NoStopBefore(t.entries, |t.entries|))
      && (r.culprit == [] || r.culprit[0] >= i)
    decreases t, 0, |t.entries| - i
  {
    if i < |t.entries| {
      var e, r := t.entries[i], WalkEntries(t, i, path, excludes);
      if Stops(e) {
        FirstStop(t.entries, 0, i);
      } else if Descends(e, path, excludes) {
        WalkIsRight(e.stat.child, NextFile(path, e), excludes);
        var c := Walk(e.stat.child, NextFile(path, e), excludes);
        if !c.ok && !Tolerated(c.error) {
          FatalBelow(t, i, path, excludes, c, r);
        } else {
          EntriesAreRight(t, i + 1, path, excludes);
          DoneBelow(t, i, path, excludes, c, WalkEntries(t, i + 1, path, excludes), r);
        }
      } else {
        EntriesAreRight(t, i + 1, path, excludes);
        forall a | a != [] && a[0] >= i ensures CoversAt(t, path, excludes, r, a) {
          if a[0] > i { assert CoversAt(t, path, excludes, WalkEntries(t, i + 1, path, excludes), a); }
        }
      }
    }
  }

  /** Addresses below an entry behave as in its own tree. */
  lemma Below(t: Tree, i: nat, path: bytes, excludes: seq<bytes>, b: Address)
    requires t.Directory? && i < |t.entries| && NoStopBefore(t.entries, i) && Descends(t.entries[i], path, excludes)
    ensures var (child, next) := (t.entries[i].stat.child, NextFile(path, t.entries[i]));
      && (Reached(t, path, excludes, [i] + b) <==> Reached(child, next, excludes, b))
      && (Exists(t, [i] + b) <==> Exists(child, b))
      && (Exists(child, b) ==> Sub(t, [i] + b) == Sub(child, b))
  {
    assert ([i] + b)[1..] == b;
  }

  lemma UnderHas(i: nat, visits: seq<Address>, a: Address)
    ensures a in Under(i, visits) <==> a != [] && a[0] == i && a[1..] in visits
  {
    if a in Under(i, visits) {
      var k :| 0 <= k < |visits| && Under(i, visits)[k] == a;
      assert a[1..] == visits[k];
    }
    if a != [] && a[0] == i && a[1..] in visits {
      var k :| 0 <= k < |visits| && visits[k] == a[1..];
      assert a == [i] + a[1..] && Under(i, visits)[k] == a;
    }
  }

  lemma UnderInOrder(i: nat, visits: seq<Address>)
    requires InPostOrder(visits)
    ensures InPostOrder(Under(i, visits))
  {
    var u := Under(i, visits);
    forall j, k | 0 <= j < k < |u| ensures Before(u[j], u[k]) {
      assert u[j][1..] == visits[j] && u[k][1..] == visits[k];
    }
  }

  lemma FatalBelow(t: Tree, i: nat, path: bytes, excludes: seq<bytes>, c: Outcome, r: Outcome)
    requires t.Directory? && i < |t.entries| && NoStopBefore(t.entries, i) && Descends(t.entries[i], path, excludes)
    requires var (child, next) := (t.entries[i].stat.child, NextFile(path, t.entries[i]));
      Covers(child, next, excludes, c) && Blames(child, next, excludes, c)
    requires !c.ok && !Tolerated(c.error)
    requires r == Outcome(Under(i, c.visits), false, c.error, [i] + c.culprit)
    ensures CoversFrom(t, path, excludes, r, i) && Blames(t, path, excludes, r)
  {
    var (child, next) := (t.entries[i].stat.child, NextFile(path, t.entries[i]));
    UnderInOrder(i, c.visits);
    Below(t, i, path, excludes, c.culprit);
    assert r.culprit[1..] == c.culprit;
    forall a ensures if a != [] && a[0] >= i then CoversAt(t, path, excludes, r, a) else a !in r.visits {
      UnderHas(i, c.visits, a);
      if a != [] && a[0] == i {
        assert a == [i] + a[1..];
        Below(t, i, path, excludes, a[1..]);
        assert CoversAt(child, next, excludes, c, a[1..]);
      }
    }
  }

  lemma DoneBelow(t: Tree, i: nat, path: bytes, excludes: seq<bytes>, c: Outcome, rest: Outcome, r: Outcome)
    requires t.Directory? && i < |t.entries| && NoStopBefore(t.entries, i) && Descends(t.entries[i], path, excludes)
    requires var (child, next) := (t.entries[i].stat.child, NextFile(path, t.entries[i]));
      Covers(child, next, excludes, c) && Blames(child, next, excludes, c)
    requires c.ok || Tolerated(c.error)
    requires CoversFrom(t, path, excludes, rest, i + 1) && (rest.culprit == [] || rest.culprit[0] > i)
    requires r == rest.(visits := Under(i, c.visits) + rest.visits)
    ensures CoversFrom(t, path, excludes, r, i)
  {
    var (child, next) := (t.entries[i].stat.child, NextFile(path, t.entries[i]));
    UnderInOrder(i, c.visits);
    var u := Under(i, c.visits);
    forall j, k | 0 <= j < k < |r.visits| ensures Before(r.visits[j], r.visits[k]) {
      if j < |u| <= k { assert r.visits[k] in rest.visits; }
    }
    forall a ensures if a != [] && a[0] >= i then CoversAt(t, path, excludes, r, a) else a !in r.visits {
      UnderHas(i, c.visits, a);
      if a != [] && a[0] == i {
        assert a == [i] + a[1..];
        Below(t, i, path, excludes, a[1..]);
        assert CoversAt(child, next, excludes, c, a[1..]);
      } else if a != [] && a[0] > i {
        assert CoversAt(t, path, excludes, rest, a);
      }
    }
  }

  /** The walk succeeds exactly when the root can be watched and nothing below is fatal. */
  lemma SucceedsExactlyWhen(t: Tree, path: bytes, excludes: seq<bytes>)
    ensures Walk(t, path, excludes).ok <==> Watchable(t) && forall a :: a != [] ==> !IsFatal(t, path, excludes, a)
  {
    WalkIsRight(t, path, excludes);
    var r := Walk(t, path, excludes);
    if r.ok {
      forall a | a != [] ensures !IsFatal(t, path, excludes, a) {
        assert CoversAt(t, path, excludes, r, a);
      }
    } else if r.culprit != [] {
      assert IsFatal(t, path, excludes, r.culprit);
    } else {
      assert !Watchable(t);
    }
  }

  /** No directory below the root that the walk could get to fails fatally. */
  ghost predicate NothingFatalBelow(t: Tree, path: bytes, excludes: seq<bytes>) {
    forall c :: c != [] ==> !IsFatal(t, path, excludes, c)
  }

  /** The address comes before every such directory. */
  ghost predicate PrecedesFatal(t: Tree, path: bytes, excludes: seq<bytes>, b: Address) {
    forall c :: c != [] && IsFatal(t, path, excludes, c) ==> Before(b, c)
  }

  lemma GoesThroughExactlyWhen(t: Tree, path: bytes, excludes: seq<bytes>)
    ensures var r := Walk(t, path, excludes);
      r.ok || r.culprit == [] <==> NothingFatalBelow(t, path, excludes)
  {
    WalkIsRight(t, path, excludes);
    var r := Walk(t, path, excludes);
    if r.ok || r.culprit == [] {
      forall c | c != [] ensures !IsFatal(t, path, excludes, c) { assert CoversAt(t, path, excludes, r, c); }
    } else {
      assert IsFatal(t, path, excludes, r.culprit);
    }
  }

  /** The walk registers a directory if and only if it can be registered and comes before
      every directory below the root that fails fatally. */
  lemma VisitedExactlyWhen(t: Tree, path: bytes, excludes: seq<bytes>, b: Address)
    ensures b in Walk(t, path, excludes).visits <==>
      IsTarget(t, path, excludes, b) && PrecedesFatal(t, path, excludes, b)
  {
    WalkIsRight(t, path, excludes);
    GoesThroughExactlyWhen(t, path, excludes);
    var r := Walk(t, path, excludes);
    assert CoversAt(t, path, excludes, r, b);
    if r.ok || r.culprit == [] {
      assert PrecedesFatal(t, path, excludes, b);
      if !r.ok && b == [] { assert !Watchable(t); }
    } else if Before(b, r.culprit) {
      forall c | c != [] && IsFatal(t, path, excludes, c) ensures Before(b, c) {
        assert CoversAt(t, path, excludes, r, c);
        BeforeIsALinearOrder(c, r.culprit);
        if c != r.culprit { BeforeIsTransitive(b, r.culprit, c); }
      }
    } else {
      assert IsFatal(t, path, excludes, r.culprit);
    }
  }

  /** A walk without a fatal error below the root registers exactly the directories one would
      expect to be watched if and only if none of them is cut off. */
  lemma CoversTheWantedExactlyWhen(t: Tree, path: bytes, excludes: seq<bytes>)
    requires NothingFatalBelow(t, path, excludes)
    ensures (forall a :: a in Walk(t, path, excludes).visits <==> Wanted(t, path, excludes, a))
       <==> NothingIsCutOff(t, path, excludes)
  {
    var visits := Walk(t, path, excludes).visits;
    forall a ensures a in visits <==> IsTarget(t, path, excludes, a) { VisitedExactlyWhen(t, path, excludes, a); }
    forall a ensures IsTarget(t, path, excludes, a) ==> Wanted(t, path, excludes, a) {
      if IsTarget(t, path, excludes, a) { TargetsAreWanted(t, path, excludes, a); }
    }
    if NothingIsCutOff(t, path, excludes) {
      forall a ensures Wanted(t, path, excludes, a) ==> a in visits {
        if Wanted(t, path, excludes, a) { WantedIsATargetExactlyWhen(t, path, excludes, a); }
      }
    } else {
      var d, a :| CutOff(t, path, excludes, d, a) && Wanted(t, path, excludes, a);
      WantedIsATargetExactlyWhen(t, path, excludes, a);
    }
  }

  /** A cut off directory is overtaken: one that comes after it is registered. */
  ghost predicate IsOvertaken(t: Tree, path: bytes, excludes: seq<bytes>, a: Address, b: Address) {
    && Wanted(t, path, excludes, a) && (exists d :: CutOff(t, path, excludes, d, a))
    && Before(a, b) && IsTarget(t, path, excludes, b) && PrecedesFatal(t, path, excludes, b)
  }

  /** In the list of all directories one would expect to be watched, in post-order, those
      registered come first, after a fatal error as well, if and only if none that is cut off
      comes before one that can be registered and precedes every fatal error. */
  lemma RegisteredIsAPrefix(t: Tree, path: bytes, excludes: seq<bytes>, all: seq<Address>)
    requires InPostOrder(all) && forall a :: a in all <==> Wanted(t, path, excludes, a)
    ensures Walk(t, path, excludes).visits <= all <==> !exists a, b :: IsOvertaken(t, path, excludes, a, b)
  {
    WalkIsRight(t, path, excludes);
    var r := Walk(t, path, excludes);
    forall a | a in r.visits ensures a in all {
      VisitedExactlyWhen(t, path, excludes, a);
      TargetsAreWanted(t, path, excludes, a);
    }
    if exists a, b :: IsOvertaken(t, path, excludes, a, b) {
      var a, b :| IsOvertaken(t, path, excludes, a, b);
      WantedIsATargetExactlyWhen(t, path, excludes, a);
      VisitedExactlyWhen(t, path, excludes, a);
      VisitedExactlyWhen(t, path, excludes, b);
      if r.visits <= all { EarlierInPrefix(r.visits, all, a, b); }
    } else {
      forall a, b | a in all && b in r.visits && Before(a, b) ensures a in r.visits {
        VisitedExactlyWhen(t, path, excludes, b);
        assert !IsOvertaken(t, path, excludes, a, b);
        WantedIsATargetExactlyWhen(t, path, excludes, a);
        EarlierIsVisited(t, path, excludes, a, b);
      }
      InitialSegment(r.visits, all);
    }
  }

  lemma EarlierIsVisited(t: Tree, path: bytes, excludes: seq<bytes>, a: Address, b: Address)
    requires IsTarget(t, path, excludes, a) && PrecedesFatal(t, path, excludes, b) && Before(a, b)
    ensures a in Walk(t, path, excludes).visits
  {
    forall c | c != [] && IsFatal(t, path, excludes, c) ensures Before(a, c) { BeforeIsTransitive(a, b, c); }
    VisitedExactlyWhen(t, path, excludes, a);
  }

  lemma EarlierInPrefix(x: seq<Address>, y: seq<Address>, a: Address, b: Address)
    requires InPostOrder(y) && x <= y && a in y && b in x && Before(a, b)
    ensures a in x
  {
    var j :| 0 <= j < |y| && y[j] == a;
    var k :| 0 <= k < |x| && x[k] == b;
    assert y[k] == b;
    BeforeIsALinearOrder(a, b);
    assert j < k;
    assert x[j] == a;
  }

  /** Inotify watches a directory under this descriptor. */
  function Inotify(wd: int): Adding { Adding(wd, 0, true, Encoding(None, -1, None, -1)) }

  /** A directory d with an entry that vanishes and a directory e behind it: the walk of the
      root succeeds, yet neither d nor e is registered, though both could be. */
  lemma VanishedEntryCutsOff(path: bytes)
    ensures var e := Directory([], Inotify(3));
      var d := Directory([Entry([120], StatFails(ENOENT)), Entry([101], Dir(e))], Inotify(2));
      var t := Directory([Entry([100], Dir(d))], Inotify(1));
      && FromInotify(t) && IsAnswer(t)
      && Walk(t, path, []).ok && Walk(t, path, []).error == 0 && Walk(t, path, []).visits == [[]]
      && Wanted(t, path, [], [0]) && Wanted(t, path, [], [0, 1])
      && !NothingIsCutOff(t, path, [])
  {
    var e := Directory([], Inotify(3));
    var d := Directory([Entry([120], StatFails(ENOENT)), Entry([101], Dir(e))], Inotify(2));
    var t := Directory([Entry([100], Dir(d))], Inotify(1));
    var next := NextFile(path, t.entries[0]);
    assert Walk(d, next, []) == Outcome([], false, ENOENT, []);
    assert Under(0, []) == [];
    assert WalkEntries(t, 1, path, []) == Outcome([], true, 0, []);
    assert WalkEntries(t, 0, path, []) == Outcome([], true, 0, []);
    assert [0][1..] == [] && [0, 1][1..] == [1] && [1][1..] == [];
    assert Within(d, next, [], [1]) && Within(d, next, [], []);
    assert Exists(d, [1]) && Sub(d, [1]) == e && Exists(t, [0]) && Sub(t, [0]) == d;
    assert CutOff(t, path, [], [0], [0]);
  }

  lemma {:induction false} BeforeIsTransitive(a: Address, b: Address, c: Address)
    requires Before(a, b) && Before(b, c)
    ensures Before(a, c)
    decreases |a|
  {
    if c != [] && a[0] == b[0] == c[0] {
      BeforeIsTransitive(a[1..], b[1..], c[1..]);
    }
  }

  lemma {:induction false} InitialSegment(x: seq<Address>, y: seq<Address>)
    requires InPostOrder(x) && InPostOrder(y)
    requires forall a :: a in x ==> a in y
    requires forall a, b :: a in y && b in x && Before(a, b) ==> a in x
    ensures x <= y
    decreases |x|
  {
    if x != [] {
      assert x[0] in x && x[0] in y && y[0] in y;
      BeforeIsALinearOrder(x[0], y[0]);
      assert x[0] == y[0];
      forall a | a in x[1..] ensures a in y[1..] {
        AfterTheFirst(x, a);
        assert a in y;
      }
      forall a, b | a in y[1..] && b in x[1..] && Before(a, b) ensures a in x[1..] {
        AfterTheFirst(y, a);
        assert a in x;
      }
      InitialSegment(x[1..], y[1..]);
    }
  }

  lemma AfterTheFirst(x: seq<Address>, a: Address)
    requires x != [] && InPostOrder(x) && a in x[1..]
    ensures a != x[0]
  {
    var k :| 1 <= k < |x| && x[k] == a;
    BeforeIsALinearOrder(x[0], x[k]);
  }

  // ---------------------------------------------------------------- what is registered

  datatype Registration = Registration(name: bytes, wd: int)

  function AddOf(t: Tree): int {
    if t.Unopened? then -1 else t.add.wd
  }

  /** What is registered for the directories at these addresses. */
  function Registrations(t: Tree, path: bytes, visits: seq<Address>): seq<Registration>
    requires forall a :: a in visits ==> Exists(t, a)
  {
    seq(|visits|, k requires 0 <= k < |visits| =>
      assert visits[k] in visits; Registration(NameAt(t, path, visits[k]), AddOf(Sub(t, visits[k]))))
  }

  function RegisterAll(s: W.Table, regs: seq<Registration>): W.Table
    decreases |regs|
  {
    if regs == [] then s else RegisterAll(W.CreateWatch(s, regs[0].wd, None, regs[0].name, 0).0, regs[1..])
  }

  lemma {:induction false} RegisterAllOf(s: W.Table, a: seq<Registration>, b: seq<Registration>)
    ensures RegisterAll(s, a + b) == RegisterAll(RegisterAll(s, a), b)
    decreases |a|
  {
    if a == [] {
      assert a + b == b;
    } else {
      assert (a + b)[1..] == a[1..] + b;
      RegisterAllOf(W.CreateWatch(s, a[0].wd, None, a[0].name, 0).0, a[1..], b);
    }
  }

  lemma VisitsExist(t: Tree, path: bytes, excludes: seq<bytes>)
    ensures forall a :: a in Walk(t, path, excludes).visits ==> Exists(t, a)
  {
    WalkIsRight(t, path, excludes);
    forall a | a in Walk(t, path, excludes).visits ensures Exists(t, a) {
      assert CoversAt(t, path, excludes, Walk(t, path, excludes), a);
    }
  }

  lemma RegistrationsBelow(t: Tree, i: nat, path: bytes, excludes: seq<bytes>, visits: seq<Address>)
    requires t.Directory? && i < |t.entries| && NoStopBefore(t.entries, i) && Descends(t.entries[i], path, excludes)
    requires forall a :: a in visits ==> Exists(t.entries[i].stat.child, a)
    ensures forall a :: a in Under(i, visits) ==> Exists(t, a)
    ensures Registrations(t, path, Under(i, visits))
         == Registrations(t.entries[i].stat.child, NextFile(path, t.entries[i]), visits)
  {
    var u := Under(i, visits);
    forall a | a in u ensures Exists(t, a) {
      UnderHas(i, visits, a);
      assert a == [i] + a[1..];
      Below(t, i, path, excludes, a[1..]);
    }
    forall k | 0 <= k < |u|
      ensures NameAt(t, path, u[k]) == NameAt(t.entries[i].stat.child, NextFile(path, t.entries[i]), visits[k])
      ensures Sub(t, u[k]) == Sub(t.entries[i].stat.child, visits[k])
    {
      assert visits[k] in visits && u[k] in u && u[k][1..] == visits[k];
      Below(t, i, path, excludes, visits[k]);
    }
  }

  lemma RegistrationsAdd(s: W.Table, t: Tree, path: bytes, done: seq<Address>, more: seq<Address>)
    requires forall a :: a in done || a in more ==> Exists(t, a)
    ensures forall a :: a in done + more ==> Exists(t, a)
    ensures RegisterAll(s, Registrations(t, path, done + more))
         == RegisterAll(RegisterAll(s, Registrations(t, path, done)), Registrations(t, path, more))
  {
    assert Registrations(t, path, done + more) == Registrations(t, path, done) + Registrations(t, path, more);
    RegisterAllOf(s, Registrations(t, path, done), Registrations(t, path, more));
  }

  // ---------------------------------------------------------------- the table after a walk

  /** The table after a walk, under inotify or fanotify. */
  function Watched(s: W.Table, t: Tree, path: bytes, excludes: seq<bytes>): W.Table
    requires IsAnswer(t)
    decreases t, 1, 0
  {
    match t
    case Unopened(_) => s
    case NonDirectory(add) => AddWatch(s, path, add)
    case Directory(entries, add) =>
      var s1 := WatchedFrom(s, t, 0, path, excludes);
      if WalkEntries(t, 0, path, excludes).ok then AddWatch(s1, Slashed(path), add) else s1
  }

  /** The same for the entries from i on. */
  function WatchedFrom(s: W.Table, t: Tree, i: nat, path: bytes, excludes: seq<bytes>): W.Table
    requires IsAnswer(t) && t.Directory? && i <= |t.entries|
    decreases t, 0, |t.entries| - i
  {
    if i == |t.entries| || Stops(t.entries[i]) then s
    else if Descends(t.entries[i], path, excludes) then
      var (child, next) := (t.entries[i].stat.child, NextFile(path, t.entries[i]));
      var s1 := Watched(s, child, next, excludes);
      if GivesUp(child, next, excludes) then s1 else WatchedFrom(s1, t, i + 1, path, excludes)
    else WatchedFrom(s, t, i + 1, path, excludes)
  }

  /** The walk of this tree fails in a way that ends the walk around it. */
  predicate GivesUp(t: Tree, path: bytes, excludes: seq<bytes>) {
    var r := Walk(t, path, excludes);
    !r.ok && !Tolerated(r.error)
  }

  lemma OwnIsRegistered(s: W.Table, t: Tree, path: bytes, p: bytes)
    requires !t.Unopened? && FromSystem(t.add) && t.add.wd != 0 && RegisteredName(p, t.add) == NameAt(t, path, [])
    ensures AddWatch(s, p, t.add) == RegisterAll(s, Registrations(t, path, Own(t.add).visits))
  {
    var r := Registrations(t, path, Own(t.add).visits);
    if r != [] {
      assert r[0] == Registration(NameAt(t, path, []), t.add.wd) && r[1..] == [];
    }
  }

  /** Under inotify the table after a walk has the directories visited registered one after the
      other, and nothing else. */
  lemma {:induction false} WatchedIsRegistered(s: W.Table, t: Tree, path: bytes, excludes: seq<bytes>)
    requires IsAnswer(t) && FromInotify(t)
    ensures forall a :: a in Walk(t, path, excludes).visits ==> Exists(t, a)
    ensures Watched(s, t, path, excludes) == RegisterAll(s, Registrations(t, path, Walk(t, path, excludes).visits))
    decreases t, 1, 0
  {
    VisitsExist(t, path, excludes);
    match t {
      case Unopened(_) =>
        assert Registrations(t, path, []) == [];
      case NonDirectory(add) => OwnIsRegistered(s, t, path, path);
      case Directory(entries, add) =>
        WatchedFromIsRegistered(s, t, 0, path, excludes);
        var w := WalkEntries(t, 0, path, excludes);
        if w.ok {
          OwnIsRegistered(WatchedFrom(s, t, 0, path, excludes), t, path, Slashed(path));
          RegistrationsAdd(s, t, path, w.visits, Own(add).visits);
        }
    }
  }

  ghost predicate IsRegisteredFrom(s: W.Table, t: Tree, i: nat, path: bytes, excludes: seq<bytes>)
    requires IsAnswer(t) && t.Directory? && i <= |t.entries|
  {
    var visits := WalkEntries(t, i, path, excludes).visits;
    && (forall a :: a in visits ==> Exists(t, a))
    && WatchedFrom(s, t, i, path, excludes) == RegisterAll(s, Registrations(t, path, visits))
  }

  /** What the walk below an entry registers, and what comes after it. */
  lemma EntryIsRegistered(s: W.Table, t: Tree, i: nat, path: bytes, excludes: seq<bytes>)
    requires IsAnswer(t) && t.Directory? && i < |t.entries|
    requires NoStopBefore(t.entries, i) && Descends(t.entries[i], path, excludes)
    requires var (child, next) := (t.entries[i].stat.child, NextFile(path, t.entries[i]));
      && (forall a :: a in Walk(child, next, excludes).visits ==> Exists(child, a))
      && Watched(s, child, next, excludes)
         == RegisterAll(s, Registrations(child, next, Walk(child, next, excludes).visits))
      && (!GivesUp(child, next, excludes) ==>
            IsRegisteredFrom(Watched(s, child, next, excludes), t, i + 1, path, excludes))
    ensures IsRegisteredFrom(s, t, i, path, excludes)
  {
    var (child, next) := (t.entries[i].stat.child, NextFile(path, t.entries[i]));
    var c := Walk(child, next, excludes);
    RegistrationsBelow(t, i, path, excludes, c.visits);
    if !GivesUp(child, next, excludes) {
      RegistrationsAdd(s, t, path, Under(i, c.visits), WalkEntries(t, i + 1, path, excludes).visits);
    }
  }

  lemma {:induction false} WatchedFromIsRegistered(s: W.Table, t: Tree, i: nat, path: bytes, excludes: seq<bytes>)
    requires IsAnswer(t) && FromInotify(t) && t.Directory? && NoStopBefore(t.entries, i)
    ensures IsRegisteredFrom(s, t, i, path, excludes)
    decreases t, 0, |t.entries| - i
  {
    if i == |t.entries| || Stops(t.entries[i]) {
      assert Registrations(t, path, []) == [];
    } else if Descends(t.entries[i], path, excludes) {
      var (child, next) := (t.entries[i].stat.child, NextFile(path, t.entries[i]));
      WatchedIsRegistered(s, child, next, excludes);
      if !GivesUp(child, next, excludes) {
        WatchedFromIsRegistered(Watched(s, child, next, excludes), t, i + 1, path, excludes);
      }
      EntryIsRegistered(s, t, i, path, excludes);
    } else {
      WatchedFromIsRegistered(s, t, i + 1, path, excludes);
    }
  }

  // ---------------------------------------------------------------- room for descriptors

  /** The number of watches a walk may ask for. */
  function Size(t: Tree): nat
    decreases t, 1, 0
  {
    if t.Directory? then 1 + SizeFrom(t, 0) else 1
  }

  function SizeFrom(t: Tree, i: nat): nat
    requires t.Directory? && i <= |t.entries|
    decreases t, 0, |t.entries| - i
  {
    if i == |t.entries| then 0
    else (if t.entries[i].stat.Dir? then Size(t.entries[i].stat.child) else 0) + SizeFrom(t, i + 1)
  }

  /** Every watch of our own takes up to two descriptors. */
  predicate HasRoomFor(s: W.Table, t: Tree, n: nat) { FromInotify(t) || |s.byWd| + 2 * n <= W.MAX_WD }

  // ---------------------------------------------------------------- what is found afterwards

  /** A file can be found by its name and by its descriptor or fid. */
  predicate IsFound(s: W.Table, name: bytes, add: Adding)
    requires FromSystem(add)
  {
    && name in s.byFilename
    && (add.wd > 0 ==> add.wd in s.byWd)
    && (add.wd == 0 && Encodes(add) ==> Key(FidOfFile(add)) in s.byFid)
  }

  ghost predicate Extends(s: W.Table, s': W.Table, n: nat) {
    && W.Valid(s') && NO_KEY !in s'.byFid && |s'.byWd| <= |s.byWd| + 2 * n
    && s.byWd.Keys <= s'.byWd.Keys && s.byFid.Keys <= s'.byFid.Keys && s.byFilename.Keys <= s'.byFilename.Keys
  }

  ghost predicate AllFound(s: W.Table, t: Tree, path: bytes, visits: seq<Address>)
    requires IsAnswer(t)
  {
    forall a :: a in visits ==>
      Exists(t, a) && !Sub(t, a).Unopened? && FromSystem(Sub(t, a).add) && IsFound(s, NameAt(t, path, a), Sub(t, a).add)
  }

  lemma StillFound(s: W.Table, s': W.Table, n: nat, t: Tree, path: bytes, visits: seq<Address>)
    requires IsAnswer(t) && AllFound(s, t, path, visits) && Extends(s, s', n)
    ensures AllFound(s', t, path, visits)
  {
    forall a | a in visits ensures IsFound(s', NameAt(t, path, a), Sub(t, a).add) {
      assert IsFound(s, NameAt(t, path, a), Sub(t, a).add);
    }
  }

  lemma FoundBelow(s: W.Table, t: Tree, i: nat, path: bytes, excludes: seq<bytes>, visits: seq<Address>)
    requires IsAnswer(t) && t.Directory? && i < |t.entries|
    requires NoStopBefore(t.entries, i) && Descends(t.entries[i], path, excludes)
    requires AllFound(s, t.entries[i].stat.child, NextFile(path, t.entries[i]), visits)
    ensures AllFound(s, t, path, Under(i, visits))
  {
    forall a | a in Under(i, visits)
      ensures Exists(t, a) && !Sub(t, a).Unopened? && FromSystem(Sub(t, a).add)
      ensures IsFound(s, NameAt(t, path, a), Sub(t, a).add)
    {
      UnderHas(i, visits, a);
      assert a == [i] + a[1..];
      Below(t, i, path, excludes, a[1..]);
    }
  }

  lemma OwnIsFound(s: W.Table, t: Tree, path: bytes, p: bytes)
    requires W.Valid(s) && NO_KEY !in s.byFid && HasRoomFor(s, t, 1)
    requires IsAnswer(t) && !t.Unopened? && RegisteredName(p, t.add) == NameAt(t, path, [])
    ensures Extends(s, AddWatch(s, p, t.add), 1) && AllFound(AddWatch(s, p, t.add), t, path, Own(t.add).visits)
  {
    AddedIsFound(s, p, t.add);
  }

  /** Whatever the answers, a walk keeps the table valid and loses nothing; every directory
      visited is found afterwards, under inotify by its descriptor and its name, under fanotify
      by its fid and its name. */
  lemma {:induction false} VisitsAreFound(s: W.Table, t: Tree, path: bytes, excludes: seq<bytes>)
    requires W.Valid(s) && NO_KEY !in s.byFid && IsAnswer(t) && HasRoomFor(s, t, Size(t))
    ensures Extends(s, Watched(s, t, path, excludes), Size(t))
    ensures AllFound(Watched(s, t, path, excludes), t, path, Walk(t, path, excludes).visits)
    decreases t, 1, 0
  {
    match t {
      case Unopened(_) =>
      case NonDirectory(add) => OwnIsFound(s, t, path, path);
      case Directory(entries, add) =>
        EntryVisitsAreFound(s, t, 0, path, excludes);
        var (s1, w) := (WatchedFrom(s, t, 0, path, excludes), WalkEntries(t, 0, path, excludes));
        if w.ok {
          OwnIsFound(s1, t, path, Slashed(path));
          StillFound(s1, AddWatch(s1, Slashed(path), add), 1, t, path, w.visits);
        }
    }
  }

  lemma {:induction false} EntryVisitsAreFound(s: W.Table, t: Tree, i: nat, path: bytes, excludes: seq<bytes>)
    requires W.Valid(s) && NO_KEY !in s.byFid && IsAnswer(t) && t.Directory? && NoStopBefore(t.entries, i)
    requires HasRoomFor(s, t, SizeFrom(t, i))
    ensures Extends(s, WatchedFrom(s, t, i, path, excludes), SizeFrom(t, i))
    ensures AllFound(WatchedFrom(s, t, i, path, excludes), t, path, WalkEntries(t, i, path, excludes).visits)
    decreases t, 0, |t.entries| - i
  {
    if i == |t.entries| || Stops(t.entries[i]) {
    } else if Descends(t.entries[i], path, excludes) {
      var (child, next) := (t.entries[i].stat.child, NextFile(path, t.entries[i]));
      VisitsAreFound(s, child, next, excludes);
      var (c, s1) := (Walk(child, next, excludes), Watched(s, child, next, excludes));
      FoundBelow(s1, t, i, path, excludes, c.visits);
      if !GivesUp(child, next, excludes) {
        EntryVisitsAreFound(s1, t, i + 1, path, excludes);
        StillFound(s1, WatchedFrom(s1, t, i + 1, path, excludes), SizeFrom(t, i + 1), t, path, Under(i, c.visits));
      }
    } else {
      EntryVisitsAreFound(s, t, i + 1, path, excludes);
    }
  }

  // ---------------------------------------------------------------- the walk on a handle

  /** From the entries before i the walk has got this far, and it goes on as it would have
      from the start. */
  ghost predicate GoesOn(now: W.Table, start: W.Table, t: Tree, i: nat, path: bytes, excludes: seq<bytes>) {
    && IsAnswer(t) && t.Directory? && i <= |t.entries|
    && WatchedFrom(now, t, i, path, excludes) == WatchedFrom(start, t, 0, path, excludes)
    && WalkEntries(t, i, path, excludes).ok == WalkEntries(t, 0, path, excludes).ok
    && WalkEntries(t, i, path, excludes).error == WalkEntries(t, 0, path, excludes).error
  }

  /** The walk ends here, with this error if it fails. */
  ghost predicate EndsHere(
    now: W.Table, start: W.Table, t: Tree, path: bytes, excludes: seq<bytes>, ok: bool, error: int) {
    && IsAnswer(t) && now == Watched(start, t, path, excludes)
    && ok == Walk(t, path, excludes).ok && error == Walk(t, path, excludes).error
  }

  lemma EntryStops(now: W.Table, start: W.Table, t: Tree, i: nat, path: bytes, excludes: seq<bytes>)
    requires GoesOn(now, start, t, i, path, excludes) && i < |t.entries| && Stops(t.entries[i])
    ensures EndsHere(now, start, t, path, excludes, false, t.entries[i].stat.errno)
  {
  }

  lemma EntrySkipped(now: W.Table, start: W.Table, t: Tree, i: nat, path: bytes, excludes: seq<bytes>)
    requires GoesOn(now, start, t, i, path, excludes) && i < |t.entries|
    requires !Stops(t.entries[i]) && !Descends(t.entries[i], path, excludes)
    ensures GoesOn(now, start, t, i + 1, path, excludes)
  {
  }

  lemma EntryWalked(now: W.Table, start: W.Table, t: Tree, i: nat, path: bytes, excludes: seq<bytes>)
    requires GoesOn(now, start, t, i, path, excludes) && i < |t.entries| && Descends(t.entries[i], path, excludes)
    ensures var (child, next) := (t.entries[i].stat.child, NextFile(path, t.entries[i]));
      var later := Watched(now, child, next, excludes);
      if GivesUp(child, next, excludes)
      then EndsHere(later, start, t, path, excludes, false, Walk(child, next, excludes).error)
      else GoesOn(later, start, t, i + 1, path, excludes)
  {
  }

  lemma AllWalked(now: W.Table, start: W.Table, t: Tree, path: bytes, excludes: seq<bytes>)
    requires t.Directory? && GoesOn(now, start, t, |t.entries|, path, excludes)
    ensures EndsHere(AddWatch(now, Slashed(path), t.add), start, t, path, excludes,
                     AddError(t.add).None?, if AddError(t.add).None? then 0 else AddError(t.add).value)
  {
  }

  /** Watch a directory and everything below it that is not excluded. */
  method WatchRecursively(lib: H.Inotifytools, t: Tree, path: bytes, excludes: seq<bytes>) returns (ok: bool)
    requires lib.Valid() && NO_KEY !in lib.byFid && IsAnswer(t) && HasRoomFor(lib.State(), t, Size(t))
    modifies lib
    ensures lib.Valid() && NO_KEY !in lib.byFid && |lib.byWd| <= |old(lib.byWd)| + 2 * Size(t)
    ensures lib.State() == Watched(old(lib.State()), t, path, excludes)
    ensures ok == Walk(t, path, excludes).ok && lib.error == Walk(t, path, excludes).error
    decreases t
  {
    lib.error := 0;
    match t {
      case Unopened(errno) =>
        lib.error := errno;
        return false;
      case NonDirectory(add) =>
        ok := WatchFile(lib, path, add);
        return ok;
      case Directory(entries, add) =>
        var myPath := if EndsWithSlash(path) then path else path + [SLASH];
        ghost var start := lib.State();
        for i := 0 to |entries|
          invariant lib.Valid() && NO_KEY !in lib.byFid && lib.error == 0
          invariant |lib.byWd| + 2 * SizeFrom(t, i) <= |start.byWd| + 2 * SizeFrom(t, 0)
          invariant GoesOn(lib.State(), start, t, i, path, excludes)
        {
          ghost var now := lib.State();
          if !IsDots(entries[i].name) {
            match entries[i].stat {
              case StatFails(errno) =>
                lib.error := errno;
                if errno != EACCES {
                  EntryStops(now, start, t, i, path, excludes);
                  return false;
                }
              case Leaf =>
              case Dir(child) =>
                var nextFile := myPath + entries[i].name + [SLASH];
                if !IsExcluded(nextFile, excludes) {
                  EntryWalked(now, start, t, i, path, excludes);
                  var status := WatchRecursively(lib, child, nextFile, excludes);
                  if !status && lib.error != EACCES && lib.error != ENOENT && lib.error != ELOOP {
                    return false;
                  }
                  assert GoesOn(lib.State(), start, t, i + 1, path, excludes);
                }
            }
          }
          lib.error := 0;
          if !Descends(entries[i], path, excludes) {
            EntrySkipped(now, start, t, i, path, excludes);
          }
        }
        AllWalked(lib.State(), start, t, path, excludes);
        ok := WatchFile(lib, myPath, add);
    }
  }
}
