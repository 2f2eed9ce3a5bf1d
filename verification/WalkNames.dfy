/** The names a walk works with: which entry an exclude list hits, and under which name a
    directory is registered. */
module WalkNames {
  import opened Bytes
  import opened WatchFiles
  import opened RecursiveWatch
  import W = Watches

  /** The path ends in exactly its own slash. */
  function Root(path: bytes): bytes {
    if path != [] && path[|path| - 1] == 47 then path else path + [47]
  }

  /** The name of an entry, as the file system knows it. */
  predicate IsEntryName(name: bytes) { name != [] && 47 !in name }

  /** An entry is descended into if and only if it is a directory other than "." and "..", and
      neither its path nor its path with a slash is in the exclude list. */
  lemma DescendsExactlyWhen(path: bytes, e: Entry, excludes: seq<bytes>)
    requires IsEntryName(e.name)
    ensures Descends(e, path, excludes) <==>
      && e.stat.Dir? && e.name != [46] && e.name != [46, 46]
      && Root(path) + e.name !in excludes && Root(path) + e.name + [47] !in excludes
  {
    var dir := Root(path) + e.name;
    assert dir[|dir| - 1] == e.name[|e.name| - 1] && dir[|dir| - 1] in e.name;
    forall k | 0 <= k < |excludes|
      ensures ExcludedBy(dir + [47], excludes[k]) <==> excludes[k] == dir || excludes[k] == dir + [47]
    {
      ExcludedByName(dir, excludes[k]);
    }
    if IsExcluded(dir + [47], excludes) {
      var k :| 0 <= k < |excludes| && ExcludedBy(dir + [47], excludes[k]);
      assert excludes[k] in excludes;
    }
    if i :| 0 <= i < |excludes| && (excludes[i] == dir || excludes[i] == dir + [47]) {
      assert ExcludedBy(dir + [47], excludes[i]);
    }
  }

  /** The names of the entries on the way to an address. */
  function NamesTo(t: Tree, a: Address): seq<bytes>
    requires Exists(t, a)
    decreases |a|
  {
    if a == [] then [] else [t.entries[a[0]].name] + NamesTo(t.entries[a[0]].stat.child, a[1..])
  }

  /** A path followed by names, each with a slash behind it. */
  function PathOf(p: bytes, names: seq<bytes>): bytes
    decreases |names|
  {
    if names == [] then p else PathOf(p + names[0] + [47], names[1..])
  }

  /** The name a directory is registered under: that of the root with its slash, followed by every
      name on the way and a slash; only a root that is no directory keeps its name as it is. */
  lemma {:induction false} RegisteredUnder(t: Tree, path: bytes, a: Address)
    requires Exists(t, a)
    ensures NameAt(t, path, a) ==
      if a == [] && t.NonDirectory? && !t.add.isdir then path else PathOf(Root(path), NamesTo(t, a))
    decreases |a|
  {
    if a != [] {
      var (child, next) := (t.entries[a[0]].stat.child, Root(path) + t.entries[a[0]].name + [47]);
      RegisteredUnder(child, next, a[1..]);
      assert next[|next| - 1] == 47 && Root(next) == next;
    }
  }

  /** What a walk under inotify registers: for every directory visited, in order, its path and the
      descriptor the kernel gave for it. */
  lemma RegistrationsAre(t: Tree, path: bytes, excludes: seq<bytes>, k: nat)
    requires k < |Walk(t, path, excludes).visits|
    ensures var (visits, a) := (Walk(t, path, excludes).visits, Walk(t, path, excludes).visits[k]);
      && Exists(t, a) && (forall b :: b in visits ==> Exists(t, b))
      && var r := Registrations(t, path, visits)[k];
         && (r.name == if a == [] && t.NonDirectory? && !t.add.isdir then path else PathOf(Root(path), NamesTo(t, a)))
         && !Sub(t, a).Unopened? && r.wd == Sub(t, a).add.wd
  {
    VisitsExist(t, path, excludes);
    var a := Walk(t, path, excludes).visits[k];
    assert a in Walk(t, path, excludes).visits;
    RegisteredUnder(t, path, a);
    VisitedExactlyWhen(t, path, excludes, a);
  }

  /** Which errors end a walk: that of an entry that cannot be examined, except EACCES, ends the
      walk of its directory; that of a directory ends everything, except EACCES, ENOENT and
      ELOOP below the root. */
  lemma ErrorsThatEndAWalk(e: Entry, errno: int)
    ensures Stops(e) <==> e.stat.StatFails? && e.stat.errno != 13 && e.name != [46] && e.name != [46, 46]
    ensures Fatal(Unopened(errno)) <==> errno !in {2, 13, 40}
  {
  }

  lemma EmptyDirectory(wd: int, path: bytes, excludes: seq<bytes>)
    requires wd > 0
    ensures Walk(Directory([], Inotify(wd)), path, excludes) == Outcome([[]], true, 0, [])
  {
    var t := Directory([], Inotify(wd));
    assert WalkEntries(t, 0, path, excludes) == Outcome([], true, 0, []);
    assert [] + Own(t.add).visits == Own(t.add).visits;
  }

  lemma OneDirectory(t: Tree, path: bytes, excludes: seq<bytes>)
    requires t == Directory([Entry([98], Dir(Directory([], Inotify(2))))], Inotify(1))
    ensures Walk(t, path, excludes).visits == if Descends(t.entries[0], path, excludes) then [[0], []] else [[]]
  {
    var e := t.entries[0];
    EmptyDirectory(2, NextFile(path, e), excludes);
    var c := Walk(e.stat.child, NextFile(path, e), excludes);
    var here: Address := [];
    assert [0] + here == [0];
    assert c.visits == [here] && Under(0, c.visits) == [[0]];
    assert WalkEntries(t, 1, path, excludes) == Outcome([], true, 0, []);
    var r := WalkEntries(t, 0, path, excludes);
    assert r.visits == if Descends(e, path, excludes) then [[0]] + [] else [];
  }

  /** The root "/t/" with a directory "b", with and without "/t/b" in the exclude list. */
  lemma ExcludedChild(t: Tree, path: bytes)
    requires t == Directory([Entry([98], Dir(Directory([], Inotify(2))))], Inotify(1)) && path == [47, 116, 47]
    ensures Walk(t, path, [[47, 116, 47, 98]]).visits == [[]] && Walk(t, path, []).visits == [[0], []]
    ensures Exists(t, [0]) && NameAt(t, path, [0]) == [47, 116, 47, 98, 47]
  {
    var e := t.entries[0];
    OneDirectory(t, path, []);
    OneDirectory(t, path, [[47, 116, 47, 98]]);
    DescendsExactlyWhen(path, e, []);
    DescendsExactlyWhen(path, e, [[47, 116, 47, 98]]);
    assert Root(path) + e.name == [47, 116, 47, 98];
    assert [0][1..] == [];
    RegisteredUnder(t, path, [0]);
    assert NamesTo(t, [0]) == [[98]] + NamesTo(e.stat.child, []);
    assert NamesTo(t, [0])[1..] == [];
  }
}
