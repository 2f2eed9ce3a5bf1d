/** Replacing a name prefix on all indexed watches, done one entry at a time, against the
    simultaneous relabelling it is meant to be. */
module PrefixReplace {
  import opened Bytes
  import opened Stats
  import opened Watches

  /** A name the replacement touches. */
  predicate IsMoved(name: bytes, oldname: bytes, newname: bytes) {
    oldname <= name && name != newname
  }

  function Target(name: bytes, oldname: bytes, newname: bytes): bytes {
    if IsMoved(name, oldname, newname) then newname + name[|oldname|..] else name
  }

  lemma TargetIsInjectiveOnMoved(j: bytes, k: bytes, oldname: bytes, newname: bytes)
    requires IsMoved(j, oldname, newname) && IsMoved(k, oldname, newname)
    requires Target(j, oldname, newname) == Target(k, oldname, newname)
    ensures j == k
  {
    var tj, tk := Target(j, oldname, newname), Target(k, oldname, newname);
    assert tj[|newname|..] == j[|oldname|..] && tk[|newname|..] == k[|oldname|..];
    assert j == j[..|oldname|] + j[|oldname|..] && k == k[..|oldname|] + k[|oldname|..];
  }

  /** Where a name is once the names in `done` have been visited. */
  function Now(name: bytes, done: set<bytes>, oldname: bytes, newname: bytes): bytes {
    if name in done then Target(name, oldname, newname) else name
  }

  // ---------------------------------------------------------------- the filename index

  /** `home` inverts an index. */
  ghost predicate Inverts(home: map<nat, bytes>, index: map<bytes, nat>) {
    forall k :: k in index ==> index[k] in home && home[index[k]] == k
  }

  /** `index` is `index0` with every visited name moved to its target. */
  ghost predicate Placed(index0: map<bytes, nat>, index: map<bytes, nat>, home: map<nat, bytes>, done: set<bytes>,
                         oldname: bytes, newname: bytes)
  {
    && (forall k :: k in index0 ==>
          var n := Now(k, done, oldname, newname); n in index && index[n] == index0[k])
    && (forall n :: n in index ==>
          && index[n] in home && home[index[n]] in index0
          && index0[home[index[n]]] == index[n]
          && n == Now(home[index[n]], done, oldname, newname))
  }

  /** Whatever bears the target's name is k itself or has already moved out of the way. */
  ghost predicate WayIsClear(index0: map<bytes, nat>, k: bytes, done: set<bytes>, oldname: bytes, newname: bytes) {
    var n := Target(k, oldname, newname);
    n in index0 && n != k ==> IsMoved(n, oldname, newname) && n in done
  }

  lemma VisitIndex(index0: map<bytes, nat>, index: map<bytes, nat>, home: map<nat, bytes>, done: set<bytes>,
                   k: bytes, oldname: bytes, newname: bytes)
    requires Inverts(home, index0) && Placed(index0, index, home, done, oldname, newname)
    requires k in index0 && k !in done && IsMoved(k, oldname, newname)
    ensures k in index && index[k] == index0[k]
    ensures var n := Target(k, oldname, newname);
      WayIsClear(index0, k, done, oldname, newname) <==> n !in index - {k}
    ensures WayIsClear(index0, k, done, oldname, newname) ==>
      Placed(index0, Relocate(index, index0[k], k, Target(k, oldname, newname)), home, done + {k}, oldname, newname)
  {
    var n := Target(k, oldname, newname);
    assert Now(k, done, oldname, newname) == k;
    if n in index && n != k {
      var h := home[index[n]];
      if h in done && IsMoved(h, oldname, newname) && n == Target(h, oldname, newname) {
        TargetIsInjectiveOnMoved(h, k, oldname, newname);
      }
    }
    if n in index0 && n != k {
      assert Now(n, done, oldname, newname) in index;
    }
    if WayIsClear(index0, k, done, oldname, newname) {
      forall j | j in index0 && j != k
        ensures Now(j, done, oldname, newname) == Now(j, done + {k}, oldname, newname) != k {
        assert index[Now(j, done, oldname, newname)] == index0[j];
        assert home[index0[j]] == j && home[index0[k]] == k;
      }
    }
  }

  // ---------------------------------------------------------------- the watches' own names

  ghost function Home(t: Table): map<nat, bytes> {
    map id | id in t.watches :: t.watches[id].filename
  }

  predicate IsIndexed(t: Table, id: nat)
    requires id in t.watches
  {
    t.watches[id].filename in t.byFilename && t.byFilename[t.watches[id].filename] == id
  }

  /** Nothing but names has changed, and names only of visited, indexed watches. */
  ghost predicate Named(t0: Table, t: Table, done: set<bytes>, oldname: bytes, newname: bytes) {
    && t == t0.(watches := t.watches, byFilename := t.byFilename)
    && t.watches.Keys == t0.watches.Keys
    && (forall id :: id in t0.watches ==>
          var name := t0.watches[id].filename;
          var now := if IsIndexed(t0, id) then Now(name, done, oldname, newname) else name;
          t.watches[id] == t0.watches[id].(filename := now))
  }

  lemma VisitNames(t0: Table, t: Table, done: set<bytes>, k: bytes, oldname: bytes, newname: bytes)
    requires Named(t0, t, done, oldname, newname)
    requires k in t0.byFilename && k !in done
    requires t0.byFilename[k] in t0.watches && t0.watches[t0.byFilename[k]].filename == k
    ensures Named(t0, RenamePrefix(t, t0.byFilename[k], oldname, newname), done + {k}, oldname, newname)
  {
    var id := t0.byFilename[k];
    assert IsIndexed(t0, id) && t.watches[id].filename == k;
    var t' := RenamePrefix(t, id, oldname, newname);
    assert t'.watches == t.watches[id := t.watches[id].(filename := Target(k, oldname, newname))];
  }

  // ---------------------------------------------------------------- the whole loop

  /** A moved name whose target is borne by a name that does not get out of the way in time:
      one that is not itself moved, or that comes later in name order. */
  predicate Collides(index: map<bytes, nat>, k: bytes, oldname: bytes, newname: bytes) {
    var n := Target(k, oldname, newname);
    IsMoved(k, oldname, newname) && n in index && n != k && !(IsMoved(n, oldname, newname) && Less(n, k))
  }

  ghost predicate NoCollision(index: map<bytes, nat>, oldname: bytes, newname: bytes) {
    forall k :: k in index ==> !Collides(index, k, oldname, newname)
  }

  /** The state of the loop with the keys of `rest` still to come. */
  ghost predicate Pending(index: map<bytes, nat>, rest: seq<bytes>, done: set<bytes>) {
    && (forall k :: k in index <==> k in done || k in rest)
    && done <= index.Keys
    && (forall i :: 0 <= i < |rest| ==> rest[i] !in done)
    && (forall k, i :: k in done && 0 <= i < |rest| ==> Less(k, rest[i]))
    && (forall i, j :: 0 <= i < j < |rest| ==> Less(rest[i], rest[j]))
  }

  lemma PendingStep(index: map<bytes, nat>, rest: seq<bytes>, done: set<bytes>)
    requires Pending(index, rest, done) && rest != []
    ensures Pending(index, rest[1..], done + {rest[0]})
  {
    LessIsIrreflexive(rest[0]);
  }

  lemma KeysArePending(index: map<bytes, nat>)
    ensures Pending(index, SortedKeys(index.Keys), {})
  {
    SortedKeysAreTheKeys(index.Keys);
    SortedKeysAscend(index.Keys);
  }

  function Ids(index: map<bytes, nat>, keys: seq<bytes>): seq<nat>
    requires forall i :: 0 <= i < |keys| ==> keys[i] in index
  {
    if keys == [] then [] else [index[keys[0]]] + Ids(index, keys[1..])
  }

  /** A name's turn comes with its way clear exactly when nothing collides with it. */
  lemma ClearInTurn(index: map<bytes, nat>, rest: seq<bytes>, done: set<bytes>, oldname: bytes, newname: bytes)
    requires Pending(index, rest, done) && rest != []
    ensures IsMoved(rest[0], oldname, newname) ==>
      (WayIsClear(index, rest[0], done, oldname, newname) <==> !Collides(index, rest[0], oldname, newname))
  {
    var k := rest[0];
    var n := Target(k, oldname, newname);
    if n in index && n != k {
      if n in done {
        assert Less(n, k);
      } else {
        var i :| 0 <= i < |rest| && rest[i] == n;
        LessIsAsymmetric(k, n);
      }
    }
  }

  ghost predicate Relabels(t0: Table, t: Table, oldname: bytes, newname: bytes) {
    && Named(t0, t, t0.byFilename.Keys, oldname, newname)
    && Placed(t0.byFilename, t.byFilename, Home(t0), t0.byFilename.Keys, oldname, newname)
  }

  lemma VisitClear(t0: Table, t: Table, done: set<bytes>, k: bytes, oldname: bytes, newname: bytes)
    requires NamesIndexed(t0) && k in t0.byFilename && k !in done
    requires Named(t0, t, done, oldname, newname)
    requires Placed(t0.byFilename, t.byFilename, Home(t0), done, oldname, newname)
    requires IsMoved(k, oldname, newname) ==> WayIsClear(t0.byFilename, k, done, oldname, newname)
    ensures var t' := RenamePrefix(t, t0.byFilename[k], oldname, newname);
      Placed(t0.byFilename, t'.byFilename, Home(t0), done + {k}, oldname, newname)
  {
    var id := t0.byFilename[k];
    assert IsIndexed(t0, id) && t.watches[id].filename == k;
    if IsMoved(k, oldname, newname) {
      VisitIndex(t0.byFilename, t.byFilename, Home(t0), done, k, oldname, newname);
    } else {
      assert forall j :: Now(j, done + {k}, oldname, newname) == Now(j, done, oldname, newname);
    }
  }

  /** The loop with the names of `rest` still to come and the others relabelled. */
  ghost predicate HalfWay(t0: Table, t: Table, rest: seq<bytes>, done: set<bytes>, oldname: bytes, newname: bytes) {
    && Named(t0, t, done, oldname, newname)
    && Placed(t0.byFilename, t.byFilename, Home(t0), done, oldname, newname)
    && Pending(t0.byFilename, rest, done)
  }

  lemma LoopStep(t0: Table, t: Table, rest: seq<bytes>, done: set<bytes>, oldname: bytes, newname: bytes)
    requires NamesIndexed(t0)
    requires HalfWay(t0, t, rest, done, oldname, newname) && rest != []
    requires !Collides(t0.byFilename, rest[0], oldname, newname)
    ensures var t' := RenamePrefix(t, t0.byFilename[rest[0]], oldname, newname);
      HalfWay(t0, t', rest[1..], done + {rest[0]}, oldname, newname)
  {
    VisitNames(t0, t, done, rest[0], oldname, newname);
    ClearInTurn(t0.byFilename, rest, done, oldname, newname);
    VisitClear(t0, t, done, rest[0], oldname, newname);
    PendingStep(t0.byFilename, rest, done);
  }

  /** Without collisions the loop completes the relabelling it has begun. */
  lemma {:induction false} LoopRelabels(
    t0: Table, t: Table, rest: seq<bytes>, done: set<bytes>, oldname: bytes, newname: bytes)
    requires NamesIndexed(t0) && NoCollision(t0.byFilename, oldname, newname)
    requires HalfWay(t0, t, rest, done, oldname, newname)
    ensures Relabels(t0, RenamePrefixes(t, Ids(t0.byFilename, rest), oldname, newname), oldname, newname)
    decreases |rest|
  {
    if rest == [] {
      assert done == t0.byFilename.Keys;
    } else {
      LoopStep(t0, t, rest, done, oldname, newname);
      var t' := RenamePrefix(t, t0.byFilename[rest[0]], oldname, newname);
      LoopRelabels(t0, t', rest[1..], done + {rest[0]}, oldname, newname);
    }
  }

  // ---------------------------------------------------------------- collisions

  lemma {:induction false} AbsentStaysAbsent(t: Table, ids: seq<nat>, id: nat, oldname: bytes, newname: bytes)
    requires id !in t.byFilename.Values && id !in ids
    ensures id !in RenamePrefixes(t, ids, oldname, newname).byFilename.Values
    decreases |ids|
  {
    if ids != [] {
      var t' := RenamePrefix(t, ids[0], oldname, newname);
      forall n | n in t'.byFilename ensures t'.byFilename[n] != id {
        if n in t.byFilename { assert t.byFilename[n] in t.byFilename.Values; }
      }
      AbsentStaysAbsent(t', ids[1..], id, oldname, newname);
    }
  }

  lemma {:induction false} IdsOf(index: map<bytes, nat>, keys: seq<bytes>, k: bytes)
    requires forall i :: 0 <= i < |keys| ==> keys[i] in index
    requires k in index && k !in keys
    requires forall j :: j in index && index[j] == index[k] ==> j == k
    ensures index[k] !in Ids(index, keys)
  {
    if keys != [] {
      assert keys[0] in keys;
      IdsOf(index, keys[1..], k);
    }
  }

  /** A collision in the turn of the first name leaves its watch without an index entry. */
  lemma CollisionUnindexes(t0: Table, t: Table, rest: seq<bytes>, done: set<bytes>, oldname: bytes, newname: bytes)
    requires NamesIndexed(t0)
    requires HalfWay(t0, t, rest, done, oldname, newname) && rest != []
    requires Collides(t0.byFilename, rest[0], oldname, newname)
    ensures t0.byFilename[rest[0]] !in RenamePrefix(t, t0.byFilename[rest[0]], oldname, newname).byFilename.Values
  {
    var k := rest[0];
    var id := t0.byFilename[k];
    assert IsIndexed(t0, id) && t.watches[id].filename == k;
    ClearInTurn(t0.byFilename, rest, done, oldname, newname);
    VisitIndex(t0.byFilename, t.byFilename, Home(t0), done, k, oldname, newname);
    var index := t.byFilename - {k};
    assert Relocate(t.byFilename, id, k, Target(k, oldname, newname)) == index;
    forall n | n in index ensures index[n] != id {
      assert n == Now(Home(t0)[t.byFilename[n]], done, oldname, newname);
      assert Now(k, done, oldname, newname) == k;
    }
  }

  lemma FirstNotLater(t0: Table, rest: seq<bytes>, done: set<bytes>)
    requires NamesIndexed(t0) && Pending(t0.byFilename, rest, done) && rest != []
    ensures t0.byFilename[rest[0]] !in Ids(t0.byFilename, rest[1..])
  {
    var k, index := rest[0], t0.byFilename;
    LessIsIrreflexive(k);
    forall j | j in index && index[j] == index[k] ensures j == k {
      assert t0.watches[index[j]].filename == j && t0.watches[index[k]].filename == k;
    }
    IdsOf(index, rest[1..], k);
  }

  lemma FirstCollisionLosesTrack(
    t0: Table, t: Table, rest: seq<bytes>, done: set<bytes>, oldname: bytes, newname: bytes)
    requires NamesIndexed(t0)
    requires HalfWay(t0, t, rest, done, oldname, newname) && rest != []
    requires Collides(t0.byFilename, rest[0], oldname, newname)
    ensures t0.byFilename[rest[0]] !in RenamePrefixes(t, Ids(t0.byFilename, rest), oldname, newname).byFilename.Values
  {
    var id := t0.byFilename[rest[0]];
    var t' := RenamePrefix(t, id, oldname, newname);
    CollisionUnindexes(t0, t, rest, done, oldname, newname);
    FirstNotLater(t0, rest, done);
    AbsentStaysAbsent(t', Ids(t0.byFilename, rest[1..]), id, oldname, newname);
  }

  lemma UnindexedIsNotRelabelled(t0: Table, t: Table, k: bytes, oldname: bytes, newname: bytes)
    requires k in t0.byFilename && t0.byFilename[k] !in t.byFilename.Values
    ensures !Relabels(t0, t, oldname, newname)
  {
    var n := Now(k, t0.byFilename.Keys, oldname, newname);
    if n in t.byFilename { assert t.byFilename[n] in t.byFilename.Values; }
  }

  lemma {:induction false} LoopLosesTrack(
    t0: Table, t: Table, rest: seq<bytes>, done: set<bytes>, k: bytes, oldname: bytes, newname: bytes)
    requires NamesIndexed(t0)
    requires HalfWay(t0, t, rest, done, oldname, newname)
    requires k in rest && Collides(t0.byFilename, k, oldname, newname)
    ensures !Relabels(t0, RenamePrefixes(t, Ids(t0.byFilename, rest), oldname, newname), oldname, newname)
    decreases |rest|
  {
    if Collides(t0.byFilename, rest[0], oldname, newname) {
      FirstCollisionLosesTrack(t0, t, rest, done, oldname, newname);
      var end := RenamePrefixes(t, Ids(t0.byFilename, rest), oldname, newname);
      UnindexedIsNotRelabelled(t0, end, rest[0], oldname, newname);
    } else {
      LoopStep(t0, t, rest, done, oldname, newname);
      var t' := RenamePrefix(t, t0.byFilename[rest[0]], oldname, newname);
      LoopLosesTrack(t0, t', rest[1..], done + {rest[0]}, k, oldname, newname);
    }
  }

  // ---------------------------------------------------------------- the theorems

  lemma {:induction false} IdsAreEntries(index: map<bytes, nat>, keys: seq<bytes>)
    requires forall i :: 0 <= i < |keys| ==> keys[i] in index
    ensures |Ids(index, keys)| == |keys|
    ensures forall i :: 0 <= i < |keys| ==> Ids(index, keys)[i] == index[keys[i]]
  {
    if keys != [] { IdsAreEntries(index, keys[1..]); }
  }

  lemma EntriesAreIds(index: map<bytes, nat>)
    ensures forall i :: 0 <= i < |SortedKeys(index.Keys)| ==> SortedKeys(index.Keys)[i] in index
    ensures Entries(index) == Ids(index, SortedKeys(index.Keys))
  {
    var keys := SortedKeys(index.Keys);
    SortedKeysAreTheKeys(index.Keys);
    forall i | 0 <= i < |keys| ensures keys[i] in index { assert keys[i] in keys; }
    IdsAreEntries(index, keys);
    assert Entries(index) == Ids(index, keys);
  }

  lemma NothingDone(t: Table, oldname: bytes, newname: bytes)
    requires NamesIndexed(t)
    ensures Named(t, t, {}, oldname, newname)
    ensures Placed(t.byFilename, t.byFilename, Home(t), {}, oldname, newname)
  {
  }

  lemma LoopStarts(t: Table, oldname: bytes, newname: bytes)
    requires NamesIndexed(t)
    ensures HalfWay(t, t, SortedKeys(t.byFilename.Keys), {}, oldname, newname)
    ensures Entries(t.byFilename) == Ids(t.byFilename, SortedKeys(t.byFilename.Keys))
  {
    KeysArePending(t.byFilename);
    EntriesAreIds(t.byFilename);
    NothingDone(t, oldname, newname);
  }

  /** Done one entry at a time, the replacement is the simultaneous relabelling of all moved
      names exactly when no name collides. */
  lemma ReplaceIsSimultaneous(t: Table, oldname: bytes, newname: bytes)
    requires Valid(t) && oldname != [] && newname != []
    ensures Relabels(t, ReplaceFilename(t, oldname, newname), oldname, newname)
       <==> NoCollision(t.byFilename, oldname, newname)
  {
    var keys := SortedKeys(t.byFilename.Keys);
    LoopStarts(t, oldname, newname);
    if NoCollision(t.byFilename, oldname, newname) {
      LoopRelabels(t, t, keys, {}, oldname, newname);
    } else {
      var k :| k in t.byFilename && Collides(t.byFilename, k, oldname, newname);
      SortedKeysAreTheKeys(t.byFilename.Keys);
      LoopLosesTrack(t, t, keys, {}, k, oldname, newname);
    }
  }

  /** The common case: nothing is recorded under the new prefix yet.  Every recorded name
      with the old prefix gets the new one, every id, descriptor and fid stays. */
  lemma ReplaceMovesEveryName(t: Table, oldname: bytes, newname: bytes)
    requires Valid(t) && oldname != [] && newname != []
    requires forall k :: k in t.byFilename ==> !(newname <= k)
    ensures var t' := ReplaceFilename(t, oldname, newname);
      && t' == t.(watches := t'.watches, byFilename := t'.byFilename)
      && (forall k :: k in t.byFilename ==>
            var n := if oldname <= k then newname + k[|oldname|..] else k;
            n in t'.byFilename && t'.byFilename[n] == t.byFilename[k])
      && |t'.byFilename| == |t.byFilename|
      && t'.watches.Keys == t.watches.Keys
      && (forall id :: id in t.watches ==> t'.watches[id].wd == t.watches[id].wd)
  {
    var t' := ReplaceFilename(t, oldname, newname);
    forall k | k in t.byFilename ensures !Collides(t.byFilename, k, oldname, newname) {
      assert newname <= newname + k[if oldname <= k then |oldname| else 0..];
    }
    ReplaceIsSimultaneous(t, oldname, newname);
    RelabelKeepsSize(t, t', oldname, newname);
  }

  function ValuesAt(index: map<bytes, nat>, keys: set<bytes>): set<nat>
    requires keys <= index.Keys
  {
    set k | k in keys :: index[k]
  }

  lemma {:induction false} OneToOneSize(index: map<bytes, nat>, keys: set<bytes>)
    requires keys <= index.Keys
    requires forall j, k :: j in keys && k in keys && index[j] == index[k] ==> j == k
    ensures |keys| == |ValuesAt(index, keys)|
  {
    if keys != {} {
      var k :| k in keys;
      OneToOneSize(index, keys - {k});
      assert ValuesAt(index, keys) == ValuesAt(index, keys - {k}) + {index[k]};
    }
  }

  lemma RelabelKeepsSize(t: Table, t': Table, oldname: bytes, newname: bytes)
    requires NamesIndexed(t) && Relabels(t, t', oldname, newname)
    ensures |t'.byFilename| == |t.byFilename|
  {
    var done := t.byFilename.Keys;
    forall j, k | j in t.byFilename && k in t.byFilename && t.byFilename[j] == t.byFilename[k] ensures j == k {
      assert Home(t)[t.byFilename[j]] == j;
    }
    OneToOneSize(t.byFilename, t.byFilename.Keys);
    OneToOneSize(t'.byFilename, t'.byFilename.Keys);
    assert ValuesAt(t.byFilename, t.byFilename.Keys) == ValuesAt(t'.byFilename, t'.byFilename.Keys) by {
      forall k | k in t.byFilename ensures t.byFilename[k] in ValuesAt(t'.byFilename, t'.byFilename.Keys) {
        assert t'.byFilename[Now(k, done, oldname, newname)] == t.byFilename[k];
      }
      forall n | n in t'.byFilename ensures t'.byFilename[n] in ValuesAt(t.byFilename, t.byFilename.Keys) {
        assert t.byFilename[Home(t)[t'.byFilename[n]]] == t'.byFilename[n];
      }
    }
  }

  lemma ThereAndBack(k: bytes, oldname: bytes, newname: bytes)
    requires !(oldname <= newname) && !(newname <= oldname) && !(newname <= k)
    ensures var n := Target(k, oldname, newname);
      Target(n, newname, oldname) == k && !(oldname <= n)
  {
    var n := Target(k, oldname, newname);
    if oldname <= k {
      assert n[..|newname|] == newname && n[|newname|..] == k[|oldname|..];
      assert oldname + k[|oldname|..] == k;
      assert n != oldname;
    }
  }

  /** Moving a prefix and moving it back restores the whole table. */
  lemma ReplaceUndoesItself(t: Table, oldname: bytes, newname: bytes)
    requires Valid(t) && oldname != [] && newname != []
    requires !(oldname <= newname) && !(newname <= oldname)
    requires forall k :: k in t.byFilename ==> !(newname <= k)
    ensures ReplaceFilename(ReplaceFilename(t, oldname, newname), newname, oldname) == t
  {
    var t1 := ReplaceFilename(t, oldname, newname);
    var t2 := ReplaceFilename(t1, newname, oldname);
    forall k | k in t.byFilename ensures !Collides(t.byFilename, k, oldname, newname) {
      assert newname <= newname + k[if oldname <= k then |oldname| else 0..];
    }
    ReplaceIsSimultaneous(t, oldname, newname);
    RenamePrefixesKeepsValid(t, Entries(t.byFilename), oldname, newname);
    forall n | n in t1.byFilename ensures !(oldname <= n) {
      ThereAndBack(Home(t)[t1.byFilename[n]], oldname, newname);
    }
    forall n | n in t1.byFilename ensures !Collides(t1.byFilename, n, newname, oldname) {
      assert oldname <= oldname + n[if newname <= n then |newname| else 0..];
    }
    ReplaceIsSimultaneous(t1, newname, oldname);
    forall k | k in t.byFilename
      ensures Target(Target(k, oldname, newname), newname, oldname) == k
    {
      ThereAndBack(k, oldname, newname);
    }
    IndexRestored(t, t1, t2, oldname, newname);
    NamesRestored(t, t1, t2, oldname, newname);
  }

  lemma IndexRestored(t: Table, t1: Table, t2: Table, oldname: bytes, newname: bytes)
    requires NamesIndexed(t) && NamesIndexed(t1)
    requires Relabels(t, t1, oldname, newname) && Relabels(t1, t2, newname, oldname)
    requires forall k :: k in t.byFilename ==> Target(Target(k, oldname, newname), newname, oldname) == k
    ensures t2.byFilename == t.byFilename
  {
    forall k | k in t.byFilename ensures k in t2.byFilename && t2.byFilename[k] == t.byFilename[k] {
      var n := Now(k, t.byFilename.Keys, oldname, newname);
      assert n in t1.byFilename && Now(n, t1.byFilename.Keys, newname, oldname) == k;
    }
    forall k | k in t2.byFilename ensures k in t.byFilename {
      var n := Home(t1)[t2.byFilename[k]];
      assert n in t1.byFilename && k == Now(n, t1.byFilename.Keys, newname, oldname);
      var j := Home(t)[t1.byFilename[n]];
      assert j in t.byFilename && n == Now(j, t.byFilename.Keys, oldname, newname);
    }
  }

  lemma NamesRestored(t: Table, t1: Table, t2: Table, oldname: bytes, newname: bytes)
    requires NamesIndexed(t) && NamesIndexed(t1)
    requires Relabels(t, t1, oldname, newname) && Relabels(t1, t2, newname, oldname)
    requires forall k :: k in t.byFilename ==> Target(Target(k, oldname, newname), newname, oldname) == k
    ensures t2.watches == t.watches
  {
    forall id | id in t.watches ensures t2.watches[id] == t.watches[id] {
      var name := t.watches[id].filename;
      if IsIndexed(t, id) {
        var n := Now(name, t.byFilename.Keys, oldname, newname);
        assert n in t1.byFilename && t1.byFilename[n] == id && t1.watches[id].filename == n;
      } else if IsIndexed(t1, id) {
        var j := Home(t)[id];
        assert t1.byFilename[name] == id;
        assert t.byFilename[j] == id;
      }
    }
  }

  /** Replacing "a" by "b" when both are recorded: "a" cannot take its new name. */
  function Colliding(): Table {
    Table(map[1 := Watch(None, [97], 1, 0, ZERO), 2 := Watch(None, [98], 2, 0, ZERO)],
          3, 0, map[1 := 1, 2 := 2], map[], map[[97] := 1, [98] := 2], ZERO, false, true, false)
  }

  lemma CollidingIsValid()
    ensures Valid(Colliding())
  {
  }

  lemma CollidingNamesAreLost()
    ensures Valid(Colliding()) && !Relabels(Colliding(), ReplaceFilename(Colliding(), [97], [98]), [97], [98])
  {
    var index := Colliding().byFilename;
    CollidingIsValid();
    assert Target([97], [97], [98]) == [98] && !([97] <= [98]);
    assert Collides(index, [97], [97], [98]);
    ReplaceIsSimultaneous(Colliding(), [97], [98]);
  }
}
