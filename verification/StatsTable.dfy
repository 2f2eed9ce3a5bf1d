/** The statistics table of inotifywatch: which rows and columns it shows, in which order. */
module StatsTable {
  import opened Bytes
  import opened Stats
  import opened Watches
  import opened Runs
  import opened Conservation

  // ---------------------------------------------------------------- the order of rows

  /** Which event a sort key names, and whether it asks for ascending order; 0 and -1 both
      mean the total. */
  function SortKey(key: int): (int, bool) {
    if key == -1 then (0, false)
    else if key == -0x8000_0000 then (key, false)
    else if key < 0 then (-key, false)
    else (key, true)
  }

  function Value(s: WatchStats, event: int): u32 {
    match Get(s, event)
    case Some(v) => v
    case None => 0
  }

  /** Row a comes before row b: by value in the chosen direction, ties by descriptor. */
  predicate Before(a: Watch, b: Watch, key: int) {
    var (event, ascending) := SortKey(key);
    var (x, y) := (Value(a.stats, event), Value(b.stats, event));
    if x == y then a.wd < b.wd else if ascending then x < y else y < x
  }

  lemma BeforeIsTransitive(a: Watch, b: Watch, c: Watch, key: int)
    ensures Before(a, b, key) && Before(b, c, key) ==> Before(a, c, key)
    ensures !(Before(a, b, key) && Before(b, a, key))
    ensures a.wd != b.wd ==> Before(a, b, key) || Before(b, a, key)
  {
  }

  ghost predicate Ranked(watches: map<nat, Watch>, rows: seq<nat>, key: int) {
    && (forall id :: id in rows ==> id in watches)
    && (forall i, j :: 0 <= i < j < |rows| ==> Before(watches[rows[i]], watches[rows[j]], key))
  }

  /** All watches of the descriptor index, each once, in strict order. */
  ghost predicate IsRanking(t: Table, rows: seq<nat>, key: int) {
    && Ranked(t.watches, rows, key)
    && (forall id :: id in rows <==> id in t.byWd.Values)
  }

  /** Put one more row where it belongs. */
  function Place(watches: map<nat, Watch>, rows: seq<nat>, id: nat, key: int): seq<nat>
    requires id in watches && forall i :: i in rows ==> i in watches
  {
    if rows == [] then [id]
    else if Before(watches[id], watches[rows[0]], key) then [id] + rows
    else [rows[0]] + Place(watches, rows[1..], id, key)
  }

  lemma {:induction false} PlaceKeepsRanked(watches: map<nat, Watch>, rows: seq<nat>, id: nat, key: int)
    requires id in watches && Ranked(watches, rows, key)
    requires forall i :: i in rows ==> watches[i].wd != watches[id].wd
    ensures var r := Place(watches, rows, id, key);
      Ranked(watches, r, key) && forall i :: i in r <==> i == id || i in rows
  {
    if rows != [] {
      var w := watches[id];
      forall i | 0 <= i < |rows| ensures Before(w, watches[rows[0]], key) ==> Before(w, watches[rows[i]], key) {
        BeforeIsTransitive(w, watches[rows[0]], watches[rows[i]], key);
      }
      BeforeIsTransitive(w, watches[rows[0]], w, key);
      if !Before(w, watches[rows[0]], key) {
        PlaceKeepsRanked(watches, rows[1..], id, key);
        var r := Place(watches, rows[1..], id, key);
        forall j | 0 <= j < |r| ensures Before(watches[rows[0]], watches[r[j]], key) {
          assert r[j] in r;
        }
      }
    }
  }

  /** Sort the watches of the descriptor index. */
  method WatchesSortedByEvent(t: Table, key: int) returns (rows: seq<nat>)
    requires Valid(t)
    ensures IsRanking(t, rows, key)
  {
    rows := [];
    var ids := t.byWd.Values;
    while ids != {}
      invariant ids <= t.byWd.Values
      invariant Ranked(t.watches, rows, key)
      invariant forall id :: id in rows <==> id in t.byWd.Values && id !in ids
    {
      var id :| id in ids;
      IndexedWdsDiffer(t, id);
      PlaceKeepsRanked(t.watches, rows, id, key);
      rows := Place(t.watches, rows, id, key);
      ids := ids - {id};
    }
  }

  lemma IndexedWdsDiffer(t: Table, id: nat)
    requires Valid(t) && id in t.byWd.Values
    ensures id in t.watches
    ensures forall i :: i in t.byWd.Values && i != id ==> i in t.watches && t.watches[i].wd != t.watches[id].wd
  {
    var wd := SomeKey(t.byWd, id);
    forall i | i in t.byWd.Values && i != id ensures i in t.watches && t.watches[i].wd != t.watches[id].wd {
      var d := SomeKey(t.byWd, i);
    }
  }

  /** The order leaves no choice: there is only one ranking. */
  lemma {:induction false} RankingIsUnique(watches: map<nat, Watch>, a: seq<nat>, b: seq<nat>, key: int)
    requires Ranked(watches, a, key) && Ranked(watches, b, key)
    requires forall id :: id in a <==> id in b
    ensures a == b
  {
    FirstIsMember(b);
    if a != [] {
      assert a[0] in a && a[0] in b && b != [];
      assert b[0] in b && b[0] in a;
      var i :| 0 <= i < |b| && b[i] == a[0];
      var j :| 0 <= j < |a| && a[j] == b[0];
      if a[0] != b[0] {
        BeforeIsTransitive(watches[a[0]], watches[b[0]], watches[a[0]], key);
        assert false;
      }
      NoRepeats(watches, a, key);
      NoRepeats(watches, b, key);
      RankingIsUnique(watches, a[1..], b[1..], key);
    }
  }

  lemma FirstIsMember(a: seq<nat>)
    ensures a != [] ==> a[0] in a
  {
  }

  lemma NoRepeats(watches: map<nat, Watch>, a: seq<nat>, key: int)
    requires Ranked(watches, a, key) && a != []
    ensures Ranked(watches, a[1..], key)
    ensures forall id :: id in a[1..] <==> id in a && id != a[0]
  {
    BeforeIsTransitive(watches[a[0]], watches[a[0]], watches[a[0]], key);
  }

  // ---------------------------------------------------------------- what is shown

  const COLUMNS: seq<Counter> := [
    Access, Modify, Attrib, CloseWrite, CloseNowrite, Counter.Open, MovedFrom, MovedTo, MoveSelf,
    Counter.Create, Delete, DeleteSelf, Unmount]

  function Position(c: Counter): nat {
    match c
    case Access => 0
    case Modify => 1
    case Attrib => 2
    case CloseWrite => 3
    case CloseNowrite => 4
    case Open => 5
    case MovedFrom => 6
    case MovedTo => 7
    case MoveSelf => 8
    case Create => 9
    case Delete => 10
    case DeleteSelf => 11
    case Unmount => 12
    case Total => 13
  }

  /** Every event kind has its column. */
  lemma ColumnsAreComplete(c: Counter)
    requires c != Total
    ensures Position(c) < |COLUMNS| && COLUMNS[Position(c)] == c
  {
  }

  lemma ColumnsAreDistinct(i: nat)
    requires i < |COLUMNS|
    ensures COLUMNS[i] != Total && Position(COLUMNS[i]) == i
  {
  }

  /** A total as the API returns it: -1 while no statistics are collected. */
  function StatTotal(t: Table, c: Counter): int {
    if t.collecting then Count(t.totals, c) as int else -1
  }

  predicate IsShown(t: Table, c: Counter, events: Word, zero: bool)
    requires c != Total
  {
    Bit(c) in events && (zero || StatTotal(t, c) != 0)
  }

  datatype Row = Row(id: nat, total: u32, values: seq<u32>, name: bytes)

  datatype Report = NoEvents | Report(columns: seq<Counter>, rows: seq<Row>)

  /** The listened-for columns that are not all zero, in table order. */
  method ShownColumns(t: Table, events: Word, zero: bool) returns (shown: seq<Counter>)
    ensures forall c :: c in shown <==> c != Total && IsShown(t, c, events, zero)
    ensures forall i, j :: 0 <= i < j < |shown| ==> Position(shown[i]) < Position(shown[j])
  {
    shown := [];
    for i := 0 to |COLUMNS|
      invariant forall c :: c in shown <==> c != Total && Position(c) < i && IsShown(t, c, events, zero)
      invariant forall k, j :: 0 <= k < j < |shown| ==> Position(shown[k]) < Position(shown[j])
    {
      ColumnsAreDistinct(i);
      forall c | c != Total && Position(c) == i ensures c == COLUMNS[i] { ColumnsAreComplete(c); }
      if IsShown(t, COLUMNS[i], events, zero) {
        shown := shown + [COLUMNS[i]];
      }
    }
    forall c | c != Total ensures Position(c) < |COLUMNS| { ColumnsAreComplete(c); }
  }

  function MakeRow(id: nat, s: WatchStats, shown: seq<Counter>, name: bytes): Row {
    Row(id, s.total, seq(|shown|, j requires 0 <= j < |shown| => Count(s, shown[j])), name)
  }

  predicate IsRowOf(t: Table, row: Row, shown: seq<Counter>, filesystem: bool, resolve: bytes -> Option<bytes>) {
    && row.id in t.watches
    && row == MakeRow(row.id, t.watches[row.id].stats, shown, FilenameFromWatch(t, row.id, filesystem, resolve))
  }

  function RowIds(rows: seq<Row>): seq<nat> {
    seq(|rows|, i requires 0 <= i < |rows| => rows[i].id)
  }

  /** The rows that survive: without `zero` those whose total is not 0. */
  function Kept(watches: map<nat, Watch>, rows: seq<nat>, zero: bool): seq<nat>
    requires forall id :: id in rows ==> id in watches
  {
    if rows == [] then []
    else
      var init, id := rows[..|rows| - 1], rows[|rows| - 1];
      Kept(watches, init, zero) + if zero || watches[id].stats.total != 0 then [id] else []
  }

  lemma KeptGrows(watches: map<nat, Watch>, rows: seq<nat>, i: nat, zero: bool)
    requires i < |rows| && forall id :: id in rows ==> id in watches
    ensures Kept(watches, rows[..i + 1], zero)
         == Kept(watches, rows[..i], zero) + if zero || watches[rows[i]].stats.total != 0 then [rows[i]] else []
  {
    assert rows[..i + 1][..i] == rows[..i];
  }

  lemma {:induction false} KeptIsRanked(watches: map<nat, Watch>, rows: seq<nat>, zero: bool, key: int)
    requires Ranked(watches, rows, key)
    ensures Ranked(watches, Kept(watches, rows, zero), key)
    ensures forall id :: id in Kept(watches, rows, zero) <==> id in rows && (zero || watches[id].stats.total != 0)
  {
    if rows != [] {
      var init, last := rows[..|rows| - 1], rows[|rows| - 1];
      KeptIsRanked(watches, init, zero, key);
      var kept := Kept(watches, init, zero);
      forall i | 0 <= i < |kept| ensures Before(watches[kept[i]], watches[last], key) {
        assert kept[i] in kept && kept[i] in init;
        var j :| 0 <= j < |init| && init[j] == kept[i];
        assert rows[j] == init[j];
      }
    }
  }

  /** The rows of the ranking that are not all zero, with the values of the shown columns and
      the name of the watch. */
  method ShownRows(t: Table, ranking: seq<nat>, shown: seq<Counter>, zero: bool, filesystem: bool,
                   resolve: bytes -> Option<bytes>) returns (rows: seq<Row>)
    requires forall id :: id in ranking ==> id in t.watches
    ensures forall k :: 0 <= k < |rows| ==> IsRowOf(t, rows[k], shown, filesystem, resolve)
    ensures RowIds(rows) == Kept(t.watches, ranking, zero)
  {
    rows := [];
    for i := 0 to |ranking|
      invariant forall k :: 0 <= k < |rows| ==> IsRowOf(t, rows[k], shown, filesystem, resolve)
      invariant RowIds(rows) == Kept(t.watches, ranking[..i], zero)
    {
      var s := t.watches[ranking[i]].stats;
      KeptGrows(t.watches, ranking, i, zero);
      if zero || s.total != 0 {
        rows := rows + [MakeRow(ranking[i], s, shown, FilenameFromWatch(t, ranking[i], filesystem, resolve))];
      }
    }
    assert ranking[..|ranking|] == ranking;
  }

  method PrintInfo(t: Table, events: Word, key: int, zero: bool, filesystem: bool, resolve: bytes -> Option<bytes>)
    returns (r: Report)
    requires Valid(t)
    ensures r.NoEvents? <==> t.collecting && t.totals.total == 0
    ensures r.Report? ==>
      && (forall c :: c in r.columns <==>
            c != Total && Bit(c) in events && (zero || !t.collecting || Count(t.totals, c) != 0))
      && (forall i, j :: 0 <= i < j < |r.columns| ==> Position(r.columns[i]) < Position(r.columns[j]))
      && (forall i :: 0 <= i < |r.rows| ==>
            var row := r.rows[i];
            && row.id in t.watches
            && row.total == Count(t.watches[row.id].stats, Total)
            && row.name == FilenameFromWatch(t, row.id, filesystem, resolve)
            && |row.values| == |r.columns|
            && (forall j :: 0 <= j < |r.columns| ==> row.values[j] == Count(t.watches[row.id].stats, r.columns[j])))
      && (forall id :: id in RowIds(r.rows) <==>
            id in t.byWd.Values && id in t.watches && (zero || Count(t.watches[id].stats, Total) != 0))
      && Ranked(t.watches, RowIds(r.rows), key)
  {
    if StatTotal(t, Total) == 0 {
      return NoEvents;
    }
    var shown := ShownColumns(t, events, zero);
    var ranking := WatchesSortedByEvent(t, key);
    var rows := ShownRows(t, ranking, shown, zero, filesystem, resolve);
    KeptIsRanked(t.watches, ranking, zero, key);
    r := Report(shown, rows);
  }

  // ---------------------------------------------------------------- only zeros are hidden

  /** While fewer than 2^32 events were recorded, everything the table leaves out is zero:
      the whole table, a listened-for column, or a row. */
  lemma OnlyZerosAreHidden(ops: seq<Op>, events: Word, wd: int, c: Counter)
    requires Run(EMPTY, ops).Continues? && Length(LogOf(EMPTY, ops, Start)) < WRAP
    requires var t := Run(EMPTY, ops).table; wd in t.byWd && t.byWd[wd] in t.watches
    ensures var t := Run(EMPTY, ops).table;
      var s := t.watches[t.byWd[wd]].stats;
      && (StatTotal(t, Total) == 0 ==> Count(s, c) == 0)
      && (c != Total && Bit(c) in events && !IsShown(t, c, events, false) ==> Count(s, c) == 0)
      && (Count(s, Total) == 0 ==> Count(s, c) == 0)
  {
    var t := Run(EMPTY, ops).table;
    CountersStayBelowTotals(ops, wd, c);
    TotalsStayBelowGrandTotal(ops, c);
  }
}
