/** Which event each counter counts, which counter a number selects, and which way a sort key
    points, in the numbers of inotify(7). */
module Counters {
  import opened Bytes
  import opened Stats
  import EventNames
  import W = Watches
  import T = StatsTable

  function More(n: u32): u32 { (n + 1) % 0x1_0000_0000 }

  lemma FirstCounters(s: WatchStats)
    ensures Record(s, {0}) == s.(access := More(s.access), total := More(s.total))
    ensures Record(s, {1}) == s.(modified := More(s.modified), total := More(s.total))
    ensures Record(s, {2}) == s.(attrib := More(s.attrib), total := More(s.total))
    ensures Record(s, {3}) == s.(closeWrite := More(s.closeWrite), total := More(s.total))
    ensures Record(s, {4}) == s.(closeNowrite := More(s.closeNowrite), total := More(s.total))
    ensures Record(s, {5}) == s.(open := More(s.open), total := More(s.total))
    ensures Record(s, {6}) == s.(movedFrom := More(s.movedFrom), total := More(s.total))
  {
  }

  lemma LastCounters(s: WatchStats)
    ensures Record(s, {7}) == s.(movedTo := More(s.movedTo), total := More(s.total))
    ensures Record(s, {8}) == s.(create := More(s.create), total := More(s.total))
    ensures Record(s, {9}) == s.(delete := More(s.delete), total := More(s.total))
    ensures Record(s, {10}) == s.(deleteSelf := More(s.deleteSelf), total := More(s.total))
    ensures Record(s, {11}) == s.(moveSelf := More(s.moveSelf), total := More(s.total))
    ensures Record(s, {13}) == s.(unmount := More(s.unmount), total := More(s.total))
  {
  }

  /** What an event with a single bit set does to the counters. */
  lemma EachEventHasItsCounter(s: WatchStats)
    ensures Record(s, BitsOf(0x1)) == s.(access := More(s.access), total := More(s.total))
    ensures Record(s, BitsOf(0x2)) == s.(modified := More(s.modified), total := More(s.total))
    ensures Record(s, BitsOf(0x4)) == s.(attrib := More(s.attrib), total := More(s.total))
    ensures Record(s, BitsOf(0x8)) == s.(closeWrite := More(s.closeWrite), total := More(s.total))
    ensures Record(s, BitsOf(0x10)) == s.(closeNowrite := More(s.closeNowrite), total := More(s.total))
    ensures Record(s, BitsOf(0x20)) == s.(open := More(s.open), total := More(s.total))
    ensures Record(s, BitsOf(0x40)) == s.(movedFrom := More(s.movedFrom), total := More(s.total))
    ensures Record(s, BitsOf(0x80)) == s.(movedTo := More(s.movedTo), total := More(s.total))
    ensures Record(s, BitsOf(0x100)) == s.(create := More(s.create), total := More(s.total))
    ensures Record(s, BitsOf(0x200)) == s.(delete := More(s.delete), total := More(s.total))
    ensures Record(s, BitsOf(0x400)) == s.(deleteSelf := More(s.deleteSelf), total := More(s.total))
    ensures Record(s, BitsOf(0x800)) == s.(moveSelf := More(s.moveSelf), total := More(s.total))
    ensures Record(s, BitsOf(0x2000)) == s.(unmount := More(s.unmount), total := More(s.total))
  {
    EventNames.SingleBits();
    FirstCounters(s);
    LastCounters(s);
  }

  /** Which counter a number selects: those of the events, 0 the total, and no other any. */
  lemma EachNumberSelectsItsCounter(s: WatchStats, event: int)
    ensures event == 0x1 ==> Get(s, event) == Some(s.access)
    ensures event == 0x2 ==> Get(s, event) == Some(s.modified)
    ensures event == 0x4 ==> Get(s, event) == Some(s.attrib)
    ensures event == 0x8 ==> Get(s, event) == Some(s.closeWrite)
    ensures event == 0x10 ==> Get(s, event) == Some(s.closeNowrite)
    ensures event == 0x20 ==> Get(s, event) == Some(s.open)
    ensures event == 0x40 ==> Get(s, event) == Some(s.movedFrom)
    ensures event == 0x80 ==> Get(s, event) == Some(s.movedTo)
    ensures event == 0x100 ==> Get(s, event) == Some(s.create)
    ensures event == 0x200 ==> Get(s, event) == Some(s.delete)
    ensures event == 0x400 ==> Get(s, event) == Some(s.deleteSelf)
    ensures event == 0x800 ==> Get(s, event) == Some(s.moveSelf)
    ensures event == 0x2000 ==> Get(s, event) == Some(s.unmount)
    ensures event == 0 ==> Get(s, event) == Some(s.total)
    ensures Get(s, event).Some? ==>
      event in {0, 0x1, 0x2, 0x4, 0x8, 0x10, 0x20, 0x40, 0x80, 0x100, 0x200, 0x400, 0x800, 0x2000}
  {
  }

  /** The value rows are sorted by: that of the counter selected, or 0. */
  function ValueOf(s: WatchStats, event: int): int {
    match Get(s, event)
    case Some(n) => n
    case None => 0
  }

  /** A positive key sorts upwards by its event, 0 upwards and -1 downwards by the total, any other
      negative key downwards by the event of its absolute value, and the smallest integer by
      nothing; equal values are sorted by descriptor. */
  lemma KeysPointTheirWay(a: W.Watch, b: W.Watch, key: int)
    requires -0x8000_0000 <= key < 0x8000_0000
    ensures var v := (w: W.Watch) => ValueOf(w.stats, if key == -1 then 0 else if key < 0 then -key else key);
      && (v(a) == v(b) ==> (T.Before(a, b, key) <==> a.wd < b.wd))
      && (v(a) != v(b) && key >= 0 ==> (T.Before(a, b, key) <==> v(a) < v(b)))
      && (v(a) != v(b) && key < 0 ==> (T.Before(a, b, key) <==> v(a) > v(b)))
    ensures key == -0x8000_0000 ==> (T.Before(a, b, key) <==> a.wd < b.wd)
  {
  }

  /** The columns in their order, by the numbers of their events. */
  lemma ColumnsAreInOrder()
    ensures |T.COLUMNS| == 13
    ensures T.COLUMNS[0] == Access && T.COLUMNS[1] == Modify && T.COLUMNS[2] == Attrib
    ensures T.COLUMNS[3] == CloseWrite && T.COLUMNS[4] == CloseNowrite && T.COLUMNS[5] == Counter.Open
    ensures T.COLUMNS[6] == MovedFrom && T.COLUMNS[7] == MovedTo && T.COLUMNS[8] == MoveSelf
    ensures T.COLUMNS[9] == Counter.Create && T.COLUMNS[10] == Delete && T.COLUMNS[11] == DeleteSelf
    ensures T.COLUMNS[12] == Unmount
  {
  }
}
