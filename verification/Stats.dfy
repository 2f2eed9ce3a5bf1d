/** Per-watch (or total) event counters: thirteen event kinds and a total, each
    an unsigned 32-bit counter that wraps. */
module Stats {
  import opened Bytes
  import opened EventBits

  datatype Counter =
    | Access | Modify | Attrib | CloseWrite | CloseNowrite | Open | MovedFrom | MovedTo
    | Create | Delete | DeleteSelf | Unmount | MoveSelf | Total

  datatype WatchStats = WatchStats(
    access: u32, modified: u32, attrib: u32, closeWrite: u32, closeNowrite: u32, open: u32,
    movedFrom: u32, movedTo: u32, create: u32, delete: u32, deleteSelf: u32, unmount: u32,
    moveSelf: u32, total: u32)

  const WRAP := 0x1_0000_0000

  const ZERO := WatchStats(0, 0, 0, 0, 0, 0, 0, 0, 0, 0, 0, 0, 0, 0)

  function Count(s: WatchStats, c: Counter): u32 {
    match c
    case Access => s.access
    case Modify => s.modified
    case Attrib => s.attrib
    case CloseWrite => s.closeWrite
    case CloseNowrite => s.closeNowrite
    case Open => s.open
    case MovedFrom => s.movedFrom
    case MovedTo => s.movedTo
    case Create => s.create
    case Delete => s.delete
    case DeleteSelf => s.deleteSelf
    case Unmount => s.unmount
    case MoveSelf => s.moveSelf
    case Total => s.total
  }

  /** The event bit a counter listens for. */
  function Bit(c: Counter): nat
    requires c != Total
  {
    match c
    case Access => IN_ACCESS
    case Modify => IN_MODIFY
    case Attrib => IN_ATTRIB
    case CloseWrite => IN_CLOSE_WRITE
    case CloseNowrite => IN_CLOSE_NOWRITE
    case Open => IN_OPEN
    case MovedFrom => IN_MOVED_FROM
    case MovedTo => IN_MOVED_TO
    case Create => IN_CREATE
    case Delete => IN_DELETE
    case DeleteSelf => IN_DELETE_SELF
    case Unmount => IN_UNMOUNT
    case MoveSelf => IN_MOVE_SELF
  }

  predicate Hits(mask: Word, c: Counter) {
    c == Total || Bit(c) in mask
  }

  /** The counters an event moves. */
  function HitBy(mask: Word): set<Counter> {
    set c: Counter | Hits(mask, c)
  }

  function Weight(hits: set<Counter>, c: Counter): nat {
    if c in hits then 1 else 0
  }

  /** The counter a single event constant selects (0 selects the total); None for
      anything else, combined masks included. */
  function Selected(event: int): Option<Counter> {
    if event == 0x1 then Some(Access)
    else if event == 0x2 then Some(Modify)
    else if event == 0x4 then Some(Attrib)
    else if event == 0x8 then Some(CloseWrite)
    else if event == 0x10 then Some(CloseNowrite)
    else if event == 0x20 then Some(Open)
    else if event == 0x40 then Some(MovedFrom)
    else if event == 0x80 then Some(MovedTo)
    else if event == 0x100 then Some(Create)
    else if event == 0x200 then Some(Delete)
    else if event == 0x400 then Some(DeleteSelf)
    else if event == 0x2000 then Some(Unmount)
    else if event == 0x800 then Some(MoveSelf)
    else if event == 0 then Some(Total)
    else None
  }

  function Get(s: WatchStats, event: int): Option<u32> {
    match Selected(event)
    case Some(c) => Some(Count(s, c))
    case None => None
  }

  function Inc(n: u32): u32 { (n + 1) % WRAP }

  function Bump(n: u32, hit: bool): u32 {
    if hit then Inc(n) else n
  }

  function Record(s: WatchStats, mask: Word): WatchStats {
    WatchStats(
      Bump(s.access, IN_ACCESS in mask),
      Bump(s.modified, IN_MODIFY in mask),
      Bump(s.attrib, IN_ATTRIB in mask),
      Bump(s.closeWrite, IN_CLOSE_WRITE in mask),
      Bump(s.closeNowrite, IN_CLOSE_NOWRITE in mask),
      Bump(s.open, IN_OPEN in mask),
      Bump(s.movedFrom, IN_MOVED_FROM in mask),
      Bump(s.movedTo, IN_MOVED_TO in mask),
      Bump(s.create, IN_CREATE in mask),
      Bump(s.delete, IN_DELETE in mask),
      Bump(s.deleteSelf, IN_DELETE_SELF in mask),
      Bump(s.unmount, IN_UNMOUNT in mask),
      Bump(s.moveSelf, IN_MOVE_SELF in mask),
      Inc(s.total))
  }

  lemma HitByMeansHits(mask: Word, c: Counter)
    ensures c in HitBy(mask) <==> Hits(mask, c)
  {
  }

  lemma BumpCounts(n: u32, hit: bool)
    ensures Bump(n, hit) == (n + if hit then 1 else 0) % WRAP
  {
  }

  lemma RecordBumps(s: WatchStats, mask: Word, c: Counter)
    ensures Count(Record(s, mask), c) == Bump(Count(s, c), Hits(mask, c))
  {
    match c {
      case Access =>
      case Modify =>
      case Attrib =>
      case CloseWrite =>
      case CloseNowrite =>
      case Open =>
      case MovedFrom =>
      case MovedTo =>
      case Create =>
      case Delete =>
      case DeleteSelf =>
      case Unmount =>
      case MoveSelf =>
      case Total =>
    }
  }

  /** Recording moves exactly the counters the mask names, and always the total. */
  lemma RecordCounts(s: WatchStats, mask: Word, c: Counter)
    ensures Count(Record(s, mask), c) == (Count(s, c) + Weight(HitBy(mask), c)) % WRAP
  {
    RecordBumps(s, mask, c);
    HitByMeansHits(mask, c);
    BumpCounts(Count(s, c), Hits(mask, c));
  }
}
