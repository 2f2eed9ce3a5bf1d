/** Statistics over whole runs: what was recorded since the last reset is exactly what the
    counters show. */
module Conservation {
  import opened Bytes
  import opened Stats
  import opened Fids
  import opened Watches
  import opened Runs

  /** The events recorded since the last reset: the watch each was charged to and the
      counters it moved. */
  datatype Log = Start | Then(earlier: Log, id: nat, hits: set<Counter>)

  function Length(log: Log): nat {
    if log.Start? then 0 else Length(log.earlier) + 1
  }

  /** How many events of a kind were charged to a watch, and to any watch. */
  function Charged(log: Log, id: nat, c: Counter): nat {
    match log
    case Start => 0
    case Then(earlier, i, hits) => Charged(earlier, id, c) + if i == id then Weight(hits, c) else 0
  }

  function Recorded(log: Log, c: Counter): nat {
    match log
    case Start => 0
    case Then(earlier, _, hits) => Recorded(earlier, c) + Weight(hits, c)
  }

  predicate Mentions(log: Log, id: nat) {
    log.Then? && (log.id == id || Mentions(log.earlier, id))
  }

  /** Every event was charged to an id below n. */
  predicate Below(log: Log, n: nat) {
    log.Then? ==> log.id < n && Below(log.earlier, n)
  }

  /** What an operation adds to the log; a reset empties it. */
  function LogAfter(t: Table, op: Op, log: Log): Log {
    match op
    case RecordOne(wd, mask) => if t.collecting && wd in t.byWd then Then(log, t.byWd[wd], HitBy(mask)) else log
    case ResetStats => Start
    case _ => log
  }

  ghost function LogOf(t: Table, ops: seq<Op>, log: Log): Log
    decreases |ops|
  {
    if ops == [] then log
    else
      var r := Step(t, ops[0]);
      if r.Continues? then LogOf(r.table, ops[1..], LogAfter(t, ops[0], log)) else log
  }

  /** The counters of every watch in the descriptor index, and the totals, are the counts
      of the log modulo 2^32. */
  ghost predicate Balanced(t: Table, log: Log) {
    && Below(log, t.nextId)
    && (forall wd, c :: wd in t.byWd && t.byWd[wd] in t.watches ==>
          Count(t.watches[t.byWd[wd]].stats, c) == Charged(log, t.byWd[wd], c) % WRAP)
    && (forall c :: Count(t.totals, c) == Recorded(log, c) % WRAP)
    && (!t.collecting ==> forall wd :: wd in t.byWd ==> !Mentions(log, t.byWd[wd]))
  }

  lemma {:induction false} UnmentionedIsUncharged(log: Log, id: nat, c: Counter)
    requires !Mentions(log, id)
    ensures Charged(log, id, c) == 0
  {
    if log.Then? { UnmentionedIsUncharged(log.earlier, id, c); }
  }

  lemma {:induction false} BelowIsUnmentioned(log: Log, n: nat, id: nat)
    requires Below(log, n)
    ensures id >= n ==> !Mentions(log, id)
    ensures forall m: nat :: m >= n ==> Below(log, m)
  {
    if log.Then? { BelowIsUnmentioned(log.earlier, n, id); }
  }

  /** Operations that touch neither counters nor the log: the descriptor index may lose
      entries, gain fresh watches with zeroed counters, or be cleared. */
  ghost predicate KeepsCounters(t: Table, t': Table) {
    && t'.totals == t.totals
    && t'.nextId >= t.nextId
    && (t'.collecting == t.collecting || t'.byWd == map[])
    && (forall wd :: wd in t'.byWd && t'.byWd[wd] in t'.watches ==>
          var id := t'.byWd[wd];
          || (wd in t.byWd && t.byWd[wd] == id && id in t.watches && t'.watches[id].stats == t.watches[id].stats)
          || (id >= t.nextId && t'.watches[id].stats == ZERO))
  }

  lemma KeepsBalance(t: Table, t': Table, log: Log)
    requires Balanced(t, log) && KeepsCounters(t, t') && WdsIndexed(t')
    ensures Balanced(t', log)
  {
    BelowIsUnmentioned(log, t.nextId, t.nextId);
    forall wd | wd in t'.byWd && !t'.collecting ensures !Mentions(log, t'.byWd[wd]) {
      BelowIsUnmentioned(log, t.nextId, t'.byWd[wd]);
    }
    forall wd, c | wd in t'.byWd && t'.byWd[wd] in t'.watches
      ensures Count(t'.watches[t'.byWd[wd]].stats, c) == Charged(log, t'.byWd[wd], c) % WRAP
    {
      var id := t'.byWd[wd];
      BelowIsUnmentioned(log, t.nextId, id);
      if id >= t.nextId {
        UnmentionedIsUncharged(log, id, c);
        ZeroCounts(c);
      }
    }
  }

  lemma ZeroCounts(c: Counter)
    ensures Count(ZERO, c) == 0
  {
  }

  lemma ModStep(n: nat, w: nat)
    ensures (n % WRAP + w) % WRAP == (n + w) % WRAP
  {
    var q := n / WRAP;
    assert n + w == q * WRAP + (n % WRAP + w);
  }

  lemma CountsKeepPace(s: WatchStats, mask: Word, c: Counter, n: nat)
    requires Count(s, c) == n % WRAP
    ensures Count(Record(s, mask), c) == (n + Weight(HitBy(mask), c)) % WRAP
  {
    RecordCounts(s, mask, c);
    ModStep(n, Weight(HitBy(mask), c));
  }

  lemma RecordKeepsBalance(t: Table, log: Log, wd: int, mask: Word)
    requires Valid(t) && Balanced(t, log) && t.collecting && wd in t.byWd
    ensures Balanced(RecordEvent(t, wd, mask), Then(log, t.byWd[wd], HitBy(mask)))
  {
    var id := t.byWd[wd];
    var t', log' := RecordEvent(t, wd, mask), Then(log, id, HitBy(mask));
    forall c ensures Count(t'.totals, c) == Recorded(log', c) % WRAP {
      CountsKeepPace(t.totals, mask, c, Recorded(log, c));
    }
    forall d, c | d in t'.byWd && t'.byWd[d] in t'.watches
      ensures Count(t'.watches[t'.byWd[d]].stats, c) == Charged(log', t'.byWd[d], c) % WRAP
    {
      CountsAreCharges(t, log, d, c);
      if t.byWd[d] == id {
        CountsKeepPace(t.watches[id].stats, mask, c, Charged(log, id, c));
      }
    }
  }

  lemma CountsAreCharges(t: Table, log: Log, wd: int, c: Counter)
    requires Balanced(t, log) && wd in t.byWd && t.byWd[wd] in t.watches
    ensures Count(t.watches[t.byWd[wd]].stats, c) == Charged(log, t.byWd[wd], c) % WRAP
  {
  }

  lemma ResetKeepsBalance(t: Table, log: Log)
    requires Valid(t) && Balanced(t, log)
    ensures Balanced(InitializeStats(t), Start)
  {
    var t' := InitializeStats(t);
    forall c ensures Count(t'.totals, c) == 0 { ZeroCounts(c); }
    forall wd, c | wd in t'.byWd && t'.byWd[wd] in t'.watches
      ensures Count(t'.watches[t'.byWd[wd]].stats, c) == 0
    {
      var id := t'.byWd[wd];
      ZeroCounts(c);
      assert id in t.byWd.Values;
      if !t.collecting {
        UnmentionedIsUncharged(log, id, c);
        CountsAreCharges(t, log, wd, c);
      }
    }
  }

  ghost predicate SameCounters(t: Table, t': Table) {
    && t'.totals == t.totals && t'.nextId == t.nextId && t'.collecting == t.collecting && t'.byWd == t.byWd
    && t'.watches.Keys == t.watches.Keys
    && forall id :: id in t.watches ==> t'.watches[id].stats == t.watches[id].stats
  }

  lemma RenamePrefixKeepsCounters(t: Table, id: nat, oldname: bytes, newname: bytes)
    ensures SameCounters(t, RenamePrefix(t, id, oldname, newname))
  {
  }

  lemma {:induction false} RenamePrefixesKeepCounters(t: Table, ids: seq<nat>, oldname: bytes, newname: bytes)
    ensures SameCounters(t, RenamePrefixes(t, ids, oldname, newname))
    decreases |ids|
  {
    if ids != [] {
      RenamePrefixKeepsCounters(t, ids[0], oldname, newname);
      RenamePrefixesKeepCounters(RenamePrefix(t, ids[0], oldname, newname), ids[1..], oldname, newname);
    }
  }

  lemma RegisterKeepsCounters(t: Table, w: Watch)
    requires Valid(t) && w.stats == ZERO
    ensures KeepsCounters(t, Register(t, w))
  {
    var t' := Register(t, w);
    assert forall id :: id in t'.watches ==> t'.watches[id] == if id in t.watches then t.watches[id] else w;
  }

  lemma CreateKeepsCounters(t: Table, wd: int, fid: Option<bytes>, filename: bytes, dirf: int)
    requires Valid(t)
    requires wd == 0 ==> !Exhausted(t)
    ensures KeepsCounters(t, CreateWatch(t, wd, fid, filename, dirf).0)
  {
    if wd == 0 {
      var f :| IsFreeWd(t.byWd.Keys, f);
      FreshWdIsFree(t.byWd.Keys, t.nextFanotifyWd, MAX_WD, f);
      var d := FreshWd(t.byWd.Keys, t.nextFanotifyWd, MAX_WD);
      RegisterKeepsCounters(t.(nextFanotifyWd := d), Watch(fid, filename, d, dirf, ZERO));
    } else if wd > 0 {
      RegisterKeepsCounters(t, Watch(fid, filename, wd, dirf, ZERO));
    }
  }

  lemma SameKeepsCounters(t: Table, t': Table)
    requires WdsIndexed(t) && SameCounters(t, t')
    ensures KeepsCounters(t, t')
  {
  }

  lemma RenameKeepsCounters(t: Table, id: Option<nat>, name: bytes)
    requires WdsIndexed(t) && (id.Some? ==> id.value in t.watches)
    ensures KeepsCounters(t, SetFilename(t, id, name))
  {
    assert SameCounters(t, SetFilename(t, id, name));
    SameKeepsCounters(t, SetFilename(t, id, name));
  }

  lemma ReplaceKeepsCounters(t: Table, oldname: bytes, newname: bytes)
    requires WdsIndexed(t)
    ensures KeepsCounters(t, ReplaceFilename(t, oldname, newname))
  {
    RenamePrefixesKeepCounters(t, Entries(t.byFilename), oldname, newname);
    SameKeepsCounters(t, ReplaceFilename(t, oldname, newname));
  }

  lemma RemoveKeepsCounters(t: Table, id: Option<nat>, status: int)
    requires Valid(t) && (id.Some? ==> id.value in t.watches)
    ensures KeepsCounters(t, RemoveWatch(t, id, status).0)
  {
    var t' := RemoveWatch(t, id, status).0;
    assert forall wd :: wd in t'.byWd ==> wd in t.byWd && t'.byWd[wd] == t.byWd[wd];
    assert forall i :: i in t'.watches ==> i in t.watches && t'.watches[i] == t.watches[i];
  }

  lemma StepKeepsCounters(t: Table, op: Op)
    requires Valid(t) && Step(t, op).Continues?
    requires !op.RecordOne? && !op.ResetStats?
    ensures KeepsCounters(t, Step(t, op).table)
  {
    var t' := Step(t, op).table;
    match op {
      case Create(wd, fid, filename, dirf) => CreateKeepsCounters(t, wd, fid, filename, dirf);
      case Resolve(fid, path) =>
        if Key(fid) !in t.byFid && path.Some? { CreateKeepsCounters(t, 0, Some(fid), path.value, 0); }
      case SetByWd(wd, newname) => RenameKeepsCounters(t, Lookup(t.byWd, wd), newname);
      case SetByFilename(oldname, newname) => RenameKeepsCounters(t, Lookup(t.byFilename, oldname), newname);
      case Replace(oldname, newname) => ReplaceKeepsCounters(t, oldname, newname);
      case RemoveByWd(wd, status) => RemoveKeepsCounters(t, Lookup(t.byWd, wd), status);
      case RemoveByFilename(filename, status) => RemoveKeepsCounters(t, Lookup(t.byFilename, filename), status);
      case _ =>
    }
  }

  lemma StepKeepsBalance(t: Table, op: Op, log: Log)
    requires Valid(t) && Balanced(t, log) && Step(t, op).Continues?
    ensures Balanced(Step(t, op).table, LogAfter(t, op, log))
  {
    if op.RecordOne? {
      if t.collecting && op.wd in t.byWd { RecordKeepsBalance(t, log, op.wd, op.mask); }
    } else if op.ResetStats? {
      ResetKeepsBalance(t, log);
    } else {
      StepKeepsCounters(t, op);
      StepKeepsValid(t, op);
      KeepsBalance(t, Step(t, op).table, log);
    }
  }

  lemma {:induction false} RunKeepsBalance(t: Table, ops: seq<Op>, log: Log)
    requires Valid(t) && Balanced(t, log) && Run(t, ops).Continues?
    ensures Valid(Run(t, ops).table) && Balanced(Run(t, ops).table, LogOf(t, ops, log))
    decreases |ops|
  {
    if ops != [] {
      StepKeepsValid(t, ops[0]);
      StepKeepsBalance(t, ops[0], log);
      RunKeepsBalance(Step(t, ops[0]).table, ops[1..], LogAfter(t, ops[0], log));
    }
  }

  // ---------------------------------------------------------------- sums over the index

  ghost function Sum<K>(m: map<K, nat>): nat
    decreases |m|
  {
    if m == map[] then 0
    else
      var k :| k in m;
      m[k] + Sum(m - {k})
  }

  lemma {:induction false} SumSplit<K>(m: map<K, nat>, k: K)
    requires k in m
    ensures Sum(m) == m[k] + Sum(m - {k})
    decreases |m|
  {
    var j :| j in m && Sum(m) == m[j] + Sum(m - {j});
    if j != k {
      SumSplit(m - {j}, k);
      SumSplit(m - {k}, j);
      assert m - {j} - {k} == m - {k} - {j};
    }
  }

  lemma {:induction false} SumModulo<K>(a: map<K, nat>, b: map<K, nat>)
    requires a.Keys == b.Keys && forall k :: k in a ==> a[k] == b[k] % WRAP
    ensures Sum(a) % WRAP == Sum(b) % WRAP
    decreases |a|
  {
    if a == map[] {
      assert b == map[];
    } else {
      var k :| k in a;
      SumSplit(a, k);
      SumSplit(b, k);
      SumModulo(a - {k}, b - {k});
      ModStep(Sum(a - {k}), a[k]);
      ModStep(Sum(b - {k}), a[k]);
      ModStep(b[k], Sum(b - {k}));
    }
  }

  function Charges(ids: set<nat>, log: Log, c: Counter): map<nat, nat> {
    map id | id in ids :: Charged(log, id, c)
  }

  /** A counter of every watch in the descriptor index. */
  function IndexedCounts(t: Table, c: Counter): map<nat, nat> {
    map id | id in t.byWd.Values && id in t.watches :: Count(t.watches[id].stats, c) as nat
  }

  /** Events charged to watches other than these. */
  function Departed(ids: set<nat>, log: Log, c: Counter): nat {
    match log
    case Start => 0
    case Then(earlier, id, hits) => Departed(ids, earlier, c) + if id in ids then 0 else Weight(hits, c)
  }

  lemma {:induction false} AllZero<K>(m: map<K, nat>)
    requires forall k :: k in m ==> m[k] == 0
    ensures Sum(m) == 0
    decreases |m|
  {
    if m != map[] {
      var k :| k in m;
      SumSplit(m, k);
      AllZero(m - {k});
    }
  }

  lemma ChargesGrow(ids: set<nat>, log: Log, c: Counter)
    requires log.Then?
    ensures Sum(Charges(ids, log, c)) ==
      Sum(Charges(ids, log.earlier, c)) + if log.id in ids then Weight(log.hits, c) else 0
  {
    var before, after := Charges(ids, log.earlier, c), Charges(ids, log, c);
    if log.id in ids {
      SumSplit(before, log.id);
      SumSplit(after, log.id);
      assert before - {log.id} == after - {log.id};
    } else {
      assert before == after;
    }
  }

  lemma {:induction false} EveryEventIsChargedOrDeparted(ids: set<nat>, log: Log, c: Counter)
    ensures Sum(Charges(ids, log, c)) + Departed(ids, log, c) == Recorded(log, c)
  {
    if log.Start? {
      AllZero(Charges(ids, log, c));
    } else {
      EveryEventIsChargedOrDeparted(ids, log.earlier, c);
      ChargesGrow(ids, log, c);
    }
  }

  // ---------------------------------------------------------------- the theorems

  lemma ReachableIsBalanced(ops: seq<Op>)
    requires Run(EMPTY, ops).Continues?
    ensures Valid(Run(EMPTY, ops).table) && Balanced(Run(EMPTY, ops).table, LogOf(EMPTY, ops, Start))
  {
    forall c ensures Count(EMPTY.totals, c) == 0 { ZeroCounts(c); }
    RunKeepsBalance(EMPTY, ops, Start);
  }

  lemma CountsMatchCharges(t: Table, log: Log, c: Counter)
    requires WdsIndexed(t) && Balanced(t, log)
    ensures IndexedCounts(t, c).Keys == t.byWd.Values
    ensures forall id :: id in t.byWd.Values ==> IndexedCounts(t, c)[id] == Charged(log, id, c) % WRAP
  {
    forall id | id in t.byWd.Values
      ensures id in t.watches && Count(t.watches[id].stats, c) == Charged(log, id, c) % WRAP
    {
      var wd := SomeKey(t.byWd, id);
      CountsAreCharges(t, log, wd, c);
    }
  }

  lemma SumsAgree(counts: map<nat, nat>, log: Log, c: Counter)
    requires forall id :: id in counts ==> counts[id] == Charged(log, id, c) % WRAP
    ensures Recorded(log, c) % WRAP == (Sum(counts) + Departed(counts.Keys, log, c)) % WRAP
  {
    var charges := Charges(counts.Keys, log, c);
    SumModulo(counts, charges);
    EveryEventIsChargedOrDeparted(counts.Keys, log, c);
    ModuloShift(Sum(counts), Sum(charges), Departed(counts.Keys, log, c));
  }

  lemma ModuloShift(a: nat, b: nat, n: nat)
    requires a % WRAP == b % WRAP
    ensures (a + n) % WRAP == (b + n) % WRAP
  {
    ModStep(a, n);
    ModStep(b, n);
  }

  /** In every reachable state each total is, modulo 2^32, the sum over the indexed watches
      plus what was charged to watches that have left the index since the last reset. */
  lemma TotalsAreConserved(ops: seq<Op>, c: Counter)
    requires Run(EMPTY, ops).Continues?
    ensures var t, log := Run(EMPTY, ops).table, LogOf(EMPTY, ops, Start);
      && WdsIndexed(t)
      && Count(t.totals, c) == (Sum(IndexedCounts(t, c)) + Departed(t.byWd.Values, log, c)) % WRAP
  {
    ReachableIsBalanced(ops);
    var t, log := Run(EMPTY, ops).table, LogOf(EMPTY, ops, Start);
    CountsMatchCharges(t, log, c);
    SumsAgree(IndexedCounts(t, c), log, c);
  }

  lemma {:induction false} KindsAreAtMostTotal(log: Log, id: nat, c: Counter)
    requires FullyCounted(log)
    ensures Charged(log, id, c) <= Charged(log, id, Total) <= Recorded(log, Total) == Length(log)
    ensures Charged(log, id, c) <= Recorded(log, c) <= Length(log)
  {
    if log.Then? { KindsAreAtMostTotal(log.earlier, id, c); }
  }

  /** Every event moves the total. */
  predicate FullyCounted(log: Log) {
    log.Then? ==> Total in log.hits && FullyCounted(log.earlier)
  }

  lemma {:induction false} LogsAreFullyCounted(t: Table, ops: seq<Op>, log: Log)
    requires FullyCounted(log)
    ensures FullyCounted(LogOf(t, ops, log))
    decreases |ops|
  {
    if ops != [] && Step(t, ops[0]).Continues? {
      LogsAreFullyCounted(Step(t, ops[0]).table, ops[1..], LogAfter(t, ops[0], log));
    }
  }

  /** With fewer than 2^32 events since the reset no counter has wrapped: the grand total
      counts every event and no counter exceeds it... */
  lemma TotalsStayBelowGrandTotal(ops: seq<Op>, c: Counter)
    requires Run(EMPTY, ops).Continues?
    requires Length(LogOf(EMPTY, ops, Start)) < WRAP
    ensures var totals := Run(EMPTY, ops).table.totals;
      Count(totals, c) <= Count(totals, Total) == Length(LogOf(EMPTY, ops, Start))
  {
    ReachableIsBalanced(ops);
    LogsAreFullyCounted(EMPTY, ops, Start);
    KindsAreAtMostTotal(LogOf(EMPTY, ops, Start), 0, c);
  }

  /** ... and no counter of a watch exceeds the watch's total, nor the grand counter. */
  lemma CountersStayBelowTotals(ops: seq<Op>, wd: int, c: Counter)
    requires Run(EMPTY, ops).Continues?
    requires Length(LogOf(EMPTY, ops, Start)) < WRAP
    ensures var t := Run(EMPTY, ops).table;
      wd in t.byWd && t.byWd[wd] in t.watches ==>
        var s := t.watches[t.byWd[wd]].stats;
        Count(s, c) <= Count(s, Total) && Count(s, c) <= Count(t.totals, c)
  {
    ReachableIsBalanced(ops);
    LogsAreFullyCounted(EMPTY, ops, Start);
    BalancedStaysBelow(Run(EMPTY, ops).table, LogOf(EMPTY, ops, Start), wd, c);
  }

  lemma BalancedStaysBelow(t: Table, log: Log, wd: int, c: Counter)
    requires Balanced(t, log) && FullyCounted(log) && Length(log) < WRAP
    ensures wd in t.byWd && t.byWd[wd] in t.watches ==>
        var s := t.watches[t.byWd[wd]].stats;
        Count(s, c) <= Count(s, Total) && Count(s, c) <= Count(t.totals, c)
  {
    if wd in t.byWd && t.byWd[wd] in t.watches {
      KindsAreAtMostTotal(log, t.byWd[wd], c);
      CountsAreCharges(t, log, wd, c);
      CountsAreCharges(t, log, wd, Total);
    }
  }
}
