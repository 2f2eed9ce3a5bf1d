/** The printf-like formatter of events: bounded writes into a fixed buffer, against a
    token-by-token expansion of the format. */
module Formatter {
  import opened Bytes
  import MaskStrings

  const EINVAL := 22
  const EMSGSIZE := 90

  const PERCENT: byte := 37
  const DIGIT_0: byte := 48
  const LETTER_C: byte := 99
  const LETTER_E: byte := 101
  const LETTER_F: byte := 102
  const LETTER_N: byte := 110
  const LETTER_T: byte := 84
  const LETTER_W: byte := 119

  /** The current time under the format set for `%T`, if one is set and valid. */
  datatype Time = Unset | Invalid | Formatted(text: bytes)

  /** An event with the path recorded for its watch. */
  datatype Subject = Subject(filename: bytes, dirnamelen: nat, eventname: bytes, mask: u32, cookie: u32, time: Time)

  ghost predicate ValidSubject(e: Subject) { e.dirnamelen <= |e.filename| }

  function Dirname(e: Subject): bytes
    requires ValidSubject(e)
  {
    e.filename[..e.dirnamelen]
  }

  /** A number in hexadecimal without leading zeros. */
  function HexNumber(v: nat): (r: bytes)
    ensures |r| > 0
  {
    if v < 16 then [MaskStrings.HexDigit(v)] else HexNumber(v / 16) + [MaskStrings.HexDigit(v % 16)]
  }

  // ---------------------------------------------------------------- the reference

  predicate IsShort(b: byte) {
    b == PERCENT || b == DIGIT_0 || b == LETTER_N || b == LETTER_W || b == LETTER_F || b == LETTER_C
    || b == LETTER_E || b == LETTER_T
  }

  /** A lone '%' at the end, or `%T` under an invalid time format. */
  predicate TokenFails(fmt: bytes, i: nat, e: Subject)
    requires i < |fmt|
  {
    fmt[i] == PERCENT && (i == |fmt| - 1 || (fmt[i + 1] == LETTER_T && e.time.Invalid?))
  }

  predicate IsSeparated(fmt: bytes, i: nat)
    requires i + 1 < |fmt|
  {
    !IsShort(fmt[i + 1]) && i + 2 < |fmt| && fmt[i + 2] == LETTER_E
  }

  function TokenLength(fmt: bytes, i: nat): (n: nat)
    requires i < |fmt|
    ensures 1 <= n <= |fmt| - i
  {
    if fmt[i] != PERCENT || i == |fmt| - 1 then 1 else if IsSeparated(fmt, i) then 3 else 2
  }

  /** What a token stands for; a directory longer than the room left is dropped. */
  ghost function TokenText(fmt: bytes, i: nat, e: Subject, room: int): bytes
    requires i < |fmt| && ValidSubject(e) && !TokenFails(fmt, i, e)
  {
    if fmt[i] != PERCENT then [fmt[i]]
    else
      var c := fmt[i + 1];
      if c == PERCENT then [PERCENT]
      else if c == DIGIT_0 then [0]
      else if c == LETTER_N then [LF]
      else if c == LETTER_W then (if e.dirnamelen <= room then Dirname(e) else [])
      else if c == LETTER_F then e.eventname
      else if c == LETTER_C then HexNumber(e.cookie)
      else if c == LETTER_T then (if e.time.Formatted? then e.time.text else [])
      else if c == LETTER_E || IsSeparated(fmt, i) then MaskStrings.MaskText(e.mask, if c == LETTER_E then COMMA else c)
      else [PERCENT, c]
  }

  /** The expansion of the format from position i on, with `ind` bytes written before it. */
  ghost function Expansion(fmt: bytes, i: nat, e: Subject, size: int, ind: nat): bytes
    requires i <= |fmt| && ValidSubject(e)
    decreases |fmt| - i
  {
    if i == |fmt| || TokenFails(fmt, i, e) then []
    else
      var t := TokenText(fmt, i, e, size - ind);
      t + Expansion(fmt, i + TokenLength(fmt, i), e, size, ind + |t|)
  }

  ghost predicate WellFormed(fmt: bytes, i: nat, e: Subject)
    requires i <= |fmt|
    decreases |fmt| - i
  {
    i < |fmt| ==> !TokenFails(fmt, i, e) && WellFormed(fmt, i + TokenLength(fmt, i), e)
  }

  /** Where the formatter stops: at the end of the format, when only the last byte is left,
      or at a token it cannot expand. */
  datatype Stop = Done(ind: nat) | Failed(ind: nat)

  ghost function StopAt(fmt: bytes, i: nat, e: Subject, size: int, ind: nat): Stop
    requires i <= |fmt| && ValidSubject(e)
    decreases |fmt| - i
  {
    if i == |fmt| || ind >= size - 1 then Done(ind)
    else if TokenFails(fmt, i, e) then Failed(ind)
    else StopAt(fmt, i + TokenLength(fmt, i), e, size, ind + |TokenText(fmt, i, e, size - ind)|)
  }

  predicate IsCookie(fmt: bytes, i: nat)
    requires i < |fmt|
  {
    fmt[i] == PERCENT && i + 1 < |fmt| && fmt[i + 1] == LETTER_C
  }

  /** The last byte of the room falls into a cookie. */
  ghost predicate CutsCookie(fmt: bytes, i: nat, e: Subject, size: int, ind: nat)
    requires i <= |fmt| && ValidSubject(e)
    decreases |fmt| - i
  {
    && i < |fmt| && ind < size - 1 && !TokenFails(fmt, i, e)
    && var next := ind + |TokenText(fmt, i, e, size - ind)|;
       if next >= size then IsCookie(fmt, i) else CutsCookie(fmt, i + TokenLength(fmt, i), e, size, next)
  }

  /** The first token to leave no more than the last byte of the room ends at `goal` or behind it. */
  ghost predicate Reaches(fmt: bytes, i: nat, e: Subject, size: int, ind: nat, goal: int)
    requires i <= |fmt| && ValidSubject(e)
    decreases |fmt| - i
  {
    && i < |fmt| && ind < size - 1 && !TokenFails(fmt, i, e)
    && var next := ind + |TokenText(fmt, i, e, size - ind)|;
       if next >= size - 1 then next >= goal else Reaches(fmt, i + TokenLength(fmt, i), e, size, next, goal)
  }

  /** Writing a token puts a NUL at the last place of the room: names, event strings and times
      are followed by NULs up to there, a cookie by a single one. */
  predicate TokenClears(fmt: bytes, i: nat, endsAtLast: bool)
    requires i < |fmt|
  {
    && fmt[i] == PERCENT && i + 1 < |fmt|
    && var c := fmt[i + 1];
       || c == LETTER_F || c == LETTER_E || c == LETTER_T || IsSeparated(fmt, i)
       || (c == LETTER_C && endsAtLast)
  }

  ghost predicate ClearsLast(fmt: bytes, i: nat, e: Subject, size: int, ind: nat)
    requires i <= |fmt| && ValidSubject(e)
    decreases |fmt| - i
  {
    && i < |fmt| && ind < size - 1 && !TokenFails(fmt, i, e)
    && var next := ind + |TokenText(fmt, i, e, size - ind)|;
       TokenClears(fmt, i, next == size - 1) || ClearsLast(fmt, i + TokenLength(fmt, i), e, size, next)
  }

  lemma {:induction false} HexHasNoNul(v: nat)
    ensures 0 !in HexNumber(v)
  {
    if v >= 16 { HexHasNoNul(v / 16); }
  }

  /** One token on the way to the goal, if there is one. */
  lemma ReachStep(fmt: bytes, i: nat, e: Subject, size: int, ind: nat, goal: int, stop: Stop, reaches: bool)
    returns (next: Option<nat>)
    requires i <= |fmt| && ValidSubject(e) && ind < goal && size <= goal
    requires stop == StopAt(fmt, i, e, size, ind) && reaches == Reaches(fmt, i, e, size, ind, goal)
    ensures match next
      case None => if stop.ind >= goal then stop.Done? && reaches else !reaches
      case Some(n) =>
        && i < |fmt| && n < size - 1
        && stop == StopAt(fmt, i + TokenLength(fmt, i), e, size, n)
        && reaches == Reaches(fmt, i + TokenLength(fmt, i), e, size, n, goal)
  {
    if i == |fmt| || ind >= size - 1 || TokenFails(fmt, i, e) {
      next := None;
    } else {
      var n := ind + |TokenText(fmt, i, e, size - ind)|;
      next := if n < size - 1 then Some(n) else None;
    }
  }

  lemma {:induction false} StopsBehindExactlyWhen(fmt: bytes, i: nat, e: Subject, size: int, ind: nat, goal: int)
    requires i <= |fmt| && ValidSubject(e) && ind < goal && size <= goal
    ensures var (stop, reaches) := (StopAt(fmt, i, e, size, ind), Reaches(fmt, i, e, size, ind, goal));
      if stop.ind >= goal then stop.Done? && reaches else !reaches
    decreases |fmt| - i
  {
    hide MaskStrings.MaskText;
    var (stop, reaches) := (StopAt(fmt, i, e, size, ind), Reaches(fmt, i, e, size, ind, goal));
    var next := ReachStep(fmt, i, e, size, ind, goal, stop, reaches);
    if next.Some? { StopsBehindExactlyWhen(fmt, i + TokenLength(fmt, i), e, size, next.value, goal); }
  }

  /** The length counts bytes that were never written if and only if the token that leaves no
      room goes on behind it. */
  lemma LengthOverrunsExactlyWhen(fmt: bytes, e: Subject, size: nat)
    requires ValidSubject(e)
    ensures StopAt(fmt, 0, e, size, 0).ind > size <==> Reaches(fmt, 0, e, size, 0, size + 1)
    ensures Reaches(fmt, 0, e, size, 0, size + 1) ==> StopAt(fmt, 0, e, size, 0).Done?
  {
    StopsBehindExactlyWhen(fmt, 0, e, size, 0, size + 1);
  }

  /** The format "%f" with a name of five bytes and room for three: the length is 5. */
  lemma LongName(e: Subject)
    requires ValidSubject(e) && |e.eventname| == 5
    ensures StopAt([PERCENT, LETTER_F], 0, e, 3, 0) == Done(5)
  {
    var fmt := [PERCENT, LETTER_F];
    assert TokenText(fmt, 0, e, 3) == e.eventname;
    assert StopAt(fmt, 2, e, 3, 5) == Done(5);
  }

  /** The format "%" with room for a byte: it fails, so the length is left as it was. */
  lemma LonePercent(e: Subject, size: int)
    requires ValidSubject(e) && size >= 2
    ensures StopAt([PERCENT], 0, e, size, 0) == Failed(0)
  {
    assert TokenFails([PERCENT], 0, e);
  }

  /** One token of the expansion and of the formatter's way through it. */
  lemma OneToken(fmt: bytes, i: nat, e: Subject, size: int, ind: nat) returns (n: nat)
    requires i < |fmt| && ValidSubject(e) && ind < size - 1 && !TokenFails(fmt, i, e)
    ensures n >= ind && StopAt(fmt, i, e, size, ind) == StopAt(fmt, i + TokenLength(fmt, i), e, size, n)
    ensures ind + |Expansion(fmt, i, e, size, ind)| == n + |Expansion(fmt, i + TokenLength(fmt, i), e, size, n)|
    ensures WellFormed(fmt, i, e) <==> WellFormed(fmt, i + TokenLength(fmt, i), e)
  {
    hide MaskStrings.MaskText;
    n := ind + |TokenText(fmt, i, e, size - ind)|;
  }

  /** The formatter stops within the expansion: after all of it, or out of room. */
  lemma {:induction false} StopsWithinExpansion(fmt: bytes, i: nat, e: Subject, size: int, ind: nat)
    requires i <= |fmt| && ValidSubject(e)
    ensures var stop, full := StopAt(fmt, i, e, size, ind), ind + |Expansion(fmt, i, e, size, ind)|;
      && ind <= stop.ind <= full
      && (stop.Done? ==> stop.ind == full || stop.ind >= size - 1)
      && (WellFormed(fmt, i, e) ==> stop.Done?)
    decreases |fmt| - i
  {
    hide MaskStrings.MaskText;
    if i < |fmt| && ind < size - 1 && !TokenFails(fmt, i, e) {
      var n := OneToken(fmt, i, e, size, ind);
      StopsWithinExpansion(fmt, i + TokenLength(fmt, i), e, size, n);
    }
  }

  /** A whole expansion that leaves room for a terminating byte is written out completely. */
  lemma ShortExpansionsAreComplete(fmt: bytes, e: Subject, size: int)
    requires ValidSubject(e) && WellFormed(fmt, 0, e)
    requires |Expansion(fmt, 0, e, size, 0)| <= size - 1
    ensures StopAt(fmt, 0, e, size, 0) == Done(|Expansion(fmt, 0, e, size, 0)|)
  {
    StopsWithinExpansion(fmt, 0, e, size, 0);
  }

  // ---------------------------------------------------------------- the buffer

  /** A string that may hold any byte. */
  class NString {
    const buf: array<byte>
    var len: nat

    constructor ()
      ensures fresh(buf) && buf.Length == MAX_STRLEN && len == 0
    {
      buf := new byte[MAX_STRLEN](_ => 0);
      len := 0;
    }
  }

  /** Copy a source and zero-fill up to n bytes, never past the end of the buffer. */
  method StrNCpy(buf: array<byte>, ind: nat, src: bytes, n: nat)
    requires buf.Length == MAX_STRLEN
    modifies buf
    ensures forall k :: 0 <= k < buf.Length ==>
      buf[k] == if ind <= k < ind + n then (if k - ind < |src| then src[k - ind] else 0) else old(buf[k])
  {
    if ind >= MAX_STRLEN {
      return;
    }
    var end := if ind + n < MAX_STRLEN then ind + n else MAX_STRLEN;
    forall k | ind <= k < end {
      buf[k] := if k - ind < |src| then src[k - ind] else 0;
    }
  }

  /** One token: its text from `ind` on as far as there is room, nothing before, nothing
      from `size` on.  A cookie cut short ends in a NUL; a last place not reached may be cleared. */
  ghost predicate Wrote(before: bytes, after: bytes, ind: nat, t: bytes, size: nat, cookie: bool, clears: bool) {
    && |before| == |after| == MAX_STRLEN && 0 < size <= MAX_STRLEN && ind < size
    && (forall k :: 0 <= k < ind ==> after[k] == before[k])
    && (forall k :: size <= k < MAX_STRLEN ==> after[k] == before[k])
    && (forall k :: ind <= k < ind + |t| && k < size - 1 ==> after[k] == t[k - ind])
    && (ind + |t| >= size ==> after[size - 1] == if cookie then 0 else t[size - 1 - ind])
    && (ind + |t| < size ==> after[size - 1] == if clears then 0 else before[size - 1])
  }

  method PutText(buf: array<byte>, ind: nat, t: bytes, size: nat)
    requires buf.Length == MAX_STRLEN && ind < size - 1 && size <= MAX_STRLEN
    modifies buf
    ensures Wrote(old(buf[..]), buf[..], ind, t, size, false, true)
  {
    StrNCpy(buf, ind, t, size - ind);
  }

  method PutDirectory(buf: array<byte>, ind: nat, filename: bytes, dirnamelen: nat, size: nat)
    requires buf.Length == MAX_STRLEN && ind < size - 1 && size <= MAX_STRLEN
    requires dirnamelen <= |filename| && dirnamelen <= size - ind
    modifies buf
    ensures Wrote(old(buf[..]), buf[..], ind, filename[..dirnamelen], size, false, false)
  {
    StrNCpy(buf, ind, filename, dirnamelen);
  }

  method PutCookie(buf: array<byte>, ind: nat, s: bytes, size: nat)
    requires buf.Length == MAX_STRLEN && ind < size - 1 && size <= MAX_STRLEN
    modifies buf
    ensures Wrote(old(buf[..]), buf[..], ind, s, size, true, ind + |s| == size - 1)
  {
    var room := size - ind;
    var n := if |s| < room - 1 then |s| else room - 1;
    forall k | 0 <= k < n {
      buf[ind + k] := s[k];
    }
    buf[ind + n] := 0;
  }

  method PutByte(buf: array<byte>, ind: nat, b: byte)
    requires buf.Length == MAX_STRLEN && ind < MAX_STRLEN
    modifies buf
    ensures buf[..] == old(buf[..])[ind := b]
  {
    buf[ind] := b;
  }

  /** Expand the token at a '%'. */
  method PutToken(buf: array<byte>, ind: nat, fmt: bytes, i: nat, size: nat, e: Subject) returns (ind': nat)
    requires buf.Length == MAX_STRLEN && ind < size - 1 && size <= MAX_STRLEN
    requires ValidSubject(e)
    requires i + 1 < |fmt| && fmt[i] == PERCENT && !TokenFails(fmt, i, e)
    modifies buf
    ensures var t := TokenText(fmt, i, e, size - ind);
      && ind' == ind + |t|
      && Wrote(old(buf[..]), buf[..], ind, t, size, IsCookie(fmt, i), TokenClears(fmt, i, ind' == size - 1))
  {
    var ch1, room := fmt[i + 1], size - ind;
    if ch1 == PERCENT || ch1 == DIGIT_0 || ch1 == LETTER_N {
      PutByte(buf, ind, if ch1 == PERCENT then PERCENT else if ch1 == DIGIT_0 then 0 else LF);
      ind' := ind + 1;
    } else if ch1 == LETTER_W {
      ind' := ind;
      if e.dirnamelen <= room {
        PutDirectory(buf, ind, e.filename, e.dirnamelen, size);
        ind' := ind + e.dirnamelen;
      }
    } else if ch1 == LETTER_F {
      PutText(buf, ind, e.eventname, size);
      ind' := ind + |e.eventname|;
    } else if ch1 == LETTER_C {
      var s := HexNumber(e.cookie);
      PutCookie(buf, ind, s, size);
      ind' := ind + |s|;
    } else if ch1 == LETTER_E {
      var s := MaskStrings.MaskText(e.mask, COMMA);
      PutText(buf, ind, s, size);
      ind' := ind + |s|;
    } else if ch1 == LETTER_T {
      var timestr := if e.time.Formatted? then e.time.text else [];
      PutText(buf, ind, timestr, size);
      ind' := ind + |timestr|;
    } else if i + 2 < |fmt| && fmt[i + 2] == LETTER_E {
      var s := MaskStrings.MaskText(e.mask, ch1);
      PutText(buf, ind, s, size);
      ind' := ind + |s|;
    } else {
      PutByte(buf, ind, PERCENT);
      PutByte(buf, ind + 1, ch1);
      ind' := ind + 2;
    }
  }

  /** Expand the token at i, a plain byte or one that starts with '%'. */
  method PutAny(buf: array<byte>, ind: nat, fmt: bytes, i: nat, size: nat, e: Subject) returns (ind': nat)
    requires buf.Length == MAX_STRLEN && ind < size - 1 && size <= MAX_STRLEN
    requires ValidSubject(e) && i < |fmt| && !TokenFails(fmt, i, e)
    modifies buf
    ensures var t := TokenText(fmt, i, e, size - ind);
      && ind' == ind + |t|
      && Wrote(old(buf[..]), buf[..], ind, t, size, IsCookie(fmt, i), TokenClears(fmt, i, ind' == size - 1))
  {
    if fmt[i] != PERCENT {
      PutByte(buf, ind, fmt[i]);
      ind' := ind + 1;
    } else {
      ind' := PutToken(buf, ind, fmt, i, size, e);
    }
  }

  // ---------------------------------------------------------------- the formatter

  /** The part of the expansion that a run of the formatter leaves in the buffer, and the last
      place of the room if the formatter does not get there. */
  ghost predicate Shows(before: bytes, buf: bytes, fmt: bytes, e: Subject, size: int)
    requires ValidSubject(e) && |before| == |buf| == MAX_STRLEN && size <= MAX_STRLEN
  {
    var (ind, full) := (StopAt(fmt, 0, e, size, 0).ind, Expansion(fmt, 0, e, size, 0));
    && ind <= |full|
    && (forall k :: 0 <= k < ind && k < size - 1 ==> buf[k] == full[k])
    && (ind >= size > 0 ==> buf[size - 1] == if CutsCookie(fmt, 0, e, size, 0) then 0 else full[size - 1])
    && (ind < size && size > 0 ==>
          buf[size - 1] == if ClearsLast(fmt, 0, e, size, 0) then 0 else before[size - 1])
  }

  /** What the format from a position on comes to. */
  datatype Outcome = Outcome(stop: Stop, text: bytes, cut: bool, clears: bool)

  ghost function OutcomeAt(fmt: bytes, i: nat, e: Subject, size: int, ind: nat): Outcome
    requires ValidSubject(e) && i <= |fmt|
  {
    Outcome(StopAt(fmt, i, e, size, ind), Expansion(fmt, i, e, size, ind),
            CutsCookie(fmt, i, e, size, ind), ClearsLast(fmt, i, e, size, ind))
  }

  /** The outcome with one token before it. */
  ghost predicate Precedes(t: bytes, cookie: bool, clears: bool, rest: Outcome, all: Outcome, size: int, ind: nat) {
    && all.stop == rest.stop && all.text == t + rest.text
    && (ind + |t| < size ==> all.cut == rest.cut && all.clears == (clears || rest.clears))
    && (ind + |t| >= size ==> all.cut == cookie)
  }

  lemma TokenPrecedes(fmt: bytes, i: nat, e: Subject, size: int, ind: nat) returns (t: bytes)
    requires ValidSubject(e) && i < |fmt| && !TokenFails(fmt, i, e) && ind < size - 1
    ensures t == TokenText(fmt, i, e, size - ind)
    ensures Precedes(t, IsCookie(fmt, i), TokenClears(fmt, i, ind + |t| == size - 1),
      OutcomeAt(fmt, i + TokenLength(fmt, i), e, size, ind + |t|), OutcomeAt(fmt, i, e, size, ind), size, ind)
  {
    t := TokenText(fmt, i, e, size - ind);
  }

  lemma CookieText(fmt: bytes, i: nat, e: Subject, room: int)
    requires i < |fmt| && ValidSubject(e) && !TokenFails(fmt, i, e) && IsCookie(fmt, i)
    ensures TokenText(fmt, i, e, room) == HexNumber(e.cookie)
  {
  }

  lemma {:induction false} CutCookieIsThere(fmt: bytes, i: nat, e: Subject, size: int, ind: nat)
    requires i <= |fmt| && ValidSubject(e) && CutsCookie(fmt, i, e, size, ind)
    ensures var full := Expansion(fmt, i, e, size, ind); ind < size <= ind + |full| && full[size - 1 - ind] != 0
    decreases |fmt| - i
  {
    hide MaskStrings.MaskText;
    var t := TokenPrecedes(fmt, i, e, size, ind);
    if ind + |t| >= size {
      CookieText(fmt, i, e, size - ind);
      HexHasNoNul(e.cookie);
      assert t[size - 1 - ind] in t;
    } else {
      CutCookieIsThere(fmt, i + TokenLength(fmt, i), e, size, ind + |t|);
    }
  }

  /** The state of the loop, given what is ahead of it. */
  ghost predicate Progress(
    before: bytes, buf: bytes, size: int, written: bytes, cleared: bool, ahead: Outcome, all: Outcome) {
    && |before| == |buf| == MAX_STRLEN && size <= MAX_STRLEN
    && ahead.stop == all.stop && all.text == written + ahead.text
    && (|written| < size ==> ahead.cut == all.cut && (cleared || ahead.clears) == all.clears)
    && Agrees(before, buf, written, size, all.cut, cleared)
  }

  /** The buffer starts with what was written; a cut cookie ends in a NUL. */
  ghost predicate Agrees(before: bytes, buf: bytes, written: bytes, size: int, cut: bool, cleared: bool)
    requires |before| == |buf| == MAX_STRLEN && size <= MAX_STRLEN
  {
    && (forall k :: 0 <= k < |written| && k < size - 1 ==> buf[k] == written[k])
    && (|written| >= size > 0 ==> buf[size - 1] == if cut then 0 else written[size - 1])
    && (|written| < size && size > 0 ==> buf[size - 1] == if cleared then 0 else before[size - 1])
  }

  lemma WroteAgrees(first: bytes, before: bytes, after: bytes, written: bytes, t: bytes, size: nat,
                    cookie: bool, clears: bool, cut: bool, cleared: bool)
    requires |first| == MAX_STRLEN
    requires Wrote(before, after, |written|, t, size, cookie, clears) && |written| < size - 1
    requires Agrees(first, before, written, size, cut, cleared)
    requires |written| + |t| >= size ==> cookie == cut
    ensures Agrees(first, after, written + t, size, cut, cleared || clears)
  {
  }

  lemma Progresses(first: bytes, before: bytes, after: bytes, size: int, written: bytes, cleared: bool, t: bytes,
                   cookie: bool, clears: bool, rest: Outcome, ahead: Outcome, all: Outcome)
    requires Progress(first, before, size, written, cleared, ahead, all) && |written| < size - 1
    requires Precedes(t, cookie, clears, rest, ahead, size, |written|)
    requires Wrote(before, after, |written|, t, size, cookie, clears)
    ensures Progress(first, after, size, written + t, cleared || clears, rest, all)
  {
    Associates(written, t, rest.text);
    WroteAgrees(first, before, after, written, t, size, cookie, clears, all.cut, cleared);
  }

  lemma ProgressShows(
    before: bytes, buf: bytes, fmt: bytes, i: nat, e: Subject, size: int, written: bytes, cleared: bool)
    requires ValidSubject(e) && i <= |fmt|
    requires Progress(before, buf, size, written, cleared,
                      OutcomeAt(fmt, i, e, size, |written|), OutcomeAt(fmt, 0, e, size, 0))
    requires i == |fmt| || |written| >= size - 1 || TokenFails(fmt, i, e)
    ensures Shows(before, buf, fmt, e, size)
  {
  }

  /** One turn of the token loop. */
  method PutNext(
    ghost first: bytes, buf: array<byte>, ind: nat, fmt: bytes, i: nat, size: nat, e: Subject,
    ghost written: bytes, ghost cleared: bool, ghost all: Outcome)
    returns (ind': nat, ghost written': bytes, ghost cleared': bool)
    requires buf.Length == MAX_STRLEN && ind == |written| < size - 1
    requires ValidSubject(e) && i < |fmt| && !TokenFails(fmt, i, e)
    requires Progress(first, buf[..], size, written, cleared, OutcomeAt(fmt, i, e, size, ind), all)
    modifies buf
    ensures ind' == |written'|
    ensures Progress(first, buf[..], size, written', cleared',
                     OutcomeAt(fmt, i + TokenLength(fmt, i), e, size, ind'), all)
    ensures buf[size..] == old(buf[size..])
  {
    ghost var before, ahead := buf[..], OutcomeAt(fmt, i, e, size, ind);
    ghost var t := TokenPrecedes(fmt, i, e, size, ind);
    ind' := PutAny(buf, ind, fmt, i, size, e);
    ghost var clears := TokenClears(fmt, i, ind' == size - 1);
    written', cleared' := written + t, cleared || clears;
    Progresses(first, before, buf[..], size, written, cleared, t, IsCookie(fmt, i), clears,
               OutcomeAt(fmt, i + TokenLength(fmt, i), e, size, ind'), ahead, all);
  }

  /** The token loop. */
  method Fill(buf: array<byte>, size: int, e: Subject, fmt: bytes) returns (stop: Stop)
    requires buf.Length == MAX_STRLEN && size <= MAX_STRLEN && ValidSubject(e)
    modifies buf
    ensures var from := if size < 0 then 0 else size; buf[from..] == old(buf[from..])
    ensures stop == StopAt(fmt, 0, e, size, 0) && Shows(old(buf[..]), buf[..], fmt, e, size)
  {
    hide MaskStrings.MaskText;
    var ind: nat := 0;
    var i := 0;
    ghost var (first, written: bytes, cleared, all) := (buf[..], [], false, OutcomeAt(fmt, 0, e, size, 0));
    assert all.text == written + all.text;
    while i < |fmt| && ind < size - 1
      invariant i <= |fmt| && ind == |written|
      invariant Progress(first, buf[..], size, written, cleared, OutcomeAt(fmt, i, e, size, ind), all)
      invariant var from := if size < 0 then 0 else size; buf[from..] == old(buf[from..])
      decreases |fmt| - i
    {
      if TokenFails(fmt, i, e) {
        ProgressShows(first, buf[..], fmt, i, e, size, written, cleared);
        return Failed(ind);
      }
      ind, written, cleared := PutNext(first, buf, ind, fmt, i, size, e, written, cleared, all);
      i := i + TokenLength(fmt, i);
    }
    ProgressShows(first, buf[..], fmt, i, e, size, written, cleared);
    return Done(ind);
  }

  /** Write an event in a printf-like format into `out`, at most `size` bytes of it.  Returns
      the number of bytes written less one, or the position of a token that cannot be
      expanded, or -1, and the error to set if any. */
  method Snprintf(out: NString, size: int, e: Subject, fmt: bytes) returns (ret: int, error: Option<int>)
    requires out.buf.Length == MAX_STRLEN && ValidSubject(e)
    modifies out, out.buf
    ensures forall k :: 0 <= k < MAX_STRLEN && size <= k ==> out.buf[k] == old(out.buf[k])
    ensures fmt == [] ==> ret == -1 && error == Some(22)
    ensures fmt != [] && (|fmt| > MAX_STRLEN || size > MAX_STRLEN) ==> ret == -1 && error == Some(90)
    ensures fmt == [] || |fmt| > MAX_STRLEN || size > MAX_STRLEN ==>
      out.len == old(out.len) && out.buf[..] == old(out.buf[..])
    ensures fmt != [] && |fmt| <= MAX_STRLEN && size <= MAX_STRLEN ==>
      && Shows(old(out.buf[..]), out.buf[..], fmt, e, size)
      && match StopAt(fmt, 0, e, size, 0)
         case Done(n) => out.len == n && ret == n - 1 && error == None
         case Failed(n) => out.len == old(out.len) && ret == n && error == Some(22)
  {
    if fmt == [] {
      return -1, Some(EINVAL);
    }
    if |fmt| > MAX_STRLEN || size > MAX_STRLEN {
      return -1, Some(EMSGSIZE);
    }
    var stop := Fill(out.buf, size, e, fmt);
    match stop {
      case Failed(n) =>
        return n, Some(EINVAL);
      case Done(n) =>
        out.len := n;
        return n - 1, None;
    }
  }

  /** The same for a format without failing tokens, in one sentence: the buffer starts with
      the expansion as far as it fits, and a short expansion is there in full. */
  lemma WellFormedFormats(before: bytes, buf: bytes, size: int, e: Subject, fmt: bytes)
    requires ValidSubject(e) && |before| == |buf| == MAX_STRLEN && 1 <= size <= MAX_STRLEN
    requires WellFormed(fmt, 0, e) && Shows(before, buf, fmt, e, size)
    ensures var (stop, full) := (StopAt(fmt, 0, e, size, 0), Expansion(fmt, 0, e, size, 0));
      && stop.Done?
      && (forall k :: 0 <= k < |full| && k < size - 1 ==> buf[k] == full[k])
      && (|full| <= size - 1 ==> stop.ind == |full|)
      && (|full| > size - 1 ==> stop.ind >= size - 1)
  {
    StopsWithinExpansion(fmt, 0, e, size, 0);
  }

  /** When the expansion has a byte for the last place of the room, it is there if and only if
      some token goes on to that place and is no cookie or, with a token that ends right
      before it, the byte happens to be the one that was there or the NUL put there. */
  lemma LastByteIsThereExactlyWhen(before: bytes, buf: bytes, size: int, e: Subject, fmt: bytes)
    requires ValidSubject(e) && |before| == |buf| == MAX_STRLEN && 1 <= size <= MAX_STRLEN
    requires Shows(before, buf, fmt, e, size) && |Expansion(fmt, 0, e, size, 0)| >= size
    ensures var last := Expansion(fmt, 0, e, size, 0)[size - 1];
      buf[size - 1] == last <==>
      if Reaches(fmt, 0, e, size, 0, size) then !CutsCookie(fmt, 0, e, size, 0)
      else last == if ClearsLast(fmt, 0, e, size, 0) then 0 else before[size - 1]
  {
    StopsBehindExactlyWhen(fmt, 0, e, size, 0, size);
    if CutsCookie(fmt, 0, e, size, 0) { CutCookieIsThere(fmt, 0, e, size, 0); }
  }

  /** The format "%c" with the cookie 0x12 and room for one digit: a NUL in its place. */
  lemma CutCookie(e: Subject, before: bytes, buf: bytes)
    requires ValidSubject(e) && e.cookie == 0x12 && |before| == |buf| == MAX_STRLEN
    requires Shows(before, buf, [PERCENT, LETTER_C], e, 2)
    ensures Expansion([PERCENT, LETTER_C], 0, e, 2, 0) == [49, 50] && buf[0] == 49 && buf[1] == 0
  {
    var fmt := [PERCENT, LETTER_C];
    assert HexNumber(0x12) == [49, 50];
    assert Expansion(fmt, 2, e, 2, 2) == [] && TokenText(fmt, 0, e, 2) == [49, 50];
    assert StopAt(fmt, 2, e, 2, 2) == Done(2);
  }

  /** The format "abc" with room for three: its last byte is not written. */
  lemma PlainTextStopsShort(e: Subject, before: bytes, buf: bytes)
    requires ValidSubject(e) && |before| == |buf| == MAX_STRLEN && Shows(before, buf, [97, 98, 99], e, 3)
    ensures Expansion([97, 98, 99], 0, e, 3, 0) == [97, 98, 99]
    ensures buf[0] == 97 && buf[1] == 98 && buf[2] == before[2]
  {
    var fmt: bytes := [97, 98, 99];
    assert Expansion(fmt, 3, e, 3, 3) == [] && Expansion(fmt, 2, e, 3, 2) == [99];
    assert Expansion(fmt, 1, e, 3, 1) == [98, 99];
    assert StopAt(fmt, 2, e, 3, 2) == Done(2) && StopAt(fmt, 1, e, 3, 1) == Done(2);
    assert !ClearsLast(fmt, 2, e, 3, 2) && !ClearsLast(fmt, 1, e, 3, 1);
  }

  // ---------------------------------------------------------------- the text events are filtered by

  /** The format "%w%f". */
  const PATH_FORMAT: bytes := [PERCENT, LETTER_W, PERCENT, LETTER_F]

  /** The path of an event as far as it fits. */
  function PathText(e: Subject): bytes
    requires e.dirnamelen <= |e.filename|
  {
    var dir := if e.dirnamelen <= MAX_STRLEN then e.filename[..e.dirnamelen] else [];
    if |dir| >= MAX_STRLEN - 1 then dir
    else
      var path := dir + e.eventname;
      if |path| <= MAX_STRLEN then path else path[..MAX_STRLEN]
  }

  lemma PathFormatTokens(e: Subject)
    requires ValidSubject(e)
    ensures WellFormed(PATH_FORMAT, 0, e)
    ensures var dir := if e.dirnamelen <= MAX_STRLEN then Dirname(e) else [];
      && Expansion(PATH_FORMAT, 0, e, MAX_STRLEN, 0) == dir + e.eventname
      && StopAt(PATH_FORMAT, 0, e, MAX_STRLEN, 0) ==
           if |dir| >= MAX_STRLEN - 1 then Done(|dir|) else Done(|dir| + |e.eventname|)
    ensures !CutsCookie(PATH_FORMAT, 0, e, MAX_STRLEN, 0)
  {
    var fmt := PATH_FORMAT;
    var dir := if e.dirnamelen <= MAX_STRLEN then Dirname(e) else [];
    assert TokenText(fmt, 0, e, MAX_STRLEN) == dir && TokenLength(fmt, 0) == 2;
    assert TokenText(fmt, 2, e, MAX_STRLEN - |dir|) == e.eventname && TokenLength(fmt, 2) == 2;
    assert Expansion(fmt, 4, e, MAX_STRLEN, |dir| + |e.eventname|) == [];
    assert Expansion(fmt, 2, e, MAX_STRLEN, |dir|) == e.eventname + [];
    assert StopAt(fmt, 4, e, MAX_STRLEN, |dir| + |e.eventname|) == Done(|dir| + |e.eventname|);
    assert WellFormed(fmt, 4, e) && WellFormed(fmt, 2, e);
    assert !CutsCookie(fmt, 4, e, MAX_STRLEN, |dir| + |e.eventname|) && !CutsCookie(fmt, 2, e, MAX_STRLEN, |dir|);
  }

  /** What "%w%f" leaves in a full-size buffer is the path, byte for byte. */
  lemma PathIsShown(before: bytes, buf: bytes, e: Subject)
    requires ValidSubject(e) && |before| == |buf| == MAX_STRLEN && Shows(before, buf, PATH_FORMAT, e, MAX_STRLEN)
    ensures var n := StopAt(PATH_FORMAT, 0, e, MAX_STRLEN, 0).ind;
      buf[..if n < MAX_STRLEN then n else MAX_STRLEN] == PathText(e)
  {
    PathFormatTokens(e);
  }

  /** The path of an event through the formatter. */
  method FormatPath(e: Subject) returns (text: bytes)
    requires ValidSubject(e)
    ensures text == PathText(e)
  {
    var out := new NString();
    ghost var before := out.buf[..];
    var ret, err := Snprintf(out, MAX_STRLEN, e, PATH_FORMAT);
    PathFormatTokens(e);
    PathIsShown(before, out.buf[..], e);
    text := out.buf[..if out.len < MAX_STRLEN then out.len else MAX_STRLEN];
  }
}
