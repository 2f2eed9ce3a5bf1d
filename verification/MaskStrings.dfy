/** Event masks as text: the printer that builds a string in place and the parser that
    reads it back. */
module MaskStrings {
  import opened Bytes
  import opened EventBits

  // ---------------------------------------------------------------- the names

  datatype Name =
    | ACCESS | MODIFY | ATTRIB | CLOSE_WRITE | CLOSE_NOWRITE | OPEN | MOVED_FROM | MOVED_TO
    | CREATE | DELETE | DELETE_SELF | UNMOUNT | Q_OVERFLOW | IGNORED | CLOSE | MOVE_SELF
    | MOVE | ISDIR | ONESHOT | ALL_EVENTS

  /** The names the parser knows, and the ones the printer uses, each in its order. */
  const TABLE: seq<Name> := [
    ACCESS, MODIFY, ATTRIB, CLOSE_WRITE, CLOSE_NOWRITE, OPEN, MOVED_FROM, MOVED_TO,
    CREATE, DELETE, DELETE_SELF, UNMOUNT, Q_OVERFLOW, IGNORED, CLOSE, MOVE_SELF,
    MOVE, ISDIR, ONESHOT, ALL_EVENTS]

  const NAMES: seq<Name> := [
    ACCESS, MODIFY, ATTRIB, CLOSE_WRITE, CLOSE_NOWRITE, OPEN, MOVED_FROM, MOVED_TO,
    CREATE, DELETE, DELETE_SELF, UNMOUNT, Q_OVERFLOW, IGNORED, CLOSE, MOVE_SELF,
    ISDIR, ONESHOT]

  /** The mask of a name; CLOSE, MOVE and ALL_EVENTS stand for several bits. */
  function Mask(n: Name): Word {
    match n
    case ACCESS => {IN_ACCESS}
    case MODIFY => {IN_MODIFY}
    case ATTRIB => {IN_ATTRIB}
    case CLOSE_WRITE => {IN_CLOSE_WRITE}
    case CLOSE_NOWRITE => {IN_CLOSE_NOWRITE}
    case OPEN => {IN_OPEN}
    case MOVED_FROM => {IN_MOVED_FROM}
    case MOVED_TO => {IN_MOVED_TO}
    case CREATE => {IN_CREATE}
    case DELETE => {IN_DELETE}
    case DELETE_SELF => {IN_DELETE_SELF}
    case UNMOUNT => {IN_UNMOUNT}
    case Q_OVERFLOW => {IN_Q_OVERFLOW}
    case IGNORED => {IN_IGNORED}
    case CLOSE => {IN_CLOSE_WRITE, IN_CLOSE_NOWRITE}
    case MOVE_SELF => {IN_MOVE_SELF}
    case MOVE => {IN_MOVED_FROM, IN_MOVED_TO}
    case ISDIR => {IN_ISDIR}
    case ONESHOT => {IN_ONESHOT}
    case ALL_EVENTS => {
      IN_ACCESS, IN_MODIFY, IN_ATTRIB, IN_CLOSE_WRITE, IN_CLOSE_NOWRITE, IN_OPEN,
      IN_MOVED_FROM, IN_MOVED_TO, IN_CREATE, IN_DELETE, IN_DELETE_SELF, IN_MOVE_SELF}
  }

  function Spelling(n: Name): string {
    match n
    case ACCESS => "ACCESS"
    case MODIFY => "MODIFY"
    case ATTRIB => "ATTRIB"
    case CLOSE_WRITE => "CLOSE_WRITE"
    case CLOSE_NOWRITE => "CLOSE_NOWRITE"
    case OPEN => "OPEN"
    case MOVED_FROM => "MOVED_FROM"
    case MOVED_TO => "MOVED_TO"
    case CREATE => "CREATE"
    case DELETE => "DELETE"
    case DELETE_SELF => "DELETE_SELF"
    case UNMOUNT => "UNMOUNT"
    case Q_OVERFLOW => "Q_OVERFLOW"
    case IGNORED => "IGNORED"
    case CLOSE => "CLOSE"
    case MOVE_SELF => "MOVE_SELF"
    case MOVE => "MOVE"
    case ISDIR => "ISDIR"
    case ONESHOT => "ONESHOT"
    case ALL_EVENTS => "ALL_EVENTS"
  }

  predicate IsUpper(c: char) { 'A' <= c <= 'Z' || c == '_' }

  function Code(c: char): byte
    requires IsUpper(c)
  {
    (c as int) as byte
  }

  lemma SpellingIsUpper(n: Name)
    ensures 1 <= |Spelling(n)| <= 13
    ensures forall i :: 0 <= i < |Spelling(n)| ==> IsUpper(Spelling(n)[i])
  {
  }

  function Text(n: Name): (t: bytes)
    ensures 1 <= |t| <= 13
    ensures forall i :: 0 <= i < |t| ==> IsWordByte(t[i])
  {
    SpellingIsUpper(n);
    seq(|Spelling(n)|, i requires 0 <= i < |Spelling(n)| => Code(Spelling(n)[i]))
  }

  predicate IsWordByte(b: byte) { 65 <= b <= 90 || b == 95 }

  function Upper(b: byte): byte { if 97 <= b <= 122 then b - 32 else b }

  predicate EqIgnoreCase(a: bytes, b: bytes) {
    |a| == |b| && forall i :: 0 <= i < |a| ==> Upper(a[i]) == Upper(b[i])
  }

  /** Length and first two letters tell any two names apart. */
  lemma NamesDiffer(m: Name, n: Name)
    requires m != n
    ensures |Spelling(m)| != |Spelling(n)| || Spelling(m)[0] != Spelling(n)[0] || Spelling(m)[1] != Spelling(n)[1]
  {
  }

  lemma TextStart(n: Name)
    ensures |Text(n)| == |Spelling(n)| >= 2
    ensures Text(n)[0] as int == Spelling(n)[0] as int && Text(n)[1] as int == Spelling(n)[1] as int
  {
  }

  lemma EqualTexts(m: Name, n: Name, e: bytes)
    requires EqIgnoreCase(Text(m), e) && EqIgnoreCase(Text(n), e)
    ensures Text(m) == Text(n)
  {
    assert forall i :: 0 <= i < |e| ==> Text(m)[i] == Upper(e[i]) == Text(n)[i];
  }

  lemma SameTextSameName(m: Name, n: Name, e: bytes)
    requires EqIgnoreCase(Text(m), e) && EqIgnoreCase(Text(n), e)
    ensures m == n
  {
    EqualTexts(m, n, e);
    TextStart(m);
    TextStart(n);
    if m != n { NamesDiffer(m, n); }
  }

  // ---------------------------------------------------------------- one name

  /** What one element of an event string says. */
  datatype Meaning = Nothing | Stranger | Event(name: Name)

  /** -1 as a C int. */
  const MINUS_ONE: Word := set i: nat | 0 <= i < WORD_BITS

  function ToInt(m: Meaning): Word {
    match m
    case Nothing => {}
    case Stranger => MINUS_ONE
    case Event(n) => Mask(n)
  }

  lemma OnlyBadMeaningsAreZeroOrMinusOne(m: Meaning)
    ensures ToInt(m) == {} <==> m == Nothing
    ensures ToInt(m) == MINUS_ONE <==> m == Stranger
  {
    assert 12 in MINUS_ONE;
    if m.Event? {
      assert 12 !in Mask(m.name);
      assert exists b :: b in Mask(m.name);
    }
  }

  /** The first table entry a text matches, ignoring case. */
  function Find(e: bytes, i: nat): Option<Name>
    decreases |TABLE| - i, e
  {
    if i >= |TABLE| then None
    else if EqIgnoreCase(Text(TABLE[i]), e) then Some(TABLE[i])
    else Find(e, i + 1)
  }

  function OneStrToEvent(e: bytes): Meaning {
    if e == [] then Nothing
    else match Find(e, 0)
      case Some(n) => Event(n)
      case None => Stranger
  }

  function Place(n: Name): nat {
    match n
    case ACCESS => 0 case MODIFY => 1 case ATTRIB => 2 case CLOSE_WRITE => 3
    case CLOSE_NOWRITE => 4 case OPEN => 5 case MOVED_FROM => 6 case MOVED_TO => 7
    case CREATE => 8 case DELETE => 9 case DELETE_SELF => 10 case UNMOUNT => 11
    case Q_OVERFLOW => 12 case IGNORED => 13 case CLOSE => 14 case MOVE_SELF => 15
    case MOVE => 16 case ISDIR => 17 case ONESHOT => 18 case ALL_EVENTS => 19
  }

  lemma TableHasEveryName(n: Name)
    ensures Place(n) < |TABLE| && TABLE[Place(n)] == n
  {
  }

  lemma {:induction false} FindFindsTheName(e: bytes, i: nat, n: Name)
    requires EqIgnoreCase(Text(n), e) && i <= Place(n)
    ensures Find(e, i) == Some(n)
    decreases |TABLE| - i, e
  {
    TableHasEveryName(n);
    if EqIgnoreCase(Text(TABLE[i]), e) {
      SameTextSameName(TABLE[i], n, e);
    } else {
      FindFindsTheName(e, i + 1, n);
    }
  }

  /** Any spelling of a name, in upper or lower case, means its mask. */
  lemma EverySpellingIsKnown(n: Name, e: bytes)
    requires EqIgnoreCase(Text(n), e)
    ensures OneStrToEvent(e) == Event(n)
  {
    FindFindsTheName(e, 0, n);
  }

  lemma {:induction false} FindIsAMatch(e: bytes, i: nat)
    ensures Find(e, i).Some? ==> EqIgnoreCase(Text(Find(e, i).value), e)
    decreases |TABLE| - i, e
  {
    if i < |TABLE| && !EqIgnoreCase(Text(TABLE[i]), e) { FindIsAMatch(e, i + 1); }
  }

  /** Nothing longer than the longest name, and nothing that starts otherwise, is known. */
  lemma StrangersAreUnknown(e: bytes)
    requires |e| > 13 || (e != [] && !IsWordByte(Upper(e[0])))
    ensures OneStrToEvent(e) == Stranger
  {
    FindIsAMatch(e, 0);
  }

  // ---------------------------------------------------------------- elements

  /** The position of the first separator, or the length. */
  function IndexOf(s: bytes, sep: byte): (p: nat)
    ensures p <= |s|
  {
    if s == [] || s[0] == sep then 0 else 1 + IndexOf(s[1..], sep)
  }

  lemma {:induction false} IndexOfFinds(s: bytes, sep: byte)
    ensures var p := IndexOf(s, sep); sep !in s[..p] && (p < |s| ==> s[p] == sep)
  {
    if s != [] && s[0] != sep {
      IndexOfFinds(s[1..], sep);
      var p := IndexOf(s, sep);
      assert s[..p] == [s[0]] + s[1..][..p - 1];
    }
  }

  lemma {:induction false} IndexOfIs(s: bytes, sep: byte, p: nat)
    requires p <= |s| && sep !in s[..p] && (p < |s| ==> s[p] == sep)
    ensures IndexOf(s, sep) == p
  {
    if p > 0 {
      assert s[0] == s[..p][0] && s[1..][..p - 1] == s[..p][1..];
      IndexOfIs(s[1..], sep, p - 1);
    }
  }

  function Elements(s: bytes, sep: byte): (es: seq<bytes>)
    ensures |es| > 0
    decreases |s|
  {
    var p := IndexOf(s, sep);
    if p == |s| then [s] else [s[..p]] + Elements(s[p + 1..], sep)
  }

  function Meanings(es: seq<bytes>): seq<Meaning> {
    if es == [] then [] else [OneStrToEvent(es[0])] + Meanings(es[1..])
  }

  datatype Parsed = Bad(meaning: Meaning) | Good(names: seq<Name>)

  /** All the names, or the first element that is not a name. */
  function Gather(ms: seq<Meaning>): Parsed {
    if ms == [] then Good([])
    else if !ms[0].Event? then Bad(ms[0])
    else Prepend([ms[0].name], Gather(ms[1..]))
  }

  function Prepend(names: seq<Name>, p: Parsed): Parsed {
    if p.Good? then Good(names + p.names) else p
  }

  function MaskOf(names: seq<Name>): Word {
    if names == [] then {} else MaskOf(names[..|names| - 1]) + Mask(names[|names| - 1])
  }

  function Value(p: Parsed): Word {
    match p
    case Bad(m) => ToInt(m)
    case Good(names) => MaskOf(names)
  }

  /** Letters, '_' and NUL cannot separate names. */
  predicate ValidSep(sep: byte) {
    sep != 0 && sep != 95 && !(65 <= sep <= 90) && !(97 <= sep <= 122)
  }

  /** A C string ends at its first NUL. */
  function CString(s: bytes): bytes { s[..IndexOf(s, 0)] }

  function Parse(s: bytes, sep: byte): Parsed {
    Gather(Meanings(Elements(s, sep)))
  }

  function StrToEvent(event: Option<bytes>, sep: byte): Word {
    if !ValidSep(sep) then MINUS_ONE
    else if event.None? then {}
    else Value(Parse(CString(event.value), sep))
  }

  const EVENTSTR_SIZE := 4096

  method StrToEventSep(event: Option<bytes>, sep: byte) returns (ret: Word)
    ensures ret == StrToEvent(event, sep)
  {
    if sep == 0 || sep == 95 || 65 <= sep <= 90 || 97 <= sep <= 122 {
      return MINUS_ONE;
    }
    if event.None? {
      return {};
    }
    var s := CString(event.value);
    if s == [] {
      return {};
    }
    ret := ParseElements(s, sep);
  }

  method ParseElements(s: bytes, sep: byte) returns (ret: Word)
    requires s != []
    ensures ret == Value(Parse(s, sep))
  {
    ret := {};
    ghost var names: seq<Name> := [];
    var event1 := s;
    assert Prepend([], Parse(s, sep)) == Parse(s, sep);
    while event1 != []
      invariant event1 != []
      invariant ret == MaskOf(names)
      invariant GoesOn(s, sep, names, event1)
      decreases |event1|
    {
      var p := IndexOf(event1, sep);
      var len := if p < EVENTSTR_SIZE - 1 then p else EVENTSTR_SIZE - 1;
      TruncationIsHarmless(event1[..p], event1[..len]);
      ghost var m := OneStrToEvent(event1[..len]);
      GoesOnStep(s, sep, names, event1, m);
      OnlyBadMeaningsAreZeroOrMinusOne(m);
      var ret1 := ToInt(OneStrToEvent(event1[..len]));
      if ret1 == {} || ret1 == MINUS_ONE {
        return ret1;
      }
      MaskOfAppend(names, m.name);
      ret := ret + ret1;
      names := names + [m.name];
      if p == |event1| {
        return ret;
      }
      event1 := event1[p + 1..];
      if event1 == [] {
        GoesOnStep(s, sep, names, [], Nothing);
        return {};
      }
    }
  }

  /** Parsing the string is parsing the rest of it after these names. */
  ghost predicate GoesOn(s: bytes, sep: byte, names: seq<Name>, rest: bytes) {
    Parse(s, sep) == Prepend(names, Parse(rest, sep))
  }

  lemma GoesOnStep(s: bytes, sep: byte, names: seq<Name>, rest: bytes, m: Meaning)
    requires GoesOn(s, sep, names, rest) && m == OneStrToEvent(rest[..IndexOf(rest, sep)])
    ensures var p := IndexOf(rest, sep);
      if !m.Event? then Parse(s, sep) == Bad(m)
      else if p == |rest| then Parse(s, sep) == Good(names + [m.name])
      else GoesOn(s, sep, names + [m.name], rest[p + 1..])
  {
    ParseStep(rest, sep, names);
  }

  lemma MaskOfAppend(names: seq<Name>, n: Name)
    ensures MaskOf(names + [n]) == MaskOf(names) + Mask(n)
  {
    assert (names + [n])[..|names|] == names;
  }

  lemma GatherStep(ms: seq<Meaning>, names: seq<Name>)
    requires ms != []
    ensures Prepend(names, Gather(ms)) ==
        if !ms[0].Event? then Bad(ms[0]) else Prepend(names + [ms[0].name], Gather(ms[1..]))
  {
    if ms[0].Event? {
      var rest := Gather(ms[1..]);
      if rest.Good? { assert names + ([ms[0].name] + rest.names) == (names + [ms[0].name]) + rest.names; }
    }
  }

  /** One turn of the loop. */
  lemma ParseStep(s: bytes, sep: byte, names: seq<Name>)
    ensures var p := IndexOf(s, sep);
      var m := OneStrToEvent(s[..p]);
      Prepend(names, Parse(s, sep)) ==
        if !m.Event? then Bad(m)
        else if p == |s| then Good(names + [m.name])
        else Prepend(names + [m.name], Parse(s[p + 1..], sep))
  {
    FirstElement(s, sep);
    GatherStep(Meanings(Elements(s, sep)), names);
  }

  lemma FirstElement(s: bytes, sep: byte)
    ensures var p, ms := IndexOf(s, sep), Meanings(Elements(s, sep));
      ms != [] && ms[0] == OneStrToEvent(s[..p])
      && ms[1..] == if p == |s| then [] else Meanings(Elements(s[p + 1..], sep))
  {
    assert s[..|s|] == s;
  }

  /** Cutting an element at 4095 bytes never changes its meaning. */
  lemma TruncationIsHarmless(e: bytes, cut: bytes)
    requires cut == if |e| < EVENTSTR_SIZE - 1 then e else e[..EVENTSTR_SIZE - 1]
    ensures OneStrToEvent(cut) == OneStrToEvent(e)
  {
    if |e| >= EVENTSTR_SIZE - 1 {
      StrangersAreUnknown(e);
      StrangersAreUnknown(cut);
    }
  }

  /** The first element that is no name decides the result; without one all names count. */
  lemma {:induction false} FirstBadElementDecides(ms: seq<Meaning>, i: nat)
    requires i <= |ms| && forall k :: 0 <= k < i ==> ms[k].Event?
    ensures i < |ms| && !ms[i].Event? ==> Gather(ms) == Bad(ms[i])
    ensures i == |ms| ==> Gather(ms).Good? && |Gather(ms).names| == |ms|
    ensures i == |ms| ==> forall k :: 0 <= k < |ms| ==> Gather(ms).names[k] == ms[k].name
  {
    if i > 0 { FirstBadElementDecides(ms[1..], i - 1); }
  }

  // ---------------------------------------------------------------- joining

  lemma {:induction false} ElementsOfJoin(a: bytes, b: bytes, sep: byte)
    ensures Elements(a + [sep] + b, sep) == Elements(a, sep) + Elements(b, sep)
    decreases |a|
  {
    var p := IndexOf(a, sep);
    IndexOfFinds(a, sep);
    var s := a + [sep] + b;
    assert s[..p] == a[..p];
    IndexOfIs(s, sep, p);
    if p == |a| {
      assert s[p + 1..] == b && a[..p] == a;
    } else {
      assert s[p + 1..] == a[p + 1..] + [sep] + b;
      ElementsOfJoin(a[p + 1..], b, sep);
    }
  }

  lemma {:induction false} MeaningsAppend(a: seq<bytes>, b: seq<bytes>)
    ensures Meanings(a + b) == Meanings(a) + Meanings(b)
  {
    if a == [] {
      assert a + b == b;
    } else {
      assert (a + b)[1..] == a[1..] + b;
      MeaningsAppend(a[1..], b);
    }
  }

  lemma {:induction false} GatherAppend(a: seq<Meaning>, b: seq<Meaning>)
    ensures Gather(a + b) == if Gather(a).Good? then Prepend(Gather(a).names, Gather(b)) else Gather(a)
  {
    if a == [] {
      assert a + b == b;
      if Gather(b).Good? { assert [] + Gather(b).names == Gather(b).names; }
    } else {
      assert (a + b)[1..] == a[1..] + b && (a + b)[0] == a[0];
      GatherAppend(a[1..], b);
      var (x, y) := (Gather(a[1..]), Gather(b));
      if a[0].Event? && x.Good? && y.Good? {
        assert [a[0].name] + (x.names + y.names) == ([a[0].name] + x.names) + y.names;
      }
    }
  }

  lemma {:induction false} MaskOfUnion(a: seq<Name>, b: seq<Name>)
    ensures MaskOf(a + b) == MaskOf(a) + MaskOf(b)
  {
    if b == [] {
      assert a + b == a;
    } else {
      assert (a + b)[..|a + b| - 1] == a + b[..|b| - 1];
      MaskOfUnion(a, b[..|b| - 1]);
    }
  }

  lemma ParseOfJoin(a: bytes, b: bytes, sep: byte)
    ensures Parse(a + [sep] + b, sep) ==
      if Parse(a, sep).Good? then Prepend(Parse(a, sep).names, Parse(b, sep)) else Parse(a, sep)
  {
    ElementsOfJoin(a, b, sep);
    MeaningsAppend(Elements(a, sep), Elements(b, sep));
    GatherAppend(Meanings(Elements(a, sep)), Meanings(Elements(b, sep)));
  }

  /** Joining two event strings adds up their masks when both are accepted; otherwise the
      first one that is not decides. */
  lemma JoinedStringsAddUp(a: bytes, b: bytes, sep: byte)
    requires ValidSep(sep) && 0 !in a && 0 !in b
    ensures var (pa, pb) := (Parse(a, sep), Parse(b, sep));
      StrToEvent(Some(a + [sep] + b), sep) ==
        if pa.Bad? then StrToEvent(Some(a), sep)
        else if pb.Bad? then StrToEvent(Some(b), sep)
        else StrToEvent(Some(a), sep) + StrToEvent(Some(b), sep)
  {
    var s := a + [sep] + b;
    NoNulIsWhole(a);
    NoNulIsWhole(b);
    NoNulIsWhole(s);
    ParseOfJoin(a, b, sep);
    var (pa, pb) := (Parse(a, sep), Parse(b, sep));
    if pa.Good? && pb.Good? { MaskOfUnion(pa.names, pb.names); }
  }

  lemma NoNulIsWhole(s: bytes)
    requires 0 !in s
    ensures CString(s) == s
  {
    assert s[..|s|] == s;
    IndexOfIs(s, 0, |s|);
  }

  // ---------------------------------------------------------------- the printer

  /** The names among the first k whose bits a mask meets. */
  function Printed(w: Word, k: nat): seq<Name>
    requires k <= |NAMES|
    decreases k, w
  {
    if k == 0 then []
    else Printed(w, k - 1) + if Has(w, Mask(NAMES[k - 1])) then [NAMES[k - 1]] else []
  }

  /** A NUL separator writes nothing. */
  function Separator(sep: byte): bytes { if sep == 0 then [] else [sep] }

  function Piece(n: Name, sep: byte): bytes { Separator(sep) + Text(n) }

  /** Every name with a separator before it. */
  function Joined(names: seq<Name>, sep: byte): bytes {
    if names == [] then [] else Piece(names[0], sep) + Joined(names[1..], sep)
  }

  function HexDigit(d: int): byte
    requires 0 <= d < 16
  {
    if d < 10 then (48 + d) as byte else (87 + d) as byte
  }

  function HexDigits(v: nat, n: nat): (r: bytes)
    ensures |r| == n && 0 !in r
  {
    if n == 0 then [] else HexDigits(v / 16, n - 1) + [HexDigit(v % 16)]
  }

  function Hex(v: u32): (r: bytes)
    ensures |r| == 10 && 0 !in r
  {
    [48, 120] + HexDigits(v, 8)
  }

  /** The text of a mask: what the buffer holds after its first byte. */
  function MaskText(v: u32, sep: byte): bytes {
    var body := Joined(Printed(BitsOf(v), |NAMES|), sep);
    if body == [] then Hex(v) else body[1..]
  }

  lemma {:induction false} JoinedSize(names: seq<Name>, sep: byte)
    ensures |names| <= |Joined(names, sep)| <= 14 * |names|
    ensures 0 !in Joined(names, sep)
  {
    if names != [] {
      JoinedSize(names[1..], sep);
      assert 0 !in Piece(names[0], sep);
    }
  }

  lemma {:induction false} PrintedSize(w: Word, k: nat)
    requires k <= |NAMES|
    ensures |Printed(w, k)| <= k
    decreases k
  {
    if k > 0 { PrintedSize(w, k - 1); }
  }

  const EVSTR_SIZE := 1024

  function StrLen(s: bytes): nat { IndexOf(s, 0) }

  /** `buf` holds the C string s. */
  predicate HoldsString(buf: bytes, s: bytes) {
    |s| < |buf| && 0 !in s && buf[..|s|] == s && buf[|s|] == 0
  }

  lemma StrLenOfString(buf: bytes, s: bytes)
    requires HoldsString(buf, s)
    ensures StrLen(buf) == |s| && CString(buf) == s
  {
    IndexOfIs(buf, 0, |s|);
  }

  method AppendByte(buf: array<byte>, b: byte, ghost s: bytes)
    requires HoldsString(buf[..], s) && |s| + 1 < buf.Length
    modifies buf
    ensures HoldsString(buf[..], s + Separator(b))
  {
    StrLenOfString(buf[..], s);
    var l := StrLen(buf[..]);
    buf[l] := b;
    buf[l + 1] := 0;
    assert buf[..l] == s;
    assert buf[..l + 1] == s + [b];
  }

  method AppendBytes(buf: array<byte>, name: bytes, ghost s: bytes)
    requires HoldsString(buf[..], s) && 0 !in name && |s| + |name| < buf.Length
    modifies buf
    ensures HoldsString(buf[..], s + name)
  {
    StrLenOfString(buf[..], s);
    var l := StrLen(buf[..]);
    forall i | 0 <= i < |name| {
      buf[l + i] := name[i];
    }
    buf[l + |name|] := 0;
    assert buf[..l + |name|] == s + name;
  }

  method AppendSeparated(buf: array<byte>, n: Name, sep: byte, ghost names: seq<Name>)
    requires buf.Length == EVSTR_SIZE && |names| < |NAMES|
    requires HoldsString(buf[..], Joined(names, sep))
    modifies buf
    ensures HoldsString(buf[..], Joined(names + [n], sep))
  {
    JoinedSize(names, sep);
    AppendByte(buf, sep, Joined(names, sep));
    AppendBytes(buf, Text(n), Joined(names, sep) + Separator(sep));
    JoinedAppend(names, n, sep);
    Associates(Joined(names, sep), Separator(sep), Text(n));
  }

  method WriteHex(buf: array<byte>, events: u32, sep: byte)
    requires buf.Length == EVSTR_SIZE
    modifies buf
    ensures CString(buf[1..]) == Hex(events)
  {
    var s := Hex(events);
    buf[0] := sep;
    forall i | 0 <= i < |s| {
      buf[1 + i] := s[i];
    }
    buf[1 + |s|] := 0;
    assert buf[1..][..|s|] == s;
    StrLenOfString(buf[1..], s);
  }

  method Clear(evstr: array<byte>)
    requires evstr.Length == EVSTR_SIZE
    modifies evstr
    ensures HoldsString(evstr[..], [])
  {
    evstr[0] := 0;
    evstr[1] := 0;
  }

  method AppendIfSet(evstr: array<byte>, w: Word, k: nat, sep: byte)
    requires evstr.Length == EVSTR_SIZE && k < |NAMES|
    requires HoldsString(evstr[..], Joined(Printed(w, k), sep))
    modifies evstr
    ensures HoldsString(evstr[..], Joined(Printed(w, k + 1), sep))
  {
    PrintedSize(w, k);
    PrintedStep(w, k);
    if Has(w, Mask(NAMES[k])) {
      AppendSeparated(evstr, NAMES[k], sep, Printed(w, k));
    }
  }

  method AppendNames(evstr: array<byte>, w: Word, sep: byte)
    requires evstr.Length == EVSTR_SIZE
    modifies evstr
    ensures HoldsString(evstr[..], Joined(Printed(w, |NAMES|), sep))
  {
    Clear(evstr);
    for k := 0 to |NAMES|
      invariant HoldsString(evstr[..], Joined(Printed(w, k), sep))
    {
      AppendIfSet(evstr, w, k, sep);
    }
  }

  /** Build the text of a mask in the buffer; the string starts at its second byte. */
  method EventToStrSep(evstr: array<byte>, events: u32, sep: byte)
    requires evstr.Length == EVSTR_SIZE
    modifies evstr
    ensures CString(evstr[1..]) == MaskText(events, sep)
  {
    AppendNames(evstr, BitsOf(events), sep);
    ghost var body := Joined(Printed(BitsOf(events), |NAMES|), sep);
    if evstr[0] == 0 {
      assert body == [];
      WriteHex(evstr, events, sep);
    } else {
      assert body[0] == evstr[0];
      TailHoldsTail(evstr[..], body);
      assert evstr[..][1..] == evstr[1..];
    }
  }

  lemma PrintedStep(w: Word, k: nat)
    requires k < |NAMES|
    ensures Printed(w, k + 1) == if Has(w, Mask(NAMES[k])) then Printed(w, k) + [NAMES[k]] else Printed(w, k)
  {
  }

  lemma TailHoldsTail(buf: bytes, s: bytes)
    requires HoldsString(buf, s) && s != []
    ensures CString(buf[1..]) == s[1..]
  {
    assert buf[1..][..|s| - 1] == buf[..|s|][1..];
    StrLenOfString(buf[1..], s[1..]);
  }

  lemma {:induction false} JoinedAppend(names: seq<Name>, n: Name, sep: byte)
    ensures Joined(names + [n], sep) == Joined(names, sep) + Piece(n, sep)
  {
    if names == [] {
      assert names + [n] == [n] && [n][1..] == [];
      assert Piece(n, sep) + [] == [] + Piece(n, sep);
    } else {
      assert (names + [n])[1..] == names[1..] + [n];
      JoinedAppend(names[1..], n, sep);
      Associates(Piece(names[0], sep), Joined(names[1..], sep), Piece(n, sep));
    }
  }

  // ---------------------------------------------------------------- printing, then parsing

  lemma NamesHoldNoSeparator(n: Name, sep: byte)
    requires ValidSep(sep)
    ensures sep !in Text(n) && 0 !in Text(n)
  {
  }

  lemma FirstNameEnds(t: bytes, rest: bytes, sep: byte)
    requires sep !in t && (rest != [] ==> rest[0] == sep)
    ensures IndexOf(t + rest, sep) == |t| && (t + rest)[..|t|] == t
  {
    IndexOfIs(t + rest, sep, |t|);
  }

  lemma TailOfPiece(sep: byte, t: bytes, rest: bytes)
    ensures var s := ([sep] + t) + rest; s[0] == sep && s[1..] == t + rest
  {
  }

  lemma JoinedTail(names: seq<Name>, sep: byte)
    requires sep != 0 && names != []
    ensures var s := Joined(names, sep);
      s != [] && s[0] == sep && s[1..] == Text(names[0]) + Joined(names[1..], sep)
  {
    TailOfPiece(sep, Text(names[0]), Joined(names[1..], sep));
  }

  lemma ParseFirst(n: Name, t: bytes, rest: bytes, sep: byte)
    requires OneStrToEvent(t) == Event(n) && sep !in t && (rest != [] ==> rest[0] == sep)
    ensures Parse(t + rest, sep) == if rest == [] then Good([n]) else Prepend([n], Parse(rest[1..], sep))
  {
    FirstNameEnds(t, rest, sep);
    ParseStep(t + rest, sep, []);
    PrependNothing(Parse(t + rest, sep));
    assert [] + [n] == [n];
    if rest != [] { assert (t + rest)[|t| + 1..] == rest[1..]; }
  }

  lemma JoinedParseStep(names: seq<Name>, sep: byte)
    requires ValidSep(sep) && names != []
    ensures var rest := Joined(names[1..], sep);
      && Joined(names, sep) != []
      && (names[1..] == [] <==> rest == [])
      && Parse(Joined(names, sep)[1..], sep) ==
           if rest == [] then Good([names[0]]) else Prepend([names[0]], Parse(rest[1..], sep))
  {
    var n := names[0];
    JoinedTail(names, sep);
    if names[1..] != [] { JoinedTail(names[1..], sep); }
    EverySpellingIsKnown(n, Text(n));
    NamesHoldNoSeparator(n, sep);
    ParseFirst(n, Text(n), Joined(names[1..], sep), sep);
  }

  /** The parser reads back exactly the names the printer wrote. */
  lemma {:induction false} JoinedParses(names: seq<Name>, sep: byte)
    requires ValidSep(sep) && names != []
    ensures Joined(names, sep) != [] && Parse(Joined(names, sep)[1..], sep) == Good(names)
  {
    JoinedParseStep(names, sep);
    assert [names[0]] + names[1..] == names;
    if names[1..] != [] {
      JoinedParses(names[1..], sep);
    }
  }

  lemma PrependNothing(p: Parsed)
    ensures Prepend([], p) == p
  {
    if p.Good? { assert [] + p.names == p.names; }
  }

  const KNOWN: Word := {0, 1, 2, 3, 4, 5, 6, 7, 8, 9, 10, 11, 13, 14, 15, 30, 31}
  const CLOSE_BITS: Word := {3, 4}

  /** The bits a mask is read back as: the known ones, both close bits if either was set. */
  function ReadBack(w: Word): Word {
    w * KNOWN + if Has(w, CLOSE_BITS) then CLOSE_BITS else {}
  }

  /** The bits of the first k printed names. */
  function Covered(k: nat): Word
    requires k <= |NAMES|
  {
    if k == 0 then {} else Covered(k - 1) + Mask(NAMES[k - 1])
  }

  /** The bits of a set that meet one more mask. */
  lemma CoverStep(w: Word, covered: Word, m: Word)
    ensures w * (covered + m) == w * covered + w * m
  {
  }

  lemma MaskIsBitOrClose(n: Name, w: Word)
    requires n != MOVE && n != ALL_EVENTS
    ensures var m := if Has(w, Mask(n)) then Mask(n) else {};
      if n == CLOSE then m == if Has(w, CLOSE_BITS) then CLOSE_BITS else {}
      else m == w * Mask(n)
  {
    if n != CLOSE {
      var b :| b in Mask(n);
      assert Mask(n) == {b};
      if b in w { assert b in w * Mask(n); }
    }
  }

  function CloseSeen(w: Word, k: nat): Word {
    if k > 14 && Has(w, CLOSE_BITS) then CLOSE_BITS else {}
  }

  lemma NameAt(k: nat)
    requires k < |NAMES|
    ensures NAMES[k] != MOVE && NAMES[k] != ALL_EVENTS && (NAMES[k] == CLOSE <==> k == 14)
  {
  }

  lemma PrintedMaskStep(w: Word, k: nat)
    requires k < |NAMES|
    ensures MaskOf(Printed(w, k + 1)) == MaskOf(Printed(w, k)) + if Has(w, Mask(NAMES[k])) then Mask(NAMES[k]) else {}
  {
    PrintedStep(w, k);
    if Has(w, Mask(NAMES[k])) { MaskOfAppend(Printed(w, k), NAMES[k]); }
  }

  lemma CloseAddsNothingNew(w: Word)
    ensures var seen := if Has(w, CLOSE_BITS) then CLOSE_BITS else {};
      w * CLOSE_BITS + seen == seen
  {
  }

  lemma {:induction false} MaskOfPrinted(w: Word, k: nat)
    requires k <= |NAMES|
    ensures MaskOf(Printed(w, k)) == w * Covered(k) + CloseSeen(w, k)
    decreases k
  {
    if k > 0 {
      MaskOfPrinted(w, k - 1);
      PrintedMaskStep(w, k - 1);
      NameAt(k - 1);
      MaskIsBitOrClose(NAMES[k - 1], w);
      CoverStep(w, Covered(k - 1), Mask(NAMES[k - 1]));
      CloseAddsNothingNew(w);
    }
  }

  lemma {:induction false} CoveredIsWithinKnown(k: nat)
    requires k <= |NAMES|
    ensures Covered(k) <= KNOWN
    ensures forall j :: 0 <= j < k ==> Mask(NAMES[j]) <= Covered(k)
  {
    if k > 0 {
      CoveredIsWithinKnown(k - 1);
      NameAt(k - 1);
      PrintedMasksAreKnown(NAMES[k - 1]);
    }
  }

  lemma PrintedMasksAreKnown(n: Name)
    requires n != MOVE && n != ALL_EVENTS
    ensures Mask(n) <= KNOWN
  {
  }

  lemma KnownBitsHaveNames(b: nat) returns (j: nat)
    requires b in KNOWN
    ensures j < |NAMES| && b in Mask(NAMES[j])
  {
    j := if b <= 10 then b else if b == 11 then 15 else if b <= 15 then b - 2 else b - 14;
  }

  lemma CoveredIsKnown()
    ensures Covered(|NAMES|) == KNOWN
  {
    CoveredIsWithinKnown(|NAMES|);
    forall b | b in KNOWN ensures b in Covered(|NAMES|) {
      var j := KnownBitsHaveNames(b);
    }
  }

  lemma MasksAreNonempty(n: Name)
    ensures Mask(n) != {}
  {
    var b := match n
      case ACCESS => 0 case MODIFY => 1 case ATTRIB => 2 case CLOSE_WRITE => 3 case CLOSE_NOWRITE => 4
      case OPEN => 5 case MOVED_FROM => 6 case MOVED_TO => 7 case CREATE => 8 case DELETE => 9
      case DELETE_SELF => 10 case UNMOUNT => 13 case Q_OVERFLOW => 14 case IGNORED => 15 case CLOSE => 3
      case MOVE_SELF => 11 case MOVE => 6 case ISDIR => 30 case ONESHOT => 31 case ALL_EVENTS => 0;
    assert b in Mask(n);
  }

  lemma SomeMaskBits(names: seq<Name>)
    ensures names == [] <==> MaskOf(names) == {}
  {
    if names != [] {
      MasksAreNonempty(names[|names| - 1]);
    }
  }

  /** What is printed, and that it is something exactly when a known bit is set. */
  lemma PrintedBits(w: Word)
    ensures MaskOf(Printed(w, |NAMES|)) == ReadBack(w)
    ensures Printed(w, |NAMES|) == [] <==> !Has(w, KNOWN)
  {
    CoveredIsKnown();
    MaskOfPrinted(w, |NAMES|);
    SomeMaskBits(Printed(w, |NAMES|));
    if Has(w, CLOSE_BITS) {
      var b :| b in w * CLOSE_BITS;
      assert b in w * KNOWN;
    }
  }

  lemma HexIsNotAName(v: u32, sep: byte)
    requires ValidSep(sep)
    ensures Parse(Hex(v), sep) == Bad(if sep == 48 then Nothing else Stranger)
  {
    var s := Hex(v);
    var p := IndexOf(s, sep);
    ParseStep(s, sep, []);
    PrependNothing(Parse(s, sep));
    if sep != 48 {
      IndexOfFinds(s, sep);
      assert s[0] == 48 && p > 0 && s[..p][0] == 48;
      StrangersAreUnknown(s[..p]);
    }
  }

  /** Printing a mask and parsing the text yields its known bits, with both close bits set if
      either was; a mask without known bits prints as a number, which no parse accepts (it
      yields 0 instead of -1 only if '0' itself separates). */
  lemma PrintThenParse(v: u32, sep: byte)
    requires ValidSep(sep)
    ensures StrToEvent(Some(MaskText(v, sep)), sep) ==
      if Has(BitsOf(v), KNOWN) then ReadBack(BitsOf(v)) else if sep == 48 then {} else MINUS_ONE
  {
    var names := Printed(BitsOf(v), |NAMES|);
    var body := Joined(names, sep);
    PrintedBits(BitsOf(v));
    JoinedSize(names, sep);
    NoNulIsWhole(MaskText(v, sep));
    if names != [] {
      JoinedParses(names, sep);
    } else {
      HexIsNotAName(v, sep);
    }
  }

  /** The mask 0x1000, a bit without a name: its text is rejected, unless '0' separates. */
  lemma UnnamedBit()
    ensures StrToEvent(Some(MaskText(0x1000, COMMA)), COMMA) == MINUS_ONE
    ensures StrToEvent(Some(MaskText(0x1000, 48)), 48) == {}
  {
    assert Pow2(12) == 0x1000;
    PowerOfTwo(12, 0);
    PrintThenParse(0x1000, COMMA);
    PrintThenParse(0x1000, 48);
  }

  lemma {:induction false} PowerOfTwo(j: nat, i: nat)
    ensures Digits(Pow2(j), i) == {i + j}
  {
    if j > 0 { PowerOfTwo(j - 1, i + 1); }
  }

  /** The text, its leading separator and its NUL always fit the buffer. */
  lemma TextFits(v: u32, sep: byte)
    ensures 1 <= |MaskText(v, sep)| && |MaskText(v, sep)| + 2 <= 254 < EVSTR_SIZE
    ensures 0 !in MaskText(v, sep)
  {
    var names := Printed(BitsOf(v), |NAMES|);
    PrintedSize(BitsOf(v), |NAMES|);
    JoinedSize(names, sep);
  }
}
