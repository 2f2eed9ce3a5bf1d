/** What formats mean: a format is spelled out of pieces, and what the formatter leaves in the buffer
    is what the pieces stand for, one after the other. */
module Formats {
  import opened Bytes
  import opened Formatter
  import MaskStrings
  import EventNames

  datatype Piece =
    | Plain(b: byte)
    | Percent | Nul | Newline
    | Directory | File | Cookie
    | Events | EventsBy(sep: byte)
    | Now
    | Other(c: byte)

  /** The letters that mean something on their own: % 0 n w f c e T. */
  predicate IsLetter(c: byte) { c in {37, 48, 110, 119, 102, 99, 101, 84} }

  predicate IsPiece(p: Piece) {
    match p
    case Plain(b) => b != 37
    case EventsBy(sep) => !IsLetter(sep)
    case Other(c) => !IsLetter(c)
    case _ => true
  }

  function Spelled(p: Piece): bytes {
    match p
    case Plain(b) => [b]
    case Percent => [37, 37]
    case Nul => [37, 48]
    case Newline => [37, 110]
    case Directory => [37, 119]
    case File => [37, 102]
    case Cookie => [37, 99]
    case Events => [37, 101]
    case EventsBy(sep) => [37, sep, 101]
    case Now => [37, 84]
    case Other(c) => [37, c]
  }

  function Meaning(p: Piece, e: Subject): bytes
    requires ValidSubject(e)
  {
    match p
    case Plain(b) => [b]
    case Percent => [37]
    case Nul => [0]
    case Newline => [10]
    case Directory => e.filename[..e.dirnamelen]
    case File => e.eventname
    case Cookie => HexNumber(e.cookie)
    case Events => MaskStrings.MaskText(e.mask, 44)
    case EventsBy(sep) => MaskStrings.MaskText(e.mask, sep)
    case Now => if e.time.Formatted? then e.time.text else []
    case Other(c) => [37, c]
  }

  /** Pieces that can stand one behind the other: "%q" with an 'e' behind it would be one piece. */
  predicate ArePieces(ps: seq<Piece>) {
    && (forall i :: 0 <= i < |ps| ==> IsPiece(ps[i]))
    && (forall i :: 0 <= i < |ps| - 1 && ps[i].Other? ==> ps[i + 1] != Plain(101))
  }

  function Format(ps: seq<Piece>): bytes {
    if ps == [] then [] else Spelled(ps[0]) + Format(ps[1..])
  }

  function Text(ps: seq<Piece>, e: Subject): bytes
    requires ValidSubject(e)
  {
    if ps == [] then [] else Meaning(ps[0], e) + Text(ps[1..], e)
  }

  lemma FirstByte(ps: seq<Piece>)
    requires ps != []
    ensures |Format(ps)| > 0 && (Format(ps)[0] == 37 || ps[0] == Plain(Format(ps)[0]))
  {
  }

  /** The piece is spelled at a place, and what follows does not change it. */
  predicate IsSpelledAt(fmt: bytes, i: nat, p: Piece) {
    && i + |Spelled(p)| <= |fmt| && IsPiece(p)
    && (forall k :: 0 <= k < |Spelled(p)| ==> fmt[i + k] == Spelled(p)[k])
    && (p.Other? && i + 2 < |fmt| ==> fmt[i + 2] != 101)
  }

  lemma Behind(fmt: bytes, i: nat, s: bytes, rest: bytes)
    requires i <= |fmt| && fmt[i..] == s + rest
    ensures i + |s| <= |fmt| && fmt[i + |s|..] == rest
    ensures forall k :: 0 <= k < |s| ==> fmt[i + k] == s[k]
    ensures rest != [] ==> i + |s| < |fmt| && fmt[i + |s|] == rest[0]
  {
    assert fmt[i + |s|..] == fmt[i..][|s|..];
    forall k | 0 <= k < |s| ensures fmt[i + k] == s[k] { assert fmt[i + k] == fmt[i..][k]; }
    if rest != [] { assert fmt[i + |s|] == fmt[i..][|s|]; }
  }

  lemma SpelledFirst(fmt: bytes, i: nat, s: bytes, more: bytes, tail: bytes, all: bytes)
    requires i <= |fmt| && all == s + more && fmt[i..] == all + tail
    ensures i + |s| <= |fmt| && fmt[i + |s|..] == more + tail
    ensures forall k :: 0 <= k < |s| ==> fmt[i + k] == s[k]
    ensures more + tail != [] ==> i + |s| < |fmt| && fmt[i + |s|] == (more + tail)[0]
  {
    Associates(s, more, tail);
    Behind(fmt, i, s, more + tail);
  }

  lemma PieceIsSpelled(fmt: bytes, i: nat, ps: seq<Piece>, tail: bytes)
    requires ps != [] && ArePieces(ps) && i <= |fmt| && fmt[i..] == Format(ps) + tail
    requires tail != [] ==> tail[0] == 37
    ensures IsSpelledAt(fmt, i, ps[0]) && fmt[i + |Spelled(ps[0])|..] == Format(ps[1..]) + tail
  {
    var s := Spelled(ps[0]);
    SpelledFirst(fmt, i, s, Format(ps[1..]), tail, Format(ps));
    if |ps| > 1 {
      FirstByte(ps[1..]);
      assert fmt[i + |s|] == Format(ps[1..])[0];
    }
  }

  lemma TokenOfPiece(fmt: bytes, i: nat, p: Piece, e: Subject)
    requires IsSpelledAt(fmt, i, p) && (p == Now ==> !e.time.Invalid?)
    ensures TokenLength(fmt, i) == |Spelled(p)| && !TokenFails(fmt, i, e)
  {
    assert fmt[i] == Spelled(p)[0];
    if |Spelled(p)| > 1 { assert fmt[i + 1] == Spelled(p)[1]; }
    if |Spelled(p)| > 2 { assert fmt[i + 2] == Spelled(p)[2]; }
  }

  lemma TextOfPiece(fmt: bytes, i: nat, p: Piece, e: Subject, room: int)
    requires IsSpelledAt(fmt, i, p) && ValidSubject(e) && (p == Now ==> !e.time.Invalid?)
    requires |Meaning(p, e)| <= room
    ensures !TokenFails(fmt, i, e) && TokenText(fmt, i, e, room) == Meaning(p, e)
  {
    hide MaskStrings.MaskText;
    TokenOfPiece(fmt, i, p, e);
    assert fmt[i] == Spelled(p)[0];
    if |Spelled(p)| > 1 { assert fmt[i + 1] == Spelled(p)[1]; }
    if |Spelled(p)| > 2 { assert fmt[i + 2] == Spelled(p)[2]; }
  }

  lemma StepOver(fmt: bytes, i: nat, e: Subject, size: int, ind: nat, t: bytes)
    requires ValidSubject(e) && i < |fmt| && !TokenFails(fmt, i, e) && t == TokenText(fmt, i, e, size - ind)
    ensures Expansion(fmt, i, e, size, ind) == t + Expansion(fmt, i + TokenLength(fmt, i), e, size, ind + |t|)
    ensures WellFormed(fmt, i, e) <==> WellFormed(fmt, i + TokenLength(fmt, i), e)
  {
    hide MaskStrings.MaskText;
  }

  lemma TextStep(ps: seq<Piece>, e: Subject, t: bytes)
    requires ps != [] && ArePieces(ps) && ValidSubject(e) && t == Meaning(ps[0], e)
    ensures Text(ps, e) == t + Text(ps[1..], e) && ArePieces(ps[1..])
  {
    hide MaskStrings.MaskText;
  }

  lemma {:induction false} ExpansionIsText(fmt: bytes, i: nat, ps: seq<Piece>, e: Subject, size: int, ind: nat)
    requires ArePieces(ps) && i <= |fmt| && fmt[i..] == Format(ps) && ValidSubject(e)
    requires Now in ps ==> !e.time.Invalid?
    requires ind + |Text(ps, e)| <= size
    ensures Expansion(fmt, i, e, size, ind) == Text(ps, e) && WellFormed(fmt, i, e)
    decreases |ps|
  {
    hide MaskStrings.MaskText, Meaning, TokenText, Spelled;
    if ps == [] {
      assert i == |fmt|;
    } else {
      var t := Meaning(ps[0], e);
      TextStep(ps, e, t);
      assert Format(ps) + [] == Format(ps) && Format(ps[1..]) + [] == Format(ps[1..]);
      PieceIsSpelled(fmt, i, ps, []);
      TokenOfPiece(fmt, i, ps[0], e);
      TextOfPiece(fmt, i, ps[0], e, size - ind);
      StepOver(fmt, i, e, size, ind, t);
      ExpansionIsText(fmt, i + TokenLength(fmt, i), ps[1..], e, size, ind + |t|);
    }
  }

  /** A format spelled out of pieces leaves what they stand for, if that fits, and reports its
      length. */
  lemma FormatMeansItsPieces(before: bytes, buf: bytes, ps: seq<Piece>, e: Subject, size: int)
    requires ArePieces(ps) && ValidSubject(e) && (Now in ps ==> !e.time.Invalid?)
    requires |before| == |buf| == MAX_STRLEN && |Text(ps, e)| < size <= MAX_STRLEN
    requires Shows(before, buf, Format(ps), e, size)
    ensures StopAt(Format(ps), 0, e, size, 0) == Done(|Text(ps, e)|) && buf[..|Text(ps, e)|] == Text(ps, e)
  {
    hide MaskStrings.MaskText;
    var (fmt, text) := (Format(ps), Text(ps, e));
    assert fmt[0..] == fmt;
    ExpansionIsText(fmt, 0, ps, e, size, 0);
    ShortExpansionsAreComplete(fmt, e, size);
  }

  lemma StopOver(fmt: bytes, i: nat, e: Subject, size: int, ind: nat, t: bytes)
    requires ValidSubject(e) && i < |fmt| && !TokenFails(fmt, i, e) && t == TokenText(fmt, i, e, size - ind)
    requires ind < size - 1
    ensures StopAt(fmt, i, e, size, ind) == StopAt(fmt, i + TokenLength(fmt, i), e, size, ind + |t|)
  {
    hide MaskStrings.MaskText;
  }

  lemma {:induction false} WalksOver(fmt: bytes, i: nat, ps: seq<Piece>, tail: bytes, e: Subject, size: int, ind: nat)
    requires ArePieces(ps) && i <= |fmt| && fmt[i..] == Format(ps) + tail && ValidSubject(e)
    requires (Now in ps ==> !e.time.Invalid?) && (tail != [] ==> tail[0] == 37)
    requires ind + |Text(ps, e)| < size - 1
    ensures i + |Format(ps)| <= |fmt|
    ensures StopAt(fmt, i, e, size, ind) == StopAt(fmt, i + |Format(ps)|, e, size, ind + |Text(ps, e)|)
    decreases |ps|
  {
    hide MaskStrings.MaskText, Meaning, TokenText, Spelled;
    if ps != [] {
      var t := Meaning(ps[0], e);
      TextStep(ps, e, t);
      PieceIsSpelled(fmt, i, ps, tail);
      TokenOfPiece(fmt, i, ps[0], e);
      TextOfPiece(fmt, i, ps[0], e, size - ind);
      StopOver(fmt, i, e, size, ind, t);
      WalksOver(fmt, i + TokenLength(fmt, i), ps[1..], tail, e, size, ind + |t|);
    }
  }

  /** A format with a lone '%' at its end, or with `%T` while the time format is invalid, fails where
      that stands. */
  lemma FormatFails(ps: seq<Piece>, rest: bytes, e: Subject, size: int)
    requires ArePieces(ps) && ValidSubject(e) && (Now in ps ==> !e.time.Invalid?)
    requires rest == [] || (e.time.Invalid? && rest[0] == 84)
    requires |Text(ps, e)| < size - 1
    ensures StopAt(Format(ps) + [37] + rest, 0, e, size, 0) == Failed(|Text(ps, e)|)
  {
    hide MaskStrings.MaskText;
    var tail := [37] + rest;
    var fmt := Format(ps) + [37] + rest;
    assert fmt[0..] == Format(ps) + tail;
    WalksOver(fmt, 0, ps, tail, e, size, 0);
    assert fmt[|Format(ps)|] == 37;
    if rest != [] { assert fmt[|Format(ps)| + 1] == rest[0]; }
  }

  lemma PieceAt(ps: seq<Piece>, k: nat, e: Subject)
    requires k < |ps| && ValidSubject(e)
    ensures Format(ps[k..]) == Spelled(ps[k]) + Format(ps[k + 1..])
    ensures Text(ps[k..], e) == Meaning(ps[k], e) + Text(ps[k + 1..], e)
  {
    hide MaskStrings.MaskText;
    assert ps[k..][1..] == ps[k + 1..];
  }

  lemma SixPieces(ps: seq<Piece>, e: Subject)
    requires |ps| == 6 && ValidSubject(e)
    ensures Format(ps) == Spelled(ps[0]) + (Spelled(ps[1]) + (Spelled(ps[2]) + (Spelled(ps[3]) + (Spelled(ps[4])
                          + (Spelled(ps[5]) + [])))))
    ensures Text(ps, e) == Meaning(ps[0], e) + (Meaning(ps[1], e) + (Meaning(ps[2], e) + (Meaning(ps[3], e)
                           + (Meaning(ps[4], e) + (Meaning(ps[5], e) + [])))))
  {
    hide Spelled, Meaning;
    assert ps[0..] == ps;
    PieceAt(ps, 0, e);
    PieceAt(ps, 1, e);
    PieceAt(ps, 2, e);
    PieceAt(ps, 3, e);
    PieceAt(ps, 4, e);
    PieceAt(ps, 5, e);
  }

  /** The format of inotifywait unless told otherwise: "%w %,e %f" and a line feed. */
  const DEFAULT: seq<Piece> := [Directory, Plain(32), EventsBy(44), Plain(32), File, Plain(10)]

  lemma DefaultIsSpelled(ps: seq<Piece>, e: Subject)
    requires ps == DEFAULT && ValidSubject(e)
    ensures Format(ps) == [37, 119, 32, 37, 44, 101, 32, 37, 102, 10] && ArePieces(ps) && Now !in ps
  {
    hide MaskStrings.MaskText, Meaning;
    SixPieces(ps, e);
  }

  lemma DefaultMeans(ps: seq<Piece>, e: Subject, dir: bytes, events: bytes)
    requires ps == DEFAULT && ValidSubject(e)
    requires dir == e.filename[..e.dirnamelen] && events == MaskStrings.MaskText(e.mask, 44)
    ensures Text(ps, e) == dir + [32] + events + [32] + e.eventname + [10]
  {
    hide MaskStrings.MaskText;
    SixPieces(ps, e);
  }

  /** It gives the directory, the names of the events and the file, with blanks between them and a
      line feed behind. */
  lemma DefaultFormat(before: bytes, buf: bytes, fmt: bytes, e: Subject, size: int, text: bytes)
    requires ValidSubject(e) && |before| == |buf| == MAX_STRLEN && |text| < size <= MAX_STRLEN
    requires fmt == [37, 119, 32, 37, 44, 101, 32, 37, 102, 10] && Shows(before, buf, fmt, e, size)
    requires text == e.filename[..e.dirnamelen] + [32] + MaskStrings.MaskText(e.mask, 44) + [32] + e.eventname + [10]
    ensures StopAt(fmt, 0, e, size, 0) == Done(|text|) && buf[..|text|] == text
  {
    hide MaskStrings.MaskText;
    DefaultIsSpelled(DEFAULT, e);
    DefaultMeans(DEFAULT, e, e.filename[..e.dirnamelen], MaskStrings.MaskText(e.mask, 44));
    FormatMeansItsPieces(before, buf, DEFAULT, e, size);
  }

  /** A cookie is written in lower-case digits of its value, without leading zeros. */
  lemma {:induction false} CookieIsRead(v: nat)
    ensures EventNames.ReadHex(HexNumber(v)) == Some(v)
    ensures |HexNumber(v)| > 1 ==> HexNumber(v)[0] != 48
  {
    if v < 16 {
      assert HexNumber(v)[..0] == [];
      assert EventNames.ReadHex(HexNumber(v)[..0]) == Some(0);
    } else {
      CookieIsRead(v / 16);
      EventNames.ReadHexMore(HexNumber(v / 16), v % 16);
      if |HexNumber(v / 16)| == 1 { assert 1 <= v / 16 < 16; }
    }
  }
}
