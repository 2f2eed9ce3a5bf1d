/** The names of events, letter by letter and number by number, and how they are strung together. */
module EventNames {
  import opened Bytes
  import opened MaskStrings

  // ---------------------------------------------------------------- the table

  predicate IsAscii(s: string) { forall i :: 0 <= i < |s| ==> s[i] < 128 as char }

  function Ascii(s: string): (r: bytes)
    requires IsAscii(s)
    ensures |r| == |s|
  {
    seq(|s|, i requires 0 <= i < |s| => (s[i] as int) as byte)
  }

  lemma Twice(v: nat, i: nat)
    requires v > 0
    ensures Digits(2 * v, i) == Digits(v, i + 1)
  {
    assert 2 * v / 2 == v && 2 * v % 2 == 0;
  }

  lemma SingleBits()
    ensures BitsOf(0x1) == {0} && BitsOf(0x2) == {1} && BitsOf(0x4) == {2} && BitsOf(0x8) == {3}
    ensures BitsOf(0x10) == {4} && BitsOf(0x20) == {5} && BitsOf(0x40) == {6} && BitsOf(0x80) == {7}
    ensures BitsOf(0x100) == {8} && BitsOf(0x200) == {9} && BitsOf(0x400) == {10} && BitsOf(0x800) == {11}
    ensures BitsOf(0x2000) == {13} && BitsOf(0x4000) == {14} && BitsOf(0x8000) == {15}
  {
    for i := 0 to 16
      invariant forall j :: 0 <= j < i ==> BitsOfPower(j) == {j}
    {
      PowerOfTwo(i, 0);
    }
    Powers();
    assert BitsOfPower(0) == {0} && BitsOfPower(1) == {1} && BitsOfPower(2) == {2} && BitsOfPower(3) == {3};
    assert BitsOfPower(4) == {4} && BitsOfPower(5) == {5} && BitsOfPower(6) == {6} && BitsOfPower(7) == {7};
    assert BitsOfPower(8) == {8} && BitsOfPower(9) == {9} && BitsOfPower(10) == {10} && BitsOfPower(11) == {11};
    assert BitsOfPower(13) == {13} && BitsOfPower(14) == {14} && BitsOfPower(15) == {15};
  }

  function BitsOfPower(j: nat): Word { Digits(Pow2(j), 0) }

  lemma Powers()
    ensures Pow2(0) == 0x1 && Pow2(1) == 0x2 && Pow2(2) == 0x4 && Pow2(3) == 0x8 && Pow2(4) == 0x10
    ensures Pow2(5) == 0x20 && Pow2(6) == 0x40 && Pow2(7) == 0x80 && Pow2(8) == 0x100 && Pow2(9) == 0x200
    ensures Pow2(10) == 0x400 && Pow2(11) == 0x800 && Pow2(13) == 0x2000 && Pow2(14) == 0x4000 && Pow2(15) == 0x8000
  {
  }

  lemma HighBits()
    ensures BitsOf(0x4000_0000) == {30} && BitsOf(0x8000_0000) == {31}
  {
    assert Pow2(8) == 0x100 && Pow2(16) == 0x1_0000 && Pow2(24) == 0x100_0000;
    assert Pow2(30) == 0x4000_0000 && Pow2(31) == 0x8000_0000;
    PowerOfTwo(30, 0);
    PowerOfTwo(31, 0);
  }

  function Row(i: nat, n: nat): Word
    decreases n
  {
    if n == 0 then {} else {i} + Row(i + 1, n - 1)
  }

  lemma {:induction false} RowIs(i: nat, n: nat, b: nat)
    ensures b in Row(i, n) <==> i <= b < i + n
    decreases n
  {
    if n > 0 { RowIs(i + 1, n - 1, b); }
  }

  lemma {:induction false} Ones(n: nat, i: nat)
    ensures Digits(Pow2(n) - 1, i) == Row(i, n)
  {
    if n > 0 {
      var v := Pow2(n) - 1;
      assert v / 2 == Pow2(n - 1) - 1 && v % 2 == 1;
      Ones(n - 1, i + 1);
    }
  }

  lemma CloseBits()
    ensures BitsOf(0x18) == {3, 4}
  {
    Twice(0xc, 0);
    Twice(0x6, 1);
    Twice(0x3, 2);
    Ones(2, 3);
    assert Pow2(2) == 4;
  }

  lemma MoveBits()
    ensures BitsOf(0xc0) == {6, 7}
  {
    Twice(0x60, 0);
    Twice(0x30, 1);
    Twice(0x18, 2);
    Twice(0xc, 3);
    Twice(0x6, 4);
    Twice(0x3, 5);
    Ones(2, 6);
    assert Pow2(2) == 4;
  }

  lemma AllBits(n: nat, v: u32, all: Word)
    requires n == 12 && v == Pow2(n) - 1 && all == {0, 1, 2, 3, 4, 5, 6, 7, 8, 9, 10, 11}
    ensures BitsOf(v) == all
  {
    Ones(n, 0);
    forall b: nat ensures b in Row(0, n) <==> b in all { RowIs(0, n, b); }
  }

  /** The table of event names, in the numbers of inotify(7). */
  function Entry(n: Name): (string, u32) {
    match n
    case ACCESS => ("ACCESS", 0x1)
    case MODIFY => ("MODIFY", 0x2)
    case ATTRIB => ("ATTRIB", 0x4)
    case CLOSE_WRITE => ("CLOSE_WRITE", 0x8)
    case CLOSE_NOWRITE => ("CLOSE_NOWRITE", 0x10)
    case OPEN => ("OPEN", 0x20)
    case MOVED_FROM => ("MOVED_FROM", 0x40)
    case MOVED_TO => ("MOVED_TO", 0x80)
    case CREATE => ("CREATE", 0x100)
    case DELETE => ("DELETE", 0x200)
    case DELETE_SELF => ("DELETE_SELF", 0x400)
    case MOVE_SELF => ("MOVE_SELF", 0x800)
    case UNMOUNT => ("UNMOUNT", 0x2000)
    case Q_OVERFLOW => ("Q_OVERFLOW", 0x4000)
    case IGNORED => ("IGNORED", 0x8000)
    case ISDIR => ("ISDIR", 0x4000_0000)
    case ONESHOT => ("ONESHOT", 0x8000_0000)
    case CLOSE => ("CLOSE", 0x18)
    case MOVE => ("MOVE", 0xc0)
    case ALL_EVENTS => ("ALL_EVENTS", 0xfff)
  }

  /** A name, its spelling and its number. */
  predicate Means(n: Name, name: string, mask: u32) {
    IsAscii(name) && Text(n) == Ascii(name) && Mask(n) == BitsOf(mask)
  }

  lemma SpellingIs(n: Name)
    ensures Spelling(n) == Entry(n).0
  {
  }

  lemma TextIsAscii(n: Name)
    ensures IsAscii(Spelling(n)) && Text(n) == Ascii(Spelling(n))
  {
    SpellingIsUpper(n);
  }

  lemma NumberIs(n: Name)
    ensures Mask(n) == BitsOf(Entry(n).1)
  {
    match n {
      case CLOSE => CloseBits();
      case MOVE => MoveBits();
      case ALL_EVENTS =>
        assert Pow2(12) == 0x1000;
        AllBits(12, 0xfff, Mask(n));
      case ISDIR => HighBits();
      case ONESHOT => HighBits();
      case _ => SingleBits();
    }
  }

  /** Every name has the spelling and the number of the table. */
  lemma NamesAndNumbers(n: Name)
    ensures Means(n, Entry(n).0, Entry(n).1)
  {
    SpellingIs(n);
    TextIsAscii(n);
    NumberIs(n);
  }

  // ---------------------------------------------------------------- reading

  lemma OneElement(s: bytes, sep: byte)
    requires sep !in s
    ensures Parse(s, sep) == Gather([OneStrToEvent(s)])
  {
    assert s[..|s|] == s;
    IndexOfIs(s, sep, |s|);
    var es := Elements(s, sep);
    assert es == [s] && es[1..] == [];
    assert Meanings(es) == [OneStrToEvent(s)] + Meanings(es[1..]);
  }

  lemma OneName(n: Name, e: bytes, sep: byte)
    requires ValidSep(sep) && EqIgnoreCase(Text(n), e)
    ensures 0 !in e && sep !in e && StrToEvent(Some(e), sep) == Mask(n)
  {
    forall b | b in e ensures b != 0 && b != sep {
      var i :| 0 <= i < |e| && e[i] == b;
      assert IsWordByte(Text(n)[i]) && Upper(Text(n)[i]) == Upper(e[i]);
    }
    EverySpellingIsKnown(n, e);
    NoNulIsWhole(e);
    OneElement(e, sep);
    assert Gather([Event(n)]) == Good([n] + []);
    assert MaskOf([n]) == MaskOf([]) + Mask(n);
  }

  /** What separates names: no letter, '_' or NUL. */
  predicate Separates(sep: byte) {
    sep != 0 && sep != 95 && !(65 <= sep <= 90) && !(97 <= sep <= 122)
  }

  /** A name in any mix of cases, alone, gives its number. */
  lemma NameGivesItsNumber(n: Name, name: string, mask: u32, e: bytes, sep: byte)
    requires Means(n, name, mask) && EqIgnoreCase(Ascii(name), e)
    requires Separates(sep)
    ensures StrToEvent(Some(e), sep) == BitsOf(mask)
  {
    OneName(n, e, sep);
  }

  /** What is answered for a bad separator, and without any name. */
  lemma NoNames(event: Option<bytes>, sep: byte)
    ensures !Separates(sep) ==> StrToEvent(event, sep) == MINUS_ONE
    ensures Separates(sep) && (event.None? || event.value == [] || event.value[0] == 0) ==>
      StrToEvent(event, sep) == {}
  {
    if event.Some? && (event.value == [] || event.value[0] == 0) {
      assert CString(event.value) == [];
      OneElement([], sep);
    }
  }

  function JoinedBy(es: seq<bytes>, sep: byte): bytes {
    if es == [] then [] else if |es| == 1 then es[0] else es[0] + [sep] + JoinedBy(es[1..], sep)
  }

  /** The elements of a string hold no separator, and joined by separators they are the string. */
  lemma {:induction false} ElementsAreTheParts(s: bytes, sep: byte)
    ensures JoinedBy(Elements(s, sep), sep) == s
    ensures forall e :: e in Elements(s, sep) ==> sep !in e
    decreases |s|
  {
    var p := IndexOf(s, sep);
    IndexOfFinds(s, sep);
    if p < |s| {
      ElementsAreTheParts(s[p + 1..], sep);
      var es := Elements(s, sep);
      assert es[1..] == Elements(s[p + 1..], sep);
      assert s == s[..p] + [sep] + s[p + 1..];
    } else {
      assert s[..p] == s;
    }
  }

  // ---------------------------------------------------------------- writing

  /** The names are printed in this order. */
  lemma PrintingOrder()
    ensures NAMES == [ACCESS, MODIFY, ATTRIB, CLOSE_WRITE, CLOSE_NOWRITE, OPEN, MOVED_FROM, MOVED_TO, CREATE,
                      DELETE, DELETE_SELF, UNMOUNT, Q_OVERFLOW, IGNORED, CLOSE, MOVE_SELF, ISDIR, ONESHOT]
  {
  }

  function Texts(names: seq<Name>): seq<bytes> {
    seq(|names|, i requires 0 <= i < |names| => Text(names[i]))
  }

  /** The names of a mask, in order: those that share a bit with it. */
  function NamesOf(w: Word, names: seq<Name>): seq<Name> {
    if names == [] then []
    else (if exists b :: b in w && b in Mask(names[0]) then [names[0]] else []) + NamesOf(w, names[1..])
  }

  lemma {:induction false} NamesOfAppend(w: Word, names: seq<Name>, n: Name)
    ensures NamesOf(w, names + [n]) == NamesOf(w, names) + NamesOf(w, [n])
  {
    if names == [] {
      assert names + [n] == [n];
    } else {
      assert (names + [n])[1..] == names[1..] + [n];
      NamesOfAppend(w, names[1..], n);
    }
  }

  lemma {:induction false} PrintedAreTheNames(w: Word, k: nat)
    requires k <= |NAMES|
    ensures Printed(w, k) == NamesOf(w, NAMES[..k])
    decreases k
  {
    if k > 0 {
      var n := NAMES[k - 1];
      PrintedAreTheNames(w, k - 1);
      assert NAMES[..k] == NAMES[..k - 1] + [n];
      NamesOfAppend(w, NAMES[..k - 1], n);
      OneNameOf(w, n);
    }
  }

  lemma OneNameOf(w: Word, n: Name)
    ensures NamesOf(w, [n]) == if Has(w, Mask(n)) then [n] else []
  {
    assert [n][1..] == [];
    if b :| b in w && b in Mask(n) { assert b in w * Mask(n); }
    if Has(w, Mask(n)) { var b :| b in w * Mask(n); }
  }

  lemma {:induction false} JoinedIsJoinedBy(names: seq<Name>, sep: byte)
    requires sep != 0 && names != []
    ensures Joined(names, sep) == [sep] + JoinedBy(Texts(names), sep)
  {
    assert Texts(names)[1..] == Texts(names[1..]);
    if |names| == 1 {
      assert Joined(names[1..], sep) == [];
    } else {
      JoinedIsJoinedBy(names[1..], sep);
    }
  }

  /** The text of a mask: the names that share a bit with it, in order and joined by the separator;
      without any, its number. */
  lemma TextOfMask(v: u32, sep: byte)
    requires sep != 0
    ensures var names := NamesOf(BitsOf(v), NAMES);
      MaskText(v, sep) == if names == [] then Hex(v) else JoinedBy(Texts(names), sep)
  {
    var names := NamesOf(BitsOf(v), NAMES);
    assert NAMES[..|NAMES|] == NAMES;
    PrintedAreTheNames(BitsOf(v), |NAMES|);
    if names != [] {
      JoinedIsJoinedBy(names, sep);
      assert ([sep] + JoinedBy(Texts(names), sep))[1..] == JoinedBy(Texts(names), sep);
    }
  }

  // ---------------------------------------------------------------- numbers

  /** The value of a lower-case hexadecimal digit. */
  function DigitValue(b: byte): Option<nat> {
    if 48 <= b <= 57 then Some(b as int - 48) else if 97 <= b <= 102 then Some(b as int - 87) else None
  }

  /** The number a string of such digits stands for. */
  function ReadHex(s: bytes): Option<nat> {
    if s == [] then Some(0)
    else
      var (rest, d) := (ReadHex(s[..|s| - 1]), DigitValue(s[|s| - 1]));
      if rest.Some? && d.Some? then Some(16 * rest.value + d.value) else None
  }

  lemma ReadHexMore(s: bytes, d: int)
    requires 0 <= d < 16 && ReadHex(s).Some?
    ensures ReadHex(s + [HexDigit(d)]) == Some(16 * ReadHex(s).value + d)
  {
    assert (s + [HexDigit(d)])[..|s|] == s;
  }

  function Power16(n: nat): nat { if n == 0 then 1 else 16 * Power16(n - 1) }

  lemma {:induction false} DigitsAreRead(v: nat, n: nat)
    requires v < Power16(n)
    ensures ReadHex(HexDigits(v, n)) == Some(v)
    decreases n
  {
    if n > 0 {
      DigitsAreRead(v / 16, n - 1);
      ReadHexMore(HexDigits(v / 16, n - 1), v % 16);
    }
  }

  /** A mask without a name is written as "0x" and eight lower-case digits of its value. */
  lemma NumberOfMask(v: u32)
    ensures Hex(v)[..2] == [48, 120] && |Hex(v)| == 10 && ReadHex(Hex(v)[2..]) == Some(v)
  {
    assert Power16(8) == 0x1_0000_0000;
    DigitsAreRead(v, 8);
    assert Hex(v)[2..] == HexDigits(v, 8);
  }
}
