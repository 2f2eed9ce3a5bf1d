/** CSV output of events, and a decoder in the sense of section 2 of RFC 4180 (records end
    with LF) that reads it back. */
module Csv {
  import opened Bytes
  import MaskStrings

  const QUOTE: byte := 34
  const SPACE: byte := 32

  // ---------------------------------------------------------------- escaping

  predicate IsSpecial(b: byte) { b == QUOTE || b == COMMA || b == LF }

  /** Escaping is decided on the whole string, blanks at the ends of the printed part aside. */
  predicate NeedsQuotes(s: bytes, len: nat)
    requires 0 < len <= |s|
  {
    QUOTE in s || COMMA in s || LF in s || s[0] == SPACE || s[len - 1] == SPACE
  }

  function Doubled(s: bytes): bytes {
    if s == [] then []
    else Doubled(s[..|s| - 1]) + (if s[|s| - 1] == QUOTE then [QUOTE] else []) + [s[|s| - 1]]
  }

  function Escaped(s: bytes, len: nat): bytes {
    if len == 0 || len > MAX_STRLEN || len > |s| then []
    else if !NeedsQuotes(s, len) then s[..len]
    else [QUOTE] + Doubled(s[..len]) + [QUOTE]
  }

  /** CSV-escape the first `len` bytes of a string. */
  method CsvEscapeLen(s: bytes, len: nat) returns (csv: bytes)
    ensures csv == Escaped(s, len)
  {
    if len == 0 || len > MAX_STRLEN || len > |s| {
      return [];
    }
    if QUOTE !in s && COMMA !in s && LF !in s && s[0] != SPACE && s[len - 1] != SPACE {
      return s[..len];
    }
    csv := [QUOTE];
    for i := 0 to len
      invariant csv == [QUOTE] + Doubled(s[..i])
    {
      assert s[..i + 1][..i] == s[..i];
      var c := s[i];
      if c == QUOTE {
        csv := csv + [QUOTE];
      }
      csv := csv + [c];
    }
    csv := csv + [QUOTE];
  }

  lemma {:induction false} DoubledIsNoShorter(s: bytes)
    ensures |Doubled(s)| >= |s|
  {
    if s != [] { DoubledIsNoShorter(s[..|s| - 1]); }
  }

  /** A field is printed as it is if and only if the whole string has no quote, comma or line feed,
      and the part to print has no blank at either end; any other is put in quotes. */
  lemma QuotedExactlyWhen(s: bytes, len: nat)
    requires 0 < len <= |s| && len <= 4096
    ensures Escaped(s, len) == s[..len] <==> 34 !in s && 44 !in s && 10 !in s && s[0] != 32 && s[len - 1] != 32
    ensures Escaped(s, len) == s[..len] || Escaped(s, len) == [34] + Doubled(s[..len]) + [34]
  {
    DoubledIsNoShorter(s[..len]);
    if NeedsQuotes(s, len) { assert |Escaped(s, len)| > |s[..len]|; }
  }

  // ---------------------------------------------------------------- lines

  /** An event as the printer sees it: the recorded name of its watch, how much of it is the
      directory, the mask, and the name of the file. */
  datatype Item = Item(filename: bytes, dirnamelen: nat, mask: u32, eventname: bytes)

  function Cell(s: bytes, len: nat, end: byte): bytes { Escaped(s, len) + [end] }

  function DirCell(e: Item): bytes {
    if Escaped(e.filename, e.dirnamelen) != [] then Cell(e.filename, e.dirnamelen, COMMA) else []
  }

  function MaskCell(e: Item): bytes {
    var text := MaskStrings.MaskText(e.mask, COMMA);
    Cell(text, |text|, COMMA)
  }

  function NameCell(e: Item): bytes { Cell(e.eventname, |e.eventname|, LF) }

  function Line(e: Item): bytes { DirCell(e) + (MaskCell(e) + NameCell(e)) }

  function Lines(es: seq<Item>): bytes {
    if es == [] then [] else Line(es[0]) + Lines(es[1..])
  }

  class Output {
    var text: bytes

    method Print(piece: bytes)
      modifies this
      ensures text == old(text) + piece
    {
      text := text + piece;
    }

    method PrintCell(s: bytes, len: nat, end: byte)
      modifies this
      ensures text == old(text) + Cell(s, len, end)
    {
      var csv := CsvEscapeLen(s, len);
      Print(csv);
      Print([end]);
      assert text == (old(text) + csv) + [end] == old(text) + (csv + [end]);
    }

    method OutputEventCsv(e: Item)
      modifies this
      ensures text == old(text) + Line(e)
    {
      var filename := CsvEscapeLen(e.filename, e.dirnamelen);
      if filename != [] {
        Print(filename);
        Print([COMMA]);
        assert text == (old(text) + filename) + [COMMA] == old(text) + (filename + [COMMA]);
      }
      assert text == old(text) + DirCell(e);
      var mask := MaskStrings.MaskText(e.mask, COMMA);
      PrintCell(mask, |mask|, COMMA);
      PrintCell(e.eventname, |e.eventname|, LF);
      Regroup(old(text), DirCell(e), MaskCell(e), NameCell(e));
    }
  }

  lemma Regroup(a: bytes, b: bytes, c: bytes, d: bytes)
    ensures ((a + b) + c) + d == a + (b + (c + d))
  {
  }

  // ---------------------------------------------------------------- the decoder

  /** The length of the longest prefix without quote, comma or LF. */
  function PlainLength(s: bytes): (n: nat)
    ensures n <= |s|
  {
    if s == [] || IsSpecial(s[0]) then 0 else 1 + PlainLength(s[1..])
  }

  /** The rest of a quoted field after its opening quote: contents and what follows. */
  function QuotedRest(s: bytes): (r: Option<(bytes, bytes)>)
    ensures r.Some? ==> |r.value.1| < |s|
  {
    if s == [] then None
    else if s[0] != QUOTE then
      match QuotedRest(s[1..])
      case Some((body, rest)) => Some(([s[0]] + body, rest))
      case None => None
    else if |s| > 1 && s[1] == QUOTE then
      match QuotedRest(s[2..])
      case Some((body, rest)) => Some(([QUOTE] + body, rest))
      case None => None
    else Some(([], s[1..]))
  }

  function Field(s: bytes): (r: Option<(bytes, bytes)>)
    ensures r.Some? ==> |r.value.1| <= |s|
  {
    if s != [] && s[0] == QUOTE then QuotedRest(s[1..])
    else Some((s[..PlainLength(s)], s[PlainLength(s)..]))
  }

  type Record = seq<bytes>

  function Cons(row: Record, more: Option<seq<Record>>): Option<seq<Record>> {
    if more.Some? then Some([row] + more.value) else None
  }

  /** All records of a text, the fields of the one being read in `row`. */
  function Decode(s: bytes, row: Record): Option<seq<Record>>
    decreases |s|
  {
    if s == [] && row == [] then Some([])
    else
      match Field(s)
      case None => None
      case Some((field, rest)) =>
        if rest == [] then Some([row + [field]])
        else if rest[0] == COMMA then Decode(rest[1..], row + [field])
        else if rest[0] != LF then None
        else Cons(row + [field], Decode(rest[1..], []))
  }

  // ---------------------------------------------------------------- fields come back

  lemma {:induction false} PlainField(x: bytes, rest: bytes)
    requires forall i :: 0 <= i < |x| ==> !IsSpecial(x[i])
    requires rest != [] ==> IsSpecial(rest[0])
    ensures PlainLength(x + rest) == |x|
  {
    if x == [] {
      assert x + rest == rest;
    } else {
      assert (x + rest)[1..] == x[1..] + rest;
      PlainField(x[1..], rest);
    }
  }

  lemma {:induction false} DoubledFront(x: bytes)
    requires x != []
    ensures Doubled(x) == (if x[0] == QUOTE then [QUOTE] else []) + [x[0]] + Doubled(x[1..])
  {
    if |x| > 1 {
      DoubledFront(x[..|x| - 1]);
      assert x[1..][..|x| - 2] == x[..|x| - 1][1..];
    } else {
      assert x[..0] == [] && x[1..] == [];
    }
  }

  function Prefixed(c: byte, r: Option<(bytes, bytes)>): Option<(bytes, bytes)> {
    if r.Some? then Some(([c] + r.value.0, r.value.1)) else None
  }

  lemma OrdinaryByte(c: byte, tail: bytes)
    requires c != QUOTE
    ensures QuotedRest([c] + tail) == Prefixed(c, QuotedRest(tail))
  {
    assert ([c] + tail)[1..] == tail;
  }

  lemma DoubledQuote(tail: bytes)
    ensures QuotedRest([QUOTE, QUOTE] + tail) == Prefixed(QUOTE, QuotedRest(tail))
  {
    assert ([QUOTE, QUOTE] + tail)[2..] == tail;
  }

  lemma {:induction false} QuotedField(x: bytes, rest: bytes)
    requires rest != [] ==> rest[0] != QUOTE
    ensures QuotedRest(Doubled(x) + ([QUOTE] + rest)) == Some((x, rest))
  {
    if x == [] {
      var s := [QUOTE] + rest;
      assert Doubled(x) + s == s && s[1..] == rest;
    } else {
      DoubledFront(x);
      var end := [QUOTE] + rest;
      var tail := Doubled(x[1..]) + end;
      QuotedField(x[1..], rest);
      assert [x[0]] + x[1..] == x;
      if x[0] == QUOTE {
        assert Doubled(x) + end == [QUOTE, QUOTE] + tail;
        DoubledQuote(tail);
      } else {
        assert Doubled(x) + end == [x[0]] + tail;
        OrdinaryByte(x[0], tail);
      }
    }
  }

  /** What survives printing: fields over 4096 bytes are dropped. */
  function Kept(s: bytes, len: nat): bytes {
    if len > MAX_STRLEN || len > |s| then [] else s[..len]
  }

  lemma EscapedFieldComesBack(s: bytes, len: nat, rest: bytes)
    requires rest != [] && (rest[0] == COMMA || rest[0] == LF)
    ensures Field(Escaped(s, len) + rest) == Some((Kept(s, len), rest))
  {
    var esc, kept := Escaped(s, len), Kept(s, len);
    var text := esc + rest;
    if esc == [] {
      assert text == rest && kept == [];
      PlainField([], rest);
    } else if NeedsQuotes(s, len) {
      assert text[1..] == Doubled(kept) + ([QUOTE] + rest);
      QuotedField(kept, rest);
    } else {
      assert kept[0] in s;
      forall i | 0 <= i < |kept| ensures !IsSpecial(kept[i]) { assert kept[i] in s; }
      PlainField(kept, rest);
      assert text[..|kept|] == kept && text[|kept|..] == rest;
    }
  }

  // ---------------------------------------------------------------- rows come back

  function Directory(e: Item): Record {
    if Kept(e.filename, e.dirnamelen) != [] then [Kept(e.filename, e.dirnamelen)] else []
  }

  /** The row an event stands for; an empty (or overlong) directory leaves its column out. */
  function Row(e: Item): Record {
    Directory(e) + [MaskStrings.MaskText(e.mask, COMMA), Kept(e.eventname, |e.eventname|)]
  }

  function Rows(es: seq<Item>): seq<Record> {
    if es == [] then [] else [Row(es[0])] + Rows(es[1..])
  }

  lemma DecodeCell(s: bytes, len: nat, rest: bytes, row: Record)
    ensures Decode(Cell(s, len, COMMA) + rest, row) == Decode(rest, row + [Kept(s, len)])
  {
    var tail := [COMMA] + rest;
    EscapedFieldComesBack(s, len, tail);
    Associates(Escaped(s, len), [COMMA], rest);
    assert tail[1..] == rest;
  }

  lemma DecodeLastCell(s: bytes, len: nat, rest: bytes, row: Record)
    ensures Decode(Cell(s, len, LF) + rest, row) == Cons(row + [Kept(s, len)], Decode(rest, []))
  {
    var tail := [LF] + rest;
    EscapedFieldComesBack(s, len, tail);
    Associates(Escaped(s, len), [LF], rest);
    DecodeRowEnd(Cell(s, len, LF) + rest, Kept(s, len), rest, row);
  }

  lemma DecodeRowEnd(s: bytes, field: bytes, rest: bytes, row: Record)
    requires Field(s) == Some((field, [LF] + rest))
    ensures Decode(s, row) == Cons(row + [field], Decode(rest, []))
  {
    assert ([LF] + rest)[1..] == rest;
  }

  lemma DecodeTwoCells(e: Item, rest: bytes, row: Record)
    ensures Decode((MaskCell(e) + NameCell(e)) + rest, row) ==
      Cons(row + [MaskStrings.MaskText(e.mask, COMMA), Kept(e.eventname, |e.eventname|)], Decode(rest, []))
  {
    var text, name := MaskStrings.MaskText(e.mask, COMMA), e.eventname;
    MaskStrings.TextFits(e.mask, COMMA);
    assert Kept(text, |text|) == text;
    assert (MaskCell(e) + NameCell(e)) + rest == MaskCell(e) + (NameCell(e) + rest);
    DecodeCell(text, |text|, NameCell(e) + rest, row);
    DecodeLastCell(name, |name|, rest, row + [text]);
    assert row + [text] + [Kept(name, |name|)] == row + [text, Kept(name, |name|)];
  }

  lemma DecodeDirectory(e: Item, x: bytes)
    ensures Decode(DirCell(e) + x, []) == Decode(x, Directory(e))
  {
    if DirCell(e) == [] {
      assert [] + x == x;
    } else {
      DecodeCell(e.filename, e.dirnamelen, x, []);
      assert [] + Directory(e) == Directory(e);
    }
  }

  lemma DecodeLine(e: Item, rest: bytes)
    ensures Decode(Line(e) + rest, []) == Cons(Row(e), Decode(rest, []))
  {
    Associates(DirCell(e), MaskCell(e) + NameCell(e), rest);
    DecodeDirectory(e, (MaskCell(e) + NameCell(e)) + rest);
    DecodeTwoCells(e, rest, Directory(e));
  }

  /** Decoding a whole log recovers every row, in order. */
  lemma {:induction false} LogRoundTrip(es: seq<Item>)
    ensures Decode(Lines(es), []) == Some(Rows(es))
  {
    if es != [] {
      LogRoundTrip(es[1..]);
      DecodeLine(es[0], Lines(es[1..]));
    }
  }

  /** The directory lies within the recorded name. */
  predicate ValidItem(e: Item) { e.dirnamelen <= |e.filename| }

  predicate Fits(e: Item) { e.dirnamelen <= MAX_STRLEN && |e.eventname| <= MAX_STRLEN }

  /** The row one would expect, with no field cut or dropped for its length. */
  function WholeRow(e: Item): Record
    requires ValidItem(e)
  {
    (if e.dirnamelen > 0 then [e.filename[..e.dirnamelen]] else [])
    + [MaskStrings.MaskText(e.mask, COMMA), e.eventname]
  }

  function WholeRows(es: seq<Item>): seq<Record>
    requires forall i :: 0 <= i < |es| ==> ValidItem(es[i])
  {
    if es == [] then [] else [WholeRow(es[0])] + WholeRows(es[1..])
  }

  lemma LastField(dir: Record, text: bytes, name: bytes)
    ensures |dir + [text, name]| == |dir| + 2 && (dir + [text, name])[|dir| + 1] == name
  {
  }

  lemma RowIsWholeExactlyWhen(e: Item)
    requires ValidItem(e)
    ensures Row(e) == WholeRow(e) <==> Fits(e)
  {
    var text := MaskStrings.MaskText(e.mask, COMMA);
    var whole := if e.dirnamelen > 0 then [e.filename[..e.dirnamelen]] else [];
    LastField(Directory(e), text, Kept(e.eventname, |e.eventname|));
    LastField(whole, text, e.eventname);
    assert e.eventname[..|e.eventname|] == e.eventname;
    if e.dirnamelen > 0 { assert e.filename[..e.dirnamelen] != []; }
  }

  lemma {:induction false} RowsAreWholeExactlyWhen(es: seq<Item>)
    requires forall i :: 0 <= i < |es| ==> ValidItem(es[i])
    ensures Rows(es) == WholeRows(es) <==> forall i :: 0 <= i < |es| ==> Fits(es[i])
  {
    if es != [] {
      RowIsWholeExactlyWhen(es[0]);
      RowsAreWholeExactlyWhen(es[1..]);
      assert Rows(es)[0] == Row(es[0]) && Rows(es)[1..] == Rows(es[1..]);
      assert WholeRows(es)[0] == WholeRow(es[0]) && WholeRows(es)[1..] == WholeRows(es[1..]);
      FitsHeadAndTail(es);
    }
  }

  lemma FitsHeadAndTail(es: seq<Item>)
    requires es != []
    ensures (forall i :: 0 <= i < |es| ==> Fits(es[i]))
       <==> Fits(es[0]) && forall i :: 0 <= i < |es[1..]| ==> Fits(es[1..][i])
  {
    if Fits(es[0]) && forall i :: 0 <= i < |es[1..]| ==> Fits(es[1..][i]) {
      forall i | 0 <= i < |es| ensures Fits(es[i]) {
        if i > 0 { assert es[1..][i - 1] == es[i]; }
      }
    }
  }

  /** Decoding the log gives every event's full directory, event string and file name if and
      only if none of them is longer than 4096 bytes. */
  lemma LogIsCompleteExactlyWhen(es: seq<Item>)
    requires forall i :: 0 <= i < |es| ==> ValidItem(es[i])
    ensures Decode(Lines(es), []) == Some(WholeRows(es)) <==> forall i :: 0 <= i < |es| ==> Fits(es[i])
  {
    LogRoundTrip(es);
    RowsAreWholeExactlyWhen(es);
  }

  /** An event on a file with a name of 4097 bytes: the field is empty in the log. */
  lemma LongNameIsDropped(e: Item)
    requires e.dirnamelen == 0 && |e.eventname| == 4097
    ensures Decode(Lines([e]), []) == Some([[MaskStrings.MaskText(e.mask, COMMA), []]])
  {
    LogRoundTrip([e]);
    OneRow(e);
    NameIsDropped(e, MaskStrings.MaskText(e.mask, COMMA));
  }

  lemma OneRow(e: Item)
    ensures Rows([e]) == [Row(e)]
  {
    assert [e][1..] == [];
  }

  lemma NameIsDropped(e: Item, text: bytes)
    requires e.dirnamelen == 0 && |e.eventname| == 4097 && text == MaskStrings.MaskText(e.mask, COMMA)
    ensures Row(e) == [text, []]
  {
    assert Directory(e) == [] && Kept(e.eventname, 4097) == [];
  }
}
