/**
 The text lines between the client and the analysis: written by barrierpoint.cpp
 (save_ldv_bb, save_bbv_count) as a delimiter followed by ":id:count " items, read by
 DrAnalysis.py by splitting at ':' and taking even and odd positions.
 */
module LineFormat {
  import opened Common

  /** One item of a line: an identifier and a count. */
  type Item = (nat, nat)

  // ---------- numbers ----------

  function Digit(d: nat): char
    requires d < 10
  {
    '0' + (d as char)
  }

  predicate IsDigit(c: char) {
    '0' <= c <= '9'
  }

  /** Decimal digits without leading zeros. */
  function Decimal(n: nat): (s: string)
    ensures s != [] && forall i :: 0 <= i < |s| ==> IsDigit(s[i])
  {
    if n < 10 then [Digit(n)] else Decimal(n / 10) + [Digit(n % 10)]
  }

  function Value(s: string): nat
    requires forall i :: 0 <= i < |s| ==> IsDigit(s[i])
  {
    if s == [] then 0
    else
      assert IsDigit(s[|s| - 1]);
      10 * Value(s[..|s| - 1]) + (s[|s| - 1] - '0') as nat
  }

  lemma {:induction false} ValueDecimal(n: nat)
    ensures Value(Decimal(n)) == n
  {
    var s := Decimal(n);
    if n < 10 {
      assert s[..0] == [];
    } else {
      ValueDecimal(n / 10);
      assert s[..|s| - 1] == Decimal(n / 10);
    }
  }

  lemma {:induction false} NoLeadingZero(n: nat)
    requires n > 0
    ensures Decimal(n)[0] != '0'
  {
    if n >= 10 {
      NoLeadingZero(n / 10);
    }
  }

  predicate IsSpace(c: char) {
    c == ' ' || c == '\n'
  }

  function StripRight(s: string): string {
    if s != [] && IsSpace(s[|s| - 1]) then StripRight(s[..|s| - 1]) else s
  }

  function StripLeft(s: string): string {
    if s != [] && IsSpace(s[0]) then StripLeft(s[1..]) else s
  }

  /** Reading an integer: surrounding white space is dropped, anything but digits is an error. */
  function ParseInt(s: string): Option<nat> {
    var t := StripLeft(StripRight(s));
    if t != [] && forall i :: 0 <= i < |t| ==> IsDigit(t[i]) then Some(Value(t)) else None
  }

  lemma {:induction false} StripTail(s: string, tail: string)
    requires s != [] && !IsSpace(s[|s| - 1])
    requires forall i :: 0 <= i < |tail| ==> IsSpace(tail[i])
    ensures StripRight(s + tail) == s
  {
    if tail == [] {
      assert s + tail == s;
    } else {
      assert (s + tail)[..|s + tail| - 1] == s + tail[..|tail| - 1];
      StripTail(s, tail[..|tail| - 1]);
    }
  }

  lemma {:induction false} ParsePrinted(n: nat, tail: string)
    requires forall i :: 0 <= i < |tail| ==> IsSpace(tail[i])
    ensures ParseInt(Decimal(n) + tail) == Some(n)
  {
    StripTail(Decimal(n), tail);
    ValueDecimal(n);
  }

  // ---------- lines ----------

  function Items(row: seq<Item>): string {
    if row == [] then [] else ":" + Decimal(row[0].0) + ":" + Decimal(row[0].1) + " " + Items(row[1..])
  }

  function Print(delim: char, row: seq<Item>): string {
    [delim] + Items(row) + "\n"
  }

  /** Splitting at a separator, empty pieces kept. */
  function Split(s: string, sep: char): (p: seq<string>)
    ensures p != []
  {
    if s == [] then [[]]
    else
      var p := Split(s[1..], sep);
      if s[0] == sep then [[]] + p else [[s[0]] + p[0]] + p[1..]
  }

  function ParseInts(pieces: seq<string>): Option<seq<nat>> {
    if pieces == [] then Some([])
    else
      match (ParseInt(pieces[0]), ParseInts(pieces[1..]))
      case (Some(n), Some(rest)) => Some([n] + rest)
      case _ => None
  }

  /** zip of the entries at even and at odd positions. */
  function PairUp(data: seq<nat>): seq<Item> {
    if |data| < 2 then [] else [(data[0], data[1])] + PairUp(data[2..])
  }

  function Parse(line: string): Option<seq<Item>> {
    match ParseInts(Split(line, ':')[1..])
    case Some(data) => Some(PairUp(data))
    case None => None
  }

  lemma {:induction false} SplitAt(a: string, b: string, sep: char)
    requires sep !in a
    ensures Split(a + [sep] + b, sep) == [a] + Split(b, sep)
  {
    var s := a + [sep] + b;
    if a == [] {
      assert s[1..] == b;
    } else {
      SplitAt(a[1..], b, sep);
      assert s[1..] == a[1..] + [sep] + b;
      assert [a[0]] + a[1..] == a;
    }
  }

  lemma {:induction false} SplitNone(a: string, sep: char)
    requires sep !in a
    ensures Split(a, sep) == [a]
  {
    if a != [] {
      SplitNone(a[1..], sep);
      assert [a[0]] + a[1..] == a;
    }
  }

  function Flat(row: seq<Item>): seq<nat> {
    if row == [] then [] else [row[0].0, row[0].1] + Flat(row[1..])
  }

  lemma {:induction false} PairUpFlat(row: seq<Item>)
    ensures PairUp(Flat(row)) == row
  {
    if row != [] {
      PairUpFlat(row[1..]);
      assert Flat(row)[2..] == Flat(row[1..]);
    }
  }

  lemma {:induction false} SplitItem(start: string, row: seq<Item>)
    requires row != [] && ':' !in start
    ensures Split(start + Items(row) + "\n", ':') ==
            [start, Decimal(row[0].0)] + Split((Decimal(row[0].1) + " ") + Items(row[1..]) + "\n", ':')
  {
    var id, count, rest := Decimal(row[0].0), Decimal(row[0].1), Items(row[1..]);
    var tail := (count + " ") + rest + "\n";
    Regroup(start, id, count, rest);
    SplitAt(start, id + [':'] + tail, ':');
    SplitAt(id, tail, ':');
  }

  lemma {:induction false} SplitNoItems(start: string, row: seq<Item>)
    requires row == [] && ':' !in start
    ensures Split(start + Items(row) + "\n", ':') == [start + "\n"] && ParseInts([start + "\n"][1..]) == Some(Flat(row))
  {
    assert start + Items(row) + "\n" == start + "\n";
    SplitNone(start + "\n", ':');
  }

  lemma Regroup(start: string, id: string, count: string, rest: string)
    ensures start + (":" + id + ":" + count + " " + rest) + "\n" ==
            start + [':'] + (id + [':'] + ((count + " ") + rest + "\n"))
  {
    var tail := (count + " ") + rest + "\n";
    assert count + " " + rest + "\n" == tail;
    assert (":" + id + ":" + count + " " + rest) + "\n" == [':'] + (id + [':'] + tail);
  }

  /** The pieces after the first one hold the flattened row. */
  lemma {:induction false} SplitItems(start: string, row: seq<Item>)
    requires ':' !in start
    ensures ParseInts(Split(start + Items(row) + "\n", ':')[1..]) == Some(Flat(row))
    ensures Split(start + Items(row) + "\n", ':')[0] == start + if row == [] then "\n" else ""
    decreases row
  {
    hide Split, ParseInt, ParseInts, Items, Decimal, Flat;
    if row == [] {
      SplitNoItems(start, row);
    } else {
      var id, count := Decimal(row[0].0), Decimal(row[0].1);
      var pieces := Split((count + " ") + Items(row[1..]) + "\n", ':');
      SplitItem(start, row);
      SplitItems(count + " ", row[1..]);
      ParsePrinted(row[0].0, "");
      ParsePrinted(row[0].1, if row[1..] == [] then " \n" else " ");
      assert (count + " ") + "\n" == count + " \n" && (count + " ") + "" == count + " ";
      ParsePieces(id, pieces, row);
      assert Split(start + Items(row) + "\n", ':')[1..] == [id] + pieces;
    }
  }

  lemma {:induction false} ParsePieces(id: string, pieces: seq<string>, row: seq<Item>)
    requires row != [] && pieces != [] && ParseInt(id + "") == Some(row[0].0) && ParseInt(pieces[0]) == Some(row[0].1)
    requires ParseInts(pieces[1..]) == Some(Flat(row[1..]))
    ensures ParseInts([id] + pieces) == Some(Flat(row))
  {
    hide ParseInt;
    assert id + "" == id;
    assert ([id] + pieces)[1..] == pieces;
    assert ParseInts(pieces) == Some([row[0].1] + Flat(row[1..]));
    assert ParseInts([id] + pieces) == Some([row[0].0] + ([row[0].1] + Flat(row[1..])));
    hide ParseInts;
    assert [row[0].0] + ([row[0].1] + Flat(row[1..])) == Flat(row);
  }

  /** Every line the client writes is read back as the same list of items. */
  lemma RoundTrip(delim: char, row: seq<Item>)
    requires delim != ':'
    ensures Parse(Print(delim, row)) == Some(row)
  {
    SplitItems([delim], row);
    PairUpFlat(row);
  }

  // ---------- the written text ----------

  /** The pieces between colons: the start, then per item its identifier and its count with one
      blank behind it. */
  ghost predicate ArePieces(start: string, row: seq<Item>, pieces: seq<string>) {
    && |pieces| == 2 * |row| + 1 && pieces[0] == start
    && (forall i :: 0 <= i < |row| ==>
         pieces[2 * i + 1] == Decimal(row[i].0) && pieces[2 * i + 2] == Decimal(row[i].1) + " ")
  }

  lemma {:induction false} FirstItem(start: string, row: seq<Item>)
    requires row != [] && ':' !in start
    ensures Split(start + Items(row), ':') ==
            [start, Decimal(row[0].0)] + Split((Decimal(row[0].1) + " ") + Items(row[1..]), ':')
  {
    var id, count, rest := Decimal(row[0].0), Decimal(row[0].1), Items(row[1..]);
    hide Split, Decimal;
    var tail := (count + " ") + rest;
    RegroupItem(start, id, count, rest);
    SplitAt(start, id + [':'] + tail, ':');
    SplitAt(id, tail, ':');
    TwoInFront(start, id, Split(tail, ':'));
  }

  lemma RegroupItem(start: string, id: string, count: string, rest: string)
    ensures start + (":" + id + ":" + count + " " + rest) == start + [':'] + (id + [':'] + ((count + " ") + rest))
  {
    assert ":" + id + ":" + count + " " + rest == [':'] + (id + [':'] + ((count + " ") + rest));
  }

  lemma TwoInFront(a: string, b: string, rest: seq<string>)
    ensures [a] + ([b] + rest) == [a, b] + rest
  {
  }

  lemma {:induction false} NoItems(start: string)
    requires ':' !in start
    ensures Split(start + Items([]), ':') == [start]
  {
    assert start + Items([]) == start;
    SplitNone(start, ':');
  }

  lemma {:induction false} ItemPieces(start: string, row: seq<Item>)
    requires ':' !in start
    ensures ArePieces(start, row, Split(start + Items(row), ':'))
    decreases row
  {
    hide Split, Decimal, Items;
    if row == [] {
      NoItems(start);
    } else {
      FirstItem(start, row);
      ItemPieces(Decimal(row[0].1) + " ", row[1..]);
      MorePieces(start, Decimal(row[0].0), row, Split((Decimal(row[0].1) + " ") + Items(row[1..]), ':'));
    }
  }

  lemma {:induction false} MorePieces(start: string, id: string, row: seq<Item>, rest: seq<string>)
    requires row != [] && id == Decimal(row[0].0) && ArePieces(Decimal(row[0].1) + " ", row[1..], rest)
    ensures ArePieces(start, row, [start, id] + rest)
  {
    hide Decimal;
    var pieces := [start, id] + rest;
    forall i | 0 <= i < |row|
      ensures pieces[2 * i + 1] == Decimal(row[i].0) && pieces[2 * i + 2] == Decimal(row[i].1) + " "
    {
      if i > 0 {
        assert row[i] == row[1..][i - 1];
        assert pieces[2 * i + 1] == rest[2 * (i - 1) + 1] && pieces[2 * i + 2] == rest[2 * (i - 1) + 2];
      }
    }
  }

  /** A written line: the delimiter, the items in order as ":id:count ", one newline at the end. */
  lemma {:induction false} PrintedText(delim: char, row: seq<Item>)
    requires delim != ':'
    ensures var line := Print(delim, row);
            && |line| >= 2 && line[0] == delim && line[|line| - 1] == '\n'
            && ArePieces([delim], row, Split(line[..|line| - 1], ':'))
  {
    var line := Print(delim, row);
    assert line[..|line| - 1] == [delim] + Items(row);
    ItemPieces([delim], row);
  }
}
