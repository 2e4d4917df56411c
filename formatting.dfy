/**
 * The part of `string.Format` that `SetExpanded` relies on: `{n}` holes filled from the argument
 * list, `{{` and `}}` standing for single braces, and, in the model, a FormatException for anything
 * else.
 */
module Formatting {
  import opened Base
  import opened Text

  /** A format string, read as a sequence of literal characters and numbered holes. */
  datatype FormatItem = Lit(c: char) | Hole(index: nat)

  /** The first index at or after `i` that does not hold a decimal digit. */
  function DigitRun(f: string, i: nat): (j: nat)
    requires i <= |f|
    ensures i <= j <= |f|
    ensures forall k :: i <= k < j ==> IsDigit(f[k])
    ensures j < |f| ==> !IsDigit(f[j])
    decreases |f| - i
  {
    if i < |f| && IsDigit(f[i]) then DigitRun(f, i + 1) else i
  }

  /** Reads a format string; an unmatched or malformed brace is a FormatException. */
  function ParseFormat(f: string): (r: Result<seq<FormatItem>>)
    ensures r.Failure? ==> r.error == InvalidFormat
    decreases |f|
  {
    if f == [] then Success([])
    else if f[0] == '{' && |f| >= 2 && f[1] == '{' then Prepend(Lit('{'), ParseFormat(f[2..]))
    else if f[0] == '}' && |f| >= 2 && f[1] == '}' then Prepend(Lit('}'), ParseFormat(f[2..]))
    else if f[0] == '}' then Failure(InvalidFormat)
    else if f[0] == '{' then
      var j := DigitRun(f, 1);
      if j == 1 || j == |f| || f[j] != '}' then Failure(InvalidFormat)
      else Prepend(Hole(DigitsValue(f[1..j])), ParseFormat(f[j + 1..]))
    else Prepend(Lit(f[0]), ParseFormat(f[1..]))
  }

  function Prepend(item: FormatItem, r: Result<seq<FormatItem>>): Result<seq<FormatItem>> {
    match r
    case Failure(e) => Failure(e)
    case Success(items) => Success([item] + items)
  }

  predicate HolesBelow(items: seq<FormatItem>, n: nat) {
    forall i :: 0 <= i < |items| && items[i].Hole? ==> items[i].index < n
  }

  /** The text produced for `items`, each hole `{i}` replaced by `args[i]`. */
  function Render(items: seq<FormatItem>, args: seq<string>): (r: string)
    requires HolesBelow(items, |args|)
    // every character written is a literal of the format or comes from an argument
    ensures forall c :: c in r ==> Lit(c) in items || exists i :: 0 <= i < |args| && c in args[i]
  {
    if items == [] then []
    else
      (match items[0] case Lit(c) => [c] case Hole(i) => args[i]) + Render(items[1..], args)
  }

  /**
   * `string.Format(f, args)`: a hole numbering a missing argument is a FormatException too. Holes
   * with spaces, an alignment or a format specifier are rejected here, although .NET accepts them.
   */
  function Format(f: string, args: seq<string>): (r: Result<string>)
    ensures r.Success? ==>
      && ParseFormat(f).Success?
      && HolesBelow(ParseFormat(f).value, |args|)
      && r.value == Render(ParseFormat(f).value, args)
    ensures r.Failure? ==> r.error == InvalidFormat
  {
    match ParseFormat(f)
    case Failure(_) => Failure(InvalidFormat)
    case Success(items) =>
      if HolesBelow(items, |args|) then Success(Render(items, args)) else Failure(InvalidFormat)
  }

  /** The text of one item: a brace is doubled, a hole is written as its index in decimal. */
  function UnparseItem(item: FormatItem): string {
    match item
    case Lit(c) => if c == '{' then "{{" else if c == '}' then "}}" else [c]
    case Hole(i) => ['{'] + NatToString(i) + ['}']
  }

  /** The format string that reads back as `items`. */
  function Unparse(items: seq<FormatItem>): string {
    if items == [] then [] else UnparseItem(items[0]) + Unparse(items[1..])
  }

  /** Reading a written format gives back its items. */
  lemma {:induction false} ParseUnparse(items: seq<FormatItem>)
    ensures ParseFormat(Unparse(items)) == Success(items)
  {
    if items != [] {
      var rest := Unparse(items[1..]);
      ParseUnparse(items[1..]);
      ParseItem(items[0], rest);
      assert [items[0]] + items[1..] == items;
    }
  }

  /** The text of one item, followed by anything, reads as that item followed by what the rest reads as. */
  lemma ParseItem(item: FormatItem, rest: string)
    ensures ParseFormat(UnparseItem(item) + rest) == Prepend(item, ParseFormat(rest))
  {
    match item
    case Lit(c) => ParseLit(c, rest);
    case Hole(i) => ParseHole(i, rest);
  }

  lemma ParseLit(c: char, rest: string)
    ensures ParseFormat(UnparseItem(Lit(c)) + rest) == Prepend(Lit(c), ParseFormat(rest))
  {
    var f := UnparseItem(Lit(c)) + rest;
    if c == '{' {
      assert f == "{{" + rest;
      assert f[2..] == rest;
    } else if c == '}' {
      assert f == "}}" + rest;
      assert f[2..] == rest;
    } else {
      assert f[1..] == rest;
    }
  }

  lemma ParseHole(i: nat, rest: string)
    ensures ParseFormat(UnparseItem(Hole(i)) + rest) == Prepend(Hole(i), ParseFormat(rest))
  {
    var f := UnparseItem(Hole(i)) + rest;
    var d := NatToString(i);
    assert f == ['{'] + d + ['}'] + rest;
    assert forall k :: 1 <= k < 1 + |d| ==> f[k] == d[k - 1];
    assert f[1 + |d|] == '}';
    DigitRunStops(f, 1, 1 + |d|);
    assert f[1..1 + |d|] == d;
    NatToStringRoundTrip(i);
    assert f[1 + |d| + 1..] == rest;
  }

  lemma {:induction false} DigitRunStops(f: string, i: nat, j: nat)
    requires i <= j < |f|
    requires forall k :: i <= k < j ==> IsDigit(f[k])
    requires !IsDigit(f[j])
    ensures DigitRun(f, i) == j
    decreases j - i
  {
    if i < j {
      DigitRunStops(f, i + 1, j);
    }
  }

  /** Text without braces is its own format: `Format` returns it unchanged. */
  lemma {:induction false} FormatPlainText(f: string, args: seq<string>)
    requires '{' !in f && '}' !in f
    ensures Format(f, args) == Success(f)
  {
    PlainTextItems(f);
  }

  function LitsOf(f: string): (r: seq<FormatItem>)
    ensures |r| == |f| && forall i :: 0 <= i < |f| ==> r[i] == Lit(f[i])
  {
    seq(|f|, i requires 0 <= i < |f| => Lit(f[i]))
  }

  lemma {:induction false} PlainTextItems(f: string)
    requires '{' !in f && '}' !in f
    ensures ParseFormat(f) == Success(LitsOf(f))
    ensures forall args :: Render(LitsOf(f), args) == f
  {
    if f != [] {
      assert f[0] in f;
      assert forall c :: c in f[1..] ==> c in f;
      PlainTextItems(f[1..]);
      assert [Lit(f[0])] + LitsOf(f[1..]) == LitsOf(f);
      forall args ensures Render(LitsOf(f), args) == f {
        assert LitsOf(f)[1..] == LitsOf(f[1..]);
      }
    } else {
      forall args ensures Render(LitsOf(f), args) == f {
      }
    }
  }
}
