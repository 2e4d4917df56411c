/** Character classes and string helpers shared by the expansion engine and the three formats. */
module Text {

  /** The characters every `Trim('\r', '\n', ' ')` call of the library removes. */
  predicate IsTrimChar(c: char) {
    c == '\r' || c == '\n' || c == ' '
  }

  /** The .NET regular-expression class `\s`: \f \n \r \t \v, U+0085 and the Unicode separators (Z). */
  predicate IsSpace(c: char) {
    c == ' ' || c == '\t' || c == '\n' || c == '\U{B}' || c == '\U{C}' || c == '\r'
    || c == '\U{85}' || c == '\U{A0}' || c == '\U{1680}' || ('\U{2000}' <= c <= '\U{200A}')
    || c == '\U{2028}' || c == '\U{2029}' || c == '\U{202F}' || c == '\U{205F}' || c == '\U{3000}'
  }

  lemma TrimCharIsSpace(c: char)
    ensures IsTrimChar(c) ==> IsSpace(c)
  {
  }

  /** `s` neither starts nor ends with a trimmed character: Trim leaves it alone. */
  predicate Trimmed(s: string) {
    s == [] || (!IsTrimChar(s[0]) && !IsTrimChar(s[|s| - 1]))
  }

  /** `s` neither starts nor ends with a `\s` character (stronger than Trimmed). */
  predicate SpaceFree(s: string) {
    s == [] || (!IsSpace(s[0]) && !IsSpace(s[|s| - 1]))
  }

  /** No line break inside: the text survives being written with WriteLine and read with ReadLine. */
  predicate SingleLine(s: string) {
    '\r' !in s && '\n' !in s
  }

  function TrimStart(s: string): (r: string)
    ensures |r| <= |s| && r == s[|s| - |r|..]
    ensures forall i :: 0 <= i < |s| - |r| ==> IsTrimChar(s[i])
    ensures r == [] || !IsTrimChar(r[0])
  {
    if s != [] && IsTrimChar(s[0]) then TrimStart(s[1..]) else s
  }

  function TrimEnd(s: string): (r: string)
    ensures |r| <= |s| && r == s[..|r|]
    ensures forall i :: |r| <= i < |s| ==> IsTrimChar(s[i])
    ensures r == [] || !IsTrimChar(r[|r| - 1])
  {
    if s != [] && IsTrimChar(s[|s| - 1]) then TrimEnd(s[..|s| - 1]) else s
  }

  /** `r` is the slice of `s` that starts at `a`, with only trim characters outside it. */
  predicate SliceWithin(s: string, r: string, a: nat) {
    && a + |r| <= |s| && r == s[a..a + |r|]
    && (forall i :: 0 <= i < a ==> IsTrimChar(s[i]))
    && (forall i :: a + |r| <= i < |s| ==> IsTrimChar(s[i]))
  }

  /** `string.Trim('\r', '\n', ' ')`: the input with its leading and trailing CR, LF and space removed. */
  function Trim(s: string): (r: string)
    ensures Trimmed(r)
    ensures |r| <= |s|
  {
    TrimEnd(TrimStart(s))
  }

  /** What `Trim` removes is only CR, LF and space, from the two ends: the rest is a slice of the input. */
  lemma TrimIsSlice(s: string)
    ensures exists a: nat :: SliceWithin(s, Trim(s), a)
  {
    var t := TrimStart(s);
    var r := TrimEnd(t);
    var a := |s| - |t|;
    assert r == s[a..a + |r|] by {
      assert t == s[a..];
      assert r == t[..|r|];
    }
    assert forall i :: a + |r| <= i < |s| ==> IsTrimChar(s[i]) by {
      forall i | a + |r| <= i < |s| ensures IsTrimChar(s[i]) {
        assert s[i] == t[i - a];
      }
    }
    assert Trim(s) == r;
    assert SliceWithin(s, Trim(s), a);
  }

  lemma {:induction false} TrimStartOfTrimmed(s: string)
    requires s == [] || !IsTrimChar(s[0])
    ensures TrimStart(s) == s
  {
  }

  lemma {:induction false} TrimEndOfTrimmed(s: string)
    requires s == [] || !IsTrimChar(s[|s| - 1])
    ensures TrimEnd(s) == s
  {
  }

  /** Trimming a string that is already trimmed changes nothing; in particular Trim is idempotent. */
  lemma TrimOfTrimmed(s: string)
    requires Trimmed(s)
    ensures Trim(s) == s
  {
    TrimStartOfTrimmed(s);
    TrimEndOfTrimmed(s);
  }

  /** Trim is idempotent. */
  lemma TrimIdempotent(s: string)
    ensures Trim(Trim(s)) == Trim(s)
  {
    TrimOfTrimmed(Trim(s));
  }

  /** Trailing trimmed characters after a string that ends in a kept character are dropped. */
  lemma {:induction false} TrimEndDropsSuffix(s: string, pad: string)
    requires s != [] && !IsTrimChar(s[|s| - 1])
    requires forall i :: 0 <= i < |pad| ==> IsTrimChar(pad[i])
    ensures TrimEnd(s + pad) == s
    decreases |pad|
  {
    if pad == [] {
      assert s + pad == s;
      TrimEndOfTrimmed(s);
    } else {
      var shorter := pad[..|pad| - 1];
      assert (s + pad)[..|s + pad| - 1] == s + shorter;
      TrimEndDropsSuffix(s, shorter);
    }
  }

  /** A nonempty trimmed text followed by blanks trims back to itself. */
  lemma TrimDropsTrailingBlanks(s: string, pad: string)
    requires s != [] && Trimmed(s)
    requires forall i :: 0 <= i < |pad| ==> IsTrimChar(pad[i])
    ensures Trim(s + pad) == s
  {
    TrimStartOfTrimmed(s + pad);
    TrimEndDropsSuffix(s, pad);
  }

  predicate StartsWith(s: string, prefix: string) {
    |prefix| <= |s| && s[..|prefix|] == prefix
  }

  /** `pat` occurs in `s` at index `i`. */
  predicate OccursAt(s: string, pat: string, i: int) {
    0 <= i && i + |pat| <= |s| && s[i..i + |pat|] == pat
  }

  /**
   * .NET `string.Replace(pat, rep)`: every non-overlapping occurrence of `pat`, found left to right,
   * is replaced by `rep`.
   */
  function ReplaceAll(s: string, pat: string, rep: string): (r: string)
    requires pat != []
    // replacing the pattern by itself leaves the text as it was
    ensures rep == pat ==> r == s
    decreases |s|
  {
    if |s| < |pat| then s
    else if s[..|pat|] == pat then
      assert rep == pat ==> rep + s[|pat|..] == s by {
        assert s[..|pat|] + s[|pat|..] == s;
      }
      rep + ReplaceAll(s[|pat|..], pat, rep)
    else
      assert [s[0]] + s[1..] == s;
      [s[0]] + ReplaceAll(s[1..], pat, rep)
  }

  /** Replacing only ever writes characters of the text or of the replacement. */
  lemma {:induction false} ReplaceAllChars(s: string, pat: string, rep: string)
    requires pat != []
    ensures forall c :: c in ReplaceAll(s, pat, rep) ==> c in s || c in rep
    decreases |s|
  {
    if |s| >= |pat| {
      if s[..|pat|] == pat {
        ReplaceAllChars(s[|pat|..], pat, rep);
        assert forall c :: c in s[|pat|..] ==> c in s;
      } else {
        ReplaceAllChars(s[1..], pat, rep);
        assert forall c :: c in s[1..] ==> c in s;
      }
    }
  }

  /** Text in which the pattern does not occur is left as it is. */
  lemma {:induction false} ReplaceAllAbsent(s: string, pat: string, rep: string)
    requires pat != [] && forall i :: !OccursAt(s, pat, i)
    ensures ReplaceAll(s, pat, rep) == s
    decreases |s|
  {
    if |s| >= |pat| {
      assert !OccursAt(s, pat, 0);
      forall i ensures !OccursAt(s[1..], pat, i) {
        if OccursAt(s[1..], pat, i) {
          assert s[1..][i..i + |pat|] == s[i + 1..i + 1 + |pat|];
          assert OccursAt(s, pat, i + 1);
        }
      }
      ReplaceAllAbsent(s[1..], pat, rep);
    }
  }

  /** Replacing a pattern that begins the text puts the replacement first. */
  lemma ReplaceAllAtStart(pat: string, rest: string, rep: string)
    requires pat != []
    ensures ReplaceAll(pat + rest, pat, rep) == rep + ReplaceAll(rest, pat, rep)
  {
    assert (pat + rest)[..|pat|] == pat;
    assert (pat + rest)[|pat|..] == rest;
  }

  /** Replacing a pattern inside the pattern itself gives the replacement. */
  lemma ReplaceWhole(pat: string, rep: string)
    requires pat != []
    ensures ReplaceAll(pat, pat, rep) == rep
  {
    ReplaceAllAtStart(pat, [], rep);
    assert pat + [] == pat && rep + [] == rep;
  }

  /** Text without a `$` cannot contain a pattern that starts with `$`. */
  lemma NoDollarNoOccurrence(s: string, pat: string)
    requires pat != [] && pat[0] == '$' && '$' !in s
    ensures forall i :: !OccursAt(s, pat, i)
  {
    forall i | 0 <= i && i + |pat| <= |s| ensures !OccursAt(s, pat, i) {
      assert s[i..i + |pat|][0] == s[i];
      assert s[i] in s;
    }
  }

  function DigitChar(d: nat): (c: char)
    requires d < 10
    ensures '0' <= c <= '9'
  {
    ['0', '1', '2', '3', '4', '5', '6', '7', '8', '9'][d]
  }

  predicate IsDigit(c: char) {
    '0' <= c <= '9'
  }

  function DigitValue(c: char): (d: nat)
    requires IsDigit(c)
    ensures d < 10
  {
    (c as int - '0' as int) as nat
  }

  lemma DigitRoundTrip(d: nat)
    requires d < 10
    ensures DigitValue(DigitChar(d)) == d
  {
  }

  /** The decimal text of a natural number, as `int.ToString()` writes it for non-negative values. */
  function NatToString(n: nat): (r: string)
    ensures r != [] && forall i :: 0 <= i < |r| ==> IsDigit(r[i])
    ensures |r| > 1 ==> r[0] != '0'
  {
    if n < 10 then [DigitChar(n)] else NatToString(n / 10) + [DigitChar(n % 10)]
  }

  /** The value of a string of decimal digits, read left to right. */
  function DigitsValue(s: string): nat
    requires forall i :: 0 <= i < |s| ==> IsDigit(s[i])
  {
    if s == [] then 0 else DigitsValue(s[..|s| - 1]) * 10 + DigitValue(s[|s| - 1])
  }

  /** Reading back the decimal text of `n` gives `n`: the decimal writer is injective. */
  lemma {:induction false} NatToStringRoundTrip(n: nat)
    ensures DigitsValue(NatToString(n)) == n
  {
    if n >= 10 {
      var s := NatToString(n);
      assert s[..|s| - 1] == NatToString(n / 10);
      NatToStringRoundTrip(n / 10);
      DigitRoundTrip(n % 10);
    } else {
      DigitRoundTrip(n);
    }
  }

  lemma NatToStringInjective(m: nat, n: nat)
    requires NatToString(m) == NatToString(n)
    ensures m == n
  {
    NatToStringRoundTrip(m);
    NatToStringRoundTrip(n);
  }

  /** ASCII lower-casing, standing in for `string.ToLower()` on element names. */
  function ToLower(s: string): (r: string)
    ensures |r| == |s|
    ensures forall i :: 0 <= i < |s| ==> (if 'A' <= s[i] <= 'Z' then r[i] as int == s[i] as int + 32 else r[i] == s[i])
  {
    if s == [] then []
    else [if 'A' <= s[0] <= 'Z' then (s[0] as int + 32) as char else s[0]] + ToLower(s[1..])
  }

  /** A name with no upper-case ASCII letter is its own lower-case form. */
  lemma ToLowerOfLower(s: string)
    requires forall i :: 0 <= i < |s| ==> !('A' <= s[i] <= 'Z')
    ensures ToLower(s) == s
  {
  }
}
