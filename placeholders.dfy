/**
 * The placeholder pattern of the expansion engine, `\${(.+?)(?:\.(.+?))?\}`, as an explicit
 * leftmost, lazy matcher. `.` does not match a line feed. A match `${s.k}` names a section and a
 * key; a match `${k}` names a key of the current section.
 */
module Placeholders {
  import opened Base
  import opened Text

  /** A match: `s[start..end]` is the matched text; `section` is group 2's partner, group 1. */
  datatype Placeholder = Placeholder(start: nat, end: nat, section: Option<string>, key: string)

  /** The text a placeholder stands for: `${key}` or `${section.key}`. */
  function Reference(section: Option<string>, key: string): string {
    match section
    case None => "${" + key + "}"
    case Some(s) => "${" + s + "." + key + "}"
  }

  /**
   * Lazy group 2, which starts one character before `c`: it ends at the first `}` at or after `c`,
   * with no line feed on the way.
   */
  function CloseBrace(s: string, c: nat): (r: Option<nat>)
    requires c >= 1
    ensures r.Some? ==> c <= r.value < |s| && s[r.value] == '}'
    // the first `}` from `c` on, with no line feed from `c - 1` up to it
    ensures r.Some? ==> forall k :: c <= k < r.value ==> s[k] != '}'
    ensures r.Some? ==> forall k :: c - 1 <= k < r.value ==> s[k] != '\n'
    // None: every `}` from `c` on has a line feed before it
    ensures r.None? ==> forall e :: c <= e < |s| && s[e] == '}' ==> exists k :: c - 1 <= k < e && s[k] == '\n'
    decreases |s| - c
  {
    if c > |s| || s[c - 1] == '\n' then None
    else if c == |s| then None
    else if s[c] == '}' then Some(c)
    else
      CloseBrace(s, c + 1)
  }

  /**
   * Lazy group 1 is `s[i..j]`: try the dotted form first, then the closing brace, then a longer
   * group 1. `s[i - 2..i]` is the `${` already matched.
   */
  function ScanName(s: string, i: nat, j: nat): Option<Placeholder>
    requires 2 <= i < j
    decreases |s| - j
  {
    if j > |s| || s[j - 1] == '\n' || j == |s| then None
    else if s[j] == '.' && j + 2 <= |s| && CloseBrace(s, j + 2).Some? then
      var c := CloseBrace(s, j + 2).value;
      Some(Placeholder(i - 2, c + 1, Some(s[i..j]), s[j + 1..c]))
    else if s[j] == '}' then Some(Placeholder(i - 2, j + 1, None, s[i..j]))
    else ScanName(s, i, j + 1)
  }

  /** The match at `i`, if the pattern matches there. */
  function MatchAt(s: string, i: nat): Option<Placeholder>
  {
    if i + 3 <= |s| && s[i] == '$' && s[i + 1] == '{' then ScanName(s, i + 2, i + 3) else None
  }

  /** `Regex.Match`: the leftmost match at or after `i`. */
  function FindFrom(s: string, i: nat): Option<Placeholder>
    decreases |s| - i
  {
    if i >= |s| then None
    else match MatchAt(s, i)
      case Some(p) => Some(p)
      case None => FindFrom(s, i + 1)
  }

  function FindPlaceholder(s: string): Option<Placeholder> {
    FindFrom(s, 0)
  }

  /**
   * The text the source replaces, `match.Groups[0].Value`, is exactly the reference the match names,
   * and it lies inside the searched text.
   */
  lemma {:induction false} MatchedText(s: string, i: nat)
    requires FindFrom(s, i).Some?
    ensures var p := FindFrom(s, i).value;
      i <= p.start && p.start + 3 < p.end <= |s| && s[p.start..p.end] == Reference(p.section, p.key)
    decreases |s| - i
  {
    if MatchAt(s, i).Some? {
      MatchedTextScan(s, i + 2, i + 3);
    } else {
      MatchedText(s, i + 1);
    }
  }

  lemma {:induction false} MatchedTextScan(s: string, i: nat, j: nat)
    requires 2 <= i < j <= |s| && s[i - 2] == '$' && s[i - 1] == '{'
    requires ScanName(s, i, j).Some?
    ensures var p := ScanName(s, i, j).value;
      p.start == i - 2 && j < p.end <= |s| && s[p.start..p.end] == Reference(p.section, p.key)
    decreases |s| - j
  {
    if s[j] == '.' && j + 2 <= |s| && CloseBrace(s, j + 2).Some? {
      DottedText(s, i, j, CloseBrace(s, j + 2).value);
    } else if s[j] == '}' {
      BareText(s, i, j);
    } else {
      MatchedTextScan(s, i, j + 1);
    }
  }

  lemma DottedText(s: string, i: nat, j: nat, c: nat)
    requires 2 <= i < j < c < |s| && s[i - 2] == '$' && s[i - 1] == '{' && s[j] == '.' && s[c] == '}'
    ensures s[i - 2..c + 1] == "${" + s[i..j] + "." + s[j + 1..c] + "}"
  {
    assert s[i - 2..c + 1] == s[i - 2..i] + s[i..j] + s[j..j + 1] + s[j + 1..c] + s[c..c + 1];
  }

  lemma BareText(s: string, i: nat, j: nat)
    requires 2 <= i < j < |s| && s[i - 2] == '$' && s[i - 1] == '{' && s[j] == '}'
    ensures s[i - 2..j + 1] == "${" + s[i..j] + "}"
  {
    assert s[i - 2..j + 1] == s[i - 2..i] + s[i..j] + s[j..j + 1];
  }

  /** Text without a `$` holds no placeholder. */
  lemma {:induction false} NoDollarNoPlaceholder(s: string, i: nat)
    requires '$' !in s
    ensures FindFrom(s, i) == None
    decreases |s| - i
  {
    if i < |s| {
      assert s[i] in s;
      NoDollarNoPlaceholder(s, i + 1);
    }
  }

  /** A name that can stand inside a placeholder as one group: no `.`, `}` or line feed. */
  predicate PlainName(k: string) {
    k != [] && '.' !in k && '}' !in k && '\n' !in k
  }

  /** A key that can follow the dot of a cross-section reference: no `}` or line feed. */
  predicate PlainKey(k: string) {
    k != [] && '}' !in k && '\n' !in k
  }

  lemma {:induction false} ScanPlainName(s: string, i: nat, j: nat, n: nat)
    requires 2 <= i < j <= i + n && i + n < |s|
    requires forall m :: i <= m < i + n ==> s[m] != '.' && s[m] != '}' && s[m] != '\n'
    requires s[i + n] == '}'
    ensures ScanName(s, i, j) == Some(Placeholder(i - 2, i + n + 1, None, s[i..i + n]))
    decreases i + n - j
  {
    if j < i + n {
      ScanPlainName(s, i, j + 1, n);
    }
  }

  lemma {:induction false} CloseBraceAt(s: string, k: nat, c: nat, e: nat)
    requires k < c <= e < |s|
    requires forall m :: k <= m < e ==> s[m] != '}' && s[m] != '\n'
    requires s[e] == '}'
    ensures CloseBrace(s, c) == Some(e)
    decreases e - c
  {
    if c < e {
      CloseBraceAt(s, k, c + 1, e);
    }
  }

  lemma {:induction false} ScanDotted(s: string, i: nat, j: nat, n: nat, e: nat)
    requires 2 <= i < j <= i + n && i + n + 1 < e < |s|
    requires forall m :: i <= m < i + n ==> s[m] != '.' && s[m] != '}' && s[m] != '\n'
    requires s[i + n] == '.'
    requires forall m :: i + n + 1 <= m < e ==> s[m] != '}' && s[m] != '\n'
    requires s[e] == '}'
    ensures ScanName(s, i, j) == Some(Placeholder(i - 2, e + 1, Some(s[i..i + n]), s[i + n + 1..e]))
    decreases i + n - j
  {
    if j < i + n {
      ScanDotted(s, i, j + 1, n, e);
    } else {
      CloseBraceAt(s, i + n + 1, i + n + 2, e);
    }
  }

  /** A text that starts with `${k}` has that reference as its first match. */
  lemma LeadingBareReference(k: string, rest: string)
    requires PlainName(k)
    ensures FindPlaceholder("${" + k + "}" + rest) == Some(Placeholder(0, |k| + 3, None, k))
  {
    var s := "${" + k + "}" + rest;
    forall m | 2 <= m < 2 + |k| ensures s[m] != '.' && s[m] != '}' && s[m] != '\n' {
      assert s[m] == k[m - 2];
      assert k[m - 2] in k;
    }
    ScanPlainName(s, 2, 3, |k|);
    assert s[2..2 + |k|] == k;
  }

  /** A text that is exactly `${k}` matches as a whole. */
  lemma LoneBareReference(k: string)
    requires PlainName(k)
    ensures FindPlaceholder("${" + k + "}") == Some(Placeholder(0, |k| + 3, None, k))
  {
    LeadingBareReference(k, []);
    assert "${" + k + "}" + [] == "${" + k + "}";
  }

  /** A text that starts with `${sec.k}` has that cross-section reference as its first match. */
  lemma LeadingCrossReference(sec: string, k: string, rest: string)
    requires PlainName(sec) && PlainKey(k)
    ensures FindPlaceholder("${" + sec + "." + k + "}" + rest)
      == Some(Placeholder(0, |sec| + |k| + 4, Some(sec), k))
  {
    var s := "${" + sec + "." + k + "}" + rest;
    forall m | 2 <= m < 2 + |sec| ensures s[m] != '.' && s[m] != '}' && s[m] != '\n' {
      assert s[m] == sec[m - 2];
      assert sec[m - 2] in sec;
    }
    forall m | 3 + |sec| <= m < 3 + |sec| + |k| ensures s[m] != '}' && s[m] != '\n' {
      assert s[m] == k[m - 3 - |sec|];
      assert k[m - 3 - |sec|] in k;
    }
    ScanDotted(s, 2, 3, |sec|, 3 + |sec| + |k|);
    assert s[2..2 + |sec|] == sec;
    assert s[3 + |sec|..3 + |sec| + |k|] == k;
  }
}
