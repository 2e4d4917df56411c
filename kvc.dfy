/**
 * The `key = value ;comment` grammar shared by the INI reader and the argv reader, given in the
 * library as the .NET pattern
 *   ^(.+?)\s*=\s*(?(["|'])["|'](.+)["|'](?:\s*;\s*(.+))?|([^;\n]+)?(?:\s*;\s*(.+))?)
 * (single-line mode: `.` matches every character). It is written here as an explicit matcher that
 * makes the same choices as the backtracking engine: the shortest key after which `\s*=` matches,
 * the longest quoted value, the longest unquoted value. `GetKeyValueComment` then reads the groups
 * as `GetKeyValueCommentFromLine` and `GetKeyValueCommentFromArgv` do.
 */
module KeyValueComments {
  import opened Base
  import opened Text
  import opened ValueComments

  /** The class `["|']`: a value that starts with one of these is read as a quoted value. */
  predicate IsQuote(c: char) {
    c == '"' || c == '|' || c == '\''
  }

  /** Groups 2 to 5 of a match; an optional group that did not take part is None. */
  datatype ValueGroups = ValueGroups(
    quoted: Option<string>,         // group 2: the text between the quote characters
    quotedComment: Option<string>,  // group 3
    plain: Option<string>,          // group 4: an unquoted value
    plainComment: Option<string>)   // group 5

  /** A whole match: group 1, the key, and the rest. */
  datatype KvcGroups = KvcGroups(key: string, groups: ValueGroups)

  /** A successful read: the trimmed key, value and comment. */
  datatype Kvc = Kvc(key: string, value: string, comment: string)

  /** `\s*` at `i`: the first index at or after `i` that is not a `\s` character. */
  function SkipSpaces(s: string, i: nat): (j: nat)
    requires i <= |s|
    ensures i <= j <= |s|
    ensures forall k :: i <= k < j ==> IsSpace(s[k])
    ensures j < |s| ==> !IsSpace(s[j])
    decreases |s| - i
  {
    if i < |s| && IsSpace(s[i]) then SkipSpaces(s, i + 1) else i
  }

  /** The greedy `(.+)["|']`: the last quote character in `s[lo..hi]`. */
  function LastQuote(s: string, lo: nat, hi: nat): (r: Option<nat>)
    requires hi <= |s|
    ensures r.Some? ==> lo <= r.value < hi && IsQuote(s[r.value])
    ensures r.Some? ==> forall k :: r.value < k < hi ==> !IsQuote(s[k])
    ensures r.None? ==> forall k :: lo <= k < hi ==> !IsQuote(s[k])
    decreases hi
  {
    if hi <= lo then None
    else if IsQuote(s[hi - 1]) then Some(hi - 1)
    else LastQuote(s, lo, hi - 1)
  }

  /** The greedy `[^;\n]+`: the first index at or after `i` holding `;` or a line feed. */
  function ValueEnd(s: string, i: nat): (j: nat)
    requires i <= |s|
    ensures i <= j <= |s|
    ensures forall k :: i <= k < j ==> s[k] != Delimiter && s[k] != '\n'
    ensures j < |s| ==> s[j] == Delimiter || s[j] == '\n'
    decreases |s| - i
  {
    if i < |s| && s[i] != Delimiter && s[i] != '\n' then ValueEnd(s, i + 1) else i
  }

  /**
   * The optional `(?:\s*;\s*(.+))?` at the start of `u`. When nothing follows the blanks after `;`,
   * the engine gives one blank back to `(.+)`.
   */
  function CommentGroup(u: string): Option<string> {
    var d := SkipSpaces(u, 0);
    if d < |u| && u[d] == Delimiter then
      var e := SkipSpaces(u, d + 1);
      if e < |u| then Some(u[e..]) else if e > d + 1 then Some(u[e - 1..]) else None
    else None
  }

  /** The unquoted alternative on `u`: value and comment are both optional. */
  function PlainGroups(u: string): ValueGroups {
    var q := ValueEnd(u, 0);
    ValueGroups(None, None, if q > 0 then Some(u[..q]) else None, CommentGroup(u[q..]))
  }

  /**
   * The conditional on `u`, the text after `=` and its blanks. If the quoted alternative finds no
   * closing quote, the engine gives the last of those blanks (`blank`) back and the unquoted
   * alternative matches from it; without a blank to give back, this key length fails.
   */
  function ValueAlternatives(u: string, blank: Option<char>): Option<ValueGroups> {
    if u != [] && IsQuote(u[0]) then
      match LastQuote(u, 2, |u|)
      case Some(c) => Some(ValueGroups(Some(u[1..c]), CommentGroup(u[c + 1..]), None, None))
      case None => if blank.Some? then Some(PlainGroups([blank.value] + u)) else None
    else Some(PlainGroups(u))
  }

  /** `\s*=\s*` and the conditional, on the text `t` that follows group 1. */
  function AfterKey(t: string): Option<ValueGroups> {
    var m := SkipSpaces(t, 0);
    if m == |t| || t[m] != '=' then None
    else
      var p := SkipSpaces(t, m + 1);
      ValueAlternatives(t[p..], if p > m + 1 then Some(t[p - 1]) else None)
  }

  /** The lazy `^(.+?)`: the shortest key, of length at least `n`, after which the rest matches. */
  function MatchFrom(s: string, n: nat): Option<KvcGroups>
    requires n >= 1
    decreases |s| - n
  {
    if n >= |s| then None
    else match AfterKey(s[n..])
      case Some(g) => Some(KvcGroups(s[..n], g))
      case None => MatchFrom(s, n + 1)
  }

  function MatchKvc(s: string): Option<KvcGroups> {
    MatchFrom(s, 1)
  }

  /**
   * `GetKeyValueCommentFromLine` / `GetKeyValueCommentFromArgv`: a quoted value wins, then an
   * unquoted one; a match with neither (an empty value) is not a key line. Every group is trimmed
   * of CR, LF and space, and a missing comment is "".
   */
  function GetKeyValueComment(line: string): (r: Option<Kvc>)
    ensures r.Some? ==> Trimmed(r.value.key) && Trimmed(r.value.value) && Trimmed(r.value.comment)
  {
    match MatchKvc(line)
    case None => None
    case Some(m) => ReadGroups(m.key, m.groups)
  }

  /** How the two readers turn the groups of a match into a key, a value and a comment. */
  function ReadGroups(key: string, g: ValueGroups): Option<Kvc> {
    if g.quoted.Some? then
      Some(Kvc(Trim(key), Trim(g.quoted.value), if g.quotedComment.Some? then Trim(g.quotedComment.value) else ""))
    else if g.plain.Some? then
      Some(Kvc(Trim(key), Trim(g.plain.value), if g.plainComment.Some? then Trim(g.plainComment.value) else ""))
    else None
  }

  // ---------------------------------------------------------------------------------------------
  // Scanning facts

  lemma {:induction false} SkipSpacesTo(s: string, i: nat, j: nat)
    requires i <= j <= |s|
    requires forall k :: i <= k < j ==> IsSpace(s[k])
    requires j < |s| ==> !IsSpace(s[j])
    ensures SkipSpaces(s, i) == j
    decreases j - i
  {
    if i < j {
      SkipSpacesTo(s, i + 1, j);
    }
  }

  lemma {:induction false} ValueEndAt(s: string, i: nat, j: nat)
    requires i <= j <= |s|
    requires forall k :: i <= k < j ==> s[k] != Delimiter && s[k] != '\n'
    requires j < |s| ==> s[j] == Delimiter || s[j] == '\n'
    ensures ValueEnd(s, i) == j
    decreases j - i
  {
    if i < j {
      ValueEndAt(s, i + 1, j);
    }
  }

  lemma {:induction false} LastQuoteAt(s: string, lo: nat, c: nat, hi: nat)
    requires lo <= c < hi <= |s| && IsQuote(s[c])
    requires forall k :: c < k < hi ==> !IsQuote(s[k])
    ensures LastQuote(s, lo, hi) == Some(c)
    decreases hi
  {
    if c < hi - 1 {
      LastQuoteAt(s, lo, c, hi - 1);
    }
  }

  /** Key lengths for which the rest cannot match are skipped by the lazy group. */
  lemma {:induction false} MatchFromSkips(s: string, n: nat, n': nat)
    requires 1 <= n <= n' <= |s|
    requires forall j :: n <= j < n' ==> AfterKey(s[j..]) == None
    ensures MatchFrom(s, n) == MatchFrom(s, n')
    decreases n' - n
  {
    if n < n' {
      assert MatchFrom(s, n) == MatchFrom(s, n + 1) by {
        assert AfterKey(s[n..]) == None;
      }
      MatchFromSkips(s, n + 1, n');
    }
  }

  /** Text that starts with neither a blank nor `=` cannot follow a key. */
  lemma NoEqualsAfterKey(t: string)
    requires t != [] && !IsSpace(t[0]) && t[0] != '='
    ensures AfterKey(t) == None
  {
    SkipSpacesTo(t, 0, 0);
  }

  /** A comment written as ` ;c` (or not at all when empty) is read back as `c`. */
  lemma CommentGroupOfSuffix(c: string)
    requires SpaceFree(c)
    ensures c == [] ==> CommentGroup(CommentSuffix(c)) == None
    ensures c != [] ==> CommentGroup(CommentSuffix(c)) == Some(c)
  {
    var u := CommentSuffix(c);
    if c != [] {
      assert u[0] == ' ' && u[1] == Delimiter && u[2] == c[0];
      SkipSpacesTo(u, 0, 1);
      SkipSpacesTo(u, 2, 2);
      assert u[2..] == c;
    }
  }

  /** The same, read from the `;` itself, where an unquoted value stops. */
  lemma CommentGroupAtDelimiter(c: string)
    requires c != [] && SpaceFree(c)
    ensures CommentGroup([Delimiter] + c) == Some(c)
  {
    var u := [Delimiter] + c;
    assert u[0] == Delimiter && u[1] == c[0];
    SkipSpacesTo(u, 0, 0);
    SkipSpacesTo(u, 1, 1);
    assert u[1..] == c;
  }

  // ---------------------------------------------------------------------------------------------
  // Properties

  /** A token or line without `=` is never a key line. */
  lemma NoEqualsNoMatch(line: string)
    requires '=' !in line
    ensures GetKeyValueComment(line) == None
  {
    if |line| >= 1 {
      forall j | 1 <= j < |line| ensures AfterKey(line[j..]) == None {
        var t := line[j..];
        var m := SkipSpaces(t, 0);
        if m < |t| {
          assert t[m] == line[j + m] && line[j + m] in line;
        }
      }
      MatchFromSkips(line, 1, |line|);
    }
  }

  /** A key the writer can emit and the reader takes back unchanged. */
  predicate WritableKey(k: string) {
    k != [] && '=' !in k && SpaceFree(k)
  }

  /**
   * A cell that survives `key = value ;comment`: a non-empty value without blanks at either end and
   * without a line feed, a comment without blanks at either end; an unquoted value must not start
   * with a quote character, and the comment of a quoted value must hold none.
   */
  predicate WritableCell(p: ValueCommentPair) {
    && p.value != [] && SpaceFree(p.value) && '\n' !in p.value
    && SpaceFree(p.comment)
    && (Delimiter !in p.value ==> !IsQuote(p.value[0]))
    && (Delimiter in p.value ==> forall i :: 0 <= i < |p.comment| ==> !IsQuote(p.comment[i]))
  }

  /** The key line the INI writer emits for one cell: `key = value`, then ` ;comment` if any. */
  function KeyLine(key: string, p: ValueCommentPair): (r: string)
    ensures StartsWith(r, key + " = ")
  {
    key + " = " + PairToString(p)
  }

  /** For a writable key, the first `=` is the one the writer put after it. */
  lemma KeyLineKey(k: string, t: string)
    requires WritableKey(k)
    ensures MatchKvc(k + t) == MatchFrom(k + t, |k|)
  {
    var s := k + t;
    forall j | 1 <= j < |k| ensures AfterKey(s[j..]) == None {
      KeyTail(k, t, j);
    }
    MatchFromSkips(s, 1, |k|);
  }

  lemma KeyTail(k: string, t: string, j: nat)
    requires WritableKey(k) && 1 <= j < |k|
    ensures AfterKey((k + t)[j..]) == None
  {
    var u := (k + t)[j..];
    var m := SkipSpaces(u, 0);
    assert u[|k| - 1 - j] == k[|k| - 1];
    assert m < |k| - j;
    assert u[m] == k[j + m] && k[j + m] in k;
  }

  /** What follows a written key: ` = `, then the written cell, read as the conditional on the cell. */
  lemma AfterSpacedEquals(w: string)
    requires w != [] && !IsSpace(w[0])
    ensures AfterKey(" = " + w) == ValueAlternatives(w, Some(' '))
  {
    var t := " = " + w;
    assert t[0] == ' ' && t[1] == '=' && t[2] == ' ' && t[3] == w[0];
    SkipSpacesTo(t, 0, 1);
    SkipSpacesTo(t, 2, 3);
    assert t[3..] == w;
  }

  /** Writing a cell and reading the key line back gives the key, the value and the comment. */
  lemma KeyLineRoundTrip(k: string, p: ValueCommentPair)
    requires WritableKey(k) && WritableCell(p)
    ensures GetKeyValueComment(KeyLine(k, p)) == Some(Kvc(k, p.value, p.comment))
  {
    var g := ValueAlternatives(PairToString(p), Some(' '));
    if Delimiter in p.value {
      QuotedCell(p);
      QuotedGroupsRead(k, p.value, p.comment);
    } else {
      PlainCell(p);
      PlainGroupsRead(k, g.value, p.value, p.comment);
    }
    KeyLineGroups(k, p);
  }

  /** The groups of a quoted value give back the key, the value and the comment. */
  lemma QuotedGroupsRead(k: string, v: string, c: string)
    requires SpaceFree(k) && SpaceFree(v) && SpaceFree(c)
    ensures ReadGroups(k, ValueGroups(Some(v), if c == [] then None else Some(c), None, None)) == Some(Kvc(k, v, c))
  {
    TrimOfTrimmed(k);
    TrimOfTrimmed(v);
    TrimOfTrimmed(c);
  }

  /** The groups of an unquoted value give back the key, the trimmed value and the comment. */
  lemma PlainGroupsRead(k: string, g: ValueGroups, v: string, c: string)
    requires SpaceFree(k) && SpaceFree(c)
    requires g.quoted.None? && g.plain.Some? && Trim(g.plain.value) == v
    requires g.plainComment == (if c == [] then None else Some(c))
    ensures ReadGroups(k, g) == Some(Kvc(k, v, c))
  {
    SpaceFreeUntrimmed(k);
    SpaceFreeUntrimmed(c);
  }

  lemma SpaceFreeUntrimmed(s: string)
    requires SpaceFree(s)
    ensures Trim(s) == s
  {
    if s != [] {
      TrimCharIsSpace(s[0]);
      TrimCharIsSpace(s[|s| - 1]);
    }
    TrimOfTrimmed(s);
  }

  /** A written key line is matched with the whole key, and the cell's groups after ` = `. */
  lemma KeyLineGroups(k: string, p: ValueCommentPair)
    requires WritableKey(k) && WritableCell(p) && ValueAlternatives(PairToString(p), Some(' ')).Some?
    ensures GetKeyValueComment(KeyLine(k, p)) == ReadGroups(k, ValueAlternatives(PairToString(p), Some(' ')).value)
  {
    var w := PairToString(p);
    var s := k + (" = " + w);
    assert s == KeyLine(k, p);
    CellStart(p);
    KeyLineKey(k, " = " + w);
    assert s[|k|..] == " = " + w && s[..|k|] == k;
    AfterSpacedEquals(w);
    KeyEndsAt(s, |k|, ValueAlternatives(w, Some(' ')).value);
  }

  /** A written cell starts with its quote or with the first character of its value. */
  lemma CellStart(p: ValueCommentPair)
    requires WritableCell(p)
    ensures PairToString(p) != [] && !IsSpace(PairToString(p)[0])
  {
    assert PairToString(p)[0] == (if Delimiter in p.value then '"' else p.value[0]);
  }

  /** A quoted cell: the last quote closes the value, and the comment after it is read back. */
  lemma QuotedCell(p: ValueCommentPair)
    requires WritableCell(p) && Delimiter in p.value
    ensures ValueAlternatives(PairToString(p), Some(' '))
      == Some(ValueGroups(Some(p.value), if p.comment == [] then None else Some(p.comment), None, None))
  {
    var v := p.value;
    var suf := CommentSuffix(p.comment);
    var u := ['"'] + v + ['"'] + suf;
    assert u == PairToString(p);
    var c := |v| + 1;
    assert u[0] == '"' && u[c] == '"';
    forall j | c < j < |u| ensures !IsQuote(u[j]) {
      assert u[j] == suf[j - c - 1];
      if j >= c + 3 {
        assert suf[j - c - 1] == p.comment[j - c - 3];
      }
    }
    LastQuoteAt(u, 2, c, |u|);
    assert u[1..c] == v by {
      assert |u[1..c]| == |v|;
      forall j | 0 <= j < |v| ensures u[1..c][j] == v[j] {
        assert u[1..c][j] == u[1 + j];
      }
    }
    assert u[c + 1..] == suf;
    CommentGroupOfSuffix(p.comment);
  }

  /** An unquoted value runs up to the `;` that follows it, or to the end. */
  lemma PlainValue(v: string, tail: string, blank: Option<char>)
    requires v != [] && !IsQuote(v[0]) && Delimiter !in v && '\n' !in v
    requires tail == [] || tail[0] == Delimiter
    ensures ValueAlternatives(v + tail, blank) == Some(ValueGroups(None, None, Some(v), CommentGroup(tail)))
  {
    var u := v + tail;
    forall j | 0 <= j < |v| ensures u[j] != Delimiter && u[j] != '\n' {
      assert u[j] == v[j] && v[j] in v;
    }
    ValueEndAt(u, 0, |v|);
    assert u[..|v|] == v && u[|v|..] == tail;
  }

  /** An unquoted cell: the value is read back up to the ` ;` of the comment, or to the end. */
  lemma PlainCell(p: ValueCommentPair)
    requires WritableCell(p) && Delimiter !in p.value
    ensures var g := ValueAlternatives(PairToString(p), Some(' '));
      && g.Some? && g.value.quoted.None? && g.value.plain.Some?
      && Trim(g.value.plain.value) == p.value
      && g.value.plainComment == (if p.comment == [] then None else Some(p.comment))
  {
    var v := p.value;
    if p.comment == [] {
      assert PairToString(p) == v + [];
      PlainValue(v, [], Some(' '));
      TrimOfTrimmed(v);
      SkipSpacesTo([], 0, 0);
    } else {
      var tail := [Delimiter] + p.comment;
      assert PairToString(p) == (v + " ") + tail;
      assert (v + " ")[0] == v[0];
      PlainValue(v + " ", tail, Some(' '));
      TrimDropsTrailingBlanks(v, " ");
      CommentGroupAtDelimiter(p.comment);
    }
  }

  /** The lazy key stops at the first length after which the rest matches. */
  lemma MatchFromAt(s: string, n: nat)
    requires 1 <= n < |s| && AfterKey(s[n..]).Some?
    ensures MatchFrom(s, n) == Some(KvcGroups(s[..n], AfterKey(s[n..]).value))
  {
  }

  /** The key ends at `n` when no shorter key fits and the rest is an `=` and a value: the groups are read there. */
  lemma KeyEndsAt(s: string, n: nat, g: ValueGroups)
    requires 1 <= n < |s| && MatchKvc(s) == MatchFrom(s, n) && AfterKey(s[n..]) == Some(g)
    ensures GetKeyValueComment(s) == ReadGroups(s[..n], g)
  {
    MatchFromAt(s, n);
  }

  /** A key line whose value is empty, `key =` or `key =  ;comment`, is not a key line. */
  lemma EmptyValueNoMatch(k: string, pad: string, c: string)
    requires WritableKey(k) && SpaceFree(c) && (pad == "" || pad == " ")
    ensures GetKeyValueComment(k + " =" + pad + CommentSuffix(c)) == None
  {
    var t := " =" + pad + CommentSuffix(c);
    var s := k + t;
    assert k + " =" + pad + CommentSuffix(c) == s;
    var g := AfterKey(t);
    EmptyAfterKey(pad, c);
    assert GetKeyValueComment(s) == ReadGroups(k, g.value) by {
      KeyLineKey(k, t);
      assert s[|k|..] == t && s[..|k|] == k;
      KeyEndsAt(s, |k|, g.value);
    }
  }

  lemma EmptyAfterKey(pad: string, c: string)
    requires SpaceFree(c) && (pad == "" || pad == " ")
    ensures var g := AfterKey(" =" + pad + CommentSuffix(c)); g.Some? && g.value.quoted.None? && g.value.plain.None?
  {
    var t := " =" + pad + CommentSuffix(c);
    var n := 2 + |pad|;
    assert t[0] == ' ' && t[1] == '=';
    assert forall i :: 2 <= i < n ==> t[i] == ' ';
    SkipSpacesTo(t, 0, 1);
    if c == [] {
      SkipSpacesTo(t, 2, n);
      assert t[n..] == [];
      ValueEndAt([], 0, 0);
    } else {
      assert t[n] == ' ' && t[n + 1] == Delimiter;
      SkipSpacesTo(t, 2, n + 1);
      assert t[n + 1..][0] == Delimiter;
      ValueEndAt(t[n + 1..], 0, 0);
    }
  }

  /**
   * An argument `key=value;comment` with an unquoted value is read as that key, value and comment;
   * for example `--name=test;run`.
   */
  lemma ArgumentRoundTrip(k: string, v: string, c: string)
    requires WritableKey(k) && v != [] && SpaceFree(v) && !IsQuote(v[0]) && Delimiter !in v && '\n' !in v
    requires c != [] && SpaceFree(c)
    ensures GetKeyValueComment(k + "=" + v + [Delimiter] + c) == Some(Kvc(k, v, c))
  {
    var t := "=" + v + [Delimiter] + c;
    var s := k + t;
    assert k + "=" + v + [Delimiter] + c == s;
    var g := ValueGroups(None, None, Some(v), Some(c));
    assert GetKeyValueComment(s) == ReadGroups(k, g) by {
      KeyLineKey(k, t);
      assert s[|k|..] == t && s[..|k|] == k;
      ArgumentValue(v, c);
      KeyEndsAt(s, |k|, g);
    }
    assert ReadGroups(k, g) == Some(Kvc(k, v, c)) by {
      TrimOfTrimmed(k);
      TrimOfTrimmed(v);
      TrimOfTrimmed(c);
    }
  }

  /** After the key, `=value;comment` gives the value as group 4 and the comment as group 5. */
  lemma ArgumentValue(v: string, c: string)
    requires v != [] && SpaceFree(v) && !IsQuote(v[0]) && Delimiter !in v && '\n' !in v
    requires c != [] && SpaceFree(c)
    ensures AfterKey("=" + v + [Delimiter] + c) == Some(ValueGroups(None, None, Some(v), Some(c)))
  {
    var t := "=" + v + [Delimiter] + c;
    assert t[0] == '=' && t[1] == v[0];
    SkipSpacesTo(t, 0, 0);
    SkipSpacesTo(t, 1, 1);
    assert t[1..] == v + ([Delimiter] + c);
    PlainValue(v, [Delimiter] + c, None);
    CommentGroupAtDelimiter(c);
  }

  /** The argument `--name=test;run`: key `--name`, value `test`, comment `run`. */
  lemma ArgumentExample()
    ensures GetKeyValueComment("--name=test;run") == Some(Kvc("--name", "test", "run"))
  {
    assert "--name=test;run" == "--name" + "=" + "test" + [Delimiter] + "run";
    assert '=' !in "--name" by {
      forall i | 0 <= i < 6 ensures "--name"[i] != '=' {
      }
    }
    ArgumentRoundTrip("--name", "test", "run");
  }
}
