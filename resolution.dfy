/**
 * What `ExpandValue` computes when the references of a source form no cycle. A value is read as a
 * template: literal text and references `${k}` / `${s.k}`. The meaning of a key is its template
 * with every reference replaced by the meaning of the key it names (`Resolve`), a definition that
 * knows nothing of the engine's order of work. `ExpandsAsResolved` proves that the engine, which
 * resolves the leftmost placeholder and replaces all its occurrences round after round, computes
 * exactly that meaning once it has enough fuel.
 */
module Resolution {
  import opened Base
  import opened Text
  import opened Entries
  import opened Sections
  import opened Sources
  import opened Placeholders
  import opened Expansion

  // ---------------------------------------------------------------------------------------------
  // Templates

  datatype Segment = Literal(text: string) | Ref(section: Option<string>, key: string)

  function SegmentText(g: Segment): string {
    match g
    case Literal(t) => t
    case Ref(s, k) => Reference(s, k)
  }

  /** The text a template stands for. */
  function Render(ts: seq<Segment>): string
    decreases |ts|
  {
    if ts == [] then [] else SegmentText(ts[0]) + Render(ts[1..])
  }

  /** A section name, or a key of the current section, as the pattern reads it: one group, no `$`. */
  predicate RefName(k: string) {
    PlainName(k) && '$' !in k
  }

  /** A key after the dot of `${s.k}`: no `}`, line feed or `$`. */
  predicate RefKey(k: string) {
    PlainKey(k) && '$' !in k
  }

  /** Literal text holds no `$`; references are spelt with names the pattern reads back. */
  predicate WellFormedSegment(g: Segment) {
    match g
    case Literal(t) => '$' !in t
    case Ref(None, k) => RefName(k)
    case Ref(Some(s), k) => RefName(s) && RefKey(k)
  }

  predicate WellFormed(ts: seq<Segment>) {
    forall i :: 0 <= i < |ts| ==> WellFormedSegment(ts[i])
  }

  function RefCount(ts: seq<Segment>): nat
    decreases |ts|
  {
    if ts == [] then 0 else (if ts[0].Ref? then 1 else 0) + RefCount(ts[1..])
  }

  /** The leftmost reference of a template. */
  function FirstRef(ts: seq<Segment>): (r: Option<Segment>)
    ensures r.Some? ==> r.value.Ref?
    decreases |ts|
  {
    if ts == [] then None else if ts[0].Ref? then Some(ts[0]) else FirstRef(ts[1..])
  }

  /** Every reference spelt `pat` becomes the literal `v`. */
  function Subst(ts: seq<Segment>, pat: string, v: string): (r: seq<Segment>)
    ensures |r| == |ts|
    decreases |ts|
  {
    if ts == [] then []
    else [if ts[0].Ref? && SegmentText(ts[0]) == pat then Literal(v) else ts[0]] + Subst(ts[1..], pat, v)
  }

  lemma WellFormedTail(ts: seq<Segment>)
    requires WellFormed(ts) && ts != []
    ensures WellFormedSegment(ts[0]) && WellFormed(ts[1..])
  {
    assert forall i :: 0 <= i < |ts[1..]| ==> ts[1..][i] == ts[i + 1];
  }

  // ---------------------------------------------------------------------------------------------
  // The spelling of a reference

  /**
   * A reference is spelt `${…}`: `$` only first, `}` only last, and its first `.` after the brace
   * is the dot of a cross-section reference.
   */
  lemma ReferenceShape(g: Segment)
    requires g.Ref? && WellFormedSegment(g)
    ensures var a := SegmentText(g);
      && |a| >= 4 && a[0] == '$' && a[1] == '{' && a[|a| - 1] == '}'
      && (forall m :: 0 <= m < |a| - 1 ==> a[m] != '}')
      && (forall m :: 1 <= m < |a| ==> a[m] != '$')
    ensures var a := SegmentText(g);
      g.section.None? ==> |a| == |g.key| + 3 && forall m :: 2 <= m < |a| - 1 ==> a[m] != '.'
    ensures var a := SegmentText(g);
      g.section.Some? ==>
        && |a| == |g.section.value| + |g.key| + 4 && a[2 + |g.section.value|] == '.'
        && forall m :: 2 <= m < 2 + |g.section.value| ==> a[m] != '.'
  {
    var a := SegmentText(g);
    match g.section
    case None =>
      forall m | 2 <= m < |a| - 1 ensures a[m] != '}' && a[m] != '$' && a[m] != '.' {
        assert a[m] == g.key[m - 2] && g.key[m - 2] in g.key;
      }
    case Some(s) =>
      forall m | 2 <= m < |a| - 1 ensures a[m] != '}' && a[m] != '$' && (m < 2 + |s| ==> a[m] != '.') {
        if m < 2 + |s| {
          assert a[m] == s[m - 2] && s[m - 2] in s;
        } else if m > 2 + |s| {
          assert a[m] == g.key[m - 3 - |s|] && g.key[m - 3 - |s|] in g.key;
        }
      }
  }

  /** Two well-formed references with the same spelling are the same reference. */
  lemma ReferenceInjective(g: Segment, h: Segment)
    requires g.Ref? && h.Ref? && WellFormedSegment(g) && WellFormedSegment(h)
    requires SegmentText(g) == SegmentText(h)
    ensures g == h
  {
    var a := SegmentText(g);
    ReferenceShape(g);
    ReferenceShape(h);
    if g.section.None? && h.section.None? {
      assert g.key == a[2..|a| - 1] == h.key;
    } else if g.section.Some? && h.section.Some? && |g.section.value| == |h.section.value| {
      var n := |g.section.value|;
      assert g.section.value == a[2..2 + n] == h.section.value;
      assert g.key == a[3 + n..|a| - 1] == h.key;
    } else {
      assert false;
    }
  }

  // ---------------------------------------------------------------------------------------------
  // The pattern on a rendered template

  /** Characters without a `$` are passed over by the search. */
  lemma {:induction false} SkipDollarFree(s: string, i: nat, n: nat)
    requires i + n <= |s| && forall m :: i <= m < i + n ==> s[m] != '$'
    ensures FindFrom(s, i) == FindFrom(s, i + n)
    decreases n
  {
    if n > 0 {
      assert MatchAt(s, i) == None;
      SkipDollarFree(s, i + 1, n - 1);
    }
  }

  /** The characters of `${sec.k}`. */
  lemma DottedChars(sec: string, k: string)
    ensures var a := "${" + sec + "." + k + "}";
      && |a| == |sec| + |k| + 4 && a[0] == '$' && a[1] == '{' && a[2 + |sec|] == '.' && a[|a| - 1] == '}'
      && (forall m :: 0 <= m < |sec| ==> a[2 + m] == sec[m])
      && (forall m :: 0 <= m < |k| ==> a[3 + |sec| + m] == k[m])
  {
  }

  /** The characters of `${k}`. */
  lemma BareChars(k: string)
    ensures var a := "${" + k + "}";
      && |a| == |k| + 3 && a[0] == '$' && a[1] == '{' && a[|a| - 1] == '}'
      && (forall m :: 0 <= m < |k| ==> a[2 + m] == k[m])
  {
  }

  lemma SliceChars(s: string, i: nat, a: string)
    requires i + |a| <= |s| && s[i..i + |a|] == a
    ensures forall m :: 0 <= m < |a| ==> s[i + m] == a[m]
  {
    forall m | 0 <= m < |a| ensures s[i + m] == a[m] {
      assert s[i..i + |a|][m] == s[i + m];
    }
  }

  /** The pattern matches a reference `${k}` written at `i`. */
  lemma BareMatch(s: string, i: nat, k: string)
    requires RefName(k) && i + |k| + 3 <= |s| && s[i..i + |k| + 3] == "${" + k + "}"
    ensures FindFrom(s, i) == Some(Placeholder(i, i + |k| + 3, None, k))
  {
    var a := "${" + k + "}";
    BareChars(k);
    SliceChars(s, i, a);
    forall m | i + 2 <= m < i + 2 + |k| ensures s[m] != '.' && s[m] != '}' && s[m] != '\n' {
      assert s[i + (m - i)] == a[m - i] == k[m - i - 2] && k[m - i - 2] in k;
    }
    assert s[i + 2 + |k|] == a[2 + |k|];
    ScanPlainName(s, i + 2, i + 3, |k|);
    assert s[i + 2..i + 2 + |k|] == k;
  }

  /** The pattern matches a reference `${sec.k}` written at `i`. */
  lemma DottedMatch(s: string, i: nat, sec: string, k: string)
    requires RefName(sec) && RefKey(k)
    requires i + |sec| + |k| + 4 <= |s| && s[i..i + |sec| + |k| + 4] == "${" + sec + "." + k + "}"
    ensures FindFrom(s, i) == Some(Placeholder(i, i + |sec| + |k| + 4, Some(sec), k))
  {
    var a := "${" + sec + "." + k + "}";
    var e := i + 3 + |sec| + |k|;
    DottedChars(sec, k);
    SliceChars(s, i, a);
    forall m | i + 2 <= m < i + 2 + |sec| ensures s[m] != '.' && s[m] != '}' && s[m] != '\n' {
      assert s[i + (m - i)] == a[m - i] == sec[m - i - 2] && sec[m - i - 2] in sec;
    }
    forall m | i + 3 + |sec| <= m < e ensures s[m] != '}' && s[m] != '\n' {
      assert s[i + (m - i)] == a[m - i] == k[m - i - 3 - |sec|] && k[m - i - 3 - |sec|] in k;
    }
    assert s[i + 2 + |sec|] == a[2 + |sec|] && s[i + (e - i)] == a[e - i];
    ScanDotted(s, i + 2, i + 3, |sec|, e);
    assert s[i + 2..i + 2 + |sec|] == sec;
    assert s[i + 3 + |sec|..e] == k;
  }

  /** The text at `i` begins with `a`, and what follows it is `b`. */
  lemma SplitAt(s: string, i: nat, a: string, b: string)
    requires i <= |s| && s[i..] == a + b
    ensures i + |a| <= |s| && s[i..i + |a|] == a && s[i + |a|..] == b
  {
    assert s[i..i + |a|] == s[i..][..|a|];
    assert s[i + |a|..] == s[i..][|a|..];
  }

  /** The search from `i` over a rendered template finds its leftmost reference. */
  lemma {:induction false} FindFromRendered(s: string, i: nat, ts: seq<Segment>)
    requires i <= |s| && s[i..] == Render(ts) && WellFormed(ts)
    ensures FirstRef(ts).None? ==> FindFrom(s, i) == None
    ensures FirstRef(ts).Some? ==>
      && FindFrom(s, i).Some?
      && FindFrom(s, i).value.section == FirstRef(ts).value.section
      && FindFrom(s, i).value.key == FirstRef(ts).value.key
    decreases |ts|
  {
    if ts == [] {
      assert |s[i..]| == 0;
    } else {
      WellFormedTail(ts);
      var g := ts[0];
      SplitAt(s, i, SegmentText(g), Render(ts[1..]));
      match g
      case Literal(t) =>
        forall m | i <= m < i + |t| ensures s[m] != '$' {
          assert s[m] == t[m - i] && t[m - i] in t;
        }
        SkipDollarFree(s, i, |t|);
        FindFromRendered(s, i + |t|, ts[1..]);
      case Ref(None, k) =>
        BareMatch(s, i, k);
      case Ref(Some(sec), k) =>
        DottedMatch(s, i, sec, k);
    }
  }

  /** `Regex.Match` on a rendered template finds its leftmost reference, or nothing if it has none. */
  lemma FindRendered(ts: seq<Segment>)
    requires WellFormed(ts)
    ensures FirstRef(ts).None? ==> FindPlaceholder(Render(ts)) == None
    ensures FirstRef(ts).Some? ==>
      && FindPlaceholder(Render(ts)).Some?
      && FindPlaceholder(Render(ts)).value.section == FirstRef(ts).value.section
      && FindPlaceholder(Render(ts)).value.key == FirstRef(ts).value.key
  {
    var s := Render(ts);
    assert s[0..] == s;
    FindFromRendered(s, 0, ts);
  }

  // ---------------------------------------------------------------------------------------------
  // string.Replace on a rendered template

  /** Text without a `$` is copied as it is by a replacement of a pattern that starts with `$`. */
  lemma {:induction false} ReplaceAllSkip(t: string, b: string, pat: string, rep: string)
    requires pat != [] && pat[0] == '$' && '$' !in t
    ensures ReplaceAll(t + b, pat, rep) == t + ReplaceAll(b, pat, rep)
    decreases |t|
  {
    if t == [] {
      assert t + b == b;
    } else if |t + b| >= |pat| {
      assert (t + b)[..|pat|][0] == t[0] && t[0] in t;
      assert (t + b)[1..] == t[1..] + b;
      assert '$' !in t[1..] by {
        forall c | c in t[1..] ensures c in t { }
      }
      ReplaceAllSkip(t[1..], b, pat, rep);
      assert [t[0]] + (t[1..] + ReplaceAll(b, pat, rep)) == t + ReplaceAll(b, pat, rep);
    }
  }

  /** A reference spelt differently from the pattern is copied as it is. */
  lemma OtherReferenceKept(g: Segment, b: string, h: Segment, rep: string)
    requires g.Ref? && h.Ref? && WellFormedSegment(g) && WellFormedSegment(h)
    requires SegmentText(g) != SegmentText(h)
    ensures ReplaceAll(SegmentText(g) + b, SegmentText(h), rep) == SegmentText(g) + ReplaceAll(b, SegmentText(h), rep)
  {
    var a, pat := SegmentText(g), SegmentText(h);
    ReferenceShape(g);
    ReferenceShape(h);
    if |a + b| >= |pat| {
      OtherReferenceNoMatch(g, b, h);
      assert (a + b)[1..] == a[1..] + b;
      assert '$' !in a[1..] by {
        forall m | 0 <= m < |a[1..]| ensures a[1..][m] != '$' {
          assert a[1..][m] == a[m + 1];
        }
      }
      ReplaceAllSkip(a[1..], b, pat, rep);
      assert [a[0]] + (a[1..] + ReplaceAll(b, pat, rep)) == a + ReplaceAll(b, pat, rep);
    } else {
      assert |b| < |pat|;
    }
  }

  /** The text of another reference, whatever follows it, does not start with the pattern. */
  lemma OtherReferenceNoMatch(g: Segment, b: string, h: Segment)
    requires g.Ref? && h.Ref? && WellFormedSegment(g) && WellFormedSegment(h)
    requires SegmentText(g) != SegmentText(h) && |SegmentText(g) + b| >= |SegmentText(h)|
    ensures (SegmentText(g) + b)[..|SegmentText(h)|] != SegmentText(h)
  {
    var a, pat := SegmentText(g), SegmentText(h);
    ReferenceShape(g);
    ReferenceShape(h);
    if |pat| <= |a| {
      assert (a + b)[|pat| - 1] == a[|pat| - 1];
      if |pat| < |a| {
        assert a[|pat| - 1] != '}';
      } else {
        assert (a + b)[..|pat|] == a;
      }
    } else {
      assert (a + b)[|a| - 1] == a[|a| - 1] == '}';
      assert pat[|a| - 1] != '}';
    }
  }

  /** Replacing the spelling of a reference in a rendered template renders the substituted template. */
  lemma {:induction false} ReplaceRendered(ts: seq<Segment>, h: Segment, v: string)
    requires WellFormed(ts) && h.Ref? && WellFormedSegment(h) && '$' !in v
    ensures ReplaceAll(Render(ts), SegmentText(h), v) == Render(Subst(ts, SegmentText(h), v))
    decreases |ts|
  {
    var pat := SegmentText(h);
    ReferenceShape(h);
    if ts != [] {
      WellFormedTail(ts);
      var g := ts[0];
      var b := Render(ts[1..]);
      ReplaceRendered(ts[1..], h, v);
      var sub := Subst(ts, pat, v);
      assert sub[1..] == Subst(ts[1..], pat, v);
      assert Render(sub) == SegmentText(sub[0]) + Render(sub[1..]);
      if g.Literal? {
        ReplaceAllSkip(g.text, b, pat, v);
      } else if SegmentText(g) == pat {
        ReplaceAllAtStart(pat, b, v);
      } else {
        OtherReferenceKept(g, b, h, v);
      }
    }
  }

  // ---------------------------------------------------------------------------------------------
  // Acyclic sources and the meaning of a key

  /** The section a reference written in section `owner` names. */
  function TargetName(owner: string, g: Segment): string
    requires g.Ref?
  {
    match g.section
    case None => owner
    case Some(s) => s
  }

  /** Section `name` of the source holds `key`. */
  predicate KeyExists(views: seq<SectionView>, name: string, key: string) {
    exists j :: 0 <= j < |views| && views[j].name == name && HasKey(views[j].entries, key)
  }

  /** Every reference of `ts`, written in section `owner`, names an existing key ranked below `bound`. */
  predicate RefsBelow(views: seq<SectionView>, rank: (string, string) -> nat, owner: string, ts: seq<Segment>, bound: nat) {
    forall i :: 0 <= i < |ts| && ts[i].Ref? ==>
      KeyExists(views, TargetName(owner, ts[i]), ts[i].key) && rank(TargetName(owner, ts[i]), ts[i].key) < bound
  }

  /**
   * The references of a source form no cycle: section names are unique, and the value of every key
   * is the text of a well-formed template `tpl(section, key)` with at most `m` references, each
   * naming an existing key ranked below it.
   */
  predicate Acyclic(views: seq<SectionView>, tpl: (string, string) -> seq<Segment>, rank: (string, string) -> nat, m: nat) {
    && UniqueNames(views)
    && forall i: nat, k: nat :: i < |views| && k < |views[i].entries| ==>
         TemplateOf(views, tpl, rank, m, views[i].name, EntryAt(views, i, k))
  }

  /** Entry `k` of section `i`. */
  function EntryAt(views: seq<SectionView>, i: nat, k: nat): Entry
    requires i < |views| && k < |views[i].entries|
  {
    views[i].entries[k]
  }

  predicate TemplateOf(views: seq<SectionView>, tpl: (string, string) -> seq<Segment>, rank: (string, string) -> nat,
                       m: nat, owner: string, e: Entry) {
    var ts := tpl(owner, e.key);
    && WellFormed(ts) && Render(ts) == e.pair.value && RefCount(ts) <= m
    && RefsBelow(views, rank, owner, ts, rank(owner, e.key))
  }

  /** The template of an existing key, with what `Acyclic` says of it. */
  lemma TemplateAt(views: seq<SectionView>, tpl: (string, string) -> seq<Segment>, rank: (string, string) -> nat,
                   m: nat, j: nat, key: string)
    requires Acyclic(views, tpl, rank, m) && j < |views| && HasKey(views[j].entries, key)
    ensures Find(views[j].entries, key).Some?
    ensures TemplateOf(views, tpl, rank, m, views[j].name, Entry(key, Find(views[j].entries, key).value))
  {
    var es := views[j].entries;
    var q := IndexOf(es, key).value;
    assert EntryAt(views, j, q) == Entry(key, Find(es, key).value);
  }

  lemma KeyExistsAt(views: seq<SectionView>, tpl: (string, string) -> seq<Segment>, rank: (string, string) -> nat,
                    m: nat, name: string, key: string)
    requires Acyclic(views, tpl, rank, m) && KeyExists(views, name, key)
    ensures WellFormed(tpl(name, key)) && RefsBelow(views, rank, name, tpl(name, key), rank(name, key))
  {
    var j :| 0 <= j < |views| && views[j].name == name && HasKey(views[j].entries, key);
    TemplateAt(views, tpl, rank, m, j, key);
  }

  /** The meaning of key `key` of section `name`: its template with every reference resolved. */
  function Resolve(views: seq<SectionView>, tpl: (string, string) -> seq<Segment>, rank: (string, string) -> nat,
                   m: nat, name: string, key: string): (r: string)
    requires Acyclic(views, tpl, rank, m) && KeyExists(views, name, key)
    ensures '$' !in r
    decreases rank(name, key), 1
  {
    KeyExistsAt(views, tpl, rank, m, name, key);
    ResolveSegments(views, tpl, rank, m, name, tpl(name, key), rank(name, key))
  }

  /** Literals as they are, references by the meaning of the key they name. */
  function ResolveSegments(views: seq<SectionView>, tpl: (string, string) -> seq<Segment>, rank: (string, string) -> nat,
                           m: nat, owner: string, ts: seq<Segment>, bound: nat): (r: string)
    requires Acyclic(views, tpl, rank, m) && WellFormed(ts) && RefsBelow(views, rank, owner, ts, bound)
    ensures '$' !in r
    decreases bound, 0, |ts|
  {
    if ts == [] then []
    else
      WellFormedTail(ts);
      assert RefsBelow(views, rank, owner, ts[1..], bound) by {
        forall i | 0 <= i < |ts[1..]| ensures ts[1..][i] == ts[i + 1] { }
      }
      var head := match ts[0]
        case Literal(t) => t
        case Ref(_, k) => Resolve(views, tpl, rank, m, TargetName(owner, ts[0]), k);
      var tail := ResolveSegments(views, tpl, rank, m, owner, ts[1..], bound);
      assert forall c | c in head + tail :: c in head || c in tail;
      head + tail
  }

  /** A template without references means its own text. */
  lemma {:induction false} NoRefsResolve(views: seq<SectionView>, tpl: (string, string) -> seq<Segment>,
                                         rank: (string, string) -> nat, m: nat, owner: string, ts: seq<Segment>, bound: nat)
    requires Acyclic(views, tpl, rank, m) && WellFormed(ts) && RefsBelow(views, rank, owner, ts, bound)
    requires FirstRef(ts).None?
    ensures ResolveSegments(views, tpl, rank, m, owner, ts, bound) == Render(ts)
    decreases |ts|
  {
    if ts != [] {
      WellFormedTail(ts);
      assert RefsBelow(views, rank, owner, ts[1..], bound) by {
        forall i | 0 <= i < |ts[1..]| ensures ts[1..][i] == ts[i + 1] { }
      }
      NoRefsResolve(views, tpl, rank, m, owner, ts[1..], bound);
    }
  }

  /** Substituting a reference by its own meaning keeps the template well-formed and acyclic. */
  lemma {:induction false} SubstKeeps(views: seq<SectionView>, rank: (string, string) -> nat, owner: string,
                                      ts: seq<Segment>, bound: nat, pat: string, v: string)
    requires WellFormed(ts) && RefsBelow(views, rank, owner, ts, bound) && '$' !in v
    ensures WellFormed(Subst(ts, pat, v)) && RefsBelow(views, rank, owner, Subst(ts, pat, v), bound)
  {
    var sub := Subst(ts, pat, v);
    forall i | 0 <= i < |ts| ensures sub[i] == ts[i] || sub[i] == Literal(v) {
      SubstAt(ts, pat, v, i);
    }
  }

  lemma {:induction false} SubstAt(ts: seq<Segment>, pat: string, v: string, i: nat)
    requires i < |ts|
    ensures Subst(ts, pat, v)[i] == if ts[i].Ref? && SegmentText(ts[i]) == pat then Literal(v) else ts[i]
    decreases i
  {
    if i > 0 {
      SubstAt(ts[1..], pat, v, i - 1);
    }
  }

  /** Substituting the leftmost reference removes at least that reference. */
  lemma {:induction false} SubstCount(ts: seq<Segment>, pat: string, v: string)
    ensures RefCount(Subst(ts, pat, v)) <= RefCount(ts)
    ensures FirstRef(ts).Some? && SegmentText(FirstRef(ts).value) == pat ==> RefCount(Subst(ts, pat, v)) < RefCount(ts)
    decreases |ts|
  {
    if ts != [] {
      SubstCount(ts[1..], pat, v);
      assert Subst(ts, pat, v)[1..] == Subst(ts[1..], pat, v);
    }
  }

  /** Substituting the references to `h` by the meaning of `h` does not change the meaning. */
  lemma {:induction false} ResolveSubst(views: seq<SectionView>, tpl: (string, string) -> seq<Segment>,
                                        rank: (string, string) -> nat, m: nat, owner: string, ts: seq<Segment>,
                                        bound: nat, h: Segment)
    requires Acyclic(views, tpl, rank, m) && WellFormed(ts) && RefsBelow(views, rank, owner, ts, bound)
    requires h.Ref? && WellFormedSegment(h)
    requires KeyExists(views, TargetName(owner, h), h.key) && rank(TargetName(owner, h), h.key) < bound
    ensures var v := Resolve(views, tpl, rank, m, TargetName(owner, h), h.key);
      SubstKeepsResult(views, rank, owner, ts, bound, SegmentText(h), v)
      && ResolveSegments(views, tpl, rank, m, owner, Subst(ts, SegmentText(h), v), bound)
         == ResolveSegments(views, tpl, rank, m, owner, ts, bound)
    decreases |ts|
  {
    var v := Resolve(views, tpl, rank, m, TargetName(owner, h), h.key);
    var pat := SegmentText(h);
    SubstKeeps(views, rank, owner, ts, bound, pat, v);
    if ts != [] {
      WellFormedTail(ts);
      assert RefsBelow(views, rank, owner, ts[1..], bound) by {
        forall i | 0 <= i < |ts[1..]| ensures ts[1..][i] == ts[i + 1] { }
      }
      ResolveSubst(views, tpl, rank, m, owner, ts[1..], bound, h);
      var sub := Subst(ts, pat, v);
      assert sub[1..] == Subst(ts[1..], pat, v);
      if ts[0].Ref? && SegmentText(ts[0]) == pat {
        ReferenceInjective(ts[0], h);
      }
    }
  }

  /** What `SubstKeeps` ensures, as one predicate. */
  predicate SubstKeepsResult(views: seq<SectionView>, rank: (string, string) -> nat, owner: string,
                             ts: seq<Segment>, bound: nat, pat: string, v: string) {
    WellFormed(Subst(ts, pat, v)) && RefsBelow(views, rank, owner, Subst(ts, pat, v), bound)
  }

  /** The fuel that expands any key of rank below `r`: `m` rounds and one nested call per rank. */
  function Budget(r: nat, m: nat): nat {
    if r == 0 then 0 else Budget(r - 1, m) + m + 1
  }

  /** The budget is `r * (m + 1)`. */
  lemma {:induction false} BudgetIs(r: nat, m: nat)
    ensures Budget(r, m) == r * (m + 1)
  {
    if r > 0 {
      BudgetIs(r - 1, m);
    }
  }

  lemma {:induction false} BudgetMonotone(a: nat, b: nat, m: nat)
    requires a <= b
    ensures Budget(a, m) <= Budget(b, m)
    decreases b
  {
    if a < b {
      BudgetMonotone(a, b - 1, m);
    }
  }

  /** The fuel of a round pays for the nested expansion and for the rounds that are left. */
  lemma FuelSplit(fuel: nat, fuel': nat, bound: nat, rt: nat, m: nat, c: nat, c': nat)
    requires rt < bound && c' < c && fuel >= Budget(bound, m) + c + 1 && fuel == fuel' + 1
    ensures fuel' >= Budget(rt + 1, m) && fuel' >= Budget(bound, m) + c' + 1
  {
    BudgetMonotone(rt + 1, bound, m);
  }

  // ---------------------------------------------------------------------------------------------
  // The theorem

  /**
   * In an acyclic source, `GetExpanded<string>(key)` on section `views[ci]` returns the meaning of
   * the key, without `$`, once the fuel reaches (rank + 1) * (m + 1): each of at most `m` rounds
   * costs one unit, and each nested expansion works on a key of lower rank.
   */
  lemma {:induction false} ExpandsAsResolved(views: seq<SectionView>, tpl: (string, string) -> seq<Segment>,
                                             rank: (string, string) -> nat, m: nat, ci: nat, key: string, fuel: nat)
    requires Acyclic(views, tpl, rank, m) && ci < |views| && HasKey(views[ci].entries, key)
    requires fuel >= Budget(rank(views[ci].name, key) + 1, m)
    ensures KeyExists(views, views[ci].name, key)
      && ExpandKey(views, views[ci], key, fuel) == Expanded(Resolve(views, tpl, rank, m, views[ci].name, key))
    decreases rank(views[ci].name, key), 1
  {
    var name := views[ci].name;
    var r := rank(name, key);
    TemplateAt(views, tpl, rank, m, ci, key);
    var ts := tpl(name, key);
    ExpandsSegmentsAsResolved(views, tpl, rank, m, ci, ts, r, fuel);
  }

  /**
   * The same with the bound written out: (rank + 1) * (m + 1) units of fuel expand any key of an
   * acyclic source to its meaning, which holds no `$`.
   */
  lemma ExpandsWithinBudget(views: seq<SectionView>, tpl: (string, string) -> seq<Segment>,
                            rank: (string, string) -> nat, m: nat, ci: nat, key: string, fuel: nat)
    requires Acyclic(views, tpl, rank, m) && ci < |views| && HasKey(views[ci].entries, key)
    requires fuel >= (rank(views[ci].name, key) + 1) * (m + 1)
    ensures KeyExists(views, views[ci].name, key)
    ensures var r := Resolve(views, tpl, rank, m, views[ci].name, key);
      ExpandKey(views, views[ci], key, fuel) == Expanded(r) && '$' !in r
  {
    BudgetIs(rank(views[ci].name, key) + 1, m);
    ExpandsAsResolved(views, tpl, rank, m, ci, key, fuel);
  }

  /** The leftmost reference of an acyclic template names an existing key of lower rank. */
  lemma FirstRefBelow(views: seq<SectionView>, rank: (string, string) -> nat, owner: string, ts: seq<Segment>, bound: nat)
    requires WellFormed(ts) && RefsBelow(views, rank, owner, ts, bound) && FirstRef(ts).Some?
    ensures var h := FirstRef(ts).value;
      && WellFormedSegment(h)
      && KeyExists(views, TargetName(owner, h), h.key) && rank(TargetName(owner, h), h.key) < bound
  {
    FirstRefIn(ts);
  }

  /** The section a reference written in `views[ci]` resolves in. */
  lemma TargetIndex(views: seq<SectionView>, ci: nat, h: Segment) returns (j: nat)
    requires UniqueNames(views) && ci < |views| && h.Ref?
    requires KeyExists(views, TargetName(views[ci].name, h), h.key)
    ensures j < |views| && views[j].name == TargetName(views[ci].name, h) && HasKey(views[j].entries, h.key)
    ensures h.section.None? ==> views[j] == views[ci]
    ensures h.section.Some? ==> LookupSection(views, h.section.value) == Success(views[j])
  {
    j :| 0 <= j < |views| && views[j].name == TargetName(views[ci].name, h) && HasKey(views[j].entries, h.key);
    if h.section.Some? {
      LookupSectionFinds(views, h.section.value, j);
    } else {
      assert views[j].name == views[ci].name;
      assert j == ci;
    }
  }

  /**
   * One round on a template: replacing the leftmost reference's text by the meaning of its key
   * renders the substituted template, which has fewer references and the same meaning.
   */
  lemma SubstRound(views: seq<SectionView>, tpl: (string, string) -> seq<Segment>, rank: (string, string) -> nat,
                   m: nat, owner: string, ts: seq<Segment>, bound: nat, name: string)
    requires Acyclic(views, tpl, rank, m) && WellFormed(ts) && RefsBelow(views, rank, owner, ts, bound)
    requires FirstRef(ts).Some? && name == TargetName(owner, FirstRef(ts).value)
    ensures var h := FirstRef(ts).value;
      && KeyExists(views, name, h.key) && rank(name, h.key) < bound
      && var v := Resolve(views, tpl, rank, m, name, h.key);
      var ts' := Subst(ts, SegmentText(h), v);
      && WellFormed(ts') && RefsBelow(views, rank, owner, ts', bound) && RefCount(ts') < RefCount(ts)
      && ResolveSegments(views, tpl, rank, m, owner, ts', bound) == ResolveSegments(views, tpl, rank, m, owner, ts, bound)
  {
    var h := FirstRef(ts).value;
    FirstRefBelow(views, rank, owner, ts, bound);
    var v := Resolve(views, tpl, rank, m, name, h.key);
    ResolveSubst(views, tpl, rank, m, owner, ts, bound, h);
    SubstCount(ts, SegmentText(h), v);
  }

  /**
   * One round of the engine on a rendered template: its leftmost reference resolves in `target` to
   * `v`, and replacing every occurrence of the reference's text by `v` renders the template in
   * which those references are literals.
   */
  lemma RoundStep(views: seq<SectionView>, cur: SectionView, ts: seq<Segment>, fuel: nat, fuel': nat,
                  target: SectionView, v: string)
    requires WellFormed(ts) && FirstRef(ts).Some? && fuel == fuel' + 1 && '$' !in v
    requires var h := FirstRef(ts).value;
      && (h.section.None? ==> target == cur)
      && (h.section.Some? ==> LookupSection(views, h.section.value) == Success(target))
      && ExpandKey(views, target, h.key, fuel') == Expanded(v)
    ensures Expand(views, cur, Render(ts), fuel)
         == Expand(views, cur, Render(Subst(ts, SegmentText(FirstRef(ts).value), v)), fuel')
  {
    FindRendered(ts);
    var h := FirstRef(ts).value;
    var p := FindPlaceholder(Render(ts)).value;
    assert Reference(p.section, p.key) == SegmentText(h);
    ExpandStep(views, cur, Render(ts), fuel, target, v);
    FirstRefIn(ts);
    ReplaceRendered(ts, h, v);
  }

  /**
   * One round of the loop on a rendered template that holds a reference: the engine continues on
   * the rendered next template, which has the same meaning, fewer references and enough fuel.
   */
  lemma {:induction false} RoundResolves(views: seq<SectionView>, tpl: (string, string) -> seq<Segment>,
                                         rank: (string, string) -> nat, m: nat, ci: nat,
                                         ts: seq<Segment>, bound: nat, fuel: nat)
    requires Acyclic(views, tpl, rank, m) && ci < |views|
    requires WellFormed(ts) && RefsBelow(views, rank, views[ci].name, ts, bound) && FirstRef(ts).Some?
    requires fuel >= Budget(bound, m) + RefCount(ts) + 1
    ensures ExpandsTo(views, views[ci], Render(ts), fuel, ResolveSegments(views, tpl, rank, m, views[ci].name, ts, bound))
    decreases bound, 0, RefCount(ts), 1
  {
    var owner := views[ci].name;
    var h := FirstRef(ts).value;
    FirstRefBelow(views, rank, owner, ts, bound);
    var j := TargetIndex(views, ci, h);
    var name := views[j].name;
    SubstRound(views, tpl, rank, m, owner, ts, bound, name);
    var v := Resolve(views, tpl, rank, m, name, h.key);
    var ts' := Subst(ts, SegmentText(h), v);
    var fuel' := fuel - 1;
    FuelSplit(fuel, fuel', bound, rank(name, h.key), m, RefCount(ts), RefCount(ts'));
    ExpandsAsResolved(views, tpl, rank, m, j, h.key, fuel');
    RoundStep(views, views[ci], ts, fuel, fuel', views[j], v);
    RoundContinues(views, tpl, rank, m, ci, ts, ts', bound, fuel, fuel');
  }

  /**
   * The rounds after the first, with `fuel'` the fuel they are left: the next template expands to
   * its meaning, which is the meaning of `ts`.
   */
  lemma {:induction false} RoundContinues(views: seq<SectionView>, tpl: (string, string) -> seq<Segment>,
                                          rank: (string, string) -> nat, m: nat, ci: nat,
                                          ts: seq<Segment>, ts': seq<Segment>, bound: nat, fuel: nat, fuel': nat)
    requires Acyclic(views, tpl, rank, m) && ci < |views|
    requires WellFormed(ts) && RefsBelow(views, rank, views[ci].name, ts, bound)
    requires WellFormed(ts') && RefsBelow(views, rank, views[ci].name, ts', bound) && RefCount(ts') < RefCount(ts)
    requires fuel' >= Budget(bound, m) + RefCount(ts') + 1
    requires ResolveSegments(views, tpl, rank, m, views[ci].name, ts', bound)
          == ResolveSegments(views, tpl, rank, m, views[ci].name, ts, bound)
    requires Expand(views, views[ci], Render(ts), fuel) == Expand(views, views[ci], Render(ts'), fuel')
    ensures ExpandsTo(views, views[ci], Render(ts), fuel, ResolveSegments(views, tpl, rank, m, views[ci].name, ts, bound))
    decreases bound, 0, RefCount(ts), 0
  {
    ExpandsSegmentsAsResolved(views, tpl, rank, m, ci, ts', bound, fuel');
  }

  /** A rendered template without references is its own expansion. */
  lemma NoRefsExpand(views: seq<SectionView>, cur: SectionView, ts: seq<Segment>, fuel: nat)
    requires WellFormed(ts) && FirstRef(ts).None? && fuel > 0
    ensures Expand(views, cur, Render(ts), fuel) == Expanded(Render(ts))
  {
    FindRendered(ts);
  }

  /** `ExpandValue(value)` on section `cur` returns `r`. */
  predicate ExpandsTo(views: seq<SectionView>, cur: SectionView, value: string, fuel: nat, r: string) {
    Expand(views, cur, value, fuel) == Expanded(r)
  }

  /** The loop of `ExpandValue` on a rendered template, round by round. */
  lemma {:induction false} ExpandsSegmentsAsResolved(views: seq<SectionView>, tpl: (string, string) -> seq<Segment>,
                                                     rank: (string, string) -> nat, m: nat, ci: nat,
                                                     ts: seq<Segment>, bound: nat, fuel: nat)
    requires Acyclic(views, tpl, rank, m) && ci < |views|
    requires WellFormed(ts) && RefsBelow(views, rank, views[ci].name, ts, bound)
    requires fuel >= Budget(bound, m) + RefCount(ts) + 1
    ensures ExpandsTo(views, views[ci], Render(ts), fuel, ResolveSegments(views, tpl, rank, m, views[ci].name, ts, bound))
    decreases bound, 0, RefCount(ts), 2
  {
    if FirstRef(ts).None? {
      NoRefsExpand(views, views[ci], ts, fuel);
      NoRefsResolve(views, tpl, rank, m, views[ci].name, ts, bound);
    } else {
      RoundResolves(views, tpl, rank, m, ci, ts, bound, fuel);
    }
  }

  /** The leftmost reference is one of the segments. */
  lemma {:induction false} FirstRefIn(ts: seq<Segment>)
    requires FirstRef(ts).Some?
    ensures exists i :: 0 <= i < |ts| && ts[i] == FirstRef(ts).value
    decreases |ts|
  {
    if !ts[0].Ref? {
      FirstRefIn(ts[1..]);
      var i :| 0 <= i < |ts[1..]| && ts[1..][i] == FirstRef(ts).value;
      assert ts[i + 1] == FirstRef(ts).value;
    } else {
      assert ts[0] == FirstRef(ts).value;
    }
  }
}
