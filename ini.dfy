/**
 * The INI front end (`IniParser` and `IniConfigSource.OnSave`). The file is a sequence of lines:
 * info lines starting with `;`, section headers `[name] ;comment` and key lines
 * `key = value ;comment`. The reader is a fold of `IniStep` over the lines, the writer is
 * `IniLines`; `IniReadsWhatItWrites` proves that reading back what the writer emits rebuilds every
 * section, key, value, comment and info line.
 */
module Ini {
  import opened Base
  import opened Text
  import opened ValueComments
  import opened Entries
  import opened Sections
  import opened Sources
  import opened KeyValueComments
  import opened Readers

  // ---------------------------------------------------------------------------------------------
  // Section headers: the pattern ^\[(.+)\]\s*(?:;(.+))? without single-line mode

  /** Where `.` stops: the first line feed at or after `i`, or the end. */
  function LineEnd(s: string, i: nat): (j: nat)
    requires i <= |s|
    ensures i <= j <= |s|
    ensures forall k :: i <= k < j ==> s[k] != '\n'
    ensures j < |s| ==> s[j] == '\n'
    decreases |s| - i
  {
    if i < |s| && s[i] != '\n' then LineEnd(s, i + 1) else i
  }

  /** The greedy `(.+)\]`: the last `]` in `s[lo..hi]`. */
  function LastClose(s: string, lo: nat, hi: nat): (r: Option<nat>)
    requires hi <= |s|
    ensures r.Some? ==> lo <= r.value < hi && s[r.value] == ']'
    ensures r.Some? ==> forall k :: r.value < k < hi ==> s[k] != ']'
    ensures r.None? ==> forall k :: lo <= k < hi ==> s[k] != ']'
    decreases hi
  {
    if hi <= lo then None
    else if s[hi - 1] == ']' then Some(hi - 1)
    else LastClose(s, lo, hi - 1)
  }

  /** The optional `\s*(?:;(.+))?` after the `]`: group 2, when it takes part. */
  function HeaderCommentGroup(u: string): Option<string> {
    var d := SkipSpaces(u, 0);
    if d + 1 < |u| && u[d] == Delimiter && u[d + 1] != '\n' then Some(u[d + 1..LineEnd(u, d + 1)])
    else None
  }

  /** Groups 1 and 2 of a header match, or None when the pattern does not match. */
  function HeaderGroups(line: string): Option<(string, Option<string>)> {
    if line == [] || line[0] != '[' then None
    else match LastClose(line, 2, LineEnd(line, 1))
      case None => None
      case Some(c) => Some((line[1..c], HeaderCommentGroup(line[c + 1..])))
  }

  /**
   * `GetSection`: the trimmed section name and comment (a missing comment is ""), or the exception
   * "the section is not valid".
   */
  function GetSection(line: string): (r: Result<(string, string)>)
    ensures r.Failure? <==> HeaderGroups(line).None?
    ensures r.Failure? ==> r.error == InvalidSection
    ensures r.Success? ==> Trimmed(r.value.0) && Trimmed(r.value.1)
  {
    match HeaderGroups(line)
    case None => Failure(InvalidSection)
    case Some((name, comment)) => Success((Trim(name), if comment.Some? then Trim(comment.value) else ""))
  }

  /** A header line without a `]` after its first name character is rejected, e.g. `[]` or `[abc`. */
  lemma UnclosedHeaderInvalid(line: string)
    requires line != [] && line[0] == '['
    requires forall i :: 2 <= i < |line| ==> line[i] != ']'
    ensures GetSection(line) == Failure(InvalidSection)
  {
  }

  /** A section name and comment the writer emits and the header matcher reads back unchanged. */
  predicate WritableHeader(name: string, comment: string) {
    && name != [] && Trimmed(name) && SingleLine(name)
    && Trimmed(comment) && SingleLine(comment) && ']' !in comment
  }

  /** Reading back a written header gives the section name and comment. */
  lemma HeaderRoundTrip(name: string, comment: string)
    requires WritableHeader(name, comment)
    ensures GetSection(SectionHeader(name, comment)) == Success((name, comment))
  {
    var suf := CommentSuffix(comment);
    var line := ['['] + name + [']'] + suf;
    assert line == SectionHeader(name, comment);
    var c := |name| + 1;
    forall k | 1 <= k < |line| ensures line[k] != '\n' {
      if k < c {
        assert line[k] == name[k - 1];
      } else if k > c + 2 {
        assert line[k] == comment[k - c - 3];
      }
    }
    assert LineEnd(line, 1) == |line|;
    forall k | c < k < |line| ensures line[k] != ']' {
      if k > c + 2 {
        assert line[k] == comment[k - c - 3];
      }
    }
    LastCloseAt(line, 2, c, |line|);
    assert line[1..c] == name;
    assert line[c + 1..] == suf;
    HeaderCommentOfSuffix(comment);
    TrimOfTrimmed(name);
    TrimOfTrimmed(comment);
  }

  lemma {:induction false} LastCloseAt(s: string, lo: nat, c: nat, hi: nat)
    requires lo <= c < hi <= |s| && s[c] == ']'
    requires forall k :: c < k < hi ==> s[k] != ']'
    ensures LastClose(s, lo, hi) == Some(c)
    decreases hi
  {
    if c < hi - 1 {
      LastCloseAt(s, lo, c, hi - 1);
    }
  }

  lemma HeaderCommentOfSuffix(comment: string)
    requires Trimmed(comment) && SingleLine(comment)
    ensures HeaderCommentGroup(CommentSuffix(comment)) == if comment == [] then None else Some(comment)
  {
    var u := CommentSuffix(comment);
    if comment == [] {
      SkipSpacesTo(u, 0, 0);
    } else {
      assert u[0] == ' ' && u[1] == Delimiter && u[2] == comment[0] && comment[0] in comment;
      SkipSpacesTo(u, 0, 1);
      forall k | 2 <= k < |u| ensures u[k] != '\n' {
        assert u[k] == comment[k - 2];
      }
      assert LineEnd(u, 2) == |u|;
      assert u[2..|u|] == comment;
    }
  }

  // ---------------------------------------------------------------------------------------------
  // The reader: IniParser.Merge as a fold over the lines

  /**
   * One pass of the `while` loop on a raw line: blank lines are skipped, `;` lines become pending
   * infos, a `[` line adds a section (an invalid header or a taken name throws) that receives the
   * pending infos, and a key line inside a section is added with the pending infos (a key that
   * already has infos throws after its value was stored). Any other line is ignored.
   */
  function IniStep(st: ReaderState, raw: string): (r: Outcome<ReaderState>)
    requires ReaderValid(st)
    ensures ReaderValid(r.state)
  {
    var line := Trim(raw);
    if line == [] then Outcome(st, None)
    else if line[0] == Delimiter then Outcome(st.(infos := st.infos + [line]), None)
    else if line[0] == '[' then HeaderStep(st, line)
    else KeyStep(st, line)
  }

  /** A `[` line: the header is matched and the section it names is opened. */
  function HeaderStep(st: ReaderState, line: string): (r: Outcome<ReaderState>)
    requires ReaderValid(st)
    ensures ReaderValid(r.state)
  {
    match GetSection(line)
    case Failure(e) => Outcome(st, Some(e))
    case Success((name, comment)) => OpenSection(st, name, comment)
  }

  /** Any other line: inside a section, a key line is stored with the pending infos. */
  function KeyStep(st: ReaderState, line: string): (r: Outcome<ReaderState>)
    requires ReaderValid(st)
    ensures ReaderValid(r.state)
  {
    if st.cur.None? then Outcome(st, None)
    else match GetKeyValueComment(line)
      case None => Outcome(st, None)
      case Some(kvc) => StoreKey(st, kvc.key, kvc.value, kvc.comment)
  }

  /** The whole loop: the lines in order, stopping at the first exception. */
  function IniRun(st: ReaderState, lines: seq<string>): (r: Outcome<ReaderState>)
    requires ReaderValid(st)
    ensures ReaderValid(r.state)
    decreases |lines|
  {
    if lines == [] then Outcome(st, None)
    else
      var o := IniStep(st, lines[0]);
      if o.error.Some? then o else IniRun(o.state, lines[1..])
  }

  /** `IniParser.Merge(stream, source)`: the sections after reading every line, and the exception. */
  function IniMerge(views: seq<SectionView>, lines: seq<string>): (r: Outcome<seq<SectionView>>)
    // a source with distinct section names keeps them distinct, whether or not the read throws
    ensures UniqueNames(views) ==> UniqueNames(r.state)
  {
    var o := IniRun(ReaderStart(views), lines);
    assert UniqueNames(views) ==> UniqueNames(o.state.views) by {
      if UniqueNames(views) {
        IniRunUnique(ReaderStart(views), lines);
      }
    }
    Outcome(o.state.views, o.error)
  }

  /** Reading `a + b` is reading `a`, then, unless it threw, reading `b` from where `a` left off. */
  lemma {:induction false} IniRunAppend(st: ReaderState, a: seq<string>, b: seq<string>)
    requires ReaderValid(st)
    ensures IniRun(st, a + b) == (var o := IniRun(st, a); if o.error.Some? then o else IniRun(o.state, b))
    decreases |a|
  {
    if a == [] {
      assert a + b == b;
    } else {
      assert (a + b)[0] == a[0];
      assert (a + b)[1..] == a[1..] + b;
      var o := IniStep(st, a[0]);
      if o.error.None? {
        IniRunAppend(o.state, a[1..], b);
      }
    }
  }

  /** Reading one more line is one more step, unless the reader already stopped. */
  lemma IniRunSnoc(st: ReaderState, a: seq<string>, line: string)
    requires ReaderValid(st)
    ensures IniRun(st, a + [line]) ==
      (var o := IniRun(st, a); if o.error.Some? then o else IniStep(o.state, line))
  {
    IniRunAppend(st, a, [line]);
    var o := IniRun(st, a);
    if o.error.None? {
      assert [line][1..] == [];
    }
  }

  /** A reading step never registers a section name twice. */
  lemma IniStepUnique(st: ReaderState, raw: string)
    requires ReaderValid(st) && UniqueNames(st.views)
    ensures UniqueNames(IniStep(st, raw).state.views)
  {
    var line := Trim(raw);
    if line != [] && line[0] != Delimiter {
      if line[0] == '[' {
        match GetSection(line)
        case Failure(_) =>
        case Success((name, comment)) => OpenSectionUnique(st, name, comment);
      } else if st.cur.Some? {
        match GetKeyValueComment(line)
        case None =>
        case Some(kvc) => StoreKeyUnique(st, kvc.key, kvc.value, kvc.comment);
      }
    }
  }

  /** Reading a whole file never registers a section name twice. */
  lemma {:induction false} IniRunUnique(st: ReaderState, lines: seq<string>)
    requires ReaderValid(st) && UniqueNames(st.views)
    ensures UniqueNames(IniRun(st, lines).state.views)
    decreases |lines|
  {
    if lines != [] {
      IniStepUnique(st, lines[0]);
      var o := IniStep(st, lines[0]);
      if o.error.None? {
        IniRunUnique(o.state, lines[1..]);
      }
    }
  }

  // ---------------------------------------------------------------------------------------------
  // Step facts

  /** A well-formed info line: starts with `;`, nothing to trim, no line break. */
  predicate InfoLine(l: string) {
    l != [] && l[0] == Delimiter && Trimmed(l) && SingleLine(l)
  }

  predicate InfoLines(ls: seq<string>) {
    forall i :: 0 <= i < |ls| ==> InfoLine(ls[i])
  }

  /** Info lines are collected, in order, and change nothing else. */
  lemma {:induction false} InfoLinesCollected(st: ReaderState, ls: seq<string>)
    requires ReaderValid(st) && InfoLines(ls)
    ensures IniRun(st, ls) == Outcome(st.(infos := st.infos + ls), None)
    decreases |ls|
  {
    if ls == [] {
      assert st.infos + ls == st.infos;
    } else {
      var st1 := st.(infos := st.infos + [ls[0]]);
      InfoLinesSplit(st.infos, ls);
      InfoLineAlone(st, ls[0]);
      InfoLinesCollected(st1, ls[1..]);
      IniRunThen(st, [ls[0]], ls[1..], st1, st.(infos := st.infos + ls));
    }
  }

  /** Info lines split as their first line and the rest, both still info lines. */
  lemma InfoLinesSplit(pending: seq<string>, ls: seq<string>)
    requires InfoLines(ls) && ls != []
    ensures InfoLine(ls[0]) && InfoLines(ls[1..])
    ensures [ls[0]] + ls[1..] == ls && pending + [ls[0]] + ls[1..] == pending + ls
  {
    forall i | 0 <= i < |ls| - 1 ensures InfoLine(ls[1..][i]) {
      assert ls[1..][i] == ls[i + 1];
    }
    assert [ls[0]] + ls[1..] == ls;
  }

  /** One info line alone is added to the pending infos. */
  lemma InfoLineAlone(st: ReaderState, l: string)
    requires ReaderValid(st) && InfoLine(l)
    ensures IniRun(st, [l]) == Outcome(st.(infos := st.infos + [l]), None)
  {
    TrimOfTrimmed(l);
    IniRunOne(st, l);
  }

  /** Blank lines are skipped. */
  lemma BlankLineSkipped(st: ReaderState)
    requires ReaderValid(st)
    ensures IniRun(st, [""]) == Outcome(st, None)
  {
    TrimOfTrimmed("");
  }

  /** A written header needs no trimming and starts with `[`. */
  lemma HeaderLineTrimmed(name: string, comment: string)
    requires WritableHeader(name, comment)
    ensures Trim(SectionHeader(name, comment)) == SectionHeader(name, comment)
    ensures SectionHeader(name, comment)[0] == '['
  {
    var line := SectionHeader(name, comment);
    assert line[0] == '[';
    assert Trimmed(line) by {
      if comment != [] {
        assert line[|line| - 1] == comment[|comment| - 1];
      }
    }
    TrimOfTrimmed(line);
  }

  /** A written header under a fresh name adds the section, which takes the pending infos. */
  lemma HeaderAdds(st: ReaderState, name: string, comment: string)
    requires ReaderValid(st) && WritableHeader(name, comment) && !HasName(st.views, name)
    ensures IniStep(st, SectionHeader(name, comment)) ==
      Outcome(ReaderState(st.views + [NewSection(name, comment).(infos := Some(st.infos))], Some(|st.views|), []), None)
  {
    var line := SectionHeader(name, comment);
    HeaderLineTrimmed(name, comment);
    assert IniStep(st, line) == HeaderStep(st, line);
    HeaderRoundTrip(name, comment);
    OpenSectionFresh(st, name, comment);
  }

  /** A header naming a section the source already has stops the reader with DuplicateKey. */
  lemma DuplicateHeaderThrows(st: ReaderState, name: string, comment: string)
    requires ReaderValid(st) && WritableHeader(name, comment) && HasName(st.views, name)
    ensures IniStep(st, SectionHeader(name, comment)) == Outcome(st, Some(DuplicateKey))
  {
    var line := SectionHeader(name, comment);
    HeaderLineTrimmed(name, comment);
    assert IniStep(st, line) == HeaderStep(st, line);
    HeaderRoundTrip(name, comment);
    OpenSectionTaken(st, name, comment);
  }

  /** A key the INI writer can emit: readable back, and not mistaken for an info line or a header. */
  predicate IniKey(k: string) {
    WritableKey(k) && SingleLine(k) && k[0] != Delimiter && k[0] != '['
  }

  predicate IniCell(p: ValueCommentPair) {
    WritableCell(p) && SingleLine(p.value) && SingleLine(p.comment)
  }

  /** A key line needs no trimming and starts with the key's first character. */
  lemma KeyLineTrimmed(k: string, p: ValueCommentPair)
    requires IniKey(k) && IniCell(p)
    ensures Trim(KeyLine(k, p)) == KeyLine(k, p) && KeyLine(k, p)[0] == k[0]
  {
    var w := PairToString(p);
    var line := k + " = " + w;
    assert line == KeyLine(k, p);
    assert line[0] == k[0];
    assert line[|line| - 1] == w[|w| - 1];
    if p.comment != [] {
      assert w[|w| - 1] == p.comment[|p.comment| - 1];
    } else if Delimiter in p.value {
      assert w[|w| - 1] == '"';
    } else {
      assert w == p.value;
    }
    TrimOfTrimmed(line);
  }

  /**
   * A written key line inside the current section stores its cell, raises `KeySet`, records the
   * pending infos as the key's infos and clears them.
   */
  lemma KeyLineAdds(st: ReaderState, k: string, p: ValueCommentPair)
    requires ReaderValid(st) && st.cur.Some? && IniKey(k) && IniCell(p)
    requires k !in st.views[st.cur.value].keyInfos
    ensures var sv := st.views[st.cur.value];
      IniStep(st, KeyLine(k, p)) ==
        Outcome(ReaderState(st.views[st.cur.value := SetKey(sv, k, p.value, p.comment).(keyInfos := sv.keyInfos[k := st.infos])],
                         st.cur, []), None)
  {
    KeyLineTrimmed(k, p);
    KeyLineRoundTrip(k, p);
    StoreKeyFresh(st, k, p.value, p.comment);
  }

  /** A key line whose key already has infos in the section stops the reader with DuplicateKey. */
  lemma DuplicateKeyThrows(st: ReaderState, k: string, p: ValueCommentPair)
    requires ReaderValid(st) && st.cur.Some? && IniKey(k) && IniCell(p)
    requires k in st.views[st.cur.value].keyInfos
    ensures IniStep(st, KeyLine(k, p)).error == Some(DuplicateKey)
  {
    KeyLineTrimmed(k, p);
    KeyLineRoundTrip(k, p);
    StoreKeyTaken(st, k, p.value, p.comment);
  }

  /** Key lines before the first header are ignored. */
  lemma KeyLineBeforeSection(st: ReaderState, k: string, p: ValueCommentPair)
    requires ReaderValid(st) && st.cur.None? && IniKey(k) && IniCell(p)
    ensures IniStep(st, KeyLine(k, p)) == Outcome(st, None)
  {
    KeyLineTrimmed(k, p);
  }

  /**
   * A key written with an empty value (`key =`, or `key =  ;comment`) is not read back: the line
   * is ignored and the pending infos wait for the next key.
   */
  lemma EmptyValueIgnored(st: ReaderState, k: string, c: string)
    requires ReaderValid(st) && IniKey(k) && SpaceFree(c) && SingleLine(c)
    ensures IniStep(st, KeyLine(k, ValueCommentPair("", c))) == Outcome(st, None)
  {
    var line := KeyLine(k, ValueCommentPair("", c));
    var pad := if c == [] then "" else " ";
    EmptyLineTrimmed(k, c);
    assert IniStep(st, line) == KeyStep(st, k + " =" + pad + CommentSuffix(c));
    EmptyValueNoMatch(k, pad, c);
  }

  /** The trimmed form of a key line with an empty value. */
  lemma EmptyLineTrimmed(k: string, c: string)
    requires IniKey(k) && SpaceFree(c)
    ensures var t := Trim(KeyLine(k, ValueCommentPair("", c)));
      t == k + " =" + (if c == [] then "" else " ") + CommentSuffix(c) && t[0] == k[0]
  {
    var line := KeyLine(k, ValueCommentPair("", c));
    assert PairToString(ValueCommentPair("", c)) == CommentSuffix(c);
    assert line == k + " =" + " " + CommentSuffix(c);
    if c == [] {
      assert line == (k + " =") + [' '];
      TrimDropsTrailingBlanks(k + " =", [' ']);
      assert k + " =" == k + " =" + "" + CommentSuffix(c);
    } else {
      assert line[|line| - 1] == c[|c| - 1];
      assert line[0] == k[0];
      TrimOfTrimmed(line);
    }
  }

  // ---------------------------------------------------------------------------------------------
  // The writer: IniConfigSource.OnSave

  /** The lines written for one cell: its key infos, if any, then its key line. */
  function CellLines(e: Entry, ki: map<string, seq<string>>): seq<string> {
    InfosFor(ki, e.key) + [KeyLine(e.key, e.pair)]
  }

  /** The lines of every cell, in order. */
  function EntryLines(es: seq<Entry>, ki: map<string, seq<string>>): seq<string> {
    if es == [] then [] else EntryLines(es[..|es| - 1], ki) + CellLines(es[|es| - 1], ki)
  }

  /** One section: its infos (when set), its header, its cells, and an empty line. */
  function SectionLines(sv: SectionView): seq<string> {
    (if sv.infos.Some? then sv.infos.value else []) + [SectionHeader(sv.name, sv.comment)]
      + EntryLines(sv.entries, sv.keyInfos) + [""]
  }

  /** The lines `OnSave` writes: every section in order. */
  function IniLines(vs: seq<SectionView>): seq<string> {
    if vs == [] then [] else IniLines(vs[..|vs| - 1]) + SectionLines(vs[|vs| - 1])
  }

  // ---------------------------------------------------------------------------------------------
  // Save, then reload

  /** A section every part of which the writer can emit and the reader take back. */
  predicate IniSection(sv: SectionView) {
    && WritableHeader(sv.name, sv.comment)
    && (sv.infos.Some? ==> InfoLines(sv.infos.value))
    && UniqueKeys(sv.entries)
    && (forall i :: 0 <= i < |sv.entries| ==> IniKey(sv.entries[i].key) && IniCell(sv.entries[i].pair))
    && (forall k :: k in sv.keyInfos ==> InfoLines(sv.keyInfos[k]))
  }

  predicate IniWritable(vs: seq<SectionView>) {
    UniqueNames(vs) && forall i :: 0 <= i < |vs| ==> IniSection(vs[i])
  }

  /**
   * What reloading a saved section yields: the same name, comment and cells in order, one `KeySet`
   * per cell, section infos present (empty if there were none), and infos for every key.
   */
  function ReadBack(sv: SectionView): SectionView {
    ReadSoFar(sv, sv.entries, sv.keyInfos)
  }

  function ReadBackAll(vs: seq<SectionView>): (r: seq<SectionView>)
    ensures |r| == |vs| && forall i :: 0 <= i < |vs| ==> r[i] == ReadBack(vs[i])
  {
    seq(|vs|, i requires 0 <= i < |vs| => ReadBack(vs[i]))
  }

  lemma ReadBackAllSnoc(vs: seq<SectionView>)
    requires vs != []
    ensures ReadBackAll(vs) == ReadBackAll(vs[..|vs| - 1]) + [ReadBack(vs[|vs| - 1])]
  {
  }

  /** The cells of a section, written one after another, are read back into it one by one. */
  lemma {:induction false} EntriesReadBack(pre: seq<SectionView>, sv: SectionView, es: seq<Entry>)
    requires IniSection(sv) && UniqueKeys(es)
    requires forall i :: 0 <= i < |es| ==> IniKey(es[i].key) && IniCell(es[i].pair)
    ensures IniRun(ReaderState(pre + [ReadSoFar(sv, [], sv.keyInfos)], Some(|pre|), []), EntryLines(es, sv.keyInfos))
         == Outcome(ReaderState(pre + [ReadSoFar(sv, es, sv.keyInfos)], Some(|pre|), []), None)
    decreases |es|
  {
    if es != [] {
      var init := es[..|es| - 1];
      var e := es[|es| - 1];
      UniqueKeysInit(es);
      EntriesReadBack(pre, sv, init);
      EntryReadBack(pre, sv, es);
      IniRunThen(ReaderState(pre + [ReadSoFar(sv, [], sv.keyInfos)], Some(|pre|), []), EntryLines(init, sv.keyInfos),
                 CellLines(e, sv.keyInfos), ReaderState(pre + [ReadSoFar(sv, init, sv.keyInfos)], Some(|pre|), []),
                 ReaderState(pre + [ReadSoFar(sv, es, sv.keyInfos)], Some(|pre|), []));
    }
  }

  /** The lines of the last cell: its key infos are collected, then its key line stores it. */
  lemma EntryReadBack(pre: seq<SectionView>, sv: SectionView, es: seq<Entry>)
    requires IniSection(sv) && es != [] && UniqueKeys(es)
    requires IniKey(es[|es| - 1].key) && IniCell(es[|es| - 1].pair)
    ensures var e := es[|es| - 1];
      IniRun(ReaderState(pre + [ReadSoFar(sv, es[..|es| - 1], sv.keyInfos)], Some(|pre|), []), CellLines(e, sv.keyInfos))
        == Outcome(ReaderState(pre + [ReadSoFar(sv, es, sv.keyInfos)], Some(|pre|), []), None)
  {
    var e := es[|es| - 1];
    var st1 := ReaderState(pre + [ReadSoFar(sv, es[..|es| - 1], sv.keyInfos)], Some(|pre|), []);
    var infos := InfosFor(sv.keyInfos, e.key);
    EntryInfosRead(st1, sv, e.key);
    EntryKeyRead(pre, sv, es);
    IniRunThen(st1, infos, [KeyLine(e.key, e.pair)], st1.(infos := infos),
               ReaderState(pre + [ReadSoFar(sv, es, sv.keyInfos)], Some(|pre|), []));
  }

  /** Two pieces read without an exception read together without one. */
  lemma IniRunThen(st1: ReaderState, a: seq<string>, b: seq<string>, st2: ReaderState, st3: ReaderState)
    requires ReaderValid(st1) && ReaderValid(st2)
    requires IniRun(st1, a) == Outcome(st2, None) && IniRun(st2, b) == Outcome(st3, None)
    ensures IniRun(st1, a + b) == Outcome(st3, None)
  {
    IniRunAppend(st1, a, b);
  }

  /** The key infos written before a key line are collected as pending infos. */
  lemma EntryInfosRead(st: ReaderState, sv: SectionView, k: string)
    requires ReaderValid(st) && st.infos == [] && IniSection(sv)
    ensures IniRun(st, InfosFor(sv.keyInfos, k)) == Outcome(st.(infos := InfosFor(sv.keyInfos, k)), None)
  {
    var infos := InfosFor(sv.keyInfos, k);
    assert InfoLines(infos);
    InfoLinesCollected(st, infos);
    assert st.infos + infos == infos;
  }

  /** The key line of the last cell stores it, with the collected infos. */
  lemma EntryKeyRead(pre: seq<SectionView>, sv: SectionView, es: seq<Entry>)
    requires es != [] && UniqueKeys(es)
    requires IniKey(es[|es| - 1].key) && IniCell(es[|es| - 1].pair)
    ensures var e := es[|es| - 1];
      IniRun(ReaderState(pre + [ReadSoFar(sv, es[..|es| - 1], sv.keyInfos)], Some(|pre|), InfosFor(sv.keyInfos, e.key)),
             [KeyLine(e.key, e.pair)])
        == Outcome(ReaderState(pre + [ReadSoFar(sv, es, sv.keyInfos)], Some(|pre|), []), None)
  {
    var init := es[..|es| - 1];
    var e := es[|es| - 1];
    var rs := ReadSoFar(sv, init, sv.keyInfos);
    var st2 := ReaderState(pre + [rs], Some(|pre|), InfosFor(sv.keyInfos, e.key));
    NextKeyFresh(sv, es, sv.keyInfos);
    assert (pre + [rs])[|pre|] == rs;
    KeyLineAdds(st2, e.key, e.pair);
    EntryStored(pre, sv, es, sv.keyInfos);
    IniRunOne(st2, KeyLine(e.key, e.pair));
  }

  /** Reading a single line is one step. */
  lemma IniRunOne(st: ReaderState, line: string)
    requires ReaderValid(st)
    ensures IniRun(st, [line]) == IniStep(st, line)
  {
    assert [line][1..] == [];
  }

  /** A written section, under a fresh name, is read back as `ReadBack` of it. */
  lemma SectionReadBack(st: ReaderState, sv: SectionView)
    requires ReaderValid(st) && st.infos == [] && IniSection(sv) && !HasName(st.views, sv.name)
    ensures IniRun(st, SectionLines(sv)) == Outcome(ReaderState(st.views + [ReadBack(sv)], Some(|st.views|), []), None)
  {
    var infos := if sv.infos.Some? then sv.infos.value else [];
    var header := SectionHeader(sv.name, sv.comment);
    var body := EntryLines(sv.entries, sv.keyInfos);
    var st1 := st.(infos := infos);
    var st2 := ReaderState(st.views + [ReadSoFar(sv, [], sv.keyInfos)], Some(|st.views|), []);
    var st3 := ReaderState(st.views + [ReadBack(sv)], Some(|st.views|), []);
    assert IniRun(st, infos) == Outcome(st1, None) by {
      InfoLinesCollected(st, infos);
      assert st.infos + infos == infos;
    }
    assert IniRun(st1, [header]) == Outcome(st2, None) by {
      HeaderAdds(st1, sv.name, sv.comment);
      assert NewSection(sv.name, sv.comment).(infos := Some(infos)) == ReadSoFar(sv, [], sv.keyInfos);
      IniRunOne(st1, header);
    }
    EntriesReadBack(st.views, sv, sv.entries);
    BlankLineSkipped(st3);
    IniRunThen(st, infos, [header], st1, st2);
    IniRunThen(st, infos + [header], body, st2, st3);
    IniRunThen(st, infos + [header] + body, [""], st3, st3);
  }

  /**
   * Save, then reload into an empty source: the writer's lines are read back without an exception
   * and rebuild every section, in order, as `ReadBack` says.
   */
  lemma {:induction false} IniReadsWhatItWrites(vs: seq<SectionView>)
    requires IniWritable(vs)
    ensures IniMerge([], IniLines(vs)) == Outcome(ReadBackAll(vs), None)
  {
    IniReadsPrefix(vs);
  }

  lemma {:induction false} IniReadsPrefix(vs: seq<SectionView>)
    requires IniWritable(vs)
    ensures IniRun(ReaderStart([]), IniLines(vs))
         == Outcome(ReaderState(ReadBackAll(vs), if vs == [] then None else Some(|vs| - 1), []), None)
  {
    if vs != [] {
      var init := vs[..|vs| - 1];
      var sv := vs[|vs| - 1];
      assert IniWritable(init) by {
        forall i | 0 <= i < |init| ensures IniSection(init[i]) {
          assert init[i] == vs[i];
        }
      }
      IniReadsPrefix(init);
      var st := ReaderState(ReadBackAll(init), if init == [] then None else Some(|init| - 1), []);
      assert !HasName(ReadBackAll(init), sv.name) by {
        forall i | 0 <= i < |init| ensures ReadBackAll(init)[i].name != sv.name {
          assert init[i] == vs[i];
        }
      }
      SectionReadBack(st, sv);
      IniRunAppend(ReaderStart([]), IniLines(init), SectionLines(sv));
      ReadBackAllSnoc(vs);
    }
  }

  /** Saving and reloading twice gives what saving and reloading once gave. */
  lemma ReadBackStable(sv: SectionView)
    requires UniqueKeys(sv.entries)
    ensures ReadBack(ReadBack(sv)).entries == ReadBack(sv).entries
    ensures ReadBack(ReadBack(sv)).infos == ReadBack(sv).infos
    ensures ReadBack(ReadBack(sv)).keyInfos == ReadBack(sv).keyInfos
  {
    var es := sv.entries;
    var m := KeyInfosRead(es, sv.keyInfos);
    var m2 := KeyInfosRead(es, m);
    forall k ensures (k in m2 <==> k in m) && (k in m ==> m2[k] == m[k]) {
      KeyInfosReadIs(es, sv.keyInfos, k);
      KeyInfosReadIs(es, m, k);
    }
    assert m2 == m;
  }
}
