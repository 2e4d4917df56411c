/**
 * What the INI and XML readers share. Both `IniParser.Merge` and `XmlParser.Merge` keep the same
 * locals while they walk their input (the target source, the section read last, the pending info
 * lines) and do the same two things with them: open a section under a header, which takes the
 * pending infos, and store a key in the current section with the pending infos as its key infos.
 */
module Readers {
  import opened Base
  import opened ValueComments
  import opened Entries
  import opened Sections
  import opened Sources

  /**
   * The loop state: the sections of the target source, the index of the section read last
   * (`config`, null before the first one) and the pending info lines.
   */
  datatype ReaderState = ReaderState(views: seq<SectionView>, cur: Option<nat>, infos: seq<string>)

  /** `config` designates a section of the source, when there is one. */
  predicate ReaderValid(st: ReaderState) {
    st.cur.Some? ==> st.cur.value < |st.views|
  }

  /** The state at the start of a merge into a source holding `views`. */
  function ReaderStart(views: seq<SectionView>): (r: ReaderState)
    ensures ReaderValid(r)
  {
    ReaderState(views, None, [])
  }

  /**
   * `config = source.Add(section, comment); config.Infos = infos.ToArray(); infos.Clear();`:
   * a taken name throws and changes nothing.
   */
  function OpenSection(st: ReaderState, name: string, comment: string): (r: Outcome<ReaderState>)
    requires ReaderValid(st)
    ensures ReaderValid(r.state)
  {
    match AddSection(st.views, name, comment)
    case Failure(e) => Outcome(st, Some(e))
    case Success(vs) =>
      var i := |vs| - 1;
      Outcome(ReaderState(vs[i := vs[i].(infos := Some(st.infos))], Some(i), []), None)
  }

  /**
   * `config.AddKeyInternal(key, value, comment, infos.ToArray()); infos.Clear();`: the cell is set,
   * then a key that already has infos throws, after its value was stored.
   */
  function StoreKey(st: ReaderState, key: string, value: string, comment: string): (r: Outcome<ReaderState>)
    requires ReaderValid(st) && st.cur.Some?
    ensures ReaderValid(r.state)
  {
    var i := st.cur.value;
    var o := AddKeyInternal(st.views[i], key, value, comment, Some(st.infos));
    var vs := st.views[i := o.state];
    if o.error.Some? then Outcome(st.(views := vs), o.error) else Outcome(ReaderState(vs, st.cur, []), None)
  }

  lemma SnocUpdate<T>(a: seq<T>, x: T, y: T)
    ensures (a + [x])[|a| := y] == a + [y]
  {
  }

  /** Under a fresh name, the new section is appended, made current and given the pending infos. */
  lemma OpenSectionFresh(st: ReaderState, name: string, comment: string)
    requires ReaderValid(st) && !HasName(st.views, name)
    ensures OpenSection(st, name, comment) ==
      Outcome(ReaderState(st.views + [NewSection(name, comment).(infos := Some(st.infos))], Some(|st.views|), []), None)
  {
    SnocUpdate(st.views, NewSection(name, comment), NewSection(name, comment).(infos := Some(st.infos)));
  }

  /** Under a taken name, the reader stops with DuplicateKey and nothing changes. */
  lemma OpenSectionTaken(st: ReaderState, name: string, comment: string)
    requires ReaderValid(st) && HasName(st.views, name)
    ensures OpenSection(st, name, comment) == Outcome(st, Some(DuplicateKey))
  {
  }

  /** A key without infos yet is stored with the pending infos, which are cleared. */
  lemma StoreKeyFresh(st: ReaderState, key: string, value: string, comment: string)
    requires ReaderValid(st) && st.cur.Some? && key !in st.views[st.cur.value].keyInfos
    ensures var sv := st.views[st.cur.value];
      StoreKey(st, key, value, comment) ==
        Outcome(ReaderState(st.views[st.cur.value := SetKey(sv, key, value, comment).(keyInfos := sv.keyInfos[key := st.infos])],
                            st.cur, []), None)
  {
  }

  /** A key that already has infos stops the reader with DuplicateKey, after its cell was set. */
  lemma StoreKeyTaken(st: ReaderState, key: string, value: string, comment: string)
    requires ReaderValid(st) && st.cur.Some? && key in st.views[st.cur.value].keyInfos
    ensures StoreKey(st, key, value, comment).error == Some(DuplicateKey)
    ensures Find(StoreKey(st, key, value, comment).state.views[st.cur.value].entries, key)
         == Some(ValueCommentPair(value, comment))
  {
  }

  /** Replacing a section by one of the same name keeps the names unique. */
  lemma RenameFree(vs: seq<SectionView>, i: nat, sv: SectionView)
    requires i < |vs| && sv.name == vs[i].name && UniqueNames(vs)
    ensures UniqueNames(vs[i := sv])
  {
    var r := vs[i := sv];
    assert forall j :: 0 <= j < |vs| ==> r[j].name == vs[j].name;
  }

  /** Opening a section never registers a name twice. */
  lemma OpenSectionUnique(st: ReaderState, name: string, comment: string)
    requires ReaderValid(st) && UniqueNames(st.views)
    ensures UniqueNames(OpenSection(st, name, comment).state.views)
  {
    match AddSection(st.views, name, comment)
    case Failure(_) =>
    case Success(vs) => RenameFree(vs, |vs| - 1, vs[|vs| - 1].(infos := Some(st.infos)));
  }

  /** Storing a key renames no section. */
  lemma StoreKeyUnique(st: ReaderState, key: string, value: string, comment: string)
    requires ReaderValid(st) && st.cur.Some? && UniqueNames(st.views)
    ensures UniqueNames(StoreKey(st, key, value, comment).state.views)
  {
    var i := st.cur.value;
    RenameFree(st.views, i, AddKeyInternal(st.views[i], key, value, comment, Some(st.infos)).state);
  }

  // ---------------------------------------------------------------------------------------------
  // What a reader rebuilds from a saved section

  /** The infos recorded for `k`, or none. */
  function InfosFor(ki: map<string, seq<string>>, k: string): seq<string> {
    if k in ki then ki[k] else []
  }

  /** The `KeySet` notifications of storing the cells `es` one by one. */
  function SetEvents(es: seq<Entry>): (r: seq<KeyEvent>)
    ensures |r| == |es|
    ensures forall i :: 0 <= i < |es| ==> r[i] == KeySet(es[i].key, es[i].pair.value, es[i].pair.comment)
  {
    seq(|es|, i requires 0 <= i < |es| => KeySet(es[i].key, es[i].pair.value, es[i].pair.comment))
  }

  /** The key infos after reading `es` back: every key gets the infos written before it, maybe none. */
  function KeyInfosRead(es: seq<Entry>, ki: map<string, seq<string>>): map<string, seq<string>> {
    if es == [] then map[]
    else
      var e := es[|es| - 1];
      KeyInfosRead(es[..|es| - 1], ki)[e.key := InfosFor(ki, e.key)]
  }

  /** Exactly the keys read back carry key infos, and each carries the ones written for it. */
  lemma {:induction false} KeyInfosReadIs(es: seq<Entry>, ki: map<string, seq<string>>, k: string)
    ensures k in KeyInfosRead(es, ki) <==> HasKey(es, k)
    ensures k in KeyInfosRead(es, ki) ==> KeyInfosRead(es, ki)[k] == InfosFor(ki, k)
  {
    if es != [] {
      var init := es[..|es| - 1];
      KeyInfosReadIs(init, ki, k);
      HasKeySnoc(init, es[|es| - 1], k);
      assert es == init + [es[|es| - 1]];
    }
  }

  lemma HasKeySnoc(es: seq<Entry>, e: Entry, k: string)
    ensures HasKey(es + [e], k) <==> HasKey(es, k) || e.key == k
  {
    var r := es + [e];
    if HasKey(es, k) {
      var i :| 0 <= i < |es| && es[i].key == k;
      assert r[i] == es[i];
    }
    if e.key == k {
      assert r[|es|] == e;
    }
  }

  /**
   * The section a reader has rebuilt once it has read back the cells `es` of `sv`, each with the
   * key infos written for it (`ki`): same name and comment, the section infos present (empty if
   * there were none), one `KeySet` per cell.
   */
  function ReadSoFar(sv: SectionView, es: seq<Entry>, ki: map<string, seq<string>>): SectionView {
    SectionView(sv.name, sv.comment, es, SetEvents(es),
                Some(if sv.infos.Some? then sv.infos.value else []), KeyInfosRead(es, ki))
  }

  /** A section read so far, before any cell: what opening the section with its infos pending yields. */
  lemma ReadSoFarOpened(sv: SectionView, ki: map<string, seq<string>>)
    ensures ReadSoFar(sv, [], ki) == NewSection(sv.name, sv.comment).(infos := Some(if sv.infos.Some? then sv.infos.value else []))
  {
  }

  /** Storing the last cell of `es` with its infos turns the section read so far into the next one. */
  lemma EntryStored(pre: seq<SectionView>, sv: SectionView, es: seq<Entry>, ki: map<string, seq<string>>)
    requires es != [] && UniqueKeys(es)
    ensures var init := es[..|es| - 1];
      var e := es[|es| - 1];
      var rs := ReadSoFar(sv, init, ki);
      (pre + [rs])[|pre| := SetKey(rs, e.key, e.pair.value, e.pair.comment).(keyInfos := rs.keyInfos[e.key := InfosFor(ki, e.key)])]
        == pre + [ReadSoFar(sv, es, ki)]
  {
    var init := es[..|es| - 1];
    var e := es[|es| - 1];
    assert es == init + [e];
    PutAllFresh(init, e);
    assert SetEvents(init) + [KeySet(e.key, e.pair.value, e.pair.comment)] == SetEvents(es);
  }

  /** The key of the last cell has no infos yet in the section read so far. */
  lemma NextKeyFresh(sv: SectionView, es: seq<Entry>, ki: map<string, seq<string>>)
    requires es != [] && UniqueKeys(es)
    ensures es[|es| - 1].key !in ReadSoFar(sv, es[..|es| - 1], ki).keyInfos
  {
    UniqueKeysInit(es);
    KeyInfosReadIs(es[..|es| - 1], ki, es[|es| - 1].key);
  }
}
