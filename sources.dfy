/**
 * The configuration source (`ConfigSourceBase`) as a value: its sections in the order they were
 * added, with unique names. `Add`, `Get`, `TryGet` and the additive `Merge` are given here as
 * functions; the `Store.ConfigSource` class is proved to follow them.
 */
module Sources {
  import opened Base
  import opened ValueComments
  import opened Entries
  import opened Sections


  /** The dictionary invariant of `_configs`: no section name is registered twice. */
  predicate UniqueNames(vs: seq<SectionView>) {
    forall i, j :: 0 <= i < j < |vs| ==> vs[i].name != vs[j].name
  }

  /** A section called `name` is registered (`_configs.ContainsKey`). */
  predicate HasName(vs: seq<SectionView>, name: string) {
    exists i :: 0 <= i < |vs| && vs[i].name == name
  }

  /** The position of the section called `name`, if there is one. */
  function SectionIndex(vs: seq<SectionView>, name: string): (r: Option<nat>)
    ensures r.Some? ==> r.value < |vs| && vs[r.value].name == name
    ensures r.None? ==> forall i :: 0 <= i < |vs| ==> vs[i].name != name
  {
    if vs == [] then None
    else if vs[0].name == name then Some(0)
    else match SectionIndex(vs[1..], name)
      case None => None
      case Some(i) => Some(i + 1)
  }

  /**
   * `Get(section)` (and the store indexer): the named section, or KeyNotFoundException.
   * `TryGet` is the same lookup reporting false instead of throwing.
   */
  function LookupSection(vs: seq<SectionView>, name: string): (r: Result<SectionView>)
    ensures r.Failure? <==> !HasName(vs, name)
    ensures r.Failure? ==> r.error == KeyNotFound
    ensures r.Success? ==> r.value.name == name
  {
    match SectionIndex(vs, name)
    case None => Failure(KeyNotFound)
    case Some(i) => Success(vs[i])
  }

  /** With unique names, the lookup finds the one section that carries the name. */
  lemma LookupSectionFinds(vs: seq<SectionView>, name: string, i: nat)
    requires UniqueNames(vs) && i < |vs| && vs[i].name == name
    ensures LookupSection(vs, name) == Success(vs[i])
  {
  }

  /**
   * `Add(section, comment)`: a new, empty section is appended under a fresh name; an existing name
   * makes the dictionary throw and leaves every section in place.
   */
  function AddSection(vs: seq<SectionView>, name: string, comment: string): (r: Result<seq<SectionView>>)
    ensures r.Failure? <==> HasName(vs, name)
    ensures r.Failure? ==> r.error == DuplicateKey
    ensures r.Success? ==> |r.value| == |vs| + 1 && r.value[..|vs|] == vs
    ensures r.Success? ==> Last(r.value) == NewSection(name, comment)
    ensures r.Success? && UniqueNames(vs) ==> UniqueNames(r.value) && LookupSection(r.value, name) == Success(NewSection(name, comment))
  {
    if HasName(vs, name) then Failure(DuplicateKey)
    else
      var r := vs + [NewSection(name, comment)];
      assert forall i :: 0 <= i < |vs| ==> r[i].name != name;
      assert UniqueNames(vs) ==> LookupSection(r, name) == Success(NewSection(name, comment)) by {
        if UniqueNames(vs) {
          LookupSectionFinds(r, name, |vs|);
        }
      }
      Success(r)
  }

  function Last(vs: seq<SectionView>): SectionView
    requires vs != []
  {
    vs[|vs| - 1]
  }

  /** Every cell of `es` with its comment cleared: what a copy made by `Set(key, Get<string>(key))` holds. */
  function Blanked(es: seq<Entry>): (r: seq<Entry>)
    ensures |r| == |es| && KeysOf(r) == KeysOf(es)
    ensures forall i :: 0 <= i < |es| ==> r[i] == Entry(es[i].key, ValueCommentPair(es[i].pair.value, ""))
  {
    seq(|es|, i requires 0 <= i < |es| => Entry(es[i].key, ValueCommentPair(es[i].pair.value, "")))
  }

  /** The `KeySet` notifications the copy raises, one per copied key, in order. */
  function BlankEvents(es: seq<Entry>): (r: seq<KeyEvent>)
    ensures |r| == |es|
    ensures forall i :: 0 <= i < |es| ==> r[i] == KeySet(es[i].key, es[i].pair.value, "")
  {
    seq(|es|, i requires 0 <= i < |es| => KeySet(es[i].key, es[i].pair.value, ""))
  }

  /** The inner loop of `Merge`: `Set(key, Get<string>(key))` for each key of `es` in turn. */
  function SetAllBlank(sv: SectionView, es: seq<Entry>): (r: SectionView)
    ensures r.name == sv.name && r.comment == sv.comment
    ensures r.infos == sv.infos && r.keyInfos == sv.keyInfos
  {
    if es == [] then sv
    else
      var e := es[|es| - 1];
      SetKey(SetAllBlank(sv, es[..|es| - 1]), e.key, e.pair.value, "")
  }

  /** The section `Merge` creates for `ov`: same name and section comment, then every key copied. */
  function CopySection(ov: SectionView): SectionView {
    SetAllBlank(NewSection(ov.name, ov.comment), ov.entries)
  }

  /**
   * A copied section keeps the name, the section comment and every raw value in order, but each
   * key's comment becomes "", the infos are not copied, and one `KeySet` is raised per key.
   */
  lemma {:induction false} SetAllBlankFresh(name: string, comment: string, es: seq<Entry>)
    requires UniqueKeys(es)
    ensures SetAllBlank(NewSection(name, comment), es)
      == SectionView(name, comment, Blanked(es), BlankEvents(es), None, map[])
  {
    if es != [] {
      var init := es[..|es| - 1];
      var e := es[|es| - 1];
      UniqueKeysInit(es);
      SetAllBlankFresh(name, comment, init);
      var cell := ValueCommentPair(e.pair.value, "");
      BlankedHasKey(init, e.key);
      assert Put(Blanked(init), e.key, cell) == Blanked(init) + [Entry(e.key, cell)];
      SplitLast(es);
      BlankedSnoc(init, e);
      BlankEventsSnoc(init, e);
    }
  }

  lemma BlankedSnoc(es: seq<Entry>, e: Entry)
    ensures Blanked(es + [e]) == Blanked(es) + [Entry(e.key, ValueCommentPair(e.pair.value, ""))]
  {
  }

  lemma SplitLast(es: seq<Entry>)
    requires es != []
    ensures es == es[..|es| - 1] + [es[|es| - 1]]
  {
  }

  lemma BlankedHasKey(es: seq<Entry>, k: string)
    ensures HasKey(Blanked(es), k) <==> HasKey(es, k)
  {
    var b := Blanked(es);
    if HasKey(es, k) {
      var i :| 0 <= i < |es| && es[i].key == k;
      assert b[i].key == k;
    }
  }

  lemma BlankEventsSnoc(es: seq<Entry>, e: Entry)
    ensures BlankEvents(es + [e]) == BlankEvents(es) + [KeySet(e.key, e.pair.value, "")]
  {
  }

  lemma CopySectionContents(ov: SectionView)
    requires UniqueKeys(ov.entries)
    ensures CopySection(ov) == SectionView(ov.name, ov.comment, Blanked(ov.entries), BlankEvents(ov.entries), None, map[])
  {
    SetAllBlankFresh(ov.name, ov.comment, ov.entries);
  }

  /** One round of the outer loop of `Merge`: a section whose name is taken is skipped. */
  function MergeOne(vs: seq<SectionView>, ov: SectionView): (r: seq<SectionView>)
    ensures HasName(vs, ov.name) ==> r == vs
    ensures !HasName(vs, ov.name) ==> r == vs + [CopySection(ov)]
  {
    if HasName(vs, ov.name) then vs else vs + [CopySection(ov)]
  }

  /** `Merge(source)`: the sections of `os`, in order, each copied unless its name is already taken. */
  function MergeViews(vs: seq<SectionView>, os: seq<SectionView>): (r: seq<SectionView>)
    // each section of `os` adds at most one section
    ensures |r| <= |vs| + |os|
  {
    if os == [] then vs else MergeOne(MergeViews(vs, os[..|os| - 1]), os[|os| - 1])
  }

  /** Existing sections are left exactly as they were, in place; new ones only come after them. */
  lemma {:induction false} MergeKeepsExisting(vs: seq<SectionView>, os: seq<SectionView>)
    ensures |MergeViews(vs, os)| >= |vs| && MergeViews(vs, os)[..|vs|] == vs
  {
    if os != [] {
      MergeKeepsExisting(vs, os[..|os| - 1]);
      var m := MergeViews(vs, os[..|os| - 1]);
      assert (m + [CopySection(os[|os| - 1])])[..|vs|] == m[..|vs|];
    }
  }

  /** After a merge, a name is registered exactly when it was before or the other source has it. */
  lemma {:induction false} MergeNames(vs: seq<SectionView>, os: seq<SectionView>, name: string)
    ensures HasName(MergeViews(vs, os), name) <==> HasName(vs, name) || HasName(os, name)
  {
    if os != [] {
      var init := os[..|os| - 1];
      var o := os[|os| - 1];
      MergeNames(vs, init, name);
      var m := MergeViews(vs, init);
      assert HasName(os, name) <==> HasName(init, name) || o.name == name by {
        if HasName(os, name) {
          var i :| 0 <= i < |os| && os[i].name == name;
          if i < |init| { assert init[i] == os[i]; }
        }
        if HasName(init, name) {
          var i :| 0 <= i < |init| && init[i].name == name;
          assert os[i] == init[i];
        }
        if o.name == name { assert os[|os| - 1] == o; }
      }
      if !HasName(m, o.name) {
        var r := m + [CopySection(o)];
        assert r[|m|].name == o.name;
        assert HasName(r, name) <==> HasName(m, name) || o.name == name by {
          if HasName(r, name) {
            var i :| 0 <= i < |r| && r[i].name == name;
            if i < |m| { assert r[i] == m[i]; }
          }
          if HasName(m, name) {
            var i :| 0 <= i < |m| && m[i].name == name;
            assert r[i] == m[i];
          }
        }
      }
    }
  }

  /** Merging keeps section names unique, whatever the other source holds. */
  lemma {:induction false} MergeUnique(vs: seq<SectionView>, os: seq<SectionView>)
    requires UniqueNames(vs)
    ensures UniqueNames(MergeViews(vs, os))
  {
    if os != [] {
      MergeUnique(vs, os[..|os| - 1]);
      var m := MergeViews(vs, os[..|os| - 1]);
      var o := os[|os| - 1];
      if !HasName(m, o.name) {
        var r := m + [CopySection(o)];
        forall i, j | 0 <= i < j < |r| ensures r[i].name != r[j].name {
          if j == |m| {
            assert r[i] == m[i];
          }
        }
      }
    }
  }

  /** A source all of whose names are already taken merges as a no-op. */
  lemma {:induction false} MergeAllPresent(vs: seq<SectionView>, os: seq<SectionView>)
    requires forall i :: 0 <= i < |os| ==> HasName(vs, os[i].name)
    ensures MergeViews(vs, os) == vs
  {
    if os != [] {
      MergeAllPresent(vs, os[..|os| - 1]);
    }
  }

  /** Merging a source into itself changes nothing. */
  lemma MergeSelf(vs: seq<SectionView>)
    ensures MergeViews(vs, vs) == vs
  {
    assert forall i :: 0 <= i < |vs| ==> HasName(vs, vs[i].name);
    MergeAllPresent(vs, vs);
  }

  /** Merging the same source twice is the same as merging it once. */
  lemma MergeIdempotent(vs: seq<SectionView>, os: seq<SectionView>)
    ensures MergeViews(MergeViews(vs, os), os) == MergeViews(vs, os)
  {
    var m := MergeViews(vs, os);
    forall i | 0 <= i < |os| ensures HasName(m, os[i].name) {
      MergeNames(vs, os, os[i].name);
    }
    MergeAllPresent(m, os);
  }
}
