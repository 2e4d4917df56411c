/**
 * Two expansion examples, as instances of `Resolution.ExpandsWithinBudget`: in a section `S2`
 * with `base = x` and `full = ${base}-y`, `full` expands to `x-y`; with a section `S1` holding
 * `k = A`, `ref = ${S1.k}` in `S2` expands to `A`.
 */
module ResolutionSamples {
  import opened Base
  import opened Entries
  import opened ValueComments
  import opened Sections
  import opened Sources
  import opened Expansion
  import opened Resolution

  function Cell(key: string, value: string): Entry {
    Entry(key, ValueCommentPair(value, ""))
  }

  function SampleViews(): seq<SectionView> {
    [ SectionView("S1", "", [Cell("k", "A")], [], None, map[]),
      SectionView("S2", "", [Cell("base", "x"), Cell("full", "${base}-y"), Cell("ref", "${S1.k}")], [], None, map[]) ]
  }

  /** How the sample values read as templates. */
  function SampleTemplate(s: string, k: string): seq<Segment> {
    if s == "S2" && k == "full" then [Ref(None, "base"), Literal("-y")]
    else if s == "S2" && k == "ref" then [Ref(Some("S1"), "k")]
    else if s == "S2" && k == "base" then [Literal("x")]
    else [Literal("A")]
  }

  /** `full` and `ref` lean on keys of rank 0. */
  function SampleRank(s: string, k: string): nat {
    if s == "S2" && (k == "full" || k == "ref") then 1 else 0
  }

  lemma SampleKeys()
    ensures KeyExists(SampleViews(), "S1", "k") && KeyExists(SampleViews(), "S2", "base")
  {
    var vs := SampleViews();
    assert vs[0].entries[0].key == "k" && vs[1].entries[0].key == "base";
    assert HasKey(vs[0].entries, "k") && HasKey(vs[1].entries, "base");
  }

  lemma LiteralTemplate(t: string)
    requires '$' !in t
    ensures WellFormed([Literal(t)]) && Render([Literal(t)]) == t && RefCount([Literal(t)]) == 0
  {
    assert Render([Literal(t)]) == t + Render([]);
  }

  lemma FullTemplate()
    ensures TemplateOf(SampleViews(), SampleTemplate, SampleRank, 1, "S2", Cell("full", "${base}-y"))
  {
    var ts := [Ref(None, "base"), Literal("-y")];
    assert SampleTemplate("S2", "full") == ts;
    FullShape();
    SampleKeys();
    assert WellFormedSegment(ts[0]) && WellFormedSegment(ts[1]);
  }

  lemma FullShape()
    ensures var ts := [Ref(None, "base"), Literal("-y")];
      Render(ts) == "${base}-y" && RefCount(ts) == 1
  {
    var ts := [Ref(None, "base"), Literal("-y")];
    assert ts[1..] == [Literal("-y")];
    LiteralTemplate("-y");
    assert Render(ts) == "${base}" + "-y";
    assert RefCount(ts) == 1 + RefCount([Literal("-y")]);
  }

  lemma RefTemplate()
    ensures TemplateOf(SampleViews(), SampleTemplate, SampleRank, 1, "S2", Cell("ref", "${S1.k}"))
  {
    var ts := [Ref(Some("S1"), "k")];
    assert SampleTemplate("S2", "ref") == ts;
    SampleKeys();
    assert Render(ts) == "${S1.k}" + Render([]);
    assert RefCount(ts) == 1 + RefCount([]);
  }

  lemma PlainTemplate(s: string, k: string, t: string)
    requires (s, k, t) == ("S1", "k", "A") || (s, k, t) == ("S2", "base", "x")
    ensures TemplateOf(SampleViews(), SampleTemplate, SampleRank, 1, s, Cell(k, t))
  {
    assert SampleTemplate(s, k) == [Literal(t)];
    LiteralTemplate(t);
  }

  /** The sample source has no cycle. */
  lemma SampleAcyclic()
    ensures Acyclic(SampleViews(), SampleTemplate, SampleRank, 1)
  {
    var vs := SampleViews();
    forall i: nat, k: nat | i < |vs| && k < |vs[i].entries|
      ensures TemplateOf(vs, SampleTemplate, SampleRank, 1, vs[i].name, EntryAt(vs, i, k))
    {
      if i == 0 {
        PlainTemplate("S1", "k", "A");
      } else if k == 0 {
        PlainTemplate("S2", "base", "x");
      } else if k == 1 {
        FullTemplate();
      } else {
        RefTemplate();
      }
    }
  }

  /** Nested same-section reference: `full = ${base}-y` expands to `x-y`. */
  lemma SameSectionSample(fuel: nat)
    requires fuel >= 4
    ensures ExpandKey(SampleViews(), SampleViews()[1], "full", fuel) == Expanded("x-y")
  {
    var vs := SampleViews();
    SampleAcyclic();
    assert HasKey(vs[1].entries, "full") by {
      assert vs[1].entries[1].key == "full";
    }
    ExpandsWithinBudget(vs, SampleTemplate, SampleRank, 1, 1, "full", fuel);
    FullMeaning();
  }

  lemma BaseMeaning()
    ensures Acyclic(SampleViews(), SampleTemplate, SampleRank, 1) && KeyExists(SampleViews(), "S2", "base")
    ensures Resolve(SampleViews(), SampleTemplate, SampleRank, 1, "S2", "base") == "x"
  {
    var vs, tpl, rank := SampleViews(), SampleTemplate, SampleRank;
    SampleAcyclic();
    SampleKeys();
    assert tpl("S2", "base") == [Literal("x")];
    PlainTemplate("S2", "base", "x");
    assert ResolveSegments(vs, tpl, rank, 1, "S2", [Literal("x")], 0) == "x" + ResolveSegments(vs, tpl, rank, 1, "S2", [], 0);
  }

  lemma FullMeaning()
    ensures Acyclic(SampleViews(), SampleTemplate, SampleRank, 1) && KeyExists(SampleViews(), "S2", "full")
    ensures Resolve(SampleViews(), SampleTemplate, SampleRank, 1, "S2", "full") == "x-y"
  {
    var vs, tpl, rank := SampleViews(), SampleTemplate, SampleRank;
    SampleAcyclic();
    SampleKeys();
    assert HasKey(vs[1].entries, "full") by {
      assert vs[1].entries[1].key == "full";
    }
    var ts := [Ref(None, "base"), Literal("-y")];
    assert tpl("S2", "full") == ts;
    assert ts[1..] == [Literal("-y")];
    FullTemplate();
    BaseMeaning();
    LiteralTemplate("-y");
    assert ResolveSegments(vs, tpl, rank, 1, "S2", [Literal("-y")], 1) == "-y" + ResolveSegments(vs, tpl, rank, 1, "S2", [], 1);
    assert ResolveSegments(vs, tpl, rank, 1, "S2", ts, 1)
        == Resolve(vs, tpl, rank, 1, "S2", "base") + ResolveSegments(vs, tpl, rank, 1, "S2", [Literal("-y")], 1);
  }

  /** Cross-section reference: `ref = ${S1.k}` in `S2` expands to the `A` of `S1.k`. */
  lemma CrossSectionSample(fuel: nat)
    requires fuel >= 4
    ensures ExpandKey(SampleViews(), SampleViews()[1], "ref", fuel) == Expanded("A")
  {
    var vs, tpl, rank := SampleViews(), SampleTemplate, SampleRank;
    SampleAcyclic();
    assert HasKey(vs[1].entries, "ref") by {
      assert vs[1].entries[2].key == "ref";
    }
    ExpandsWithinBudget(vs, tpl, rank, 1, 1, "ref", fuel);
    CrossMeaning();
  }

  lemma CrossMeaning()
    ensures Acyclic(SampleViews(), SampleTemplate, SampleRank, 1) && KeyExists(SampleViews(), "S2", "ref")
    ensures Resolve(SampleViews(), SampleTemplate, SampleRank, 1, "S2", "ref") == "A"
  {
    var vs, tpl, rank := SampleViews(), SampleTemplate, SampleRank;
    SampleAcyclic();
    SampleKeys();
    assert HasKey(vs[1].entries, "ref") by {
      assert vs[1].entries[2].key == "ref";
    }
    var ts := [Ref(Some("S1"), "k")];
    assert tpl("S2", "ref") == ts;
    RefTemplate();
    assert Resolve(vs, tpl, rank, 1, "S1", "k") == "A" by {
      assert tpl("S1", "k") == [Literal("A")];
      PlainTemplate("S1", "k", "A");
      assert ResolveSegments(vs, tpl, rank, 1, "S1", [Literal("A")], 0) == "A" + ResolveSegments(vs, tpl, rank, 1, "S1", [], 0);
    }
    assert ResolveSegments(vs, tpl, rank, 1, "S2", ts, 1)
        == Resolve(vs, tpl, rank, 1, "S1", "k") + ResolveSegments(vs, tpl, rank, 1, "S2", [], 1);
  }
}
