/**
 * `ConfigBase.ExpandValue` and `GetExpanded<string>` as functions. The loop finds the leftmost
 * placeholder, expands the key it names (recursively, in the current section for `${k}` and in
 * section `s` for `${s.k}`) and replaces every occurrence of the matched text, until no match is
 * left. The source has no bound on either the loop or the recursion; here both draw on one `fuel`
 * counter, and `OutOfFuel` stands for a computation that would not have come back.
 */
module Expansion {
  import opened Base
  import opened Text
  import opened ValueComments
  import opened Entries
  import opened Sections
  import opened Sources
  import opened Placeholders

  datatype Expansion =
    | Expanded(text: string)  // the fully expanded text
    | Unresolved              // KeyNotFoundException: a missing key or a missing section
    | OutOfFuel               // the expansion did not finish within the fuel

  /** The section a placeholder is resolved in: the current one, or the named one in the store. */
  function TargetOf(views: seq<SectionView>, cur: SectionView, p: Placeholder): Result<SectionView> {
    match p.section
    case None => Success(cur)
    case Some(s) => LookupSection(views, s)
  }

  /** `GetExpanded<string>(key)` on section `cur`: KeyNotFoundException, or the expanded value. */
  function ExpandKey(views: seq<SectionView>, cur: SectionView, key: string, fuel: nat): (r: Expansion)
    ensures !HasKey(cur.entries, key) ==> r == Unresolved
    ensures r.Expanded? ==> FindPlaceholder(r.text) == None
    decreases fuel, 1
  {
    match Find(cur.entries, key)
    case None => Unresolved
    case Some(p) => Expand(views, cur, p.value, fuel)
  }

  /**
   * `ExpandValue(value)` on section `cur`. A finished expansion holds no placeholder: the loop only
   * stops when the pattern no longer matches.
   */
  function Expand(views: seq<SectionView>, cur: SectionView, value: string, fuel: nat): (r: Expansion)
    ensures r.Expanded? ==> FindPlaceholder(r.text) == None
    decreases fuel, 0
  {
    if fuel == 0 then OutOfFuel
    else match FindPlaceholder(value)
      case None => Expanded(value)
      case Some(p) =>
        match TargetOf(views, cur, p)
        case Failure(_) => Unresolved
        case Success(target) =>
          match ExpandKey(views, target, p.key, fuel - 1)
          case Expanded(t) => Expand(views, cur, ReplaceAll(value, Reference(p.section, p.key), t), fuel - 1)
          case Unresolved => Unresolved
          case OutOfFuel => OutOfFuel
  }

  /**
   * One round of the loop: the leftmost reference is expanded and every occurrence of its text is
   * replaced at once.
   */
  lemma ExpandStep(views: seq<SectionView>, cur: SectionView, value: string, fuel: nat, target: SectionView, t: string)
    requires fuel > 0 && FindPlaceholder(value).Some?
    requires TargetOf(views, cur, FindPlaceholder(value).value) == Success(target)
    requires ExpandKey(views, target, FindPlaceholder(value).value.key, fuel - 1) == Expanded(t)
    ensures var p := FindPlaceholder(value).value;
      Expand(views, cur, value, fuel) == Expand(views, cur, ReplaceAll(value, Reference(p.section, p.key), t), fuel - 1)
  {
  }

  /** More fuel never changes a result that was reached. */
  lemma {:induction false} ExpandMonotone(views: seq<SectionView>, cur: SectionView, value: string, f: nat, g: nat)
    requires f <= g && Expand(views, cur, value, f) != OutOfFuel
    ensures Expand(views, cur, value, g) == Expand(views, cur, value, f)
    decreases f, 0
  {
    if FindPlaceholder(value).Some? {
      var p := FindPlaceholder(value).value;
      var tr := TargetOf(views, cur, p);
      if tr.Success? {
        var sub := ExpandKey(views, tr.value, p.key, f - 1);
        ExpandKeyMonotone(views, tr.value, p.key, f - 1, g - 1);
        if sub.Expanded? {
          ExpandMonotone(views, cur, ReplaceAll(value, Reference(p.section, p.key), sub.text), f - 1, g - 1);
        }
      }
      RoundsAgree(views, cur, value, f, g);
    }
  }

  /** Two runs of the loop agree when their first rounds agree and so do the rests. */
  lemma RoundsAgree(views: seq<SectionView>, cur: SectionView, value: string, f: nat, g: nat)
    requires f > 0 && g > 0 && FindPlaceholder(value).Some?
    requires var p := FindPlaceholder(value).value;
      var tr := TargetOf(views, cur, p);
      tr.Success? ==>
        && ExpandKey(views, tr.value, p.key, f - 1) != OutOfFuel
        && ExpandKey(views, tr.value, p.key, g - 1) == ExpandKey(views, tr.value, p.key, f - 1)
        && (ExpandKey(views, tr.value, p.key, f - 1).Expanded? ==>
              var t := ExpandKey(views, tr.value, p.key, f - 1).text;
              Expand(views, cur, ReplaceAll(value, Reference(p.section, p.key), t), g - 1)
                == Expand(views, cur, ReplaceAll(value, Reference(p.section, p.key), t), f - 1))
    ensures Expand(views, cur, value, g) == Expand(views, cur, value, f)
  {
  }

  lemma {:induction false} ExpandKeyMonotone(views: seq<SectionView>, cur: SectionView, key: string, f: nat, g: nat)
    requires f <= g
    ensures ExpandKey(views, cur, key, f) != OutOfFuel ==> ExpandKey(views, cur, key, g) == ExpandKey(views, cur, key, f)
    decreases f, 1
  {
    match Find(cur.entries, key)
    case None =>
    case Some(p) =>
      if Expand(views, cur, p.value, f) != OutOfFuel {
        ExpandMonotone(views, cur, p.value, f, g);
      }
  }

  /**
   * The leftmost placeholder names a section the store lacks, or a key its section lacks: the
   * expansion throws KeyNotFoundException, whatever the rest of the text holds.
   */
  lemma LeftmostMissingFails(views: seq<SectionView>, cur: SectionView, value: string, fuel: nat)
    requires fuel > 0 && FindPlaceholder(value).Some?
    requires var p := FindPlaceholder(value).value;
      match p.section
      case None => !HasKey(cur.entries, p.key)
      case Some(s) => !HasName(views, s) || !HasKey(LookupSection(views, s).value.entries, p.key)
    ensures Expand(views, cur, value, fuel) == Unresolved
  {
    var p := FindPlaceholder(value).value;
    var tr := TargetOf(views, cur, p);
    if tr.Success? {
      ExpandBaseCases(views, cur, value, p.key, fuel);
      ExpandBaseCases(views, tr.value, value, p.key, fuel - 1);
    }
  }

  /**
   * Keys of one section round a cycle: the leftmost placeholder in the value of each is `${next}`,
   * the next key of `ks` (the last one leading back to the first).
   */
  predicate LeftmostCycle(cur: SectionView, ks: seq<string>) {
    |ks| >= 1 && forall i :: 0 <= i < |ks| ==> CycleLink(cur, ks, i)
  }

  /** The value of `ks[i]` holds a placeholder, and the leftmost one is `${ks[i + 1]}` (cyclically). */
  predicate CycleLink(cur: SectionView, ks: seq<string>, i: nat)
    requires i < |ks|
  {
    && Find(cur.entries, ks[i]).Some?
    && var m := FindPlaceholder(Find(cur.entries, ks[i]).value.value);
       m.Some? && m.value.section.None? && m.value.key == ks[(i + 1) % |ks|]
  }

  /** No key on such a cycle ever finishes expanding, whatever the fuel: the source recurses for ever. */
  lemma {:induction false} LeftmostCycleDiverges(views: seq<SectionView>, cur: SectionView, ks: seq<string>, fuel: nat)
    requires LeftmostCycle(cur, ks)
    ensures forall i :: 0 <= i < |ks| ==> ExpandKey(views, cur, ks[i], fuel) == OutOfFuel
    decreases fuel
  {
    forall i | 0 <= i < |ks| ensures ExpandKey(views, cur, ks[i], fuel) == OutOfFuel {
      var j := (i + 1) % |ks|;
      assert CycleLink(cur, ks, i);
      var next := ks[j];
      if fuel > 0 {
        LeftmostCycleDiverges(views, cur, ks, fuel - 1);
        assert ExpandKey(views, cur, next, fuel - 1) == OutOfFuel;
      }
      DivergingReference(views, cur, ks[i], next, fuel);
    }
  }

  /** A key whose leftmost placeholder is `${next}`, where `next` does not finish, does not finish either. */
  lemma DivergingReference(views: seq<SectionView>, cur: SectionView, k: string, next: string, fuel: nat)
    requires Find(cur.entries, k).Some?
    requires var m := FindPlaceholder(Find(cur.entries, k).value.value);
      m.Some? && m.value.section.None? && m.value.key == next
    requires fuel > 0 ==> ExpandKey(views, cur, next, fuel - 1) == OutOfFuel
    ensures ExpandKey(views, cur, k, fuel) == OutOfFuel
  {
  }

  /** A key whose value starts with a reference to itself never finishes expanding. */
  lemma SelfReferenceDiverges(views: seq<SectionView>, cur: SectionView, k: string, rest: string, fuel: nat)
    requires PlainName(k)
    requires Find(cur.entries, k).Some? && Find(cur.entries, k).value.value == "${" + k + "}" + rest
    ensures ExpandKey(views, cur, k, fuel) == OutOfFuel
  {
    LeadingBareReference(k, rest);
    var ks := [k];
    assert (0 + 1) % |ks| == 0;
    assert LeftmostCycle(cur, ks);
    LeftmostCycleDiverges(views, cur, ks, fuel);
    assert ks[0] == k;
  }

  lemma NoDollarPlain(s: string)
    requires '$' !in s
    ensures FindPlaceholder(s) == None
  {
    NoDollarNoPlaceholder(s, 0);
  }

  /** Text without a placeholder is returned unchanged, and a missing key throws, whatever the fuel. */
  lemma ExpandBaseCases(views: seq<SectionView>, cur: SectionView, value: string, key: string, fuel: nat)
    ensures fuel > 0 && FindPlaceholder(value) == None ==> Expand(views, cur, value, fuel) == Expanded(value)
    ensures !HasKey(cur.entries, key) ==> ExpandKey(views, cur, key, fuel) == Unresolved
  {
  }
}
