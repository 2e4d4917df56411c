/**
 * The command-line front end (`ArgvParser`). `Merge` adds one section under the caller's name and
 * fills it from the arguments at `startIndex` and after: each argument is trimmed, blank ones are
 * skipped, one that reads as `key=value;comment` is stored under its key, and any other is stored
 * under the decimal string of its position. The cells go straight into the dictionary, so no
 * `KeySet` notification is raised, and a key seen twice stops the merge.
 */
module Argv {
  import opened Base
  import opened Text
  import opened ValueComments
  import opened Entries
  import opened Sections
  import opened Sources
  import opened KeyValueComments
  import opened ArgvSamples

  /**
   * What argument `i` becomes: nothing when it is blank once trimmed, its key and cell when it reads
   * as `key=value;comment`, and otherwise the whole trimmed argument under the key `i`.
   */
  function ArgumentEntry(arg: string, i: nat): (r: Option<Entry>)
    ensures r.None? <==> Trim(arg) == []
  {
    var buffer := Trim(arg);
    if buffer == [] then None
    else match GetKeyValueComment(buffer)
      case Some(kvc) => Some(Entry(kvc.key, ValueCommentPair(kvc.value, kvc.comment)))
      case None => Some(Entry(NatToString(i), ValueCommentPair(buffer, "")))
  }

  /** One pass of the loop: a blank argument is skipped, a fresh key is appended, a taken key throws. */
  function ArgvStep(es: seq<Entry>, cell: Option<Entry>): (r: Outcome<seq<Entry>>)
    ensures r.error.Some? ==> r == Outcome(es, Some(DuplicateKey))
  {
    match cell
    case None => Outcome(es, None)
    case Some(e) => if HasKey(es, e.key) then Outcome(es, Some(DuplicateKey)) else Outcome(es + [e], None)
  }

  /** `f` applied to each argument from `lo` up to `hi` and to its index, in order. */
  function MapArguments<T>(f: (string, nat) -> T, argv: seq<string>, lo: nat, hi: nat): (r: seq<T>)
    requires lo <= hi <= |argv|
    ensures |r| == hi - lo
    decreases hi
  {
    if hi == lo then [] else MapArguments(f, argv, lo, hi - 1) + [f(argv[hi - 1], hi - 1)]
  }

  /** The item of argument `i` is `f` of that argument and its absolute index. */
  lemma {:induction false} MapArgumentsAt<T>(f: (string, nat) -> T, argv: seq<string>, lo: nat, hi: nat, i: nat)
    requires lo <= i < hi <= |argv|
    ensures MapArguments(f, argv, lo, hi)[i - lo] == f(argv[i], i)
    decreases hi
  {
    if i < hi - 1 {
      MapArgumentsAt(f, argv, lo, hi - 1, i);
    }
  }

  /** What each argument from `lo` up to `hi` becomes, in order. */
  function ArgumentCells(argv: seq<string>, lo: nat, hi: nat): (r: seq<Option<Entry>>)
    requires lo <= hi <= |argv|
    ensures |r| == hi - lo
  {
    MapArguments(ArgumentEntry, argv, lo, hi)
  }

  /** The cell of argument `i` is what that argument becomes, read at its absolute index. */
  lemma ArgumentCellsAre(argv: seq<string>, lo: nat, hi: nat, i: nat)
    requires lo <= i < hi <= |argv|
    ensures ArgumentCells(argv, lo, hi)[i - lo] == ArgumentEntry(argv[i], i)
  {
    MapArgumentsAt(ArgumentEntry, argv, lo, hi, i);
  }

  /** The loop over the arguments, stopping at the first repeated key. */
  function ArgvFold(es: seq<Entry>, cells: seq<Option<Entry>>): (r: Outcome<seq<Entry>>)
    // the only exception the loop throws is the repeated key of `Dictionary.Add`
    ensures r.error.Some? ==> r.error == Some(DuplicateKey)
    // the cells stored so far are kept, and only added to
    ensures |r.state| >= |es| && r.state[..|es|] == es
  {
    if cells == [] then Outcome(es, None)
    else
      var o := ArgvFold(es, cells[..|cells| - 1]);
      if o.error.Some? then o else ArgvStep(o.state, cells[|cells| - 1])
  }

  /** Reading one more argument is one more step, unless the loop has stopped. */
  lemma ArgvFoldSnoc(es: seq<Entry>, cells: seq<Option<Entry>>, c: Option<Entry>)
    ensures ArgvFold(es, cells + [c]) == (var o := ArgvFold(es, cells); if o.error.Some? then o else ArgvStep(o.state, c))
  {
    assert (cells + [c])[..|cells|] == cells;
  }

  /** Reference: the cells of the non-blank arguments, in order. */
  function Present(cells: seq<Option<Entry>>): seq<Entry> {
    if cells == [] then []
    else
      var c := cells[|cells| - 1];
      Present(cells[..|cells| - 1]) + (if c.Some? then [c.value] else [])
  }

  /** Appending a key keeps the keys unique exactly when it is not stored yet. */
  lemma UniqueKeysSnoc(es: seq<Entry>, e: Entry)
    ensures UniqueKeys(es + [e]) <==> UniqueKeys(es) && !HasKey(es, e.key)
  {
    var r := es + [e];
    if UniqueKeys(r) {
      forall i, j | 0 <= i < j < |es| ensures es[i].key != es[j].key {
        assert r[i] == es[i] && r[j] == es[j];
      }
      PutAllFresh(es, e);
    }
    if UniqueKeys(es) && !HasKey(es, e.key) {
      forall i, j | 0 <= i < j < |r| ensures r[i].key != r[j].key {
        if j == |es| {
          assert r[i] == es[i];
        } else {
          assert r[i] == es[i] && r[j] == es[j];
        }
      }
    }
  }

  /**
   * The loop succeeds exactly when the non-blank arguments carry distinct keys, and then it has
   * stored every one of them, in order; otherwise it stops with DuplicateKey.
   */
  lemma {:induction false} ArgvFoldIsPresent(cells: seq<Option<Entry>>)
    ensures ArgvFold([], cells).error.None? <==> UniqueKeys(Present(cells))
    ensures ArgvFold([], cells).error.None? ==> ArgvFold([], cells).state == Present(cells)
    ensures ArgvFold([], cells).error.Some? ==> ArgvFold([], cells).error == Some(DuplicateKey)
  {
    if cells != [] {
      var init := cells[..|cells| - 1];
      var c := cells[|cells| - 1];
      ArgvFoldIsPresent(init);
      var prev := Present(init);
      if c.Some? {
        UniqueKeysSnoc(prev, c.value);
      } else {
        assert Present(cells) == prev;
      }
    }
  }

  /** `Merge` runs its loop from `startIndex`, which a value past the last argument makes empty. */
  function LoopStart(argv: seq<string>, start: nat): nat {
    if start < |argv| then start else |argv|
  }

  /**
   * `ArgvParser.Merge(source, argv, startIndex, section, comment)`: a taken section name throws and
   * changes nothing; a negative `startIndex` throws IndexOutOfRange once the empty section is added;
   * otherwise the section is filled by the loop, and keeps what was stored before a repeated key.
   */
  function ArgvMerge(vs: seq<SectionView>, argv: seq<string>, start: int, section: string, comment: string)
    : (r: Outcome<seq<SectionView>>)
    ensures r.error.None? ==> |r.state| == |vs| + 1 && r.state[..|vs|] == vs
  {
    match AddSection(vs, section, comment)
    case Failure(e) => Outcome(vs, Some(e))
    case Success(added) =>
      if start < 0 then Outcome(added, Some(IndexOutOfRange))
      else
        var o := ArgvFold([], ArgumentCells(argv, LoopStart(argv, start), |argv|));
        Outcome(vs + [NewSection(section, comment).(entries := o.state)], o.error)
  }

  /** `ArgvParser.Parse`: a merge into a new, empty source. */
  function ArgvParse(argv: seq<string>, start: int, section: string, comment: string): (r: Outcome<seq<SectionView>>)
    ensures r.error.None? ==> |r.state| == 1 && r.state[0].name == section
  {
    ArgvMerge([], argv, start, section, comment)
  }

  /** A section name already in the source makes the merge throw and leaves the source as it was. */
  lemma ArgvMergeTaken(vs: seq<SectionView>, argv: seq<string>, start: int, section: string, comment: string)
    requires HasName(vs, section)
    ensures ArgvMerge(vs, argv, start, section, comment) == Outcome(vs, Some(DuplicateKey))
  {
  }

  /** A negative start index throws IndexOutOfRange after the empty section was added. */
  lemma ArgvMergeNegative(vs: seq<SectionView>, argv: seq<string>, start: int, section: string, comment: string)
    requires !HasName(vs, section) && start < 0
    ensures ArgvMerge(vs, argv, start, section, comment) == Outcome(vs + [NewSection(section, comment)], Some(IndexOutOfRange))
  {
  }

  /**
   * Under a fresh name and from a valid start, the merge succeeds exactly when the arguments carry
   * distinct keys; the new section then holds every non-blank argument in order, with no
   * notification, no infos and no key infos.
   */
  lemma ArgvMergeStores(vs: seq<SectionView>, argv: seq<string>, start: nat, section: string, comment: string)
    requires !HasName(vs, section)
    ensures var r := ArgvMerge(vs, argv, start, section, comment);
      var cells := Present(ArgumentCells(argv, LoopStart(argv, start), |argv|));
      (r.error.None? <==> UniqueKeys(cells))
      && (r.error.None? ==> r.state == vs + [SectionView(section, comment, cells, [], None, map[])])
      && (r.error.Some? ==> r.error == Some(DuplicateKey))
  {
    ArgvFoldIsPresent(ArgumentCells(argv, LoopStart(argv, start), |argv|));
  }

  /** A merge never registers a section name twice. */
  lemma ArgvMergeUnique(vs: seq<SectionView>, argv: seq<string>, start: int, section: string, comment: string)
    requires UniqueNames(vs)
    ensures UniqueNames(ArgvMerge(vs, argv, start, section, comment).state)
  {
    if !HasName(vs, section) && start >= 0 {
      var r := vs + [NewSection(section, comment).(entries := ArgvFold([], ArgumentCells(argv, LoopStart(argv, start), |argv|)).state)];
      forall i, j | 0 <= i < j < |r| ensures r[i].name != r[j].name {
        if j < |vs| {
          assert r[i] == vs[i] && r[j] == vs[j];
        } else {
          assert r[i] == vs[i];
        }
      }
    }
  }

  /** An argument without `=` is stored under its position, trimmed, with no comment. */
  lemma PositionalArgument(arg: string, i: nat)
    requires Trim(arg) != [] && '=' !in Trim(arg)
    ensures ArgumentEntry(arg, i) == Some(Entry(NatToString(i), ValueCommentPair(Trim(arg), "")))
  {
    NoEqualsNoMatch(Trim(arg));
  }

  /** An argument `key=value;comment` is stored under its key, with its value and comment. */
  lemma KeyedArgument(k: string, v: string, c: string, i: nat)
    requires WritableKey(k) && v != [] && SpaceFree(v) && !IsQuote(v[0]) && Delimiter !in v && '\n' !in v
    requires c != [] && SpaceFree(c)
    ensures ArgumentEntry(k + "=" + v + [Delimiter] + c, i) == Some(Entry(k, ValueCommentPair(v, c)))
  {
    var arg := k + "=" + v + [Delimiter] + c;
    assert arg[0] == k[0] && arg[|arg| - 1] == c[|c| - 1];
    TrimCharIsSpace(k[0]);
    TrimCharIsSpace(c[|c| - 1]);
    TrimOfTrimmed(arg);
    ArgumentRoundTrip(k, v, c);
  }

  /**
   * The arguments `--name=test;run` and `bare-token`, from index 0: `--name` holds `test` with the
   * comment `run`, and `1` holds `bare-token` with no comment.
   */
  lemma ArgvExample()
    ensures Present(ArgumentCells(["--name=test;run", "bare-token"], 0, 2))
         == [Entry("--name", ValueCommentPair("test", "run")), Entry("1", ValueCommentPair("bare-token", ""))]
  {
    TwoArguments("--name=test;run", "bare-token");
    FirstExampleArgument();
    SecondExampleArgument("bare-token");
    PresentTwo(Entry("--name", ValueCommentPair("test", "run")), Entry("1", ValueCommentPair("bare-token", "")));
  }

  lemma TwoArguments(a: string, b: string)
    ensures ArgumentCells([a, b], 0, 2) == [ArgumentEntry(a, 0), ArgumentEntry(b, 1)]
  {
    assert ArgumentCells([a, b], 0, 1) == [ArgumentEntry(a, 0)];
  }

  lemma PresentTwo(x: Entry, y: Entry)
    ensures Present([Some(x), Some(y)]) == [x, y]
  {
    assert [Some(x), Some(y)][..1] == [Some(x)];
    assert [Some(x)][..0] == [];
    assert Present([Some(x)]) == [x];
  }

  lemma FirstExampleArgument()
    ensures ArgumentEntry("--name=test;run", 0) == Some(Entry("--name", ValueCommentPair("test", "run")))
  {
    var arg := "--name=test;run";
    assert arg == "--name" + "=" + "test" + [Delimiter] + "run";
    assert Trimmed(arg);
    TrimOfTrimmed(arg);
    ArgumentExample();
  }

  lemma SecondExampleArgument(arg: string)
    requires arg == "bare-token"
    ensures ArgumentEntry(arg, 1) == Some(Entry("1", ValueCommentPair(arg, "")))
  {
    BareTokenTrimmed();
    BareTokenHasNoEquals();
    IndexOne();
    PositionalArgument(arg, 1);
  }

  /**
   * The loop of `Merge` over what the arguments from `start` on become (`ArgumentEntry`, pure): a
   * blank argument is skipped, and the first repeated key stops it with what was stored so far.
   */
  method MergeArguments(argv: seq<string>, start: nat) returns (es: seq<Entry>, err: Option<Error>)
    requires start <= |argv|
    ensures Outcome(es, err) == ArgvFold([], ArgumentCells(argv, start, |argv|))
  {
    es, err := FoldCells(ArgumentCells(argv, start, |argv|));
  }

  /** The loop body applied to each cell in order, stopping at the first repeated key. */
  method FoldCells(cells: seq<Option<Entry>>) returns (es: seq<Entry>, err: Option<Error>)
    ensures Outcome(es, err) == ArgvFold([], cells)
  {
    es := [];
    for j := 0 to |cells|
      invariant ArgvFold([], cells[..j]) == Outcome(es, None)
    {
      TakeOneMore(cells, j);
      ArgvFoldSnoc([], cells[..j], cells[j]);
      if cells[j].Some? {
        if HasKey(es, cells[j].value.key) {
          FoldStops(cells[..j + 1], cells[j + 1..]);
          TakeDrop(cells, j + 1);
          return es, Some(DuplicateKey);
        }
        es := es + [cells[j].value];
      }
    }
    assert cells[..|cells|] == cells;
    err := None;
  }

  /** Once the loop has stopped, the remaining cells are not visited. */
  lemma {:induction false} FoldStops(cells: seq<Option<Entry>>, more: seq<Option<Entry>>)
    requires ArgvFold([], cells).error.Some?
    ensures ArgvFold([], cells + more) == ArgvFold([], cells)
    decreases |more|
  {
    if more != [] {
      var init := more[..|more| - 1];
      FoldStops(cells, init);
      assert cells + more == (cells + init) + [more[|more| - 1]];
      ArgvFoldSnoc([], cells + init, more[|more| - 1]);
    } else {
      assert cells + more == cells;
    }
  }
}

/** Facts about the sample arguments, kept apart from the matcher. */
module ArgvSamples {
  import opened Text

  lemma BareTokenTrimmed()
    ensures Trim("bare-token") == "bare-token"
  {
    assert Trimmed("bare-token");
    TrimOfTrimmed("bare-token");
  }

  lemma BareTokenHasNoEquals()
    ensures '=' !in "bare-token"
  {
    var arg := "bare-token";
    forall i | 0 <= i < |arg| ensures arg[i] != '=' {
    }
  }

  lemma IndexOne()
    ensures NatToString(1) == "1"
  {
  }
}
