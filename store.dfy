/**
 * The stateful classes: a section (`ConfigBase` with the info fields of `IniConfig`/`XmlConfig`)
 * and a configuration source (`ConfigSourceBase` with the hooks of the INI, XML and argv sources).
 * Each method changes the fields in place and is proved to leave exactly the state that the value
 * functions of `Sections`, `Sources`, `Ini`, `Xml` and `Argv` describe.
 */
module Store {
  import opened Base
  import opened Text
  import opened ValueComments
  import opened Entries
  import opened Sections
  import opened Sources
  import opened Formatting
  import opened Placeholders
  import opened Expansion
  import opened KeyValueComments
  import opened Readers
  import opened Ini
  import opened Xml
  import opened Argv

  /** The text `${k}` that `SetExpanded` puts in place of each hole, one per key. */
  function ReferenceArgs(keys: seq<string>): (r: seq<string>)
    ensures |r| == |keys|
    ensures forall i :: 0 <= i < |keys| ==> r[i] == Reference(None, keys[i])
  {
    seq(|keys|, i requires 0 <= i < |keys| => Reference(None, keys[i]))
  }

  /**
   * The value `SetExpanded(key, format, comment, keys)` stores: the format with hole `{i}` replaced
   * by the literal, unexpanded text `${keys[i]}`; a malformed format throws FormatException.
   */
  function ExpandedFormat(format: string, keys: seq<string>): Result<string> {
    Format(format, ReferenceArgs(keys))
  }

  /** A null comment is stored as "". */
  function CommentOrEmpty(comment: Option<string>): (r: string)
    ensures comment.None? ==> r == []
    ensures comment.Some? ==> r == comment.value
  {
    match comment
    case None => []
    case Some(c) => c
  }

  /**
   * A format written from items stores those items with each hole filled by the reference to its
   * key, so a later expansion resolves the keys rather than the text they held when it was set.
   */
  lemma ExpandedFormatStoresReferences(items: seq<FormatItem>, keys: seq<string>)
    requires HolesBelow(items, |keys|)
    ensures ExpandedFormat(Unparse(items), keys) == Success(Render(items, ReferenceArgs(keys)))
  {
    ParseUnparse(items);
  }

  /** A lone hole `{0}` stores exactly `${k}`, which the expansion engine then matches as a whole. */
  lemma LoneHoleStoresReference(k: string)
    ensures ExpandedFormat(Unparse([Hole(0)]), [k]) == Success("${" + k + "}")
  {
    assert HolesBelow([Hole(0)], |[k]|);
    ExpandedFormatStoresReferences([Hole(0)], [k]);
    var args := ReferenceArgs([k]);
    assert args[0] == "${" + k + "}";
    assert Render([Hole(0)], args) == args[0] + Render([Hole(0)][1..], args);
    assert Render([Hole(0)][1..], args) == [];
    assert Render([Hole(0)], args) == "${" + k + "}";
  }

  /**
   * `ExpandValue(value)`: while the pattern matches, the leftmost placeholder is resolved (in this
   * section for `${k}`, in section `s` of the store for `${s.k}`) and every occurrence of its text is
   * replaced. Each round, and each nested `GetExpanded`, spends one unit of `fuel`.
   */
  method ExpandValue(views: seq<SectionView>, cur: SectionView, value: string, fuel: nat) returns (r: Expansion)
    ensures r == Expand(views, cur, value, fuel)
    decreases fuel, 0
  {
    ghost var goal := Expand(views, cur, value, fuel);
    var text := value;
    var f: nat := fuel;
    while true
      invariant f <= fuel
      invariant Expand(views, cur, text, f) == goal
      decreases f
    {
      if f == 0 {
        return OutOfFuel;
      }
      var m := FindPlaceholder(text);
      if m.None? {
        return Expanded(text);
      }
      var p := m.value;
      var target := TargetOf(views, cur, p);
      if target.Failure? {
        return Unresolved;
      }
      var sub := GetExpandedIn(views, target.value, p.key, f - 1);
      if !sub.Expanded? {
        return sub;
      }
      var next := ReplaceAll(text, Reference(p.section, p.key), sub.text);
      assert Expand(views, cur, next, f - 1) == goal by {
        assert FindPlaceholder(text) == Some(p);
        assert ExpandKey(views, target.value, p.key, f - 1) == Expanded(sub.text);
        ExpandStep(views, cur, text, f, target.value, sub.text);
      }
      text, f := next, f - 1;
    }
  }

  /** `GetExpanded<string>(key)` on section `cur`: KeyNotFoundException, or the expanded value. */
  method GetExpandedIn(views: seq<SectionView>, cur: SectionView, key: string, fuel: nat) returns (r: Expansion)
    ensures r == ExpandKey(views, cur, key, fuel)
    decreases fuel, 1
  {
    var p := Find(cur.entries, key);
    if p.None? {
      return Unresolved;
    }
    r := ExpandValue(views, cur, p.value.value, fuel);
  }

  /** One section of a source: its name, comment, cells, notifications and info lines. */
  class Config {
    var name: string
    var comment: string
    var entries: seq<Entry>
    var events: seq<KeyEvent>
    var infos: Option<seq<string>>
    var keyInfos: map<string, seq<string>>

    /** The state of this section as a value. */
    function View(): SectionView
      reads this
    {
      SectionView(name, comment, entries, events, infos, keyInfos)
    }

    /** `_vcPairs` is a dictionary: no key is stored twice. */
    predicate Valid()
      reads this
    {
      UniqueKeys(entries)
    }

    /** `new IniConfig(source, name, comment)` (likewise `XmlConfig`, `ArgvConfig`). */
    constructor (name: string, comment: string)
      ensures View() == NewSection(name, comment) && Valid()
    {
      this.name := name;
      this.comment := comment;
      entries := [];
      events := [];
      infos := None;
      keyInfos := map[];
    }

    /** The `Comment` setter. */
    method SetComment(c: string)
      modifies this
      ensures View() == old(View()).(comment := c)
    {
      comment := c;
    }

    /** The `Infos` setter of the INI and XML sections. */
    method SetInfos(lines: Option<seq<string>>)
      modifies this
      ensures View() == old(View()).(infos := lines)
    {
      infos := lines;
    }

    /** `Contains(key)`. */
    method Contains(key: string) returns (b: bool)
      ensures b <==> HasKey(entries, key)
    {
      b := IndexOf(entries, key).Some?;
    }

    /** `Set(key, value, comment)`, and the indexer setter with comment "". */
    method Set(key: string, value: string, comment: string)
      modifies this
      ensures View() == SetKey(old(View()), key, value, comment)
      ensures old(Valid()) ==> Valid()
    {
      entries := Put(entries, key, ValueCommentPair(value, comment));
      events := events + [KeySet(key, value, comment)];
    }

    /** `TrySet(key, value, comment)`. */
    method TrySet(key: string, value: string, comment: string) returns (added: bool)
      modifies this
      ensures (added, View()) == TrySetKey(old(View()), key, value, comment)
      ensures old(Valid()) ==> Valid()
    {
      var present := Contains(key);
      if present {
        return false;
      }
      Set(key, value, comment);
      added := true;
    }

    /** `SetExpanded(key, format, comment, keys)`: a malformed format throws before anything changes. */
    method SetExpanded(key: string, format: string, comment: Option<string>, keys: seq<string>) returns (err: Option<Error>)
      modifies this
      ensures ExpandedFormat(format, keys).Failure? ==> err == Some(InvalidFormat) && View() == old(View())
      ensures ExpandedFormat(format, keys).Success? ==>
        err == None && View() == SetKey(old(View()), key, ExpandedFormat(format, keys).value, CommentOrEmpty(comment))
    {
      var text := ExpandedFormat(format, keys);
      if text.Failure? {
        return Some(InvalidFormat);
      }
      Set(key, text.value, CommentOrEmpty(comment));
      err := None;
    }

    /** `TrySetExpanded(key, format, comment, keys)`. */
    method TrySetExpanded(key: string, format: string, comment: Option<string>, keys: seq<string>)
      returns (added: Result<bool>)
      modifies this
      ensures ExpandedFormat(format, keys).Failure? ==> added == Failure(InvalidFormat) && View() == old(View())
      ensures ExpandedFormat(format, keys).Success? ==>
        var r := TrySetKey(old(View()), key, ExpandedFormat(format, keys).value, CommentOrEmpty(comment));
        added == Success(r.0) && View() == r.1
    {
      var text := ExpandedFormat(format, keys);
      if text.Failure? {
        return Failure(InvalidFormat);
      }
      var b := TrySet(key, text.value, CommentOrEmpty(comment));
      added := Success(b);
    }

    /** `Get<string>(key)` and the indexer getter. */
    method Get(key: string) returns (r: Result<string>)
      ensures r.Failure? <==> !HasKey(entries, key)
      ensures r.Failure? ==> r.error == KeyNotFound
      ensures r.Success? ==> Find(entries, key).Some? && Find(entries, key).value.value == r.value
    {
      var p := Find(entries, key);
      if p.None? {
        return Failure(KeyNotFound);
      }
      r := Success(p.value.value);
    }

    /** `TryGet<string>(key, out value)`: false for a missing key, the raw value otherwise. */
    method TryGet(key: string) returns (found: bool, value: string)
      ensures found <==> HasKey(entries, key)
      ensures found ==> Find(entries, key).value.value == value
      ensures !found ==> value == []
    {
      var r := Get(key);
      if r.Failure? {
        return false, [];
      }
      return true, r.value;
    }

    /**
     * `GetExpanded<string>(key)`, with `views` the sections of the source this section belongs to.
     */
    method GetExpanded(views: seq<SectionView>, key: string, fuel: nat) returns (r: Expansion)
      ensures r == ExpandKey(views, View(), key, fuel)
    {
      r := GetExpandedIn(views, View(), key, fuel);
    }

    /**
     * `TryGetExpanded<string>(key, out value)`: false for a missing key or a reference to a missing
     * key or section. An expansion that never finishes (a cyclic reference) ends in a stack overflow,
     * which the `catch` cannot intercept, so the call does not return at all: `diverges` reports
     * that case, and `found` and `value` then stand for nothing the source produces.
     */
    method TryGetExpanded(views: seq<SectionView>, key: string, fuel: nat) returns (found: bool, value: string, diverges: bool)
      ensures !HasKey(entries, key) ==> !found && !diverges && value == []
      ensures diverges <==> ExpandKey(views, View(), key, fuel) == OutOfFuel
      ensures found <==> ExpandKey(views, View(), key, fuel).Expanded?
      ensures found ==> value == ExpandKey(views, View(), key, fuel).text
      ensures !found ==> value == []
    {
      var present := Contains(key);
      if !present {
        return false, [], false;
      }
      var r := GetExpanded(views, key, fuel);
      if !r.Expanded? {
        return false, [], r.OutOfFuel?;
      }
      return true, r.text, false;
    }

    /** `Remove(key)`: a missing key throws KeyNotFoundException before anything changes. */
    method Remove(key: string) returns (r: Result<bool>)
      modifies this
      ensures RemoveKey(old(View()), key).Failure? ==> r == Failure(KeyNotFound) && View() == old(View())
      ensures RemoveKey(old(View()), key).Success? ==> r == Success(true) && View() == RemoveKey(old(View()), key).value
    {
      var p := Find(entries, key);
      if p.None? {
        return Failure(KeyNotFound);
      }
      entries := Delete(entries, key);
      events := events + [KeyRemoved(key, p.value.value, p.value.comment)];
      r := Success(true);
    }

    /** `TryRemove(key)` as written: `!Contains(key) && Remove(key)`. */
    method TryRemove(key: string) returns (r: Result<bool>)
      modifies this
      ensures TryRemoveAsWritten(old(View()), key).Failure? ==>
        r == Failure(TryRemoveAsWritten(old(View()), key).error) && View() == old(View())
      ensures TryRemoveAsWritten(old(View()), key).Success? ==>
        r == Success(TryRemoveAsWritten(old(View()), key).value.0) && View() == TryRemoveAsWritten(old(View()), key).value.1
    {
      var present := Contains(key);
      if present {
        return Success(false);
      }
      r := Remove(key);
    }

    /**
     * The loop of `ArgvParser.Merge` on the section it added: each argument from `start` on goes
     * straight into `VcPairs` (no notification), until a repeated key throws.
     */
    method FillArguments(argv: seq<string>, start: nat) returns (err: Option<Error>)
      modifies this
      ensures var o := ArgvFold([], ArgumentCells(argv, LoopStart(argv, start), |argv|));
        View() == old(View()).(entries := o.state) && err == o.error
    {
      var es, e := MergeArguments(argv, LoopStart(argv, start));
      entries := es;
      err := e;
    }

    /**
     * The inner loop of `ConfigSourceBase.Merge`: for each key of another section, in order,
     * `Set(key, config.Get<string>(key))`, which stores its raw value with an empty comment.
     */
    method CopyKeys(keys: seq<Entry>)
      modifies this
      ensures View() == SetAllBlank(old(View()), keys)
    {
      ghost var start := View();
      for k := 0 to |keys|
        invariant View() == SetAllBlank(start, keys[..k])
      {
        PrefixOfTake(keys, k);
        Set(keys[k].key, keys[k].pair.value, "");
      }
      assert keys[..|keys|] == keys;
    }

    /** `AddKeyInternal(key, value, comment, infos)` of the INI and XML sections. */
    method AddKeyInternal(key: string, value: string, comment: string, lines: Option<seq<string>>) returns (err: Option<Error>)
      modifies this
      ensures Outcome(View(), err) == Sections.AddKeyInternal(old(View()), key, value, comment, lines)
    {
      Set(key, value, comment);
      if lines.Some? {
        if key in keyInfos {
          return Some(DuplicateKey);
        }
        keyInfos := keyInfos[key := lines.value];
      }
      err := None;
    }
  }

  /** Which of the three concrete sources a source is: it decides the section type and the hooks. */
  datatype SourceKind = IniSource | XmlSource | ArgvSource

  /** The `Reloaded` and `Saved` notifications of a source. */
  datatype SourceEvent = Reloaded | Saved

  /**
   * What the file named by `SaveFileName` holds, as the INI reader sees it (its lines) and as the
   * XML reader sees it (its node stream).
   */
  datatype FileContents = FileContents(lines: seq<string>, nodes: seq<XmlNode>)

  /** What a successful save writes: the INI lines or the XML document. */
  datatype Written = LinesWritten(lines: seq<string>) | TreeWritten(tree: XTree)

  /** The sections held by `cs`, in order, as values. */
  function ViewsOf(cs: seq<Config>): (r: seq<SectionView>)
    reads cs
    ensures |r| == |cs|
    ensures forall i :: 0 <= i < |cs| ==> r[i] == cs[i].View()
  {
    if cs == [] then [] else ViewsOf(cs[..|cs| - 1]) + [cs[|cs| - 1].View()]
  }

  /** One more section object adds its view at the end. */
  lemma ViewsOfSnoc(cs: seq<Config>, c: Config)
    ensures ViewsOf(cs + [c]) == ViewsOf(cs) + [c.View()]
  {
    assert (cs + [c])[..|cs|] == cs;
  }

  /**
   * `OnReload` of each source, as a value: the argv source always throws InvalidOperation; the
   * others throw FileNotFound for an empty `SaveFileName` before touching anything, and otherwise
   * drop every section and read the file into the emptied source.
   */
  function ReloadOutcome(kind: SourceKind, fileName: string, views: seq<SectionView>, file: FileContents)
    : (r: Outcome<seq<SectionView>>)
    ensures kind == ArgvSource ==> r == Outcome(views, Some(InvalidOperation))
    ensures kind != ArgvSource && fileName == [] ==> r == Outcome(views, Some(FileNotDeclared))
  {
    match kind
    case ArgvSource => Outcome(views, Some(InvalidOperation))
    case IniSource => if fileName == [] then Outcome(views, Some(FileNotDeclared)) else IniMerge([], file.lines)
    case XmlSource => if fileName == [] then Outcome(views, Some(FileNotDeclared)) else XmlMerge([], file.nodes)
  }

  /**
   * `OnSave` of each source, as a value: InvalidOperation for argv, FileNotFound for an empty
   * `SaveFileName`, otherwise the INI lines or the XML document of the sections.
   */
  function SaveOutcome(kind: SourceKind, fileName: string, views: seq<SectionView>): (r: Result<Written>)
    ensures kind == ArgvSource ==> r == Failure(InvalidOperation)
    ensures kind != ArgvSource && fileName == [] ==> r == Failure(FileNotDeclared)
  {
    match kind
    case ArgvSource => Failure(InvalidOperation)
    case IniSource => if fileName == [] then Failure(FileNotDeclared) else Success(LinesWritten(IniLines(views)))
    case XmlSource => if fileName == [] then Failure(FileNotDeclared) else Success(TreeWritten(SaveDocument(views)))
  }

  /** Reloading an INI source from the file it saved gives back what the writer promises to keep. */
  lemma IniSaveReload(fileName: string, vs: seq<SectionView>, before: seq<SectionView>, nodes: seq<XmlNode>)
    requires IniWritable(vs) && fileName != []
    ensures SaveOutcome(IniSource, fileName, vs) == Success(LinesWritten(IniLines(vs)))
    ensures ReloadOutcome(IniSource, fileName, before, FileContents(IniLines(vs), nodes)) == Outcome(ReadBackAll(vs), None)
  {
    IniReadsWhatItWrites(vs);
  }

  /** Reloading an XML source from the document it saved gives back every section, without key infos. */
  lemma XmlSaveReload(fileName: string, vs: seq<SectionView>, before: seq<SectionView>, lines: seq<string>)
    requires XmlWritable(vs) && fileName != []
    ensures SaveOutcome(XmlSource, fileName, vs) == Success(TreeWritten(SaveDocument(vs)))
    ensures ReloadOutcome(XmlSource, fileName, before, FileContents(lines, SavedNodes(vs))) == Outcome(XmlReadBackAll(vs), None)
  {
    XmlReadsWhatItWrites(vs);
  }

  /** Reading one more line is one more step, while the reader has not stopped. */
  lemma IniRunNext(st: ReaderState, lines: seq<string>, n: nat)
    requires ReaderValid(st) && n < |lines| && IniRun(st, lines[..n]).error.None?
    ensures IniRun(st, lines[..n + 1]) == IniStep(IniRun(st, lines[..n]).state, lines[n])
  {
    TakeOneMore(lines, n);
    IniRunSnoc(st, lines[..n], lines[n]);
  }

  /** Once the reader has stopped, the remaining lines are not read. */
  lemma IniRunStops(st: ReaderState, lines: seq<string>, n: nat)
    requires ReaderValid(st) && n <= |lines| && IniRun(st, lines[..n]).error.Some?
    ensures IniRun(st, lines) == IniRun(st, lines[..n])
  {
    IniRunAppend(st, lines[..n], lines[n..]);
    TakeDrop(lines, n);
  }

  /** Reading one more node is one more step, while the reader has not stopped. */
  lemma XmlRunNext(st: ReaderState, nodes: seq<XmlNode>, n: nat)
    requires ReaderValid(st) && n < |nodes| && XmlRun(st, nodes[..n]).error.None?
    ensures XmlRun(st, nodes[..n + 1]) == XmlStep(XmlRun(st, nodes[..n]).state, nodes[n])
  {
    TakeOneMore(nodes, n);
    XmlRunAppend(st, nodes[..n], [nodes[n]]);
    XmlRunOne(XmlRun(st, nodes[..n]).state, nodes[n]);
  }

  /** Once the reader has stopped, the remaining nodes are not read. */
  lemma XmlRunStops(st: ReaderState, nodes: seq<XmlNode>, n: nat)
    requires ReaderValid(st) && n <= |nodes| && XmlRun(st, nodes[..n]).error.Some?
    ensures XmlRun(st, nodes) == XmlRun(st, nodes[..n])
  {
    XmlRunAppend(st, nodes[..n], nodes[n..]);
    TakeDrop(nodes, n);
  }

  /** A configuration source: its sections (the `_configs` dictionary), file name and notifications. */
  class ConfigSource {
    const kind: SourceKind
    var configs: seq<Config>
    var saveFileName: string
    var notifications: seq<SourceEvent>

    /** The sections as values, in the order they were added. */
    function Views(): seq<SectionView>
      reads this, configs
    {
      ViewsOf(configs)
    }

    /** Each section object is held once. */
    predicate Distinct()
      reads this
    {
      forall i, j :: 0 <= i < j < |configs| ==> configs[i] != configs[j]
    }

    /** The dictionary invariant: one section object per name. */
    predicate Valid()
      reads this, configs
    {
      Distinct() && UniqueNames(Views())
    }

    /** A new, empty source of the given kind; `SaveFileName` starts empty. */
    constructor (kind: SourceKind)
      ensures this.kind == kind && configs == [] && saveFileName == [] && notifications == []
      ensures Valid()
    {
      this.kind := kind;
      configs := [];
      saveFileName := [];
      notifications := [];
    }

    /** The `SaveFileName` setter. */
    method SetSaveFileName(fileName: string)
      modifies this
      ensures saveFileName == fileName && configs == old(configs) && notifications == old(notifications)
    {
      saveFileName := fileName;
    }

    /** `_configs.Add(section, CreateConfig(section, comment))` under a name known to be free. */
    method Append(section: string, comment: string) returns (c: Config)
      requires Distinct() && !HasName(Views(), section)
      modifies this
      ensures fresh(c) && configs == old(configs) + [c]
      ensures Distinct() && Views() == old(Views()) + [NewSection(section, comment)]
      ensures saveFileName == old(saveFileName) && notifications == old(notifications)
    {
      c := new Config(section, comment);
      configs := configs + [c];
      assert Views() == old(Views()) + [NewSection(section, comment)];
    }

    /** The section a reader adds: `source.Add(section, comment)`, then `config.Infos = infos.ToArray()`. */
    method AppendWithInfos(section: string, comment: string, infos: seq<string>) returns (c: Config)
      requires Distinct() && !HasName(Views(), section)
      modifies this
      ensures fresh(c) && configs == old(configs) + [c]
      ensures Distinct() && Views() == old(Views()) + [NewSection(section, comment).(infos := Some(infos))]
      ensures saveFileName == old(saveFileName) && notifications == old(notifications)
    {
      ghost var base := configs;
      c := Append(section, comment);
      c.SetInfos(Some(infos));
      assert ViewsOf(base) == old(Views());
      ViewsOfSnoc(base, c);
    }

    /** `Add(section, comment)`: a taken name throws and leaves every section in place. */
    method Add(section: string, comment: string) returns (r: Result<Config>)
      requires Distinct()
      modifies this
      ensures Distinct()
      ensures AddSection(old(Views()), section, comment).Failure? ==> r == Failure(DuplicateKey) && configs == old(configs)
      ensures AddSection(old(Views()), section, comment).Success? ==>
        && r.Success? && fresh(r.value) && configs == old(configs) + [r.value]
        && Views() == AddSection(old(Views()), section, comment).value
      ensures saveFileName == old(saveFileName) && notifications == old(notifications)
    {
      if SectionIndex(Views(), section).Some? {
        return Failure(DuplicateKey);
      }
      var c := Append(section, comment);
      r := Success(c);
    }

    /** `Get(section)` and the indexer: the named section, or KeyNotFoundException. */
    method Get(section: string) returns (r: Result<Config>)
      requires Valid()
      ensures LookupSection(Views(), section).Failure? ==> r == Failure(KeyNotFound)
      ensures LookupSection(Views(), section).Success? ==>
        r.Success? && r.value in configs && r.value.View() == LookupSection(Views(), section).value
    {
      var i := SectionIndex(Views(), section);
      if i.None? {
        return Failure(KeyNotFound);
      }
      r := Success(configs[i.value]);
    }

    /** `TryGet(section, out config)`: false when no section has the name. */
    method TryGet(section: string) returns (found: bool, c: Config?)
      requires Valid()
      ensures found <==> HasName(Views(), section)
      ensures found ==> c != null && c in configs && c.View() == LookupSection(Views(), section).value
      ensures !found ==> c == null
    {
      var r := Get(section);
      if r.Failure? {
        return false, null;
      }
      return true, r.value;
    }

    /** One round of the outer loop of `Merge`: `Add(config.Name, config.Comment)`, then its keys. */
    method AppendCopy(o: Config)
      requires Distinct() && !HasName(Views(), o.name)
      modifies this
      ensures Distinct() && Views() == old(Views()) + [CopySection(old(o.View()))]
      ensures saveFileName == old(saveFileName) && notifications == old(notifications)
    {
      ghost var base := configs;
      ghost var ov := o.View();
      var cfg := Append(o.name, o.comment);
      assert ViewsOf(base) == old(Views()) && o.View() == ov;
      cfg.CopyKeys(o.entries);
      assert ViewsOf(base) == old(Views());
      assert cfg.View() == CopySection(ov);
      ViewsOfSnoc(base, cfg);
    }

    /** One pass of the loop of `Merge(source)`: the section `o` is copied when its name is free here. */
    method MergeSection(o: Config)
      requires Distinct()
      modifies this
      ensures Distinct() && Views() == MergeOne(old(Views()), old(o.View()))
      ensures saveFileName == old(saveFileName) && notifications == old(notifications)
    {
      if SectionIndex(Views(), o.name).None? {
        AppendCopy(o);
      }
    }

    /**
     * `Merge(source)`: every section of `other` whose name is free here is added with the same name
     * and comment, and each of its keys is then `Set` with its raw value and an empty comment.
     * Sections already here are left exactly as they were.
     */
    method Merge(other: ConfigSource)
      requires Valid()
      modifies this
      ensures Valid()
      ensures Views() == MergeViews(old(Views()), old(other.Views()))
      ensures saveFileName == old(saveFileName) && notifications == old(notifications)
    {
      var os := other.configs;
      ghost var ovs := other.Views();
      ghost var vs0 := Views();
      var i := 0;
      while i < |os|
        invariant i <= |os| == |ovs|
        invariant Distinct() && Views() == MergeViews(vs0, ovs[..i])
        invariant saveFileName == old(saveFileName) && notifications == old(notifications)
      {
        assert os[i].View() == ovs[i] by {
          assert old(os[i].View()) == ovs[i];
        }
        ghost var before := Views();
        assert MergeViews(vs0, ovs[..i + 1]) == MergeOne(before, ovs[i]) by {
          PrefixOfTake(ovs, i);
        }
        MergeSection(os[i]);
        i := i + 1;
      }
      assert ovs[..i] == ovs;
      MergeUnique(vs0, ovs);
    }

    /**
     * What both readers do under a section header: `config = source.Add(section, comment);
     * config.Infos = infos.ToArray(); infos.Clear();`. A taken name throws and changes nothing.
     */
    method OpenSectionIn(name: string, comment: string, pending: seq<string>, ghost at: Option<nat>)
      returns (c: Config?, err: Option<Error>)
      requires Distinct() && (at.Some? ==> at.value < |configs|)
      modifies this
      ensures Distinct() && (err.None? ==> fresh(c))
      ensures var o := OpenSection(ReaderState(old(Views()), at, pending), name, comment);
        && Views() == o.state.views && err == o.error
        && (err.None? ==> o.state == ReaderState(Views(), Some(|configs| - 1), []) && c == configs[|configs| - 1])
        && (err.Some? ==> o.state == ReaderState(old(Views()), at, pending) && configs == old(configs))
      ensures saveFileName == old(saveFileName) && notifications == old(notifications)
    {
      if SectionIndex(Views(), name).Some? {
        OpenSectionTaken(ReaderState(Views(), at, pending), name, comment);
        return null, Some(DuplicateKey);
      }
      c := AppendWithInfos(name, comment, pending);
      OpenSectionFresh(ReaderState(old(Views()), at, pending), name, comment);
      err := None;
    }

    /**
     * What both readers do with a key inside a section: `config.AddKeyInternal(key, value, comment,
     * infos.ToArray()); infos.Clear();`. A key that already has infos throws after its value was set.
     */
    method StoreKeyIn(c: Config, key: string, value: string, comment: string, pending: seq<string>, ghost at: nat)
      returns (err: Option<Error>)
      requires Distinct() && at < |configs| && c == configs[at]
      modifies c
      ensures var o := StoreKey(ReaderState(old(Views()), Some(at), pending), key, value, comment);
        && Views() == o.state.views && err == o.error && o.state.cur == Some(at)
        && o.state.infos == (if err.None? then [] else pending)
    {
      ghost var before := Views();
      err := c.AddKeyInternal(key, value, comment, Some(pending));
      assert forall j :: 0 <= j < |configs| && j != at ==> configs[j] != c;
      assert Views() == before[at := c.View()];
    }

    /** A `[` line of `IniParser.Merge`: the header is matched and the section it names is added. */
    method IniHeader(line: string, config: Config?, ghost at: Option<nat>, infos: seq<string>)
      returns (config': Config?, ghost at': Option<nat>, infos': seq<string>, err: Option<Error>)
      requires Distinct() && (at.Some? ==> at.value < |configs| && config == configs[at.value])
      requires at.None? ==> config == null
      modifies this
      ensures Distinct() && (config' == config || fresh(config'))
      ensures at'.Some? ==> at'.value < |configs| && config' == configs[at'.value]
      ensures at'.None? ==> config' == null
      ensures HeaderStep(ReaderState(old(Views()), at, infos), line) == Outcome(ReaderState(Views(), at', infos'), err)
      ensures saveFileName == old(saveFileName) && notifications == old(notifications)
    {
      var header := GetSection(line);
      if header.Failure? {
        return config, at, infos, Some(header.error);
      }
      var c, e := OpenSectionIn(header.value.0, header.value.1, infos, at);
      if e.Some? {
        return config, at, infos, e;
      }
      config', at', infos', err := c, Some(|configs| - 1), [], None;
    }

    /** Any other line of `IniParser.Merge` inside a section: a key line stores its key. */
    method IniKey(line: string, config: Config, ghost at: nat, infos: seq<string>)
      returns (infos': seq<string>, err: Option<Error>)
      requires Distinct() && at < |configs| && config == configs[at]
      modifies config
      ensures KeyStep(ReaderState(old(Views()), Some(at), infos), line) == Outcome(ReaderState(Views(), Some(at), infos'), err)
    {
      var kvc := GetKeyValueComment(line);
      if kvc.None? {
        return infos, None;
      }
      err := StoreKeyIn(config, kvc.value.key, kvc.value.value, kvc.value.comment, infos, at);
      infos' := if err.None? then [] else infos;
    }

    /** One pass of the loop of `IniParser.Merge`, on the raw line read. */
    method IniLine(raw: string, config: Config?, ghost at: Option<nat>, infos: seq<string>)
      returns (config': Config?, ghost at': Option<nat>, infos': seq<string>, err: Option<Error>)
      requires Distinct() && (at.Some? ==> at.value < |configs| && config == configs[at.value])
      requires at.None? ==> config == null
      modifies this, config
      ensures Distinct() && (config' == config || fresh(config'))
      ensures at'.Some? ==> at'.value < |configs| && config' == configs[at'.value]
      ensures at'.None? ==> config' == null
      ensures IniStep(ReaderState(old(Views()), at, infos), raw) == Outcome(ReaderState(Views(), at', infos'), err)
      ensures saveFileName == old(saveFileName) && notifications == old(notifications)
    {
      config', at', infos', err := config, at, infos, None;
      var line := Trim(raw);
      if line == [] {
      } else if line[0] == Delimiter {
        infos' := infos + [line];
      } else if line[0] == '[' {
        config', at', infos', err := IniHeader(line, config, at, infos);
      } else if config != null {
        infos', err := IniKey(line, config, at.value, infos);
      }
    }

    /**
     * The line `lines[n]` read after the first `n` lines: the run so far grows by one step, or the
     * run stops here with the step's exception.
     */
    method IniNext(ghost start: ReaderState, lines: seq<string>, n: nat, config: Config?, ghost at: Option<nat>, infos: seq<string>)
      returns (config': Config?, ghost at': Option<nat>, infos': seq<string>, err: Option<Error>)
      requires ReaderValid(start) && n < |lines| && Distinct()
      requires at.Some? ==> at.value < |configs| && config == configs[at.value]
      requires at.None? ==> config == null
      requires IniRun(start, lines[..n]) == Outcome(ReaderState(Views(), at, infos), None)
      modifies this, config
      ensures Distinct() && (config' == config || fresh(config'))
      ensures at'.Some? ==> at'.value < |configs| && config' == configs[at'.value]
      ensures at'.None? ==> config' == null
      ensures err.None? ==> IniRun(start, lines[..n + 1]) == Outcome(ReaderState(Views(), at', infos'), None)
      ensures err.Some? ==> IniRun(start, lines) == Outcome(ReaderState(Views(), at', infos'), err)
      ensures saveFileName == old(saveFileName) && notifications == old(notifications)
    {
      ghost var pre := ReaderState(Views(), at, infos);
      assert IniRun(start, lines[..n + 1]) == IniStep(pre, lines[n]) by {
        IniRunNext(start, lines, n);
      }
      config', at', infos', err := IniLine(lines[n], config, at, infos);
      if err.Some? {
        IniRunStops(start, lines, n + 1);
      }
    }

    /**
     * `IniParser.Merge(stream, source)`: the lines in order; blank lines are skipped, `;` lines are
     * kept as pending infos, a header adds a section, a key line stores a key in the section read
     * last. The first exception stops the loop and keeps what was stored before it.
     */
    method MergeIni(lines: seq<string>) returns (err: Option<Error>)
      requires Valid()
      modifies this, configs
      ensures Valid()
      ensures Outcome(Views(), err) == IniMerge(old(Views()), lines)
      ensures saveFileName == old(saveFileName) && notifications == old(notifications)
    {
      ghost var start := ReaderStart(Views());
      IniRunUnique(start, lines);
      var config: Config? := null;
      ghost var at: Option<nat> := None;
      var infos: seq<string> := [];
      var n := 0;
      while n < |lines|
        invariant n <= |lines| && Distinct()
        invariant config == null || config in old(configs) || fresh(config)
        invariant at.Some? ==> at.value < |configs| && config == configs[at.value]
        invariant at.None? ==> config == null
        invariant IniRun(start, lines[..n]) == Outcome(ReaderState(Views(), at, infos), None)
        invariant saveFileName == old(saveFileName) && notifications == old(notifications)
      {
        var e;
        config, at, infos, e := IniNext(start, lines, n, config, at, infos);
        if e.Some? {
          return e;
        }
        n := n + 1;
      }
      assert IniRun(start, lines) == Outcome(ReaderState(Views(), at, infos), None) by {
        assert lines[..n] == lines;
      }
      err := None;
    }

    /** A `section` element of `XmlParser.Merge`: with attributes, the section it names is added. */
    method XmlSection(attrs: seq<Attr>, config: Config?, ghost at: Option<nat>, infos: seq<string>)
      returns (config': Config?, ghost at': Option<nat>, infos': seq<string>, err: Option<Error>)
      requires Distinct() && (at.Some? ==> at.value < |configs| && config == configs[at.value])
      requires at.None? ==> config == null
      modifies this
      ensures Distinct() && (config' == config || fresh(config'))
      ensures at'.Some? ==> at'.value < |configs| && config' == configs[at'.value]
      ensures at'.None? ==> config' == null
      ensures SectionStep(ReaderState(old(Views()), at, infos), attrs) == Outcome(ReaderState(Views(), at', infos'), err)
      ensures saveFileName == old(saveFileName) && notifications == old(notifications)
    {
      if attrs == [] {
        return config, at, infos, None;
      }
      var fields := SectionFields(attrs);
      if fields.Failure? {
        return config, at, infos, Some(fields.error);
      }
      var c, e := OpenSectionIn(fields.value.0, fields.value.1, infos, at);
      if e.Some? {
        return config, at, infos, e;
      }
      config', at', infos', err := c, Some(|configs| - 1), [], None;
    }

    /** An `item` element of `XmlParser.Merge` inside a section: with attributes, its key is stored. */
    method XmlItem(attrs: seq<Attr>, config: Config, ghost at: nat, infos: seq<string>)
      returns (infos': seq<string>, err: Option<Error>)
      requires Distinct() && at < |configs| && config == configs[at]
      modifies config
      ensures ItemStep(ReaderState(old(Views()), Some(at), infos), attrs) == Outcome(ReaderState(Views(), Some(at), infos'), err)
    {
      if attrs == [] {
        return infos, None;
      }
      var fields := ItemFields(attrs);
      if fields.Failure? {
        return infos, Some(fields.error);
      }
      err := StoreKeyIn(config, fields.value.0, fields.value.1, fields.value.2, infos, at);
      infos' := if err.None? then [] else infos;
    }

    /** One pass of the `while (reader.Read())` loop of `XmlParser.Merge`, on the node read. */
    method XmlLine(node: XmlNode, config: Config?, ghost at: Option<nat>, infos: seq<string>)
      returns (config': Config?, ghost at': Option<nat>, infos': seq<string>, err: Option<Error>)
      requires Distinct() && (at.Some? ==> at.value < |configs| && config == configs[at.value])
      requires at.None? ==> config == null
      modifies this, config
      ensures Distinct() && (config' == config || fresh(config'))
      ensures at'.Some? ==> at'.value < |configs| && config' == configs[at'.value]
      ensures at'.None? ==> config' == null
      ensures XmlStep(ReaderState(old(Views()), at, infos), node) == Outcome(ReaderState(Views(), at', infos'), err)
      ensures saveFileName == old(saveFileName) && notifications == old(notifications)
    {
      config', at', infos', err := config, at, infos, None;
      match node
      case Element(tag, attrs) =>
        var name := ToLower(tag);
        if name == "config" {
          infos' := [];
        } else if name == "section" {
          config', at', infos', err := XmlSection(attrs, config, at, infos);
        } else if name == "item" && config != null {
          infos', err := XmlItem(attrs, config, at.value, infos);
        }
      case Comment(text) =>
        infos' := infos + [text];
      case _ =>
    }

    /** The node `nodes[n]` read after the first `n` nodes, as `IniNext` is for lines. */
    method XmlNext(ghost start: ReaderState, nodes: seq<XmlNode>, n: nat, config: Config?, ghost at: Option<nat>, infos: seq<string>)
      returns (config': Config?, ghost at': Option<nat>, infos': seq<string>, err: Option<Error>)
      requires ReaderValid(start) && n < |nodes| && Distinct()
      requires at.Some? ==> at.value < |configs| && config == configs[at.value]
      requires at.None? ==> config == null
      requires XmlRun(start, nodes[..n]) == Outcome(ReaderState(Views(), at, infos), None)
      modifies this, config
      ensures Distinct() && (config' == config || fresh(config'))
      ensures at'.Some? ==> at'.value < |configs| && config' == configs[at'.value]
      ensures at'.None? ==> config' == null
      ensures err.None? ==> XmlRun(start, nodes[..n + 1]) == Outcome(ReaderState(Views(), at', infos'), None)
      ensures err.Some? ==> XmlRun(start, nodes) == Outcome(ReaderState(Views(), at', infos'), err)
      ensures saveFileName == old(saveFileName) && notifications == old(notifications)
    {
      ghost var pre := ReaderState(Views(), at, infos);
      assert XmlRun(start, nodes[..n + 1]) == XmlStep(pre, nodes[n]) by {
        XmlRunNext(start, nodes, n);
      }
      config', at', infos', err := XmlLine(nodes[n], config, at, infos);
      if err.Some? {
        XmlRunStops(start, nodes, n + 1);
      }
    }

    /**
     * `XmlParser.Merge(stream, source)`: the nodes in order; a `config` element clears the pending
     * infos, comments are kept as pending infos, a `section` element adds a section, an `item`
     * element stores a key in the section read last. The first exception stops the loop.
     */
    method MergeXml(nodes: seq<XmlNode>) returns (err: Option<Error>)
      requires Valid()
      modifies this, configs
      ensures Valid()
      ensures Outcome(Views(), err) == XmlMerge(old(Views()), nodes)
      ensures saveFileName == old(saveFileName) && notifications == old(notifications)
    {
      ghost var start := ReaderStart(Views());
      XmlRunUnique(start, nodes);
      var config: Config? := null;
      ghost var at: Option<nat> := None;
      var infos: seq<string> := [];
      var n := 0;
      while n < |nodes|
        invariant n <= |nodes| && Distinct()
        invariant config == null || config in old(configs) || fresh(config)
        invariant at.Some? ==> at.value < |configs| && config == configs[at.value]
        invariant at.None? ==> config == null
        invariant XmlRun(start, nodes[..n]) == Outcome(ReaderState(Views(), at, infos), None)
        invariant saveFileName == old(saveFileName) && notifications == old(notifications)
      {
        var e;
        config, at, infos, e := XmlNext(start, nodes, n, config, at, infos);
        if e.Some? {
          return e;
        }
        n := n + 1;
      }
      assert XmlRun(start, nodes) == Outcome(ReaderState(Views(), at, infos), None) by {
        assert nodes[..n] == nodes;
      }
      err := None;
    }

    /** `ArgvParser.Merge` past its checks: the section is added and filled from `argv[start..]`. */
    method AppendArguments(section: string, comment: string, argv: seq<string>, start: nat) returns (err: Option<Error>)
      requires Distinct() && !HasName(Views(), section)
      modifies this
      ensures Distinct()
      ensures var o := ArgvFold([], ArgumentCells(argv, LoopStart(argv, start), |argv|));
        Views() == old(Views()) + [NewSection(section, comment).(entries := o.state)] && err == o.error
      ensures saveFileName == old(saveFileName) && notifications == old(notifications)
    {
      ghost var base := configs;
      var c := Append(section, comment);
      err := c.FillArguments(argv, start);
      assert ViewsOf(base) == old(Views());
      ViewsOfSnoc(base, c);
    }

    /**
     * `ArgvParser.Merge(source, argv, startIndex, section, comment)`: the section is added, then each
     * argument from `startIndex` on goes straight into its cells (no notifications). A taken section
     * name or a negative `startIndex` throws; a repeated key throws and keeps the cells stored before.
     */
    method MergeArgv(argv: seq<string>, start: int, section: string, comment: string) returns (err: Option<Error>)
      requires Valid()
      modifies this
      ensures Valid()
      ensures Outcome(Views(), err) == ArgvMerge(old(Views()), argv, start, section, comment)
      ensures saveFileName == old(saveFileName) && notifications == old(notifications)
    {
      ArgvMergeUnique(Views(), argv, start, section, comment);
      if SectionIndex(Views(), section).Some? {
        return Some(DuplicateKey);
      }
      if start < 0 {
        var c := Append(section, comment);
        return Some(IndexOutOfRange);
      }
      err := AppendArguments(section, comment, argv, start);
    }

    /** The lines of `IniConfigSource.OnSave`: for each section in order, its infos, header and keys. */
    method WriteIni() returns (lines: seq<string>)
      ensures lines == IniLines(Views())
    {
      ghost var vs := Views();
      lines := [];
      for i := 0 to |configs|
        invariant lines == IniLines(vs[..i])
      {
        PrefixOfTake(vs, i);
        lines := lines + SectionLines(configs[i].View());
      }
      assert vs[..|configs|] == vs;
    }

    /** The children of the `config` root of `XmlConfigSource.OnSave`: for each section in order. */
    method WriteXml() returns (children: seq<XTree>)
      ensures children == RootChildren(Views())
    {
      ghost var vs := Views();
      children := [];
      for i := 0 to |configs|
        invariant children == RootChildren(vs[..i])
      {
        PrefixOfTake(vs, i);
        children := children + SectionTrees(configs[i].View());
      }
      assert vs[..|configs|] == vs;
    }

    /**
     * `OnReload` of each source: argv throws InvalidOperation, an empty `SaveFileName` throws
     * FileNotFound, and otherwise every section is dropped and the file is merged into the source.
     */
    method OnReload(file: FileContents) returns (err: Option<Error>)
      requires Valid()
      modifies this, configs
      ensures Valid()
      ensures Outcome(Views(), err) == ReloadOutcome(kind, old(saveFileName), old(Views()), file)
      ensures saveFileName == old(saveFileName) && notifications == old(notifications)
    {
      if kind == ArgvSource {
        return Some(InvalidOperation);
      }
      if saveFileName == [] {
        return Some(FileNotDeclared);
      }
      configs := [];
      if kind == IniSource {
        err := MergeIni(file.lines);
      } else {
        err := MergeXml(file.nodes);
      }
    }

    /** `Reload()`: `OnReload`, then the `Reloaded` notification when it did not throw. */
    method Reload(file: FileContents) returns (err: Option<Error>)
      requires Valid()
      modifies this, configs
      ensures Valid()
      ensures Outcome(Views(), err) == ReloadOutcome(kind, old(saveFileName), old(Views()), file)
      ensures saveFileName == old(saveFileName)
      ensures notifications == old(notifications) + (if err.None? then [Reloaded] else [])
    {
      err := OnReload(file);
      if err.None? {
        ghost var vs := Views();
        notifications := notifications + [Reloaded];
        assert Views() == vs;
      }
    }

    /**
     * `OnSave` of each source: argv throws InvalidOperation, an empty `SaveFileName` throws
     * FileNotFound, and otherwise the INI lines or the XML document of the sections are written.
     */
    method OnSave() returns (r: Result<Written>)
      ensures r == SaveOutcome(kind, saveFileName, Views())
    {
      if kind == ArgvSource {
        return Failure(InvalidOperation);
      }
      if saveFileName == [] {
        return Failure(FileNotDeclared);
      }
      if kind == IniSource {
        var lines := WriteIni();
        r := Success(LinesWritten(lines));
      } else {
        var children := WriteXml();
        r := Success(TreeWritten(XElement("config", [], children)));
      }
    }

    /** `Save()`: `OnSave`, then the `Saved` notification when it did not throw. */
    method Save() returns (r: Result<Written>)
      modifies this
      ensures r == SaveOutcome(kind, saveFileName, Views())
      ensures configs == old(configs) && saveFileName == old(saveFileName)
      ensures notifications == old(notifications) + (if r.Success? then [Saved] else [])
    {
      r := OnSave();
      if r.Success? {
        notifications := notifications + [Saved];
      }
    }
  }

  /** `IniParser.Parse(stream, null, fileName)`: a new INI source named `fileName`, merged from the lines. */
  method ParseIni(lines: seq<string>, fileName: string) returns (source: ConfigSource, err: Option<Error>)
    ensures fresh(source) && source.Valid()
    ensures source.kind == IniSource && source.saveFileName == fileName && source.notifications == []
    ensures Outcome(source.Views(), err) == IniMerge([], lines)
  {
    source := new ConfigSource(IniSource);
    source.SetSaveFileName(fileName);
    err := source.MergeIni(lines);
  }

  /** `XmlParser.Parse(stream, null, fileName)`: a new XML source named `fileName`, merged from the nodes. */
  method ParseXml(nodes: seq<XmlNode>, fileName: string) returns (source: ConfigSource, err: Option<Error>)
    ensures fresh(source) && source.Valid()
    ensures source.kind == XmlSource && source.saveFileName == fileName && source.notifications == []
    ensures Outcome(source.Views(), err) == XmlMerge([], nodes)
  {
    source := new ConfigSource(XmlSource);
    source.SetSaveFileName(fileName);
    err := source.MergeXml(nodes);
  }

  /** `ArgvParser.Parse(argv, startIndex, section, comment)`: a new argv source with one section. */
  method ParseArgv(argv: seq<string>, start: int, section: string, comment: string)
    returns (source: ConfigSource, err: Option<Error>)
    ensures fresh(source) && source.Valid()
    ensures source.kind == ArgvSource && source.saveFileName == [] && source.notifications == []
    ensures Outcome(source.Views(), err) == ArgvParse(argv, start, section, comment)
  {
    source := new ConfigSource(ArgvSource);
    err := source.MergeArgv(argv, start, section, comment);
  }
}
