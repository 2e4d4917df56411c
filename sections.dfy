/**
 * One configuration section (`ConfigBase`, with the info lines `IniConfig` and `XmlConfig` add) as a
 * value, and the pure effect of each of its operations. The `Store.Config` class keeps the same
 * state in fields and its methods are proved to change it exactly as these functions say.
 */
module Sections {
  import opened Base
  import opened Text
  import opened ValueComments
  import opened Entries

  /** A `KeySet` or `KeyRemoved` notification, with the key and the pair it carries. */
  datatype KeyEvent =
    | KeySet(key: string, value: string, comment: string)
    | KeyRemoved(key: string, value: string, comment: string)

  /**
   * The observable state of a section: its name, its comment, its cells in insertion order, the
   * notifications raised so far, the section info lines (`null` until a parser sets them) and the
   * info lines recorded per key.
   */
  datatype SectionView = SectionView(
    name: string,
    comment: string,
    entries: seq<Entry>,
    events: seq<KeyEvent>,
    infos: Option<seq<string>>,
    keyInfos: map<string, seq<string>>)

  /** A freshly created section: no keys, no events, no section infos, no key infos. */
  function NewSection(name: string, comment: string): SectionView {
    SectionView(name, comment, [], [], None, map[])
  }

  /** `Set(key, value, comment)`: the cell is stored and one `KeySet` notification is raised. */
  function SetKey(sv: SectionView, key: string, value: string, comment: string): (r: SectionView)
    ensures Find(r.entries, key) == Some(ValueCommentPair(value, comment))
    ensures forall k :: k != key ==> Find(r.entries, k) == Find(sv.entries, k)
    ensures UniqueKeys(sv.entries) ==> UniqueKeys(r.entries)
    ensures !HasKey(sv.entries, key) ==> KeysOf(r.entries) == KeysOf(sv.entries) + [key]
    ensures HasKey(sv.entries, key) ==> KeysOf(r.entries) == KeysOf(sv.entries)
    ensures r.events == sv.events + [KeySet(key, value, comment)]
    ensures r.name == sv.name && r.comment == sv.comment
    ensures r.infos == sv.infos && r.keyInfos == sv.keyInfos
  {
    var es := Put(sv.entries, key, ValueCommentPair(value, comment));
    sv.(entries := es, events := sv.events + [KeySet(key, value, comment)])
  }

  /**
   * `TrySet`: an existing key makes it return false with nothing changed and no notification;
   * otherwise it behaves as `Set` and returns true.
   */
  function TrySetKey(sv: SectionView, key: string, value: string, comment: string): (r: (bool, SectionView))
    ensures r.0 <==> !HasKey(sv.entries, key)
    ensures !r.0 ==> r.1 == sv
    ensures r.0 ==> r.1 == SetKey(sv, key, value, comment)
  {
    if HasKey(sv.entries, key) then (false, sv) else (true, SetKey(sv, key, value, comment))
  }

  /** `Get<string>` and the indexer getter: the raw stored value, or KeyNotFoundException. */
  function GetValue(sv: SectionView, key: string): (r: Result<string>)
    ensures r.Failure? <==> !HasKey(sv.entries, key)
    ensures r.Failure? ==> r.error == KeyNotFound
    ensures r.Success? ==> Find(sv.entries, key) == Some(ValueCommentPair(r.value, Find(sv.entries, key).value.comment))
  {
    match Find(sv.entries, key)
    case None => Failure(KeyNotFound)
    case Some(p) => Success(p.value)
  }

  /**
   * `Remove`: a missing key throws KeyNotFoundException before anything changes; a present key is
   * deleted, the other cells are kept, and one `KeyRemoved` notification carries the old pair. The
   * key infos are left as they were.
   */
  function RemoveKey(sv: SectionView, key: string): (r: Result<SectionView>)
    ensures r.Failure? <==> !HasKey(sv.entries, key)
    ensures r.Failure? ==> r.error == KeyNotFound
    ensures r.Success? && UniqueKeys(sv.entries) ==>
      && UniqueKeys(r.value.entries)
      && Find(r.value.entries, key) == None
      && (forall k :: k != key ==> Find(r.value.entries, k) == Find(sv.entries, k))
    ensures r.Success? ==>
      var old_ := Find(sv.entries, key).value;
      && r.value.events == sv.events + [KeyRemoved(key, old_.value, old_.comment)]
      && r.value.name == sv.name && r.value.comment == sv.comment
      && r.value.infos == sv.infos && r.value.keyInfos == sv.keyInfos
  {
    match Find(sv.entries, key)
    case None => Failure(KeyNotFound)
    case Some(p) =>
      Success(sv.(entries := Delete(sv.entries, key), events := sv.events + [KeyRemoved(key, p.value, p.comment)]))
  }

  /**
   * `TryRemove` as written: `!ContainsKey(key) && Remove(key)`. A present key short-circuits to
   * false; an absent key reaches `Remove`, which throws.
   */
  function TryRemoveAsWritten(sv: SectionView, key: string): (r: Result<(bool, SectionView)>)
    ensures HasKey(sv.entries, key) ==> r == Success((false, sv))
    ensures !HasKey(sv.entries, key) ==> r == Failure(KeyNotFound)
  {
    if HasKey(sv.entries, key) then Success((false, sv))
    else match RemoveKey(sv, key)
      case Failure(e) => Failure(e)
      case Success(s) => Success((true, s))
  }

  /** `TryRemove` as its documentation describes it: remove when present, report false otherwise. */
  function TryRemoveKey(sv: SectionView, key: string): (r: (bool, SectionView))
    ensures r.0 <==> HasKey(sv.entries, key)
    ensures !r.0 ==> r.1 == sv
    ensures r.0 ==> Success(r.1) == RemoveKey(sv, key)
  {
    match RemoveKey(sv, key)
    case Failure(_) => (false, sv)
    case Success(s) => (true, s)
  }

  /**
   * Where the documented and the as-written `TryRemove` part ways: for every present key the
   * documentation promises removal and true, the code returns false.
   */
  lemma TryRemoveDisagreesWithDoc(sv: SectionView, key: string)
    requires HasKey(sv.entries, key)
    ensures TryRemoveKey(sv, key).0
    ensures TryRemoveAsWritten(sv, key) == Success((false, sv))
    ensures TryRemoveKey(sv, key).1 != sv
  {
    var r := TryRemoveKey(sv, key);
    assert |r.1.events| == |sv.events| + 1;
  }

  /**
   * `AddKeyInternal(key, value, comment, infos)` of the INI and XML sections: `Set` first, then the
   * infos (when given) are added to the key-info dictionary, which throws for a key that already has
   * infos -- after the value has been overwritten.
   */
  function AddKeyInternal(sv: SectionView, key: string, value: string, comment: string, infos: Option<seq<string>>)
    : (r: Outcome<SectionView>)
    ensures r.state.entries == SetKey(sv, key, value, comment).entries
    ensures r.state.events == SetKey(sv, key, value, comment).events
    ensures r.state.name == sv.name && r.state.comment == sv.comment && r.state.infos == sv.infos
    ensures infos.None? ==> r.error == None && r.state.keyInfos == sv.keyInfos
    ensures infos.Some? && key in sv.keyInfos ==> r.error == Some(DuplicateKey) && r.state.keyInfos == sv.keyInfos
    ensures infos.Some? && key !in sv.keyInfos ==> r.error == None && r.state.keyInfos == sv.keyInfos[key := infos.value]
  {
    var set_ := SetKey(sv, key, value, comment);
    match infos
    case None => Outcome(set_, None)
    case Some(lines) =>
      if key in sv.keyInfos then Outcome(set_, Some(DuplicateKey))
      else Outcome(set_.(keyInfos := sv.keyInfos[key := lines]), None)
  }

  /** `ConfigBase.ToString()`: `[name]`, followed by ` ;comment` when the comment is not empty. */
  function SectionHeader(name: string, comment: string): (r: string)
    ensures StartsWith(r, ['['] + name + [']'])
    ensures comment == [] ==> r == ['['] + name + [']']
    ensures comment != [] ==> r == ['['] + name + [']'] + [' ', Delimiter] + comment
  {
    ['['] + name + [']'] + CommentSuffix(comment)
  }
}
