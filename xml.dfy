/**
 * The XML front end (`XmlParser` and `XmlConfigSource`). The writer builds a document tree: a
 * `config` root holding, per section, its info lines as comments followed by a `section` element
 * whose children are one empty `item` element per cell. The reader walks the nodes an `XmlReader`
 * reports, in document order, as a fold of `XmlStep`; `XmlReadsWhatItWrites` proves that reading
 * back a saved document rebuilds every section, cell and section info, while the key infos are lost.
 */
/** The element names the XML reader dispatches on. */
module XmlNames {
  import opened Text

  // They are lower case already, so the reader's `ToLower` leaves them as they are.

  lemma LowerConfig()
    ensures ToLower("config") == "config"
  {
    ToLowerOfLower("config");
  }

  lemma LowerSection()
    ensures ToLower("section") == "section"
  {
    ToLowerOfLower("section");
  }

  lemma LowerItem()
    ensures ToLower("item") == "item"
  {
    ToLowerOfLower("item");
  }
}

module Xml {
  import opened Base
  import opened Text
  import opened ValueComments
  import opened Entries
  import opened Sections
  import opened Sources
  import opened Readers
  import opened XmlNames

  datatype Attr = Attr(name: string, value: string)

  /**
   * A node as `XmlReader.Read` reports it: a start tag (an empty element `<x/>` is reported by its
   * start tag alone), an end tag, a comment, or anything else (declaration, whitespace, text).
   */
  datatype XmlNode =
    | Element(name: string, attrs: seq<Attr>)
    | EndElement(name: string)
    | Comment(text: string)
    | OtherNode

  /** A document tree as `XmlDocument` holds it. */
  datatype XTree =
    | XElement(name: string, attrs: seq<Attr>, children: seq<XTree>)
    | XComment(text: string)

  /** The nodes a reader reports for a written tree: an element without children is written empty. */
  function Flatten(t: XTree): seq<XmlNode>
    decreases t, 1
  {
    match t
    case XComment(text) => [Comment(text)]
    case XElement(name, attrs, children) =>
      if children == [] then [Element(name, attrs)]
      else [Element(name, attrs)] + FlattenAll(children) + [EndElement(name)]
  }

  function FlattenAll(ts: seq<XTree>): seq<XmlNode>
    decreases ts, 0
  {
    if ts == [] then [] else Flatten(ts[0]) + FlattenAll(ts[1..])
  }

  /** Sibling trees are reported one after another. */
  lemma {:induction false} FlattenAllAppend(a: seq<XTree>, b: seq<XTree>)
    ensures FlattenAll(a + b) == FlattenAll(a) + FlattenAll(b)
    decreases |a|
  {
    if a == [] {
      assert a + b == b;
    } else {
      assert (a + b)[0] == a[0] && (a + b)[1..] == a[1..] + b;
      FlattenAllAppend(a[1..], b);
    }
  }

  lemma FlattenAllOne(t: XTree)
    ensures FlattenAll([t]) == Flatten(t)
  {
    assert [t][1..] == [];
  }

  // ---------------------------------------------------------------------------------------------
  // Attributes

  /** `reader.MoveToAttribute(name)` followed by `reader.Value`: the value of the named attribute. */
  function Attribute(attrs: seq<Attr>, name: string): (r: Option<string>)
    ensures r.None? <==> forall i :: 0 <= i < |attrs| ==> attrs[i].name != name
    ensures r.Some? ==> exists i :: 0 <= i < |attrs| && attrs[i] == Attr(name, r.value)
  {
    if attrs == [] then None
    else if attrs[0].name == name then Some(attrs[0].value)
    else
      var r := Attribute(attrs[1..], name);
      assert r.Some? ==> exists i :: 0 <= i < |attrs[1..]| && attrs[1..][i] == Attr(name, r.value);
      assert forall i :: 1 <= i < |attrs| ==> attrs[i] == attrs[1..][i - 1];
      r
  }

  /** An optional attribute: its value, or "" when it is absent. */
  function AttributeOrEmpty(attrs: seq<Attr>, name: string): string {
    match Attribute(attrs, name)
    case None => ""
    case Some(v) => v
  }

  /** The attributes of a `section` element: `name` is required, `comment` is optional. */
  function SectionFields(attrs: seq<Attr>): (r: Result<(string, string)>)
    ensures r.Failure? <==> Attribute(attrs, "name").None?
    ensures r.Failure? ==> r.error == MissingAttribute("name")
  {
    match Attribute(attrs, "name")
    case None => Failure(MissingAttribute("name"))
    case Some(name) => Success((name, AttributeOrEmpty(attrs, "comment")))
  }

  /** The attributes of an `item` element: `key` and then `value` are required, `comment` is optional. */
  function ItemFields(attrs: seq<Attr>): (r: Result<(string, string, string)>)
    ensures r.Failure? <==> Attribute(attrs, "key").None? || Attribute(attrs, "value").None?
    ensures Attribute(attrs, "key").None? ==> r == Failure(MissingAttribute("key"))
    ensures Attribute(attrs, "key").Some? && Attribute(attrs, "value").None? ==> r == Failure(MissingAttribute("value"))
  {
    match Attribute(attrs, "key")
    case None => Failure(MissingAttribute("key"))
    case Some(key) =>
      match Attribute(attrs, "value")
      case None => Failure(MissingAttribute("value"))
      case Some(value) => Success((key, value, AttributeOrEmpty(attrs, "comment")))
  }

  // ---------------------------------------------------------------------------------------------
  // The reader: XmlParser.Merge as a fold over the nodes

  /**
   * One pass of the `while (reader.Read())` loop: a `config` element clears the pending infos, a
   * `section` element with attributes opens a section, an `item` element with attributes inside a
   * section stores a key, a comment becomes a pending info, and every other node is ignored.
   * Element names are compared lower-cased.
   */
  function XmlStep(st: ReaderState, node: XmlNode): (r: Outcome<ReaderState>)
    requires ReaderValid(st)
    ensures ReaderValid(r.state)
  {
    match node
    case Element(name, attrs) => ElementStep(st, ToLower(name), attrs)
    case Comment(text) => Outcome(st.(infos := st.infos + [text]), None)
    case _ => Outcome(st, None)
  }

  function ElementStep(st: ReaderState, name: string, attrs: seq<Attr>): (r: Outcome<ReaderState>)
    requires ReaderValid(st)
    ensures ReaderValid(r.state)
  {
    if name == "config" then Outcome(st.(infos := []), None)
    else if name == "section" then SectionStep(st, attrs)
    else if name == "item" then ItemStep(st, attrs)
    else Outcome(st, None)
  }

  /** A `section` element without attributes is skipped: the current section stays current. */
  function SectionStep(st: ReaderState, attrs: seq<Attr>): (r: Outcome<ReaderState>)
    requires ReaderValid(st)
    ensures ReaderValid(r.state)
  {
    if attrs == [] then Outcome(st, None)
    else match SectionFields(attrs)
      case Failure(e) => Outcome(st, Some(e))
      case Success((name, comment)) => OpenSection(st, name, comment)
  }

  /** An `item` element outside any section, or without attributes, is skipped. */
  function ItemStep(st: ReaderState, attrs: seq<Attr>): (r: Outcome<ReaderState>)
    requires ReaderValid(st)
    ensures ReaderValid(r.state)
  {
    if st.cur.None? || attrs == [] then Outcome(st, None)
    else match ItemFields(attrs)
      case Failure(e) => Outcome(st, Some(e))
      case Success((key, value, comment)) => StoreKey(st, key, value, comment)
  }

  /** The whole loop: the nodes in order, stopping at the first exception. */
  function XmlRun(st: ReaderState, nodes: seq<XmlNode>): (r: Outcome<ReaderState>)
    requires ReaderValid(st)
    ensures ReaderValid(r.state)
    decreases |nodes|
  {
    if nodes == [] then Outcome(st, None)
    else
      var o := XmlStep(st, nodes[0]);
      if o.error.Some? then o else XmlRun(o.state, nodes[1..])
  }

  /** `XmlParser.Merge(stream, source)`: the sections after reading every node, and the exception. */
  function XmlMerge(views: seq<SectionView>, nodes: seq<XmlNode>): (r: Outcome<seq<SectionView>>)
    // a source with distinct section names keeps them distinct, whether or not the read throws
    ensures UniqueNames(views) ==> UniqueNames(r.state)
  {
    var o := XmlRun(ReaderStart(views), nodes);
    assert UniqueNames(views) ==> UniqueNames(o.state.views) by {
      if UniqueNames(views) {
        XmlRunUnique(ReaderStart(views), nodes);
      }
    }
    Outcome(o.state.views, o.error)
  }

  /** Reading `a + b` is reading `a`, then, unless it threw, reading `b` from where `a` left off. */
  lemma {:induction false} XmlRunAppend(st: ReaderState, a: seq<XmlNode>, b: seq<XmlNode>)
    requires ReaderValid(st)
    ensures XmlRun(st, a + b) == (var o := XmlRun(st, a); if o.error.Some? then o else XmlRun(o.state, b))
    decreases |a|
  {
    if a == [] {
      assert a + b == b;
    } else {
      assert (a + b)[0] == a[0];
      assert (a + b)[1..] == a[1..] + b;
      var o := XmlStep(st, a[0]);
      if o.error.None? {
        XmlRunAppend(o.state, a[1..], b);
      }
    }
  }

  /** Two pieces read without an exception read together without one. */
  lemma XmlRunThen(st1: ReaderState, a: seq<XmlNode>, b: seq<XmlNode>, st2: ReaderState, st3: ReaderState)
    requires ReaderValid(st1) && ReaderValid(st2)
    requires XmlRun(st1, a) == Outcome(st2, None) && XmlRun(st2, b) == Outcome(st3, None)
    ensures XmlRun(st1, a + b) == Outcome(st3, None)
  {
    XmlRunAppend(st1, a, b);
  }

  /** Reading a single node is one step. */
  lemma XmlRunOne(st: ReaderState, node: XmlNode)
    requires ReaderValid(st)
    ensures XmlRun(st, [node]) == XmlStep(st, node)
  {
    assert [node][1..] == [];
  }

  /** A reading step never registers a section name twice. */
  lemma XmlStepUnique(st: ReaderState, node: XmlNode)
    requires ReaderValid(st) && UniqueNames(st.views)
    ensures UniqueNames(XmlStep(st, node).state.views)
  {
    if node.Element? {
      var name := ToLower(node.name);
      var attrs := node.attrs;
      if name != "config" && name == "section" && attrs != [] {
        match SectionFields(attrs)
        case Failure(_) =>
        case Success((n, c)) => OpenSectionUnique(st, n, c);
      } else if name != "config" && name == "item" && st.cur.Some? && attrs != [] {
        match ItemFields(attrs)
        case Failure(_) =>
        case Success((k, v, c)) => StoreKeyUnique(st, k, v, c);
      }
    }
  }

  /** Reading a whole document never registers a section name twice. */
  lemma {:induction false} XmlRunUnique(st: ReaderState, nodes: seq<XmlNode>)
    requires ReaderValid(st) && UniqueNames(st.views)
    ensures UniqueNames(XmlRun(st, nodes).state.views)
    decreases |nodes|
  {
    if nodes != [] {
      XmlStepUnique(st, nodes[0]);
      var o := XmlStep(st, nodes[0]);
      if o.error.None? {
        XmlRunUnique(o.state, nodes[1..]);
      }
    }
  }

  /** A `config` start tag is handled under that name. */
  lemma StepOnConfig(st: ReaderState, attrs: seq<Attr>)
    requires ReaderValid(st)
    ensures XmlStep(st, Element("config", attrs)) == ElementStep(st, "config", attrs)
  {
    LowerConfig();
  }

  /** A `section` start tag is handled under that name. */
  lemma StepOnSection(st: ReaderState, attrs: seq<Attr>)
    requires ReaderValid(st)
    ensures XmlStep(st, Element("section", attrs)) == ElementStep(st, "section", attrs)
  {
    LowerSection();
  }

  /** An `item` start tag is handled under that name. */
  lemma StepOnItem(st: ReaderState, attrs: seq<Attr>)
    requires ReaderValid(st)
    ensures XmlStep(st, Element("item", attrs)) == ElementStep(st, "item", attrs)
  {
    LowerItem();
  }

  /** A `section` element that has attributes but no `name` stops the reader and changes nothing. */
  lemma SectionWithoutName(st: ReaderState, attrs: seq<Attr>)
    requires ReaderValid(st) && attrs != [] && forall i :: 0 <= i < |attrs| ==> attrs[i].name != "name"
    ensures XmlStep(st, Element("section", attrs)) == Outcome(st, Some(MissingAttribute("name")))
  {
    StepOnSection(st, attrs);
  }

  /** An `item` element in a section, with a `key` but no `value`, stops the reader and changes nothing. */
  lemma ItemWithoutValue(st: ReaderState, attrs: seq<Attr>)
    requires ReaderValid(st) && st.cur.Some? && Attribute(attrs, "key").Some?
    requires forall i :: 0 <= i < |attrs| ==> attrs[i].name != "value"
    ensures XmlStep(st, Element("item", attrs)) == Outcome(st, Some(MissingAttribute("value")))
  {
    StepOnItem(st, attrs);
    assert ItemStep(st, attrs) == Outcome(st, Some(MissingAttribute("value"))) by {
      assert ItemFields(attrs) == Failure(MissingAttribute("value"));
    }
    assert ElementStep(st, "item", attrs) == ItemStep(st, attrs);
  }

  /** Items before the first section are ignored. */
  lemma ItemOutsideSection(st: ReaderState, attrs: seq<Attr>)
    requires ReaderValid(st) && st.cur.None?
    ensures XmlStep(st, Element("item", attrs)) == Outcome(st, None)
  {
    StepOnItem(st, attrs);
  }

  /** A `section` element without attributes is skipped: the section read last stays current. */
  lemma BareSectionSkipped(st: ReaderState)
    requires ReaderValid(st)
    ensures XmlStep(st, Element("section", [])) == Outcome(st, None)
  {
    StepOnSection(st, []);
  }

  // ---------------------------------------------------------------------------------------------
  // The writer: XmlConfigSource.OnSave

  /** The comment attribute, written only when the comment is not empty. */
  function CommentAttr(comment: string): seq<Attr> {
    if comment == [] then [] else [Attr("comment", comment)]
  }

  /** The attributes `CreateSectionNode` writes: `name` and, if any, `comment`. */
  function SectionAttrs(name: string, comment: string): (r: seq<Attr>)
    ensures r != [] && SectionFields(r) == Success((name, comment))
  {
    var r := [Attr("name", name)] + CommentAttr(comment);
    assert Attribute(r, "comment") == Attribute(CommentAttr(comment), "comment") by {
      assert r[1..] == CommentAttr(comment);
    }
    r
  }

  /** The attributes `CreateKvcNode` writes: `key`, `value` and, if any, `comment`. */
  function ItemAttrs(key: string, value: string, comment: string): (r: seq<Attr>)
    ensures r != [] && ItemFields(r) == Success((key, value, comment))
  {
    var r := [Attr("key", key), Attr("value", value)] + CommentAttr(comment);
    assert Attribute(r, "value") == Some(value) by {
      assert r[1..] == [Attr("value", value)] + CommentAttr(comment);
    }
    assert Attribute(r, "comment") == Attribute(CommentAttr(comment), "comment") by {
      assert r[1..][1..] == CommentAttr(comment);
      assert r[1..] == [Attr("value", value)] + CommentAttr(comment);
    }
    r
  }

  /** `CreateSectionNode`, with the items appended as its children. */
  function SectionNode(name: string, comment: string, items: seq<XTree>): XTree {
    XElement("section", SectionAttrs(name, comment), items)
  }

  /** `CreateKvcNode`: an empty `item` element. */
  function KvcNode(e: Entry): XTree {
    XElement("item", ItemAttrs(e.key, e.pair.value, e.pair.comment), [])
  }

  /** One `item` per cell, in order. */
  function ItemNodes(es: seq<Entry>): seq<XTree> {
    if es == [] then [] else ItemNodes(es[..|es| - 1]) + [KvcNode(es[|es| - 1])]
  }

  /** The section infos as comments, when they are set. */
  function InfoComments(infos: Option<seq<string>>): (r: seq<XTree>)
    ensures infos.None? ==> r == []
    ensures infos.Some? ==> |r| == |infos.value| && forall i :: 0 <= i < |r| ==> r[i] == XComment(infos.value[i])
  {
    if infos.None? then [] else seq(|infos.value|, i requires 0 <= i < |infos.value| => XComment(infos.value[i]))
  }

  /** What one section adds under the root: its info comments, then its element with its items. */
  function SectionTrees(sv: SectionView): seq<XTree> {
    InfoComments(sv.infos) + [SectionNode(sv.name, sv.comment, ItemNodes(sv.entries))]
  }

  function RootChildren(vs: seq<SectionView>): seq<XTree> {
    if vs == [] then [] else RootChildren(vs[..|vs| - 1]) + SectionTrees(vs[|vs| - 1])
  }

  /** The document `OnSave` writes: a `config` root holding every section in order. */
  function SaveDocument(vs: seq<SectionView>): XTree {
    XElement("config", [], RootChildren(vs))
  }

  /** What a reader reports for the saved file: the XML declaration, then the tree. */
  function SavedNodes(vs: seq<SectionView>): seq<XmlNode> {
    [OtherNode] + Flatten(SaveDocument(vs))
  }

  // ---------------------------------------------------------------------------------------------
  // Save, then reload

  /**
   * What reloading a saved section yields: the same name, comment and cells in order, one `KeySet`
   * per cell, section infos present (empty if there were none), and empty infos for every key, as
   * the writer does not save key infos.
   */
  function XmlReadBack(sv: SectionView): SectionView {
    ReadSoFar(sv, sv.entries, map[])
  }

  function XmlReadBackAll(vs: seq<SectionView>): (r: seq<SectionView>)
    ensures |r| == |vs| && forall i :: 0 <= i < |vs| ==> r[i] == XmlReadBack(vs[i])
  {
    seq(|vs|, i requires 0 <= i < |vs| => XmlReadBack(vs[i]))
  }

  lemma XmlReadBackAllSnoc(vs: seq<SectionView>)
    requires vs != []
    ensures XmlReadBackAll(vs) == XmlReadBackAll(vs[..|vs| - 1]) + [XmlReadBack(vs[|vs| - 1])]
  {
  }

  /**
   * A character `XmlWriter` writes and `XmlReader` reports back as it was: no control character
   * (a tab, line feed or carriage return is re-encoded on the way) and none of U+FFFE, U+FFFF.
   */
  predicate XmlSafeChar(c: char) {
    ' ' <= c && c != '\U{FFFE}' && c != '\U{FFFF}'
  }

  predicate XmlSafe(s: string) {
    forall i :: 0 <= i < |s| ==> XmlSafeChar(s[i])
  }

  /** Text `XmlWriter.WriteComment` accepts: no `--` inside and no `-` at the end. */
  predicate XmlCommentText(s: string) {
    && XmlSafe(s)
    && (forall i :: 0 <= i < |s| - 1 ==> !(s[i] == '-' && s[i + 1] == '-'))
    && (s != [] ==> s[|s| - 1] != '-')
  }

  /** Every attribute text and info comment of a section can go through the writer unchanged. */
  predicate XmlSectionText(sv: SectionView) {
    && XmlSafe(sv.name) && XmlSafe(sv.comment)
    && (forall i :: 0 <= i < |sv.entries| ==>
          XmlSafe(sv.entries[i].key) && XmlSafe(sv.entries[i].pair.value) && XmlSafe(sv.entries[i].pair.comment))
    && (sv.infos.Some? ==> forall i :: 0 <= i < |sv.infos.value| ==> XmlCommentText(sv.infos.value[i]))
  }

  /**
   * A source the XML writer can save and the reader take back: unique section names, unique keys,
   * and text the writer neither rejects nor re-encodes.
   */
  predicate XmlWritable(vs: seq<SectionView>) {
    UniqueNames(vs) && forall i :: 0 <= i < |vs| ==> UniqueKeys(vs[i].entries) && XmlSectionText(vs[i])
  }

  /** Comments are collected, in order, and change nothing else. */
  lemma {:induction false} CommentsCollected(st: ReaderState, texts: seq<string>)
    requires ReaderValid(st)
    ensures XmlRun(st, FlattenAll(InfoComments(Some(texts)))) == Outcome(st.(infos := st.infos + texts), None)
    decreases |texts|
  {
    var cs := InfoComments(Some(texts));
    if texts == [] {
      assert st.infos + texts == st.infos;
    } else {
      assert cs[1..] == InfoComments(Some(texts[1..]));
      assert FlattenAll(cs) == [Comment(texts[0])] + FlattenAll(cs[1..]);
      var st' := st.(infos := st.infos + [texts[0]]);
      CommentsCollected(st', texts[1..]);
      assert st.infos + [texts[0]] + texts[1..] == st.infos + texts;
      XmlRunAppend(st, [Comment(texts[0])], FlattenAll(cs[1..]));
    }
  }

  /** The start tag of a written section opens it, under a fresh name, with the pending infos. */
  lemma SectionElementOpens(st: ReaderState, sv: SectionView)
    requires ReaderValid(st) && !HasName(st.views, sv.name)
    requires st.infos == (if sv.infos.Some? then sv.infos.value else [])
    ensures XmlRun(st, [Element("section", SectionAttrs(sv.name, sv.comment))])
         == Outcome(ReaderState(st.views + [ReadSoFar(sv, [], map[])], Some(|st.views|), []), None)
  {
    var attrs := SectionAttrs(sv.name, sv.comment);
    XmlRunOne(st, Element("section", attrs));
    StepOnSection(st, attrs);
    OpenSectionFresh(st, sv.name, sv.comment);
    ReadSoFarOpened(sv, map[]);
  }

  /** A written item, in the section it belongs to, stores its cell with no key infos. */
  lemma ItemElementStores(pre: seq<SectionView>, sv: SectionView, es: seq<Entry>)
    requires es != [] && UniqueKeys(es)
    ensures var e := es[|es| - 1];
      XmlRun(ReaderState(pre + [ReadSoFar(sv, es[..|es| - 1], map[])], Some(|pre|), []),
             [Element("item", ItemAttrs(e.key, e.pair.value, e.pair.comment))])
        == Outcome(ReaderState(pre + [ReadSoFar(sv, es, map[])], Some(|pre|), []), None)
  {
    var init := es[..|es| - 1];
    var e := es[|es| - 1];
    var rs := ReadSoFar(sv, init, map[]);
    var st := ReaderState(pre + [rs], Some(|pre|), []);
    var attrs := ItemAttrs(e.key, e.pair.value, e.pair.comment);
    XmlRunOne(st, Element("item", attrs));
    StepOnItem(st, attrs);
    NextKeyFresh(sv, es, map[]);
    assert (pre + [rs])[|pre|] == rs;
    StoreKeyFresh(st, e.key, e.pair.value, e.pair.comment);
    assert InfosFor(map[], e.key) == [];
    EntryStored(pre, sv, es, map[]);
  }

  /** The start tags of the items of a section, one per cell. */
  function ItemElements(es: seq<Entry>): seq<XmlNode> {
    if es == [] then []
    else
      var e := es[|es| - 1];
      ItemElements(es[..|es| - 1]) + [Element("item", ItemAttrs(e.key, e.pair.value, e.pair.comment))]
  }

  lemma {:induction false} ItemNodesFlatten(es: seq<Entry>)
    ensures FlattenAll(ItemNodes(es)) == ItemElements(es)
  {
    if es != [] {
      var kvc := KvcNode(es[|es| - 1]);
      ItemNodesFlatten(es[..|es| - 1]);
      FlattenAllAppend(ItemNodes(es[..|es| - 1]), [kvc]);
      FlattenAllOne(kvc);
    }
  }

  /** The items of a section, read one by one, rebuild its cells. */
  lemma {:induction false} ItemsStored(pre: seq<SectionView>, sv: SectionView, es: seq<Entry>)
    requires UniqueKeys(es)
    ensures XmlRun(ReaderState(pre + [ReadSoFar(sv, [], map[])], Some(|pre|), []), ItemElements(es))
         == Outcome(ReaderState(pre + [ReadSoFar(sv, es, map[])], Some(|pre|), []), None)
    decreases |es|
  {
    if es != [] {
      var init := es[..|es| - 1];
      var e := es[|es| - 1];
      UniqueKeysInit(es);
      ItemsStored(pre, sv, init);
      ItemElementStores(pre, sv, es);
      XmlRunAppend(ReaderState(pre + [ReadSoFar(sv, [], map[])], Some(|pre|), []), ItemElements(init),
                   [Element("item", ItemAttrs(e.key, e.pair.value, e.pair.comment))]);
    }
  }

  /** The nodes of a written section element: its start tag, its items and, when it has items, its end tag. */
  lemma SectionElementNodes(sv: SectionView)
    ensures Flatten(SectionNode(sv.name, sv.comment, ItemNodes(sv.entries))) ==
      [Element("section", SectionAttrs(sv.name, sv.comment))] + ItemElements(sv.entries)
        + (if sv.entries == [] then [] else [EndElement("section")])
  {
    ItemNodesFlatten(sv.entries);
    if sv.entries != [] {
      assert ItemNodes(sv.entries) != [];
    } else {
      assert ItemElements(sv.entries) == [];
    }
  }

  /** The element of a written section, read under a fresh name, rebuilds it. */
  lemma SectionElementReadBack(st: ReaderState, sv: SectionView)
    requires ReaderValid(st) && !HasName(st.views, sv.name) && UniqueKeys(sv.entries)
    requires st.infos == (if sv.infos.Some? then sv.infos.value else [])
    ensures XmlRun(st, Flatten(SectionNode(sv.name, sv.comment, ItemNodes(sv.entries))))
         == Outcome(ReaderState(st.views + [XmlReadBack(sv)], Some(|st.views|), []), None)
  {
    var start := [Element("section", SectionAttrs(sv.name, sv.comment))];
    var items := ItemElements(sv.entries);
    var close: seq<XmlNode> := if sv.entries == [] then [] else [EndElement("section")];
    var st1 := ReaderState(st.views + [ReadSoFar(sv, [], map[])], Some(|st.views|), []);
    var st2 := ReaderState(st.views + [XmlReadBack(sv)], Some(|st.views|), []);
    SectionElementNodes(sv);
    SectionElementOpens(st, sv);
    ItemsStored(st.views, sv, sv.entries);
    XmlRunAppend(st, start, items);
    assert XmlRun(st2, close) == Outcome(st2, None) by {
      if sv.entries != [] {
        EndTagSkipped(st2, "section");
      }
    }
    XmlRunAppend(st, start + items, close);
  }

  /** The nodes of a written section: its comment lines, then its element. */
  lemma SectionTreesNodes(sv: SectionView)
    ensures FlattenAll(SectionTrees(sv))
         == FlattenAll(InfoComments(sv.infos)) + Flatten(SectionNode(sv.name, sv.comment, ItemNodes(sv.entries)))
  {
    var element := SectionNode(sv.name, sv.comment, ItemNodes(sv.entries));
    FlattenAllAppend(InfoComments(sv.infos), [element]);
    FlattenAllOne(element);
  }

  /** The comment lines of a written section become the pending infos. */
  lemma InfoCommentsRead(st: ReaderState, sv: SectionView)
    requires ReaderValid(st) && st.infos == []
    ensures XmlRun(st, FlattenAll(InfoComments(sv.infos)))
         == Outcome(st.(infos := if sv.infos.Some? then sv.infos.value else []), None)
  {
    if sv.infos.Some? {
      CommentsCollected(st, sv.infos.value);
      assert st.infos + sv.infos.value == sv.infos.value;
    }
  }

  /** A written section, comments first, is read back under a fresh name. */
  lemma SectionTreesReadBack(st: ReaderState, sv: SectionView)
    requires ReaderValid(st) && st.infos == [] && !HasName(st.views, sv.name) && UniqueKeys(sv.entries)
    ensures XmlRun(st, FlattenAll(SectionTrees(sv)))
         == Outcome(ReaderState(st.views + [XmlReadBack(sv)], Some(|st.views|), []), None)
  {
    var st1 := st.(infos := if sv.infos.Some? then sv.infos.value else []);
    SectionTreesNodes(sv);
    InfoCommentsRead(st, sv);
    SectionElementReadBack(st1, sv);
    XmlRunThen(st, FlattenAll(InfoComments(sv.infos)), Flatten(SectionNode(sv.name, sv.comment, ItemNodes(sv.entries))),
      st1, ReaderState(st.views + [XmlReadBack(sv)], Some(|st.views|), []));
  }

  lemma FlattenRootChildren(vs: seq<SectionView>)
    requires vs != []
    ensures FlattenAll(RootChildren(vs)) == FlattenAll(RootChildren(vs[..|vs| - 1])) + FlattenAll(SectionTrees(vs[|vs| - 1]))
  {
    FlattenAllAppend(RootChildren(vs[..|vs| - 1]), SectionTrees(vs[|vs| - 1]));
  }

  /** A writable source without its last section is writable, and that section's name is still free. */
  lemma WritableInit(vs: seq<SectionView>)
    requires XmlWritable(vs) && vs != []
    ensures XmlWritable(vs[..|vs| - 1]) && UniqueKeys(vs[|vs| - 1].entries)
    ensures !HasName(XmlReadBackAll(vs[..|vs| - 1]), vs[|vs| - 1].name)
  {
    var init := vs[..|vs| - 1];
    forall i | 0 <= i < |init|
      ensures UniqueKeys(init[i].entries) && XmlSectionText(init[i]) && XmlReadBackAll(init)[i].name != vs[|vs| - 1].name
    {
      assert init[i] == vs[i];
    }
  }

  lemma {:induction false} RootChildrenReadBack(vs: seq<SectionView>)
    requires XmlWritable(vs)
    ensures XmlRun(ReaderStart([]), FlattenAll(RootChildren(vs)))
         == Outcome(ReaderState(XmlReadBackAll(vs), if vs == [] then None else Some(|vs| - 1), []), None)
  {
    if vs != [] {
      var init := vs[..|vs| - 1];
      var sv := vs[|vs| - 1];
      WritableInit(vs);
      RootChildrenReadBack(init);
      var st := ReaderState(XmlReadBackAll(init), if init == [] then None else Some(|init| - 1), []);
      SectionTreesReadBack(st, sv);
      FlattenRootChildren(vs);
      XmlReadBackAllSnoc(vs);
      XmlRunThen(ReaderStart([]), FlattenAll(RootChildren(init)), FlattenAll(SectionTrees(sv)), st,
        ReaderState(XmlReadBackAll(vs), Some(|vs| - 1), []));
    }
  }

  /** End tags are ignored. */
  lemma EndTagSkipped(st: ReaderState, name: string)
    requires ReaderValid(st)
    ensures XmlRun(st, [EndElement(name)]) == Outcome(st, None)
  {
    XmlRunOne(st, EndElement(name));
  }

  /** The declaration and the root's start tag leave a fresh reader as it was. */
  lemma DocumentHeadSkipped()
    ensures XmlRun(ReaderStart([]), [OtherNode, Element("config", [])]) == Outcome(ReaderStart([]), None)
  {
    var start := ReaderStart([]);
    assert [OtherNode, Element("config", [])][1..] == [Element("config", [])];
    StepOnConfig(start, []);
    XmlRunOne(start, Element("config", []));
  }

  /** The nodes of a saved document: the declaration, the root's start tag, its children and, if any, its end tag. */
  lemma SavedNodesAre(vs: seq<SectionView>)
    ensures var children := RootChildren(vs);
      SavedNodes(vs) == [OtherNode, Element("config", [])] + FlattenAll(children)
        + (if children == [] then [] else [EndElement("config")])
  {
    var children := RootChildren(vs);
    var root := Element("config", []);
    var close: seq<XmlNode> := if children == [] then [] else [EndElement("config")];
    assert Flatten(SaveDocument(vs)) == [root] + FlattenAll(children) + close by {
      assert SaveDocument(vs) == XElement("config", [], children);
      if children == [] {
        assert FlattenAll(children) == [];
        assert [root] + FlattenAll(children) + close == [root];
      }
    }
    ConsConcat(OtherNode, root, FlattenAll(children), close);
  }

  /** Regrouping a document that starts with two nodes. */
  lemma ConsConcat<T>(x: T, y: T, c: seq<T>, d: seq<T>)
    ensures [x] + ([y] + c + d) == [x, y] + c + d
  {
  }

  /**
   * Save, then reload into an empty source: the saved document is read back without an exception
   * and rebuilds every section, in order, as `XmlReadBack` says.
   */
  lemma XmlReadsWhatItWrites(vs: seq<SectionView>)
    requires XmlWritable(vs)
    ensures XmlMerge([], SavedNodes(vs)) == Outcome(XmlReadBackAll(vs), None)
  {
    var start := ReaderStart([]);
    var head := [OtherNode, Element("config", [])];
    var children := RootChildren(vs);
    var close: seq<XmlNode> := if children == [] then [] else [EndElement("config")];
    var st := ReaderState(XmlReadBackAll(vs), if vs == [] then None else Some(|vs| - 1), []);
    DocumentHeadSkipped();
    assert XmlRun(st, close) == Outcome(st, None) by {
      if children != [] {
        EndTagSkipped(st, "config");
      }
    }
    SavedNodesAre(vs);
    RootChildrenReadBack(vs);
    XmlRunAppend(start, head, FlattenAll(children));
    XmlRunAppend(start, head + FlattenAll(children), close);
  }
}
