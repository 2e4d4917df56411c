/**
 * The key -> (value, comment) dictionary of a section, kept as an insertion-ordered sequence of
 * entries. A new key is appended; overwriting a key keeps its position, as the writers enumerate
 * the dictionary in that order.
 */
module Entries {
  import opened Base
  import opened ValueComments

  datatype Entry = Entry(key: string, pair: ValueCommentPair)

  function KeysOf(es: seq<Entry>): (r: seq<string>)
    ensures |r| == |es| && forall i :: 0 <= i < |es| ==> r[i] == es[i].key
  {
    seq(|es|, i requires 0 <= i < |es| => es[i].key)
  }

  /** The dictionary invariant: no key is stored twice. */
  predicate UniqueKeys(es: seq<Entry>) {
    forall i, j :: 0 <= i < j < |es| ==> es[i].key != es[j].key
  }

  /** The position of `key`, if it is stored. */
  function IndexOf(es: seq<Entry>, key: string): (r: Option<nat>)
    ensures r.Some? ==> r.value < |es| && es[r.value].key == key
                        && forall j :: 0 <= j < r.value ==> es[j].key != key
    ensures r.None? ==> forall j :: 0 <= j < |es| ==> es[j].key != key
  {
    if es == [] then None
    else if es[0].key == key then Some(0)
    else match IndexOf(es[1..], key)
      case None => None
      case Some(i) => Some(i + 1)
  }

  /** `Dictionary.ContainsKey`. */
  predicate HasKey(es: seq<Entry>, key: string) {
    exists i :: 0 <= i < |es| && es[i].key == key
  }

  /** The cell stored under `key`, if any (`Dictionary.TryGetValue`). */
  function Find(es: seq<Entry>, key: string): (r: Option<ValueCommentPair>)
    ensures r.Some? <==> HasKey(es, key)
    ensures UniqueKeys(es) ==> forall i :: 0 <= i < |es| && es[i].key == key ==> r == Some(es[i].pair)
  {
    match IndexOf(es, key)
    case None => None
    case Some(i) => Some(es[i].pair)
  }

  /** The first position holding `key` is what IndexOf reports. */
  lemma IndexOfIs(es: seq<Entry>, key: string, j: nat)
    requires j < |es| && es[j].key == key
    requires forall m :: 0 <= m < j ==> es[m].key != key
    ensures IndexOf(es, key) == Some(j)
  {
    var r := IndexOf(es, key);
    assert r.value <= j;
  }

  lemma IndexOfAbsent(es: seq<Entry>, key: string)
    requires forall m :: 0 <= m < |es| ==> es[m].key != key
    ensures IndexOf(es, key) == None
  {
  }

  /** Lookup depends only on the keys, in order. */
  lemma IndexOfSameKeys(es: seq<Entry>, es': seq<Entry>, key: string)
    requires KeysOf(es) == KeysOf(es')
    ensures IndexOf(es, key) == IndexOf(es', key)
  {
    assert |es| == |es'|;
    assert forall m :: 0 <= m < |es| ==> es[m].key == es'[m].key by {
      forall m | 0 <= m < |es| ensures es[m].key == es'[m].key {
        assert KeysOf(es)[m] == KeysOf(es')[m];
      }
    }
    match IndexOf(es, key)
    case Some(j) => IndexOfIs(es', key, j);
    case None => IndexOfAbsent(es', key);
  }

  lemma IndexOfAppend(es: seq<Entry>, e: Entry, key: string)
    ensures IndexOf(es + [e], key) ==
      if HasKey(es, key) then IndexOf(es, key) else if key == e.key then Some(|es|) else None
  {
    var r := es + [e];
    match IndexOf(es, key)
    case Some(j) => IndexOfIs(r, key, j);
    case None =>
      assert forall m :: 0 <= m < |es| ==> r[m].key != key by {
        forall m | 0 <= m < |es| ensures r[m].key != key {
          assert KeysOf(es)[m] == es[m].key;
        }
      }
      if key == e.key { IndexOfIs(r, key, |es|); } else { IndexOfAbsent(r, key); }
  }

  /** `_vcPairs[key] = pair`: stores `p` under `key`, overwriting in place or appending. */
  function Put(es: seq<Entry>, key: string, p: ValueCommentPair): (r: seq<Entry>)
    ensures Find(r, key) == Some(p)
    ensures forall k :: k != key ==> Find(r, k) == Find(es, k)
    ensures UniqueKeys(es) ==> UniqueKeys(r)
    ensures HasKey(es, key) ==> KeysOf(r) == KeysOf(es)
    ensures !HasKey(es, key) ==> r == es + [Entry(key, p)]
  {
    match IndexOf(es, key)
    case Some(i) =>
      var r := es[i := Entry(key, p)];
      assert KeysOf(r) == KeysOf(es);
      assert forall k :: IndexOf(r, k) == IndexOf(es, k) by {
        forall k ensures IndexOf(r, k) == IndexOf(es, k) {
          IndexOfSameKeys(r, es, k);
        }
      }
      r
    case None =>
      var r := es + [Entry(key, p)];
      assert forall k :: IndexOf(r, k) == (if HasKey(es, k) then IndexOf(es, k) else if k == key then Some(|es|) else None) by {
        forall k ensures IndexOf(r, k) == (if HasKey(es, k) then IndexOf(es, k) else if k == key then Some(|es|) else None) {
          IndexOfAppend(es, Entry(key, p), k);
        }
      }
      r
  }

  /** `_vcPairs.Remove(key)`: drops the entry of `key`; the others keep their order. */
  function Delete(es: seq<Entry>, key: string): (r: seq<Entry>)
    ensures UniqueKeys(es) ==> UniqueKeys(r) && Find(r, key) == None
    ensures UniqueKeys(es) ==> forall k :: k != key ==> Find(r, k) == Find(es, k)
    ensures !HasKey(es, key) ==> r == es
    ensures HasKey(es, key) ==> |r| == |es| - 1
  {
    match IndexOf(es, key)
    case None => es
    case Some(i) =>
      DeleteKeepsOthers(es, key, i);
      DeleteDropsKey(es, key, i);
      es[..i] + es[i + 1..]
  }

  lemma DeleteKeepsOthers(es: seq<Entry>, key: string, i: nat)
    requires i < |es| && es[i].key == key
    ensures forall k :: k != key ==> Find(es[..i] + es[i + 1..], k) == Find(es, k)
  {
    forall k | k != key ensures Find(es[..i] + es[i + 1..], k) == Find(es, k) {
      IndexOfDelete(es, i, k);
    }
  }

  lemma DeleteDropsKey(es: seq<Entry>, key: string, i: nat)
    requires i < |es| && es[i].key == key
    ensures UniqueKeys(es) ==> UniqueKeys(es[..i] + es[i + 1..]) && Find(es[..i] + es[i + 1..], key) == None
  {
    if UniqueKeys(es) {
      var r := es[..i] + es[i + 1..];
      assert forall j :: 0 <= j < |r| ==> r[j] == (if j < i then es[j] else es[j + 1]);
      IndexOfAbsent(r, key);
    }
  }

  /** Where an entry lands once the entry at `i` is removed. */
  function DeletedIndex(j: Option<nat>, i: nat): Option<nat> {
    match j
    case None => None
    case Some(j) => if j < i then Some(j) else if j == i then None else Some(j - 1)
  }

  function Shift(j: Option<nat>): Option<nat> {
    match j
    case None => None
    case Some(j) => Some(j + 1)
  }

  lemma DeletedShift(x: Option<nat>, i: nat)
    requires i > 0
    ensures DeletedIndex(Shift(x), i) == Shift(DeletedIndex(x, i - 1))
  {
  }

  lemma {:induction false} IndexOfDelete(es: seq<Entry>, i: nat, k: string)
    requires i < |es| && es[i].key != k
    ensures IndexOf(es[..i] + es[i + 1..], k) == DeletedIndex(IndexOf(es, k), i)
  {
    var r := es[..i] + es[i + 1..];
    if i == 0 {
      assert r == es[1..];
    } else if es[0].key != k {
      var tl := es[1..];
      assert r[0] == es[0] && r[1..] == tl[..i - 1] + tl[i..];
      IndexOfDelete(tl, i - 1, k);
      assert IndexOf(r, k) == Shift(IndexOf(r[1..], k));
      assert IndexOf(es, k) == Shift(IndexOf(tl, k));
      DeletedShift(IndexOf(tl, k), i);
    } else {
      assert r[0] == es[0];
    }
  }

  /** Inserting keys one after another into an empty dictionary keeps them all, in order. */
  lemma {:induction false} PutAllFresh(prefix: seq<Entry>, e: Entry)
    requires UniqueKeys(prefix + [e])
    ensures !HasKey(prefix, e.key)
    ensures Put(prefix, e.key, e.pair) == prefix + [e]
  {
    forall i | 0 <= i < |prefix| ensures prefix[i].key != e.key {
      assert (prefix + [e])[i] == prefix[i];
      assert (prefix + [e])[|prefix|] == e;
    }
  }

  /** Dropping the last entry keeps the keys unique, and the dropped key is not among the rest. */
  lemma UniqueKeysInit(es: seq<Entry>)
    requires es != [] && UniqueKeys(es)
    ensures UniqueKeys(es[..|es| - 1])
    ensures !HasKey(es[..|es| - 1], es[|es| - 1].key)
  {
    var init := es[..|es| - 1];
    forall i | 0 <= i < |init| ensures init[i].key != es[|es| - 1].key {
      assert init[i] == es[i];
    }
  }

}
