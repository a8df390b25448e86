/** The matcher's dictionary `data` (abbrev_matcher.py lines 25 and 172-175): each
    abbreviation maps to the long forms recorded for it, in the order they were found,
    and the abbreviations themselves keep the order in which they were first seen, as a
    Python dict does. */
module Store {

  /** One discovery: an abbreviation and the long form found for it. */
  datatype Entry = Entry(abbrev: string, longVersion: string)

  /** The dictionary as its contents and its key order. */
  datatype Index = Index(data: map<string, seq<string>>, order: seq<string>)

  const Empty := Index(map[], [])

  /** The keys in `order` are exactly those of `data`, each once, and every list holds
      at least one long form. */
  predicate WellFormed(ix: Index) {
    && (forall i, j :: 0 <= i < j < |ix.order| ==> ix.order[i] != ix.order[j])
    && (forall k :: k in ix.data ==> k in ix.order)
    && (forall i :: 0 <= i < |ix.order| ==> ix.order[i] in ix.data)
    && (forall k :: k in ix.data ==> ix.data[k] != [])
  }

  /** `data.get(k, [])` */
  function Lookup(ix: Index, k: string): seq<string> {
    if k in ix.data then ix.data[k] else []
  }

  /** Lines 172-175: a new abbreviation gets a one-element list and goes to the end of
      the key order; a known one has the long form appended to its list. */
  function Add(ix: Index, e: Entry): Index {
    if e.abbrev in ix.data then Index(ix.data[e.abbrev := ix.data[e.abbrev] + [e.longVersion]], ix.order)
    else Index(ix.data[e.abbrev := [e.longVersion]], ix.order + [e.abbrev])
  }

  /** The entries added one after the other. */
  function AddAll(ix: Index, es: seq<Entry>): Index
    decreases |es|
  {
    if es == [] then ix else Add(AddAll(ix, es[..|es| - 1]), es[|es| - 1])
  }

  lemma AddAllSnoc(ix: Index, es: seq<Entry>, e: Entry)
    ensures AddAll(ix, es + [e]) == Add(AddAll(ix, es), e)
  {
    var es1 := es + [e];
    assert es1[..|es1| - 1] == es;
  }

  /** The long forms of the entries for abbreviation `k`, in order. */
  function ValuesFor(es: seq<Entry>, k: string): seq<string>
    decreases |es|
  {
    if es == [] then []
    else
      var e := es[|es| - 1];
      ValuesFor(es[..|es| - 1], k) + (if e.abbrev == k then [e.longVersion] else [])
  }

  /** The abbreviations of `es` not in `seen`, each once, in the order of their first
      entry. */
  function NewKeys(seen: seq<string>, es: seq<Entry>): (r: seq<string>)
    ensures forall k :: k in r ==> k !in seen
    decreases |es|
  {
    if es == [] then []
    else
      var pre := NewKeys(seen, es[..|es| - 1]);
      var a := es[|es| - 1].abbrev;
      if a in seen || a in pre then pre else pre + [a]
  }

  /** Adding keeps the dictionary well formed. */
  lemma AddWellFormed(ix: Index, e: Entry)
    requires WellFormed(ix)
    ensures WellFormed(Add(ix, e))
  {
    var r := Add(ix, e);
    if e.abbrev !in ix.data {
      forall i, j | 0 <= i < j < |r.order| ensures r.order[i] != r.order[j] {
        if j == |ix.order| {
          assert ix.order[i] in ix.data;
        }
      }
    }
  }

  lemma {:induction false} AddAllWellFormed(ix: Index, es: seq<Entry>)
    requires WellFormed(ix)
    ensures WellFormed(AddAll(ix, es))
    decreases |es|
  {
    if es != [] {
      AddAllWellFormed(ix, es[..|es| - 1]);
      AddWellFormed(AddAll(ix, es[..|es| - 1]), es[|es| - 1]);
    }
  }

  /** Contents: after the entries are added, each abbreviation's list is its old list
      followed by the long forms of its entries, in order. Nothing is removed or
      reordered. */
  lemma {:induction false} AddAllContents(ix: Index, es: seq<Entry>, k: string)
    ensures Lookup(AddAll(ix, es), k) == Lookup(ix, k) + ValuesFor(es, k)
    decreases |es|
  {
    if es != [] {
      AddAllContents(ix, es[..|es| - 1], k);
    }
  }

  /** Key order: the abbreviations not yet known are appended once each, in the order of
      their first entry; the old order is kept as a prefix. */
  lemma {:induction false} AddAllOrder(ix: Index, es: seq<Entry>)
    requires WellFormed(ix)
    ensures AddAll(ix, es).order == ix.order + NewKeys(ix.order, es)
    decreases |es|
  {
    if es != [] {
      var init := es[..|es| - 1];
      var mid := AddAll(ix, init);
      AddAllOrder(ix, init);
      AddAllWellFormed(ix, init);
      var a := es[|es| - 1].abbrev;
      if a in mid.order {
        var i :| 0 <= i < |mid.order| && mid.order[i] == a;
        assert a in mid.data;
      }
      assert a in mid.data <==> a in ix.order || a in NewKeys(ix.order, init);
    }
  }

  /** Append-only: every key stays, with its old list as a prefix of its new one, and
      the old key order is a prefix of the new one. */
  lemma AddAllExtends(ix: Index, es: seq<Entry>)
    requires WellFormed(ix)
    ensures var r := AddAll(ix, es);
      ix.order <= r.order &&
      forall k :: k in ix.data ==> k in r.data && ix.data[k] <= r.data[k]
  {
    AddAllOrder(ix, es);
    AddAllWellFormed(ix, es);
    var r := AddAll(ix, es);
    forall k | k in ix.data ensures k in r.data && ix.data[k] <= r.data[k] {
      AddAllContents(ix, es, k);
      assert k in ix.order;
    }
  }

  /** A key not seen before gets a one-element list and goes at the end; a known key
      keeps its place and gains one long form. */
  lemma AddEffect(ix: Index, e: Entry)
    requires WellFormed(ix)
    ensures var r := Add(ix, e);
      if e.abbrev in ix.order then r.order == ix.order && r.data[e.abbrev] == ix.data[e.abbrev] + [e.longVersion]
      else r.order == ix.order + [e.abbrev] && r.data[e.abbrev] == [e.longVersion]
    ensures forall k :: k != e.abbrev ==> Lookup(Add(ix, e), k) == Lookup(ix, k)
  {
  }
}
