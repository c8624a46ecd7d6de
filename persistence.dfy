/** The memory file's two conversions: the list of product objects it holds
    becomes a dictionary keyed by link when loaded (main.py, load_saved_data),
    and a dictionary becomes the list of its values when saved
    (main.py, save_product_data). Reading and writing the file is not modelled. */
module Persistence {
  import opened Wrappers

  /** A product as a JSON object: field name to text. */
  type Record = map<string, string>

  /** Products keyed by their link. */
  type Snapshot = map<string, Record>

  const LinkKey: string := "link"
  const NameKey: string := "name"
  const PriceKey: string := "price"

  /** dict.get: the field's text, or `default` when the object lacks the field. */
  function Get(r: Record, key: string, default: string): (v: string)
    ensures key in r ==> v == r[key]
    ensures key !in r ==> v == default
  {
    if key in r then r[key] else default
  }

  predicate HasLink(r: Record) {
    LinkKey in r
  }

  predicate AllHaveLinks(list: seq<Record>) {
    forall i :: 0 <= i < |list| ==> HasLink(list[i])
  }

  /** Every entry is filed under its own link. */
  predicate KeyedByLink(m: Snapshot) {
    forall k :: k in m ==> HasLink(m[k]) && m[k][LinkKey] == k
  }

  /** The links of a list are pairwise different. */
  predicate DistinctLinks(list: seq<Record>)
    requires AllHaveLinks(list)
  {
    forall i, j :: 0 <= i < j < |list| ==> list[i][LinkKey] != list[j][LinkKey]
  }

  /** The set of links of a list of records. */
  function Links(list: seq<Record>): set<string>
    requires AllHaveLinks(list)
  {
    if list == [] then {}
    else
      var init := list[..|list| - 1];
      assert forall i :: 0 <= i < |init| ==> init[i] == list[i];
      Links(init) + {list[|list| - 1][LinkKey]}
  }

  lemma {:induction false} InLinks(list: seq<Record>, k: string)
    requires AllHaveLinks(list)
    ensures k in Links(list) <==> exists i :: 0 <= i < |list| && list[i][LinkKey] == k
  {
    if list != [] {
      var init := list[..|list| - 1];
      assert forall i :: 0 <= i < |init| ==> init[i] == list[i];
      InLinks(init, k);
    }
  }

  /** `{prod['link']: prod for prod in product_list}`: every record is filed
      under its link, a later record replacing an earlier one with the same link. */
  function Index(list: seq<Record>): (m: Snapshot)
    requires AllHaveLinks(list)
    ensures KeyedByLink(m)
    ensures m.Keys == Links(list)
  {
    if list == [] then map[]
    else
      var init, last := list[..|list| - 1], list[|list| - 1];
      assert forall i :: 0 <= i < |init| ==> init[i] == list[i];
      Index(init)[last[LinkKey] := last]
  }

  /** The entry for a link is the last record in the list with that link. */
  lemma {:induction false} IndexLastWins(list: seq<Record>, i: nat)
    requires AllHaveLinks(list) && i < |list|
    requires forall j :: i < j < |list| ==> list[j][LinkKey] != list[i][LinkKey]
    ensures list[i][LinkKey] in Index(list) && Index(list)[list[i][LinkKey]] == list[i]
  {
    if i < |list| - 1 {
      var init := list[..|list| - 1];
      assert forall j :: 0 <= j < |init| ==> init[j] == list[j];
      IndexLastWins(init, i);
    }
  }

  /** The loading conversion. A record without a link makes the comprehension
      raise KeyError, which load_saved_data does not catch: None. */
  function Load(list: seq<Record>): (r: Option<Snapshot>)
    ensures r.Some? <==> AllHaveLinks(list)
    ensures r.Some? ==> KeyedByLink(r.value)
    ensures r.Some? ==> r.value.Keys == Links(list)
  {
    if AllHaveLinks(list) then Some(Index(list)) else None
  }

  /** A dictionary's insertion order: each of its keys once. */
  predicate IsKeyOrder(order: seq<string>, m: Snapshot) {
    && (forall i :: 0 <= i < |order| ==> order[i] in m)
    && (forall k :: k in m ==> k in order)
    && (forall i, j :: 0 <= i < j < |order| ==> order[i] != order[j])
  }

  /** `list(product_data.values())`: the entries, in the order of `order`. */
  function Values(m: Snapshot, order: seq<string>): (list: seq<Record>)
    requires forall i :: 0 <= i < |order| ==> order[i] in m
    ensures |list| == |order|
  {
    if order == [] then []
    else Values(m, order[..|order| - 1]) + [m[order[|order| - 1]]]
  }

  /** The saved list holds the entry of each key, in the order given. */
  lemma {:induction false} ValuesAt(m: Snapshot, order: seq<string>, i: nat)
    requires forall j :: 0 <= j < |order| ==> order[j] in m
    requires i < |order|
    ensures Values(m, order)[i] == m[order[i]]
  {
    if i < |order| - 1 {
      ValuesAt(m, order[..|order| - 1], i);
    }
  }

  /** The order in which the comprehension first inserts each link. */
  function KeyOrder(list: seq<Record>): (order: seq<string>)
    requires AllHaveLinks(list)
    ensures forall i :: 0 <= i < |order| ==> order[i] in Links(list)
  {
    if list == [] then []
    else
      var init, last := list[..|list| - 1], list[|list| - 1];
      assert forall i :: 0 <= i < |init| ==> init[i] == list[i];
      var o := KeyOrder(init);
      if last[LinkKey] in o then o else o + [last[LinkKey]]
  }

  /** KeyOrder lists each key of the comprehension's dictionary once. */
  lemma {:induction false} KeyOrderSpec(list: seq<Record>)
    requires AllHaveLinks(list)
    ensures IsKeyOrder(KeyOrder(list), Index(list))
  {
    if list != [] {
      var init := list[..|list| - 1];
      assert forall i :: 0 <= i < |init| ==> init[i] == list[i];
      KeyOrderSpec(init);
    }
  }

  /** A link is in the insertion order exactly when it is a key. */
  lemma KeyOrderHas(list: seq<Record>, k: string)
    requires AllHaveLinks(list)
    ensures k in KeyOrder(list) <==> k in Index(list)
  {
    KeyOrderSpec(list);
  }

  /** The comprehension adds one record at a time. */
  lemma IndexSnoc(list: seq<Record>, r: Record)
    requires AllHaveLinks(list) && HasLink(r)
    ensures AllHaveLinks(list + [r])
    ensures Index(list + [r]) == Index(list)[r[LinkKey] := r]
    ensures KeyOrder(list + [r]) == if r[LinkKey] in KeyOrder(list) then KeyOrder(list) else KeyOrder(list) + [r[LinkKey]]
  {
    assert (list + [r])[..|list|] == list;
  }

  lemma {:induction false} IndexValues(m: Snapshot, order: seq<string>)
    requires KeyedByLink(m)
    requires forall i :: 0 <= i < |order| ==> order[i] in m
    ensures AllHaveLinks(Values(m, order))
    ensures forall k :: k in Index(Values(m, order)) <==> k in order
    ensures forall k :: k in Index(Values(m, order)) ==> Index(Values(m, order))[k] == m[k]
  {
    if order != [] {
      var init := order[..|order| - 1];
      IndexValues(m, init);
      assert Values(m, order) == Values(m, init) + [m[order[|order| - 1]]];
      assert Values(m, order)[..|order| - 1] == Values(m, init);
      assert forall k :: k in order <==> k in init || k == order[|order| - 1];
    }
  }

  /** Round trip: saving a well-formed snapshot and loading it back gives the
      same snapshot, whatever the insertion order. */
  lemma LoadValues(m: Snapshot, order: seq<string>)
    requires KeyedByLink(m)
    requires IsKeyOrder(order, m)
    ensures Load(Values(m, order)) == Some(m)
  {
    IndexValues(m, order);
    var back := Index(Values(m, order));
    assert back.Keys == m.Keys;
    assert back == m;
  }

  /** Round trip the other way: a list with distinct links, loaded and saved
      again in insertion order, is the same list. */
  lemma {:induction false} ValuesIndex(list: seq<Record>)
    requires AllHaveLinks(list) && DistinctLinks(list)
    ensures Values(Index(list), KeyOrder(list)) == list
  {
    if list != [] {
      var init, last := list[..|list| - 1], list[|list| - 1];
      PrefixLinks(list);
      ValuesIndex(init);
      var o, l := KeyOrder(init), last[LinkKey];
      assert list == init + [last];
      IndexSnoc(init, last);
      assert Values(Index(list), o + [l]) == Values(Index(list), o) + [last] by {
        assert (o + [l])[..|o|] == o;
      }
      ValuesFrame(Index(init), l, last, o);
    }
  }

  /** Dropping the last record keeps the links distinct, and the last link
      is not among the earlier ones. */
  lemma PrefixLinks(list: seq<Record>)
    requires AllHaveLinks(list) && DistinctLinks(list) && list != []
    ensures AllHaveLinks(list[..|list| - 1]) && DistinctLinks(list[..|list| - 1])
    ensures list[|list| - 1][LinkKey] !in KeyOrder(list[..|list| - 1])
  {
    var init := list[..|list| - 1];
    assert forall i :: 0 <= i < |init| ==> init[i] == list[i];
    InLinks(init, list[|list| - 1][LinkKey]);
    KeyOrderSpec(init);
  }

  /** Values only looks at the keys it is given. */
  lemma {:induction false} ValuesFrame(m: Snapshot, l: string, r: Record, order: seq<string>)
    requires forall i :: 0 <= i < |order| ==> order[i] in m && order[i] != l
    ensures Values(m[l := r], order) == Values(m, order)
  {
    if order != [] {
      ValuesFrame(m, l, r, order[..|order| - 1]);
    }
  }
}
