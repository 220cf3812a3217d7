/** The download list: only items whose `visible` is truthy are shown, in their stored order. */
module Catalog {
  import opened Wrappers

  /** An entry of download.json; `visible` is the truthiness of the key (missing counts as false). */
  datatype Item = Item(title: Option<string>, url: Option<string>, notes: Option<string>, visible: bool)

  /** The visible items, in order. */
  function Visible(items: seq<Item>): (r: seq<Item>)
    ensures |r| <= |items|
    ensures forall x :: x in r ==> x in items && x.visible
  {
    if items == [] then []
    else
      var last := items[|items| - 1];
      Visible(items[..|items| - 1]) + (if last.visible then [last] else [])
  }

  /** `a` can be obtained from `b` by deleting elements (matched greedily from the end). */
  predicate IsSubsequence(a: seq<Item>, b: seq<Item>)
    decreases |b|
  {
    if a == [] then true
    else if b == [] then false
    else if a[|a| - 1] == b[|b| - 1] then IsSubsequence(a[..|a| - 1], b[..|b| - 1])
    else IsSubsequence(a, b[..|b| - 1])
  }

  /** Every visible item is kept, and with its multiplicity; nothing else is. */
  lemma {:induction false} VisibleCounts(items: seq<Item>, x: Item)
    ensures multiset(Visible(items))[x] == if x.visible then multiset(items)[x] else 0
    decreases |items|
  {
    if items != [] {
      var init := items[..|items| - 1];
      assert items == init + [items[|items| - 1]];
      VisibleCounts(init, x);
    }
  }

  lemma VisibleMembership(items: seq<Item>, x: Item)
    ensures x in Visible(items) <==> x in items && x.visible
  {
    VisibleCounts(items, x);
  }

  /** The visible items keep their relative order. */
  lemma {:induction false} VisibleKeepsOrder(items: seq<Item>)
    ensures IsSubsequence(Visible(items), items)
    decreases |items|
  {
    if items != [] {
      var init := items[..|items| - 1];
      var last := items[|items| - 1];
      VisibleKeepsOrder(init);
      if last.visible {
        assert Visible(items)[..|Visible(items)| - 1] == Visible(init);
      } else if Visible(init) != [] {
        var v := Visible(init);
        assert v[|v| - 1] in v;
        assert Visible(items) == v && v[|v| - 1] != last;
        assert items[..|items| - 1] == init;
      }
    }
  }

  /** The loop over the items, appending each visible one. */
  method FilterVisible(items: seq<Item>) returns (shown: seq<Item>)
    ensures shown == Visible(items)
  {
    shown := [];
    for i := 0 to |items|
      invariant shown == Visible(items[..i])
    {
      if items[i].visible {
        shown := shown + [items[i]];
      }
      assert items[..i + 1][..i] == items[..i];
    }
    assert items[..|items|] == items;
  }
}
