/** Display order of a store: the key order of the local backend's ordered
    dictionary, or the remote backend's name-index array. The operations here
    are `OrderedDict.move_to_end` in both directions, the order-preserving
    filter behind `ordered_items`, and the placement `place_item` aims at. */
module DisplayOrder {
  import opened Common

  /** `move_to_end(k, last=False)` on a key that is present. */
  function MoveToFront(s: seq<string>, k: string): (r: seq<string>)
    ensures |r| == |Without(s, k)| + 1 && r[0] == k
  {
    [k] + Without(s, k)
  }

  /** `move_to_end(k, last=True)` on a key that is present. */
  function MoveToEnd(s: seq<string>, k: string): (r: seq<string>)
    ensures |r| == |Without(s, k)| + 1 && r[|r| - 1] == k
  {
    Without(s, k) + [k]
  }

  /** Moving the key at index `p` to the front takes it out of its place and
      keeps the others in their order. */
  lemma MoveToFrontAt(s: seq<string>, p: nat)
    requires Distinct(s) && p < |s|
    ensures MoveToFront(s, s[p]) == [s[p]] + s[..p] + s[p+1..]
    ensures Distinct(MoveToFront(s, s[p]))
  {
    WithoutAt(s, p);
    DistinctWithout(s, s[p]);
  }

  /** Moving the key at index `p` to the back, likewise. */
  lemma MoveToEndAt(s: seq<string>, p: nat)
    requires Distinct(s) && p < |s|
    ensures MoveToEnd(s, s[p]) == s[..p] + s[p+1..] + [s[p]]
    ensures Distinct(MoveToEnd(s, s[p]))
  {
    WithoutAt(s, p);
    DistinctWithout(s, s[p]);
  }

  /** The keys of `s` that satisfy `p`, in the order of `s`. */
  function Filter(s: seq<string>, p: string -> bool): (r: seq<string>)
    ensures |r| <= |s|
    ensures forall x :: x in r <==> x in s && p(x)
  {
    if s == [] then []
    else Filter(s[..|s| - 1], p) + (if p(s[|s| - 1]) then [s[|s| - 1]] else [])
  }

  /** The filter of a duplicate-free order is duplicate-free and lists its
      keys in the same relative order as `s`. */
  lemma {:induction false} FilterKeepsOrder(s: seq<string>, p: string -> bool)
    requires Distinct(s)
    ensures Distinct(Filter(s, p))
    ensures forall i, j :: 0 <= i < j < |Filter(s, p)| ==> IndexOf(s, Filter(s, p)[i]) < IndexOf(s, Filter(s, p)[j])
  {
    if s != [] {
      var init := s[..|s| - 1];
      var last := s[|s| - 1];
      assert Distinct(init);
      FilterKeepsOrder(init, p);
      var f := Filter(init, p);
      assert last !in init;
      forall x | x in f ensures IndexOf(s, x) == IndexOf(init, x) && IndexOf(s, x) < |s| - 1 {
        IndexOfPrefix(init, last, x);
      }
      assert IndexOf(s, last) == |s| - 1 by { IndexOfPrefix(init, last, last); }
    }
  }

  lemma IndexOfPrefix(init: seq<string>, last: string, x: string)
    ensures x in init ==> IndexOf(init + [last], x) == IndexOf(init, x)
    ensures x !in init && x == last ==> IndexOf(init + [last], x) == |init|
  {
    if init != [] {
      assert (init + [last])[1..] == init[1..] + [last];
      IndexOfPrefix(init[1..], last, x);
    }
  }

  /** Where `place_item(k, pos)` means to put `k`: at index `pos` of the order,
      the other keys keeping their relative order. */
  function Placed(s: seq<string>, k: string, pos: nat): (r: seq<string>)
    requires pos <= |Without(s, k)|
  {
    var others := Without(s, k);
    others[..pos] + [k] + others[pos..]
  }

  /** Placement puts `k` at `pos`, keeps the same keys without duplicates, and
      leaves the others in their order. */
  lemma PlacedSpec(s: seq<string>, k: string, pos: nat)
    requires Distinct(s) && k in s && pos < |s|
    ensures |Without(s, k)| == |s| - 1
    ensures var r := Placed(s, k, pos);
      && |r| == |s|
      && r[pos] == k
      && Without(r, k) == Without(s, k)
      && (forall x :: x in r <==> x in s)
      && Distinct(r)
  {
    WithoutAt(s, IndexOf(s, k));
    DistinctWithout(s, k);
    InsertAbsent(Without(s, k), k, pos);
  }

  /** Inserting a key that is absent from a duplicate-free order. */
  lemma InsertAbsent(o: seq<string>, k: string, pos: nat)
    requires Distinct(o) && k !in o && pos <= |o|
    ensures var r := o[..pos] + [k] + o[pos..];
      && |r| == |o| + 1
      && r[pos] == k
      && Without(r, k) == o
      && (forall x :: x in r <==> x in o || x == k)
      && Distinct(r)
  {
    var r := o[..pos] + [k] + o[pos..];
    assert r[..pos] == o[..pos] && r[pos + 1..] == o[pos..];
    assert k !in o[..pos] && k !in o[pos..] by {
      assert o == o[..pos] + o[pos..];
    }
    WithoutSingle(r, pos);
    assert o == o[..pos] + o[pos..];
    forall i, j | 0 <= i < j < |r| ensures r[i] != r[j] {
      if i != pos && j != pos {
        var i' := if i < pos then i else i - 1;
        var j' := if j < pos then j else j - 1;
        assert r[i] == o[i'] && r[j] == o[j'];
      } else if i == pos {
        assert r[j] == o[j - 1];
      } else {
        assert r[i] == o[i];
      }
    }
  }

  /** Placing a key at the index it already has changes nothing. */
  lemma PlacedAtOwnIndex(s: seq<string>, p: nat)
    requires Distinct(s) && p < |s|
    ensures |Without(s, s[p])| == |s| - 1
    ensures Placed(s, s[p], p) == s
  {
    WithoutAt(s, p);
    var others := Without(s, s[p]);
    assert others[..p] == s[..p];
    assert others[p..] == s[p+1..];
    assert s == s[..p] + [s[p]] + s[p+1..];
  }
}
