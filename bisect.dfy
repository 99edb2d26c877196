/** Python's `bisect` module as `Item` uses it: `bisect_left` is the binary
    search it runs (whatever the order of the list), `insort_left` inserts at
    that index. On a strictly ascending list this is a sorted-set insertion. */
module Bisect {
  import opened Order

  /** Strictly ascending: sorted and free of duplicates. */
  ghost predicate Sorted(s: seq<string>) {
    forall i, j :: 0 <= i < j < |s| ==> Less(s[i], s[j])
  }

  /** The search loop of `bisect_left(a, x, lo, hi)`. */
  function BisectFrom(s: seq<string>, x: string, lo: nat, hi: nat): (r: nat)
    requires lo <= hi <= |s|
    ensures lo <= r <= hi
    decreases hi - lo
  {
    if lo < hi then
      var mid := (lo + hi) / 2;
      if Less(s[mid], x) then BisectFrom(s, x, mid + 1, hi) else BisectFrom(s, x, lo, mid)
    else lo
  }

  function BisectLeft(s: seq<string>, x: string): (r: nat)
    ensures r <= |s|
  {
    BisectFrom(s, x, 0, |s|)
  }

  /** `insort_left(a, x)`: insert `x` before the index `bisect_left` finds. */
  function InsortLeft(s: seq<string>, x: string): (r: seq<string>)
    ensures |r| == |s| + 1
  {
    var i := BisectLeft(s, x);
    s[..i] + [x] + s[i..]
  }

  /** `a.pop(i)` at a valid index. */
  function PopAt(s: seq<string>, i: nat): (r: seq<string>)
    requires i < |s|
    ensures |r| == |s| - 1
  {
    s[..i] + s[i+1..]
  }

  lemma {:induction false} BisectFromSplits(s: seq<string>, x: string, lo: nat, hi: nat)
    requires Sorted(s) && lo <= hi <= |s|
    requires forall j :: 0 <= j < lo ==> Less(s[j], x)
    requires forall j :: hi <= j < |s| ==> !Less(s[j], x)
    ensures var r := BisectFrom(s, x, lo, hi);
      (forall j :: 0 <= j < r ==> Less(s[j], x)) && (forall j :: r <= j < |s| ==> !Less(s[j], x))
    decreases hi - lo
  {
    if lo < hi {
      var mid := (lo + hi) / 2;
      if Less(s[mid], x) {
        forall j | 0 <= j < mid + 1 ensures Less(s[j], x) {
          if j < mid { Transitive(s[j], s[mid], x); }
        }
        BisectFromSplits(s, x, mid + 1, hi);
      } else {
        forall j | mid <= j < |s| ensures !Less(s[j], x) {
          if mid < j && Less(s[j], x) {
            Transitive(s[mid], s[j], x);
          }
        }
        BisectFromSplits(s, x, lo, mid);
      }
    }
  }

  /** On a sorted list, `bisect_left` splits it into the elements below `x`
      and those not below `x`. */
  lemma BisectLeftSplits(s: seq<string>, x: string)
    requires Sorted(s)
    ensures var r := BisectLeft(s, x);
      (forall j :: 0 <= j < r ==> Less(s[j], x)) && (forall j :: r <= j < |s| ==> !Less(s[j], x))
  {
    BisectFromSplits(s, x, 0, |s|);
  }

  /** On a sorted list, `x` is present exactly at the index `bisect_left` finds. */
  lemma BisectLeftFinds(s: seq<string>, x: string)
    requires Sorted(s)
    ensures var r := BisectLeft(s, x);
      (x in s <==> (r < |s| && s[r] == x))
  {
    var r := BisectLeft(s, x);
    BisectLeftSplits(s, x);
    if x in s {
      var k :| 0 <= k < |s| && s[k] == x;
      if k < r {
        Irreflexive(x);
      }
    }
  }

  /** Inserting at the `bisect_left` index keeps a sorted list sorted when
      `x` is not yet in it. */
  lemma InsortLeftSorted(s: seq<string>, x: string)
    requires Sorted(s) && x !in s
    ensures Sorted(InsortLeft(s, x))
  {
    var i := BisectLeft(s, x);
    var t := InsortLeft(s, x);
    BisectLeftSplits(s, x);
    forall a, b | 0 <= a < b < |t| ensures Less(t[a], t[b]) {
      if b < i {
        assert t[a] == s[a] && t[b] == s[b];
      } else if b == i {
        assert t[a] == s[a];
      } else if a == i {
        assert t[b] == s[b - 1];
        NotLess(s[b - 1], x);
      } else if a < i {
        assert t[a] == s[a] && t[b] == s[b - 1];
      } else {
        assert t[a] == s[a - 1] && t[b] == s[b - 1];
      }
    }
  }

  lemma PopAtSorted(s: seq<string>, i: nat)
    requires Sorted(s) && i < |s|
    ensures Sorted(PopAt(s, i))
  {
    var t := PopAt(s, i);
    forall a, b | 0 <= a < b < |t| ensures Less(t[a], t[b]) {
      var a' := if a < i then a else a + 1;
      var b' := if b < i then b else b + 1;
      assert t[a] == s[a'] && t[b] == s[b'];
    }
  }

  /** The membership test `Item.in_list` runs: look at the `bisect_left` index. */
  function Contains(s: seq<string>, x: string): bool {
    var i := BisectLeft(s, x);
    i < |s| && s[i] == x
  }

  /** `Item.join`'s list update: `insort_left` unless `Contains` already holds;
      the flag says whether the list changed. */
  function Insert(s: seq<string>, x: string): (r: (bool, seq<string>))
    ensures !r.0 ==> r.1 == s
  {
    if !Contains(s, x) then (true, InsortLeft(s, x)) else (false, s)
  }

  /** `Item.leave`'s list update: pop the `bisect_left` index when `Contains`
      holds; the flag says whether the list changed. */
  function Remove(s: seq<string>, x: string): (r: (bool, seq<string>))
    ensures !r.0 ==> r.1 == s
  {
    if Contains(s, x) then (true, PopAt(s, BisectLeft(s, x))) else (false, s)
  }

  /** On a sorted list the bisect test is exactly linear membership. */
  lemma ContainsSorted(s: seq<string>, x: string)
    requires Sorted(s)
    ensures Contains(s, x) <==> x in s
  {
    BisectLeftFinds(s, x);
  }

  /** Joining keeps a sorted list sorted, reports a change exactly when `x`
      was absent, and adds `x` and nothing else. */
  lemma InsertSorted(s: seq<string>, x: string)
    requires Sorted(s)
    ensures var (changed, t) := Insert(s, x);
      && (changed <==> x !in s)
      && Sorted(t)
      && x in t
      && multiset(t) == multiset(s) + (if changed then multiset{x} else multiset{})
  {
    ContainsSorted(s, x);
    if x !in s {
      InsortLeftSorted(s, x);
      var i := BisectLeft(s, x);
      assert s == s[..i] + s[i..];
      assert InsortLeft(s, x)[i] == x;
    }
  }

  /** Leaving keeps a sorted list sorted, reports a change exactly when `x`
      was present, and removes `x` and nothing else. */
  lemma RemoveSorted(s: seq<string>, x: string)
    requires Sorted(s)
    ensures var (changed, t) := Remove(s, x);
      && (changed <==> x in s)
      && Sorted(t)
      && x !in t
      && multiset(t) == multiset(s) - multiset{x}
  {
    ContainsSorted(s, x);
    BisectLeftFinds(s, x);
    var i := BisectLeft(s, x);
    if x in s {
      var t := PopAt(s, i);
      PopAtSorted(s, i);
      assert s == s[..i] + [x] + s[i+1..];
      assert multiset(s) == multiset(s[..i]) + multiset{x} + multiset(s[i+1..]);
      SortedDistinct(s);
      forall k | 0 <= k < |t| ensures t[k] != x {
        if k < i { assert t[k] == s[k]; } else { assert t[k] == s[k + 1]; }
      }
    } else {
      assert multiset(s)[x] == 0;
    }
  }

  lemma SortedDistinct(s: seq<string>)
    requires Sorted(s)
    ensures forall i, j :: 0 <= i < |s| && 0 <= j < |s| && i != j ==> s[i] != s[j]
  {
    forall i, j | 0 <= i < |s| && 0 <= j < |s| && i != j ensures s[i] != s[j] {
      if i < j { Asymmetric(s[i], s[j]); } else { Asymmetric(s[j], s[i]); }
    }
  }
}
