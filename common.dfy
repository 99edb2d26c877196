/** Shared vocabulary: optional values, the exceptions the storage layer raises,
    Python's list indexing, and small facts about sequences of names. */
module Common {

  datatype Option<+T> = None | Some(value: T)

  /** The exceptions the modelled code can raise, by the Python class (or the
      message) that the source raises. */
  datatype Error =
    | NoSuchItem        // `raise Exception('No such item')`
    | AttributeError    // a method called on the `None` that `items.get` returned
    | TypeError         // `len(None)` on a missing remote document
    | IndexError        // a list index out of range, or `place_item`'s explicit raise
    | KeyError          // `OrderedDict.move_to_end` on an absent key
    | ValueError        // `list.remove` of an absent value
    | RemoteError       // a RedisJSON command rejected by the server

  datatype Result<+T> = Ok(value: T) | Err(error: Error)

  datatype Outcome = Done | Fail(error: Error)

  /** Python's `lst[i]` index resolution: non-negative indices count from the
      front, negative ones from the back; anything else raises IndexError. */
  function PyIndex(i: int, n: nat): (r: Option<nat>)
    ensures r.Some? <==> 0 <= n + i && i < n
    ensures r.Some? ==> r.value < n && (if i >= 0 then r.value == i else r.value == n + i)
  {
    if 0 <= i < n then Some(i)
    else if 0 <= n + i && i < 0 then Some(n + i)
    else None
  }

  /** No name occurs twice. */
  ghost predicate Distinct<T>(s: seq<T>) {
    forall i, j :: 0 <= i < j < |s| ==> s[i] != s[j]
  }

  /** `s` with every occurrence of `x` removed, order of the rest kept. */
  function Without<T(==,!new)>(s: seq<T>, x: T): (r: seq<T>)
    ensures |r| <= |s|
    ensures forall y :: y in r <==> y in s && y != x
  {
    if s == [] then []
    else if s[0] == x then Without(s[1..], x)
    else [s[0]] + Without(s[1..], x)
  }

  lemma {:induction false} WithoutConcat<T(!new)>(a: seq<T>, b: seq<T>, x: T)
    ensures Without(a + b, x) == Without(a, x) + Without(b, x)
  {
    if a == [] {
      assert a + b == b;
    } else {
      assert (a + b)[1..] == a[1..] + b;
      WithoutConcat(a[1..], b, x);
    }
  }

  lemma WithoutAbsent<T(!new)>(s: seq<T>, x: T)
    requires x !in s
    ensures Without(s, x) == s
  {
    if s != [] {
      WithoutAbsent(s[1..], x);
    }
  }

  /** Removing the one occurrence at index `k` of a distinct sequence is the
      same as removing that value everywhere. */
  lemma WithoutAt<T(!new)>(s: seq<T>, k: nat)
    requires Distinct(s) && k < |s|
    ensures Without(s, s[k]) == s[..k] + s[k+1..]
  {
    DistinctElsewhere(s, k);
    WithoutSingle(s, k);
  }

  /** In a distinct sequence the value at `k` occurs neither before nor after. */
  lemma DistinctElsewhere<T>(s: seq<T>, k: nat)
    requires Distinct(s) && k < |s|
    ensures s[k] !in s[..k] && s[k] !in s[k+1..]
  {
    var a, b := s[..k], s[k+1..];
    forall i | 0 <= i < |a| ensures a[i] != s[k] { assert a[i] == s[i]; }
    forall i | 0 <= i < |b| ensures b[i] != s[k] { assert b[i] == s[k + 1 + i]; }
  }

  lemma {:induction false} WithoutSingle<T(!new)>(s: seq<T>, k: nat)
    requires k < |s| && s[k] !in s[..k] && s[k] !in s[k+1..]
    ensures Without(s, s[k]) == s[..k] + s[k+1..]
    decreases k
  {
    var x := s[k];
    if k == 0 {
      assert s[1..] == s[k+1..];
      WithoutAbsent(s[1..], x);
    } else {
      var t := s[1..];
      assert s[0] == s[..k][0];
      assert t[k-1] == x;
      assert t[..k-1] == s[1..k] && s[1..k] == s[..k][1..];
      assert t[k..] == s[k+1..];
      WithoutSingle(t, k - 1);
      assert s[..k] == [s[0]] + s[1..k];
    }
  }

  lemma DistinctWithout<T(!new)>(s: seq<T>, x: T)
    requires Distinct(s)
    ensures Distinct(Without(s, x))
  {
    if s != [] {
      assert Distinct(s[1..]) by {
        forall i, j | 0 <= i < j < |s| - 1 ensures s[1..][i] != s[1..][j] {
          assert s[1..][i] == s[i + 1] && s[1..][j] == s[j + 1];
        }
      }
      DistinctWithout(s[1..], x);
      assert s[0] !in s[1..];
    }
  }

  /** Index of the first occurrence of `x`, `|s|` when it does not occur. */
  function IndexOf<T(==)>(s: seq<T>, x: T): (r: nat)
    ensures r <= |s|
    ensures r < |s| <==> x in s
    ensures r < |s| ==> s[r] == x
    ensures forall j :: 0 <= j < r ==> s[j] != x
  {
    if s == [] then 0
    else if s[0] == x then 0
    else 1 + IndexOf(s[1..], x)
  }
}
