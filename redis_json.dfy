/** The RedisJSON array commands that the remote backend issues, on an
    abstract array value: JSON.ARRINDEX, JSON.ARRPOP, JSON.ARRINSERT and
    JSON.ARRAPPEND. */
module RedisJson {
  import opened Common

  /** JSON.ARRINDEX: the index of the first occurrence, or -1. */
  function ArrIndex(a: seq<string>, v: string): (r: int)
    ensures -1 <= r < |a|
    ensures r == -1 <==> v !in a
    ensures r >= 0 ==> a[r] == v && forall j :: 0 <= j < r ==> a[j] != v
  {
    var k := IndexOf(a, v);
    if k < |a| then k else -1
  }

  /** The index JSON.ARRPOP pops at: a negative index counts from the end, and
      an index out of range is rounded to the nearer end. */
  function PopIndex(len: nat, idx: int): (k: nat)
    requires len > 0
    ensures k < len
    ensures 0 <= idx < len ==> k == idx
    ensures 0 <= len + idx && idx < 0 ==> k == len + idx
  {
    if idx < 0 then (if len + idx < 0 then 0 else len + idx)
    else if idx >= len then len - 1
    else idx
  }

  /** JSON.ARRPOP at `idx`: the popped value (null on an empty array) and the
      array left behind. */
  function ArrPop<T>(a: seq<T>, idx: int): (r: (Option<T>, seq<T>))
    ensures a == [] ==> r == (None, a)
    ensures a != [] ==>
      var k := PopIndex(|a|, idx);
      r.0 == Some(a[k]) && r.1 == a[..k] + a[k+1..]
  {
    if a == [] then (None, a)
    else
      var k := PopIndex(|a|, idx);
      (Some(a[k]), a[..k] + a[k+1..])
  }

  /** JSON.ARRINSERT: the index must lie in `[-len, len]`, a negative one
      counting from the end; otherwise the command fails (`None`). */
  function ArrInsert(a: seq<string>, idx: int, v: string): (r: Option<seq<string>>)
    ensures r.Some? <==> 0 <= |a| + idx && idx <= |a|
    ensures r.Some? ==>
      var k := if idx < 0 then |a| + idx else idx;
      0 <= k <= |a| && r.value == a[..k] + [v] + a[k..]
  {
    if 0 <= |a| + idx && idx <= |a| then
      var k := if idx < 0 then |a| + idx else idx;
      Some(a[..k] + [v] + a[k..])
    else None
  }

  /** Popping at the index ARRINDEX reports removes the first occurrence of
      the value. */
  lemma PopFound(a: seq<string>, v: string)
    requires v in a
    ensures var i := ArrIndex(a, v);
      ArrPop(a, i) == (Some(v), a[..i] + a[i+1..])
  {
  }

  /** Popping at the index ARRINDEX reports for an absent value pops the LAST
      element instead, since ARRINDEX answers -1. */
  lemma {:induction false} PopAbsentDropsLast(a: seq<string>, v: string)
    requires v !in a && a != []
    ensures ArrPop(a, ArrIndex(a, v)) == (Some(a[|a| - 1]), a[..|a| - 1])
  {
    assert ArrIndex(a, v) == -1;
    assert PopIndex(|a|, -1) == |a| - 1;
    assert a[..|a| - 1] + a[|a|..] == a[..|a| - 1];
  }

  /** Popping a present name from a duplicate-free index and inserting it
      again at `pos` is the placement the local backend computes. */
  lemma PopInsertIsPlaced(a: seq<string>, v: string, pos: nat)
    requires Distinct(a) && v in a && pos < |a|
    ensures var rest := ArrPop(a, ArrIndex(a, v)).1;
      && rest == Without(a, v)
      && ArrInsert(rest, pos, v) == Some(rest[..pos] + [v] + rest[pos..])
  {
    var i := ArrIndex(a, v);
    WithoutAt(a, i);
  }
}
