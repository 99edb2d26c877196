/** The remote backend of division/storage/redis_s.py. The remote store is
    represented by its two parts: the name-index array held under the bare
    prefix key (`index`) and the per-entity documents under prefix + name
    (`docs`). Every method changes them one RedisJSON command at a time, in the
    order the source issues the commands; nothing ties the two together. */
module Redis {
  import opened Common
  import opened Entities
  import opened DisplayOrder
  import opened RedisJson
  import Bisect

  /** `for_each` over a snapshot of the index: each listed name's document is
      fetched, passed through the callback and written back, so a name listed
      twice is visited twice. A listed name without a document stops the walk. */
  function ApplyEach(names: seq<string>, docs: map<string, Item>, f: (string, Item) -> Item): (r: Result<map<string, Item>>)
    ensures r.Ok? <==> forall n :: n in names ==> n in docs
    ensures r.Err? ==> r.error == AttributeError
    ensures r.Ok? ==> r.value.Keys == docs.Keys
    ensures r.Ok? ==> forall n :: n in docs && n !in names ==> r.value[n] == docs[n]
  {
    if names == [] then Ok(docs)
    else if names[0] !in docs then Err(AttributeError)
    else
      var docs' := docs[names[0] := f(names[0], docs[names[0]])];
      assert docs'.Keys == docs.Keys;
      assert forall n :: n in names <==> n == names[0] || n in names[1..];
      ApplyEach(names[1..], docs', f)
  }

  /** On a duplicate-free index, the remote `for_each` maps every listed
      document through the callback exactly once, as the local one does. */
  lemma {:induction false} ApplyEachOnce(names: seq<string>, docs: map<string, Item>, f: (string, Item) -> Item)
    requires Distinct(names) && forall n :: n in names ==> n in docs
    ensures ApplyEach(names, docs, f).Ok?
    ensures forall n :: n in names ==> ApplyEach(names, docs, f).value[n] == f(n, docs[n])
  {
    if names != [] {
      var m := names[0];
      var docs' := docs[m := f(m, docs[m])];
      assert Distinct(names[1..]) by {
        forall i, j | 0 <= i < j < |names| - 1 ensures names[1..][i] != names[1..][j] {
          assert names[1..][i] == names[i + 1] && names[1..][j] == names[j + 1];
        }
      }
      assert m !in names[1..];
      ApplyEachOnce(names[1..], docs', f);
      forall n | n in names ensures ApplyEach(names, docs, f).value[n] == f(n, docs[n]) {
        if n != m {
          assert n in names[1..];
        }
      }
    }
  }

  /** The walk over a longer index is the walk over the shorter one followed
      by one more fetch, call back and write. */
  lemma {:induction false} ApplyEachSnoc(names: seq<string>, n: string, docs: map<string, Item>, f: (string, Item) -> Item)
    ensures ApplyEach(names + [n], docs, f) ==
      match ApplyEach(names, docs, f)
      case Err(e) => Err(e)
      case Ok(d) => if n in d then Ok(d[n := f(n, d[n])]) else Err(AttributeError)
    decreases |names|
  {
    if names == [] {
      assert [] + [n] == [n] && [n][1..] == [];
    } else {
      assert (names + [n])[0] == names[0];
      assert (names + [n])[1..] == names[1..] + [n];
      if names[0] in docs {
        ApplyEachSnoc(names[1..], n, docs[names[0] := f(names[0], docs[names[0]])], f);
      }
    }
  }

  /** One fetch, call back and write of the walk, seen from both ends: the
      rest of the walk still arrives at the same result, and the walked
      prefix has grown by the name just written. */
  lemma WalkStep(names: seq<string>, i: nat, docs0: map<string, Item>, docs: map<string, Item>, f: (string, Item) -> Item)
    requires i < |names| && names[i] in docs
    requires ApplyEach(names, docs0, f) == ApplyEach(names[i..], docs, f)
    requires ApplyEach(names[..i], docs0, f) == Ok(docs)
    ensures var d := docs[names[i] := f(names[i], docs[names[i]])];
      && ApplyEach(names, docs0, f) == ApplyEach(names[i + 1..], d, f)
      && ApplyEach(names[..i + 1], docs0, f) == Ok(d)
  {
    assert names[i..][1..] == names[i + 1..];
    assert names[..i + 1] == names[..i] + [names[i]];
    ApplyEachSnoc(names[..i], names[i], docs0, f);
  }

  class RedisStorage {
    const kind: StoreKind
    /** The name-index array under the prefix key (`g-` or `p-`). */
    var index: seq<string>
    /** The entity documents under prefix + name. */
    var docs: map<string, Item>
    /** Whether the constructor had to create the index. */
    const firstLoad: bool

    /** `RedisStorage.__init__` against the remote state found: an index
        (`None` when the prefix key does not exist, which creates it empty) and
        the documents. */
    constructor (kind: StoreKind, existing: Option<seq<string>>, docs: map<string, Item>)
      ensures this.kind == kind && this.docs == docs
      ensures index == (if existing.Some? then existing.value else [])
      ensures firstLoad == existing.None?
    {
      this.kind := kind;
      this.docs := docs;
      match existing
      case None =>
        index := [];
        firstLoad := true;
      case Some(a) =>
        index := a;
        firstLoad := false;
    }

    /** `get`: the document, whether or not the index lists the name. */
    function Get(name: string): (r: Option<Item>)
      reads this
      ensures r.Some? <==> name in docs
      ensures r.Some? ==> r.value == docs[name]
    {
      if name in docs then Some(docs[name]) else None
    }

    /** `contains`: the document exists AND the index lists the name. */
    function Contains(name: string): (r: bool)
      reads this
      ensures r <==> name in docs && name in index
    {
      name in docs && name in index
    }

    /** `get_all_names`: the index array. */
    function GetAllNames(): (r: seq<string>)
      reads this
      ensures |r| == |index| && forall i :: 0 <= i < |r| ==> r[i] == index[i]
    {
      index
    }

    /** `set`: append the name to the index unless `contains` holds, then
        write the document. */
    method Set(name: string, item: Item)
      modifies this
      ensures docs == old(docs)[name := item]
      ensures index == if old(Contains(name)) then old(index) else old(index) + [name]
    {
      if !Contains(name) {
        index := index + [name];
      }
      docs := docs[name := item];
    }

    /** `add_item`: nothing changes when `contains` holds. Otherwise a group
        is appended to the index and a player inserted at its front, and the
        document is written. */
    method AddItem(name: string, item: Item) returns (added: bool)
      modifies this
      ensures added <==> !old(Contains(name))
      ensures !added ==> index == old(index) && docs == old(docs)
      ensures added ==> docs == old(docs)[name := item]
      ensures added && kind == Groups ==> index == old(index) + [name]
      ensures added && kind == Players ==> index == [name] + old(index)
    {
      if Contains(name) {
        return false;
      }
      if kind == Groups {
        Set(name, item);
      } else {
        if !Contains(name) {
          index := ArrInsert(index, 0, name).value;
        }
        docs := docs[name := item];
      }
      added := true;
    }

    /** `pop_item`: pop the index at ARRINDEX of the name, read the document,
        delete it. On a name the index does not list, ARRINDEX answers -1 and
        the LAST name is popped instead. */
    method PopItem(name: string) returns (r: Option<Item>)
      modifies this
      ensures r == old(Get(name))
      ensures docs == old(docs) - {name}
      ensures name in old(index) ==>
        var i := IndexOf(old(index), name);
        index == old(index)[..i] + old(index)[i + 1..]
      ensures name !in old(index) ==>
        index == if old(index) == [] then [] else old(index)[..|old(index)| - 1]
      ensures Distinct(old(index)) && name in old(index) ==> index == Without(old(index), name)
    {
      if name !in index && index != [] {
        PopAbsentDropsLast(index, name);
      }
      if Distinct(index) && name in index {
        WithoutAt(index, IndexOf(index, name));
      }
      index := ArrPop(index, ArrIndex(index, name)).1;
      r := Get(name);
      docs := docs - {name};
    }

    /** `for_each(callback)`: over the index as it stood, get, call back, set. */
    method ForEach(f: (string, Item) -> Item) returns (o: Outcome)
      modifies this
      ensures index == old(index)
      ensures o.Done? <==> ApplyEach(old(index), old(docs), f).Ok?
      ensures o.Done? ==> docs == ApplyEach(old(index), old(docs), f).value
      ensures o.Fail? ==> o.error == AttributeError
      ensures o.Fail? ==>
        exists k :: 0 <= k < |old(index)| && old(index)[k] !in old(docs) && ApplyEach(old(index)[..k], old(docs), f) == Ok(docs)
    {
      var names := index;
      var i := 0;
      while i < |names|
        invariant 0 <= i <= |names|
        invariant index == names == old(index)
        invariant docs.Keys == old(docs).Keys
        invariant ApplyEach(names, old(docs), f) == ApplyEach(names[i..], docs, f)
        invariant ApplyEach(names[..i], old(docs), f) == Ok(docs)
      {
        var n := names[i];
        if n !in docs {
          assert names[i] !in old(docs);
          assert names[i..][0] == n;
          return Fail(AttributeError);
        }
        WalkStep(names, i, old(docs), docs, f);
        var item := Get(n).value;
        item := f(n, item);
        Set(n, item);
        i := i + 1;
      }
      o := Done;
    }

    /** `change_perm`: JSON.SET on the `.perm` path, refused when the
        document does not exist. */
    method ChangePerm(name: string, level: int) returns (o: Outcome)
      modifies this
      ensures index == old(index)
      ensures o == (if name in old(docs) then Done else Fail(RemoteError))
      ensures o.Fail? ==> docs == old(docs)
      ensures o.Done? ==> docs == old(docs)[name := old(docs)[name].(perm := level)]
    {
      if name !in docs {
        return Fail(RemoteError);
      }
      docs := docs[name := docs[name].(perm := level)];
      o := Done;
    }

    /** `change_color`: JSON.SET on the `.color` path. */
    method ChangeColor(name: string, color: string) returns (o: Outcome)
      modifies this
      ensures index == old(index)
      ensures o == (if name in old(docs) then Done else Fail(RemoteError))
      ensures o.Fail? ==> docs == old(docs)
      ensures o.Done? ==> docs == old(docs)[name := old(docs)[name].(color := color)]
    {
      if name !in docs {
        return Fail(RemoteError);
      }
      docs := docs[name := docs[name].(color := color)];
      o := Done;
    }

    /** `join`: fetch the document's list, run the bisect insertion on the
        copy, and write the list back only when it changed. A missing document
        makes `len(None)` raise. */
    method Join(name: string, value: string) returns (r: Result<bool>)
      modifies this
      ensures index == old(index)
      ensures name !in old(docs) ==> r == Err(TypeError) && docs == old(docs)
      ensures name in old(docs) ==>
        && r == Ok(old(docs)[name].Join(value).0)
        && docs == old(docs)[name := old(docs)[name].Join(value).1]
      ensures r == Ok(false) ==> docs == old(docs)
    {
      if name !in docs {
        return Err(TypeError);
      }
      var lst := docs[name].list;
      var (changed, l) := Bisect.Insert(lst, value);
      if changed {
        docs := docs[name := docs[name].(list := l)];
      }
      r := Ok(changed);
    }

    /** `leave`: as `join`, with the bisect removal. */
    method Leave(name: string, value: string) returns (r: Result<bool>)
      modifies this
      ensures index == old(index)
      ensures name !in old(docs) ==> r == Err(TypeError) && docs == old(docs)
      ensures name in old(docs) ==>
        && r == Ok(old(docs)[name].Leave(value).0)
        && docs == old(docs)[name := old(docs)[name].Leave(value).1]
      ensures r == Ok(false) ==> docs == old(docs)
    {
      if name !in docs {
        return Err(TypeError);
      }
      var lst := docs[name].list;
      var (changed, l) := Bisect.Remove(lst, value);
      if changed {
        docs := docs[name := docs[name].(list := l)];
      }
      r := Ok(changed);
    }

    /** `add_msg`: JSON.ARRAPPEND of a message stamped `now` to `.msg`. */
    method AddMsg(name: string, sender: string, text: string, now: int) returns (o: Outcome)
      modifies this
      ensures index == old(index)
      ensures o == (if name in old(docs) then Done else Fail(RemoteError))
      ensures o.Fail? ==> docs == old(docs)
      ensures o.Done? ==> docs == old(docs)[name := old(docs)[name].AddMsg(sender, text, now)]
    {
      if name !in docs {
        return Fail(RemoteError);
      }
      var item := docs[name];
      docs := docs[name := item.(msg := item.msg + [Msg(now, sender, text)])];
      o := Done;
    }

    /** `edit_msg`: JSON.SET on `.msg[line].text`; a negative line counts from
        the end, and a line outside the log is refused. */
    method EditMsg(name: string, line: int, text: string) returns (o: Outcome)
      modifies this
      ensures index == old(index)
      ensures o.Done? <==> name in old(docs) && PyIndex(line, |old(docs)[name].msg|).Some?
      ensures o.Fail? ==> o.error == RemoteError && docs == old(docs)
      ensures o.Done? ==> docs == old(docs)[name := old(docs)[name].EditMsg(line, text).value]
    {
      if name !in docs {
        return Fail(RemoteError);
      }
      var item := docs[name];
      match PyIndex(line, |item.msg|)
      case None =>
        o := Fail(RemoteError);
      case Some(k) =>
        docs := docs[name := item.(msg := item.msg[k := item.msg[k].(text := text)])];
        o := Done;
    }

    /** `del_msg`: JSON.ARRPOP on `.msg` at `line`. Unlike the local backend a
        line past either end pops the message at that end, and an empty log is
        left as it is. */
    method DelMsg(name: string, line: int) returns (o: Outcome)
      modifies this
      ensures index == old(index)
      ensures o == (if name in old(docs) then Done else Fail(RemoteError))
      ensures o.Fail? ==> docs == old(docs)
      ensures o.Done? ==>
        var item := old(docs)[name];
        docs == old(docs)[name := item.(msg := ArrPop(item.msg, line).1)]
      ensures o.Done? && PyIndex(line, |old(docs)[name].msg|).Some? ==>
        docs == old(docs)[name := old(docs)[name].DelMsg(line).value]
    {
      if name !in docs {
        return Fail(RemoteError);
      }
      var item := docs[name];
      docs := docs[name := item.(msg := ArrPop(item.msg, line).1)];
      o := Done;
    }

    /** `ordered_items(itemList)`: the listed names that occur in `itemList`,
        in index order. */
    method OrderedItems(itemList: seq<string>) returns (r: seq<string>)
      ensures r == Filter(index, n => n in itemList)
    {
      var names := GetAllNames();
      assert names == index;
      r := [];
      var i := 0;
      while i < |names|
        invariant 0 <= i <= |names|
        invariant r == Filter(names[..i], n => n in itemList)
      {
        assert names[..i + 1][..i] == names[..i];
        if names[i] in itemList {
          r := r + [names[i]];
        }
        i := i + 1;
      }
      assert names[..|names|] == names;
    }

    /** `place_item(name, pos)`: refused unless `contains` holds; then the name
        is popped from the index and inserted again at `pos`. A `pos` that
        ARRINSERT refuses leaves the name out of the index. */
    method PlaceItem(name: string, pos: int) returns (o: Outcome)
      modifies this`index
      ensures !old(Contains(name)) ==> o == Fail(NoSuchItem) && index == old(index)
      ensures old(Contains(name)) ==>
        var i := IndexOf(old(index), name);
        var rest := old(index)[..i] + old(index)[i + 1..];
        match ArrInsert(rest, pos, name)
        case Some(a) => o == Done && index == a
        case None => o == Fail(RemoteError) && index == rest
      ensures old(Contains(name)) && Distinct(old(index)) && 0 <= pos < |old(index)| ==>
        o == Done && |Without(old(index), name)| == |old(index)| - 1 && index == Placed(old(index), name, pos)
    {
      if !Contains(name) {
        return Fail(NoSuchItem);
      }
      if Distinct(index) && 0 <= pos < |index| {
        PopInsertIsPlaced(index, name, pos);
      }
      index := ArrPop(index, ArrIndex(index, name)).1;
      match ArrInsert(index, pos, name)
      case None =>
        o := Fail(RemoteError);
      case Some(a) =>
        index := a;
        o := Done;
    }

    /** `update_latest_online_time(name)` of the player store: JSON.SET on the
        player's `.latest_online_time`, then the name moved to the front of
        the index. */
    method UpdateLatestOnlineTime(name: string, now: int) returns (o: Outcome)
      requires kind == Players
      modifies this
      ensures name !in old(docs) ==> o == Fail(RemoteError) && index == old(index) && docs == old(docs)
      ensures name in old(docs) ==>
        docs == old(docs)[name := if old(docs)[name].kind.PlayerKind?
                                  then old(docs)[name].UpdateLatestOnlineTime(now)
                                  else old(docs)[name]]
      ensures name in old(docs) ==> index == FrontPopped(old(index), name)
      ensures name in old(docs) ==> (o == Done <==> old(index) != [])
    {
      if name !in docs {
        return Fail(RemoteError);
      }
      var item := docs[name];
      if item.kind.PlayerKind? {
        docs := docs[name := item.UpdateLatestOnlineTime(now)];
      }
      o := RaiseToFront(name);
    }

    /** The index commands of `update_latest_online_time`: pop at ARRINDEX of
        the name, insert what was popped at index 0. An empty index pops
        null, which is refused here. */
    method RaiseToFront(name: string) returns (o: Outcome)
      modifies this`index
      ensures index == FrontPopped(old(index), name)
      ensures o == Done <==> old(index) != []
      ensures o.Fail? ==> o.error == RemoteError
    {
      var (player, rest) := ArrPop(index, ArrIndex(index, name));
      match player
      case None =>
        o := Fail(RemoteError);
      case Some(p) =>
        index := ArrInsert(rest, 0, p).value;
        o := Done;
    }
  }

  /** The index after `update_latest_online_time`'s pop-and-insert. */
  function FrontPopped(index: seq<string>, name: string): seq<string> {
    var (player, rest) := ArrPop(index, ArrIndex(index, name));
    match player
    case None => index
    case Some(p) => [p] + rest
  }

  /** A listed name comes to the front, the others keeping their order; on a
      duplicate-free index that is `move_to_end(name, last=False)`. */
  lemma FrontPoppedListed(index: seq<string>, name: string)
    requires name in index
    ensures var i := IndexOf(index, name);
      FrontPopped(index, name) == [name] + index[..i] + index[i + 1..]
    ensures Distinct(index) ==> FrontPopped(index, name) == MoveToFront(index, name)
  {
    if Distinct(index) {
      WithoutAt(index, IndexOf(index, name));
    }
  }

  /** An unlisted name rotates the LAST name to the front instead. */
  lemma FrontPoppedUnlisted(index: seq<string>, name: string)
    requires name !in index && index != []
    ensures var n := |index|;
      FrontPopped(index, name) == [index[n - 1]] + index[..n - 1]
  {
    PopAbsentDropsLast(index, name);
  }

  class RedisOtherStorage {
    /** The array under the `group_for_all` key. */
    var groupForAll: seq<string>

    /** `RedisOtherStorage.__init__`: create the array empty when the key
        does not exist. */
    constructor (existing: Option<seq<string>>)
      ensures groupForAll == (if existing.Some? then existing.value else [])
    {
      groupForAll := match existing case Some(a) => a case None => [];
    }

    function GetGroupForAll(): (r: seq<string>)
      reads this
      ensures |r| == |groupForAll| && forall i :: 0 <= i < |r| ==> r[i] == groupForAll[i]
    {
      groupForAll
    }

    /** `add_group_for_all`: JSON.ARRAPPEND, with no duplicate check. */
    method AddGroupForAll(name: string)
      modifies this
      ensures groupForAll == old(groupForAll) + [name]
    {
      groupForAll := groupForAll + [name];
    }

    /** `remove_group_for_all`: pop at ARRINDEX, which removes the first
        occurrence, or the last entry when the name is absent. */
    method RemoveGroupForAll(name: string)
      modifies this
      ensures name in old(groupForAll) ==>
        var i := IndexOf(old(groupForAll), name);
        groupForAll == old(groupForAll)[..i] + old(groupForAll)[i + 1..]
      ensures name !in old(groupForAll) ==>
        groupForAll == if old(groupForAll) == [] then [] else old(groupForAll)[..|old(groupForAll)| - 1]
    {
      if name !in groupForAll && groupForAll != [] {
        PopAbsentDropsLast(groupForAll, name);
      }
      groupForAll := ArrPop(groupForAll, ArrIndex(groupForAll, name)).1;
    }
  }
}
