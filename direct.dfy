/** The local backend of division/storage/direct.py: an insertion-ordered map
    from names to items (the key order is the display order), and the
    group-for-all list computed from it. Writing the file is not modelled;
    `savedNames`/`savedItems` record what the last `_save` would have written. */
module Direct {
  import opened Common
  import opened Entities
  import opened DisplayOrder

  class DirectStorage {
    const kind: StoreKind
    /** The key order of the ordered dictionary. */
    var names: seq<string>
    var items: map<string, Item>
    /** The snapshot that the last `_save` wrote. */
    ghost var savedNames: seq<string>
    ghost var savedItems: map<string, Item>

    ghost predicate Valid()
      reads this
    {
      Distinct(names) && forall n :: n in names <==> n in items
    }

    /** The file holds the current contents. */
    ghost predicate Saved()
      reads this
    {
      savedNames == names && savedItems == items
    }

    constructor (kind: StoreKind)
      ensures Valid() && this.kind == kind && names == [] && items == map[]
    {
      this.kind := kind;
      names, items := [], map[];
      savedNames, savedItems := [], map[];
    }

    ghost method Save()
      modifies this`savedNames, this`savedItems
      ensures Saved()
    {
      savedNames, savedItems := names, items;
    }

    /** `get`: the item, or `None` when the name is not stored. */
    function Get(name: string): (r: Option<Item>)
      reads this
      requires Valid()
      ensures r.Some? <==> name in names
      ensures r.Some? ==> r.value == items[name]
    {
      if name in items then Some(items[name]) else None
    }

    /** `contains`: the name is one of the display-order keys. */
    function Contains(name: string): (r: bool)
      reads this
      requires Valid()
      ensures r <==> name in names
    {
      name in items
    }

    /** `get_all_names`: the keys in display order, each once. */
    function GetAllNames(): (r: seq<string>)
      reads this
      requires Valid()
      ensures r == names
      ensures forall n :: n in r <==> n in items
    {
      names
    }

    /** `add_item`: a stored name is left alone; a new one goes to the end of
        the display order for groups and to the front for players. */
    method AddItem(name: string, item: Item) returns (added: bool)
      requires Valid()
      modifies this
      ensures Valid()
      ensures added <==> name !in old(items)
      ensures !added ==>
        names == old(names) && items == old(items) && savedNames == old(savedNames) && savedItems == old(savedItems)
      ensures added ==> items == old(items)[name := item] && Saved()
      ensures added && kind == Groups ==> names == old(names) + [name]
      ensures added && kind == Players ==> names == [name] + old(names)
    {
      if Contains(name) {
        return false;
      }
      items := items[name := item];
      names := names + [name];
      if kind == Players {
        WithoutConcat(old(names), [name], name);
        WithoutAbsent(old(names), name);
        names := MoveToFront(names, name);
      }
      Save();
      added := true;
    }

    /** `pop_item`: `items.pop(name, default=None)`, saved either way. */
    method PopItem(name: string) returns (r: Option<Item>)
      requires Valid()
      modifies this
      ensures Valid()
      ensures r == (if name in old(items) then Some(old(items)[name]) else None)
      ensures items == old(items) - {name}
      ensures names == Without(old(names), name)
      ensures Saved()
    {
      r := Get(name);
      DistinctWithout(names, name);
      if name !in names {
        WithoutAbsent(names, name);
      }
      items := items - {name};
      names := Without(names, name);
      Save();
    }

    /** `for_each(callback)`: every entry in display order becomes what the
        callback makes of it; the dictionary is saved afterwards. */
    method ForEach(f: (string, Item) -> Item)
      requires Valid()
      modifies this
      ensures Valid() && names == old(names)
      ensures items.Keys == old(items).Keys
      ensures forall n :: n in items ==> items[n] == f(n, old(items)[n])
      ensures Saved()
    {
      var i := 0;
      while i < |names|
        invariant 0 <= i <= |names|
        invariant names == old(names) && Valid()
        invariant items.Keys == old(items).Keys
        invariant forall j :: 0 <= j < i ==> items[names[j]] == f(names[j], old(items)[names[j]])
        invariant forall j :: i <= j < |names| ==> items[names[j]] == old(items)[names[j]]
      {
        var n := names[i];
        items := items[n := f(n, items[n])];
        i := i + 1;
      }
      Save();
    }

    /** `change_perm`: raises on an absent name; otherwise only that item's
        permission level changes. */
    method ChangePerm(name: string, level: int) returns (o: Outcome)
      requires Valid()
      modifies this
      ensures Valid() && names == old(names)
      ensures o == (if name in old(items) then Done else Fail(NoSuchItem))
      ensures o.Fail? ==> items == old(items) && savedNames == old(savedNames) && savedItems == old(savedItems)
      ensures o.Done? ==> items == old(items)[name := old(items)[name].(perm := level)] && Saved()
    {
      if name !in items {
        return Fail(NoSuchItem);
      }
      items := items[name := items[name].(perm := level)];
      Save();
      o := Done;
    }

    /** `change_color`: as `change_perm`, for the colour. */
    method ChangeColor(name: string, color: string) returns (o: Outcome)
      requires Valid()
      modifies this
      ensures Valid() && names == old(names)
      ensures o == (if name in old(items) then Done else Fail(NoSuchItem))
      ensures o.Fail? ==> items == old(items) && savedNames == old(savedNames) && savedItems == old(savedItems)
      ensures o.Done? ==> items == old(items)[name := old(items)[name].(color := color)] && Saved()
    {
      if name !in items {
        return Fail(NoSuchItem);
      }
      items := items[name := items[name].(color := color)];
      Save();
      o := Done;
    }

    /** `join`: `Item.join` on the stored item; an absent name makes
        `None.join` raise. */
    method Join(name: string, value: string) returns (r: Result<bool>)
      requires Valid()
      modifies this
      ensures Valid() && names == old(names)
      ensures name !in old(items) ==>
        r == Err(AttributeError) && items == old(items) && savedNames == old(savedNames) && savedItems == old(savedItems)
      ensures name in old(items) ==>
        && r == Ok(old(items)[name].Join(value).0)
        && items == old(items)[name := old(items)[name].Join(value).1]
        && Saved()
    {
      if name !in items {
        return Err(AttributeError);
      }
      var (changed, item) := items[name].Join(value);
      items := items[name := item];
      Save();
      r := Ok(changed);
    }

    /** `leave`: `Item.leave` on the stored item, as `join`. */
    method Leave(name: string, value: string) returns (r: Result<bool>)
      requires Valid()
      modifies this
      ensures Valid() && names == old(names)
      ensures name !in old(items) ==>
        r == Err(AttributeError) && items == old(items) && savedNames == old(savedNames) && savedItems == old(savedItems)
      ensures name in old(items) ==>
        && r == Ok(old(items)[name].Leave(value).0)
        && items == old(items)[name := old(items)[name].Leave(value).1]
        && Saved()
    {
      if name !in items {
        return Err(AttributeError);
      }
      var (changed, item) := items[name].Leave(value);
      items := items[name := item];
      Save();
      r := Ok(changed);
    }

    /** `add_msg`: `Item.add_msg` on the stored item, stamped `now`. */
    method AddMsg(name: string, sender: string, text: string, now: int) returns (o: Outcome)
      requires Valid()
      modifies this
      ensures Valid() && names == old(names)
      ensures o == (if name in old(items) then Done else Fail(AttributeError))
      ensures o.Fail? ==> items == old(items) && savedNames == old(savedNames) && savedItems == old(savedItems)
      ensures o.Done? ==> items == old(items)[name := old(items)[name].AddMsg(sender, text, now)] && Saved()
    {
      if name !in items {
        return Fail(AttributeError);
      }
      items := items[name := items[name].AddMsg(sender, text, now)];
      Save();
      o := Done;
    }

    /** `edit_msg`: `Item.edit_msg` on the stored item. */
    method EditMsg(name: string, line: int, text: string) returns (o: Outcome)
      requires Valid()
      modifies this
      ensures Valid() && names == old(names)
      ensures name !in old(items) ==> o == Fail(AttributeError)
      ensures name in old(items) ==>
        match old(items)[name].EditMsg(line, text)
        case Ok(item) => o == Done && items == old(items)[name := item] && Saved()
        case Err(e) => o == Fail(e)
      ensures o.Fail? ==> items == old(items) && savedNames == old(savedNames) && savedItems == old(savedItems)
    {
      if name !in items {
        return Fail(AttributeError);
      }
      match items[name].EditMsg(line, text)
      case Err(e) =>
        o := Fail(e);
      case Ok(item) =>
        items := items[name := item];
        Save();
        o := Done;
    }

    /** `del_msg`: `Item.del_msg` on the stored item. */
    method DelMsg(name: string, line: int) returns (o: Outcome)
      requires Valid()
      modifies this
      ensures Valid() && names == old(names)
      ensures name !in old(items) ==> o == Fail(AttributeError)
      ensures name in old(items) ==>
        match old(items)[name].DelMsg(line)
        case Ok(item) => o == Done && items == old(items)[name := item] && Saved()
        case Err(e) => o == Fail(e)
      ensures o.Fail? ==> items == old(items) && savedNames == old(savedNames) && savedItems == old(savedItems)
    {
      if name !in items {
        return Fail(AttributeError);
      }
      match items[name].DelMsg(line)
      case Err(e) =>
        o := Fail(e);
      case Ok(item) =>
        items := items[name := item];
        Save();
        o := Done;
    }

    /** `ordered_items(itemList)`: the stored names that occur in `itemList`,
        in display order. */
    method OrderedItems(itemList: seq<string>) returns (r: seq<string>)
      requires Valid()
      ensures r == Filter(names, n => n in itemList)
    {
      r := [];
      var i := 0;
      while i < |names|
        invariant 0 <= i <= |names|
        invariant r == Filter(names[..i], n => n in itemList)
      {
        assert names[..i + 1][..i] == names[..i];
        if names[i] in itemList {
          r := r + [names[i]];
        }
        i := i + 1;
      }
      assert names[..|names|] == names;
    }

    /** `place_item(name, pos)`: raises IndexError unless `name` is stored and
        `pos < size`; otherwise moves `name` to one end and then shifts keys
        across it one at a time until it sits at `pos` (a negative `pos`
        leaves it at the front). The move is not saved. */
    method PlaceItem(name: string, pos: int) returns (o: Outcome)
      requires Valid()
      modifies this`names
      ensures Valid()
      ensures o == (if name in old(names) && pos < |old(names)| then Done else Fail(IndexError))
      ensures o.Fail? ==> names == old(names)
      ensures o.Done? ==>
        |Without(old(names), name)| == |old(names)| - 1 && names == Placed(old(names), name, if pos < 0 then 0 else pos)
    {
      if !(Contains(name) && pos < |names|) {
        return Fail(IndexError);
      }
      PlacedSpec(names, name, if pos < 0 then 0 else pos);
      if 2 * pos < |names| {
        ShiftFromFront(name, pos);
      } else {
        ShiftFromBack(name, pos);
      }
      o := Done;
    }

    /** The `pos < len / 2` branch of `place_item`: move `name` to the front,
        then `pos` times move the key at index `pos` to the front. */
    method ShiftFromFront(name: string, pos: int)
      requires Valid() && name in names && 2 * pos < |names|
      modifies this`names
      ensures |Without(old(names), name)| == |old(names)| - 1
      ensures names == Placed(old(names), name, if pos < 0 then 0 else pos)
    {
      ghost var others := Without(names, name);
      WithoutAt(names, IndexOf(names, name));
      DistinctWithout(names, name);
      names := MoveToFront(names, name);
      var i := 0;
      while i < pos
        invariant 0 <= i
        invariant pos < 0 ==> i == 0 && names == [name] + others
        invariant 0 <= pos ==> i <= pos && names == FrontStage(others, name, pos, i)
      {
        FrontStageStep(others, name, pos, i);
        names := MoveToFront(names, names[pos]);
        i := i + 1;
      }
      FrontStageDone(others, name, if pos < 0 then 0 else pos);
    }

    /** The other branch: move `name` to the back, then `len - pos - 1` times
        move the key at index `pos` to the back. */
    method ShiftFromBack(name: string, pos: int)
      requires Valid() && name in names && 0 <= pos < |names|
      modifies this`names
      ensures |Without(old(names), name)| == |old(names)| - 1
      ensures names == Placed(old(names), name, pos)
    {
      var n := |names|;
      ghost var others := Without(names, name);
      WithoutAt(names, IndexOf(names, name));
      DistinctWithout(names, name);
      names := MoveToEnd(names, name);
      var i := 0;
      EndStageDone(others, name, pos);
      while i < n - pos - 1
        invariant 0 <= i <= n - pos - 1
        invariant names == EndStage(others, name, pos, i)
      {
        EndStageStep(others, name, pos, i);
        names := MoveToEnd(names, names[pos]);
        i := i + 1;
      }
    }

    /** `update_latest_online_time(name)` of the player store: refresh the
        player's timestamp and move it to the front; an absent name makes
        `move_to_end` raise KeyError. */
    method UpdateLatestOnlineTime(name: string, now: int) returns (o: Outcome)
      requires Valid() && kind == Players
      modifies this
      ensures Valid()
      ensures o == (if name in old(items) then Done else Fail(KeyError))
      ensures o.Fail? ==>
        names == old(names) && items == old(items) && savedNames == old(savedNames) && savedItems == old(savedItems)
      ensures o.Done? ==>
        && names == MoveToFront(old(names), name)
        && items == old(items)[name := if old(items)[name].kind.PlayerKind?
                                      then old(items)[name].UpdateLatestOnlineTime(now)
                                      else old(items)[name]]
        && Saved()
    {
      if name in items && items[name].kind.PlayerKind? {
        items := items[name := items[name].UpdateLatestOnlineTime(now)];
      }
      if name !in items {
        return Fail(KeyError);
      }
      MoveToFrontAt(names, IndexOf(names, name));
      names := MoveToFront(names, name);
      Save();
      o := Done;
    }
  }

  /** The order after `i` rounds of `place_item`'s front loop: the last `i`
      keys before `pos` have been brought round to the front, ahead of `name`. */
  ghost function FrontStage(others: seq<string>, name: string, pos: nat, i: nat): seq<string>
    requires i <= pos <= |others|
  {
    others[pos - i..pos] + [name] + others[..pos - i] + others[pos..]
  }

  lemma FrontStageStep(others: seq<string>, name: string, pos: nat, i: nat)
    requires Distinct(others) && name !in others && i < pos <= |others|
    ensures var s := FrontStage(others, name, pos, i);
      pos < |s| && Distinct(s) && MoveToFront(s, s[pos]) == FrontStage(others, name, pos, i + 1)
  {
    var s := FrontStage(others, name, pos, i);
    assert s[pos] == others[pos - i - 1];
    forall a, b | 0 <= a < b < |s| ensures s[a] != s[b] {
      var a' := if a < i then pos - i + a else if a == i then -1 else if a <= pos then a - i - 1 else a - 1;
      var b' := if b < i then pos - i + b else if b == i then -1 else if b <= pos then b - i - 1 else b - 1;
      if a != i && b != i {
        assert s[a] == others[a'] && s[b] == others[b'];
      }
    }
    MoveToFrontAt(s, pos);
    assert s[..pos] == others[pos - i..pos] + [name] + others[..pos - i - 1];
    assert s[pos + 1..] == others[pos..];
    assert others[pos - i - 1..pos] == [others[pos - i - 1]] + others[pos - i..pos];
  }

  lemma FrontStageDone(others: seq<string>, name: string, pos: nat)
    requires pos <= |others|
    ensures FrontStage(others, name, pos, pos) == others[..pos] + [name] + others[pos..]
    ensures FrontStage(others, name, pos, 0) == [name] + others
  {
    assert others[..0] == [] && others[0..pos] == others[..pos];
    assert others[pos - 0..pos] == [] && others[..pos - 0] + others[pos..] == others;
  }

  /** The order after `i` rounds of `place_item`'s back loop: the first `i`
      keys from `pos` on have been brought round to the back, behind `name`. */
  ghost function EndStage(others: seq<string>, name: string, pos: nat, i: nat): seq<string>
    requires pos + i <= |others|
  {
    others[..pos] + others[pos + i..] + [name] + others[pos..pos + i]
  }

  lemma EndStageStep(others: seq<string>, name: string, pos: nat, i: nat)
    requires Distinct(others) && name !in others && pos + i < |others|
    ensures var s := EndStage(others, name, pos, i);
      pos < |s| && Distinct(s) && MoveToEnd(s, s[pos]) == EndStage(others, name, pos, i + 1)
  {
    var s := EndStage(others, name, pos, i);
    var m := |others|;
    assert s[pos] == others[pos + i];
    forall a, b | 0 <= a < b < |s| ensures s[a] != s[b] {
      var a' := if a < pos then a else if a < m - i then a + i else if a == m - i then -1 else a - (m - i) - 1 + pos;
      var b' := if b < pos then b else if b < m - i then b + i else if b == m - i then -1 else b - (m - i) - 1 + pos;
      if a != m - i && b != m - i {
        assert s[a] == others[a'] && s[b] == others[b'];
      }
    }
    MoveToEndAt(s, pos);
    assert s[pos + 1..] == others[pos + i + 1..] + [name] + others[pos..pos + i];
    assert others[pos..pos + i + 1] == others[pos..pos + i] + [others[pos + i]];
  }

  lemma EndStageDone(others: seq<string>, name: string, pos: nat)
    requires pos <= |others|
    ensures EndStage(others, name, pos, |others| - pos) == others[..pos] + [name] + others[pos..]
    ensures EndStage(others, name, pos, 0) == others + [name]
  {
    assert others[|others|..] == [] && others[pos..pos + (|others| - pos)] == others[pos..];
    assert others[pos..pos] == [] && others[..pos] + others[pos..] == others;
  }

  /** The groups whose membership list holds GROUP_OF_ALL, in display order. */
  function GroupsForAll(names: seq<string>, items: map<string, Item>): (r: seq<string>)
    requires forall n :: n in names ==> n in items
  {
    Filter(names, n => n in items && items[n].kind.GroupKind? && items[n].InList(GroupOfAll))
  }

  class DirectOtherStorage {
    var groupForAll: seq<string>

    ghost predicate Valid()
      reads this
    {
      Distinct(groupForAll)
    }

    /** The constructor scans the group store with `for_each` (which also saves
        it) and collects the groups that hold GROUP_OF_ALL. */
    constructor (groups: DirectStorage)
      requires groups.Valid()
      modifies groups`savedNames, groups`savedItems
      ensures Valid()
      ensures groupForAll == GroupsForAll(groups.names, groups.items)
      ensures groups.Saved()
    {
      var acc: seq<string> := [];
      var i := 0;
      while i < |groups.names|
        invariant 0 <= i <= |groups.names|
        invariant acc == GroupsForAll(groups.names[..i], groups.items)
      {
        assert groups.names[..i + 1][..i] == groups.names[..i];
        var n := groups.names[i];
        var group := groups.items[n];
        if group.kind.GroupKind? && group.InList(GroupOfAll) {
          acc := acc + [n];
        }
        i := i + 1;
      }
      assert groups.names[..|groups.names|] == groups.names;
      var items := groups.items;
      FilterKeepsOrder(groups.names, n => n in items && items[n].kind.GroupKind? && items[n].InList(GroupOfAll));
      groupForAll := acc;
      groups.Save();
    }

    /** `get_group_for_all`. */
    function GetGroupForAll(): (r: seq<string>)
      reads this
      requires Valid()
      ensures Distinct(r)
    {
      groupForAll
    }

    /** `add_group_for_all`: appends the name only when it is absent, so the
        list stays a set. */
    method AddGroupForAll(name: string)
      requires Valid()
      modifies this
      ensures Valid()
      ensures groupForAll == if name in old(groupForAll) then old(groupForAll) else old(groupForAll) + [name]
    {
      if name !in groupForAll {
        groupForAll := groupForAll + [name];
      }
    }

    /** `remove_group_for_all` as written: the guard is inverted, so a present
        name stays and an absent one makes `list.remove` raise. */
    method RemoveGroupForAll(name: string) returns (o: Outcome)
      requires Valid()
      modifies this
      ensures Valid()
      ensures groupForAll == old(groupForAll)
      ensures o == (if name in old(groupForAll) then Done else Fail(ValueError))
    {
      if name !in groupForAll {
        return Fail(ValueError);
      }
      o := Done;
    }

    /** `remove_group_for_all` with the guard the right way round: a present
        name is removed, the rest keep their order, and nothing raises. */
    method RemoveGroupForAllFixed(name: string)
      requires Valid()
      modifies this
      ensures Valid()
      ensures name !in groupForAll
      ensures groupForAll == Without(old(groupForAll), name)
    {
      DistinctWithout(groupForAll, name);
      if name in groupForAll {
        var k := IndexOf(groupForAll, name);
        WithoutAt(groupForAll, k);
        groupForAll := groupForAll[..k] + groupForAll[k + 1..];
      } else {
        WithoutAbsent(groupForAll, name);
      }
    }
  }

  /** A group that newly gained GROUP_OF_ALL, and then loses it again: with
      the inverted guard it stays in the group-for-all list. */
  method RemoveGroupForAllKeepsGroup() returns (after: seq<string>)
    ensures after == ["vip"]
  {
    var groups := new DirectStorage(Groups);
    var other := new DirectOtherStorage(groups);
    other.AddGroupForAll("vip");
    var o := other.RemoveGroupForAll("vip");
    after := other.groupForAll;
  }
}
