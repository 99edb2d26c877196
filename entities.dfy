/** The entity model of division/storage/storage.py: messages, and the items
    (groups and players) that own a permission level, a colour, a message log
    and a membership list. An item is a value here; the in-place methods of
    the Python classes are member functions that return the updated item. */
module Entities {
  import opened Common
  import opened Bisect

  /** The marker id meaning "every player is a member". */
  const GroupOfAll: string := "@all"

  /** Which of the two stores: groups, or players (whose display order is
      most-recently-active first). */
  datatype StoreKind = Groups | Players

  /** The configuration values that the core reads. */
  datatype Config = Config(
    itemPerPage: int,
    defaultColor: string,
    defaultSender: string,
    msgForNewPlayer: string)

  datatype Msg = Msg(time: int, sender: string, text: string) {
    /** `Msg.set_sender`: only the sender changes. */
    function SetSender(sender: string): (m: Msg)
      ensures m.sender == sender && m.time == time && m.text == text
    {
      this.(sender := sender)
    }
  }

  /** `Group` has no fields of its own; `Player` adds an IP and the time it
      was last seen online. */
  datatype Kind = GroupKind | PlayerKind(ip: string, latestOnlineTime: int)

  datatype Item = Item(perm: int, color: string, msg: seq<Msg>, list: seq<string>, kind: Kind) {

    /** `Item.add_msg`, stamped with the clock value `now`. */
    function AddMsg(sender: string, text: string, now: int): (r: Item)
      ensures |r.msg| == |msg| + 1 && r.msg[..|msg|] == msg
      ensures r.msg[|msg|] == Msg(now, sender, text)
      ensures r == this.(msg := r.msg)
    {
      this.(msg := msg + [Msg(now, sender, text)])
    }

    /** `Item.del_msg`: `msg.pop(idx)`, with Python's negative indices. */
    function DelMsg(idx: int): (r: Result<Item>)
      ensures r.Ok? <==> PyIndex(idx, |msg|).Some?
      ensures r.Err? ==> r.error == IndexError
      ensures r.Ok? ==>
        var k := PyIndex(idx, |msg|).value;
        && |r.value.msg| == |msg| - 1
        && (forall j :: 0 <= j < k ==> r.value.msg[j] == msg[j])
        && (forall j :: k <= j < |msg| - 1 ==> r.value.msg[j] == msg[j + 1])
        && r.value == this.(msg := r.value.msg)
    {
      match PyIndex(idx, |msg|)
      case None => Err(IndexError)
      case Some(k) => Ok(this.(msg := msg[..k] + msg[k+1..]))
    }

    /** `Item.edit_msg`: `msg[idx].text = text`, with Python's negative indices. */
    function EditMsg(idx: int, text: string): (r: Result<Item>)
      ensures r.Ok? <==> PyIndex(idx, |msg|).Some?
      ensures r.Err? ==> r.error == IndexError
      ensures r.Ok? ==>
        var k := PyIndex(idx, |msg|).value;
        && |r.value.msg| == |msg|
        && r.value.msg[k].text == text
        && r.value.msg[k].time == msg[k].time && r.value.msg[k].sender == msg[k].sender
        && (forall j :: 0 <= j < |msg| && j != k ==> r.value.msg[j] == msg[j])
        && r.value == this.(msg := r.value.msg)
    {
      match PyIndex(idx, |msg|)
      case None => Err(IndexError)
      case Some(k) => Ok(this.(msg := msg[k := msg[k].(text := text)]))
    }

    /** `Item.in_list`: the bisect membership test. */
    function InList(value: string): bool {
      Bisect.Contains(list, value)
    }

    /** `Item.join`: the flag, and the item with `value` sort-inserted when
        `InList` did not hold. */
    function Join(value: string): (r: (bool, Item))
      ensures r.1 == this.(list := r.1.list)
      ensures r.0 != InList(value)
    {
      var (changed, l) := Bisect.Insert(list, value);
      (changed, this.(list := l))
    }

    /** `Item.leave`: the flag, and the item with `value` popped when `InList`
        held. */
    function Leave(value: string): (r: (bool, Item))
      ensures r.1 == this.(list := r.1.list)
      ensures r.0 == InList(value)
    {
      var (changed, l) := Bisect.Remove(list, value);
      (changed, this.(list := l))
    }

    /** `Player.update_latest_online_time`, with the clock value `now`. */
    function UpdateLatestOnlineTime(now: int): (r: Item)
      requires kind.PlayerKind?
      ensures r.kind == PlayerKind(kind.ip, now)
      ensures r == this.(kind := r.kind)
    {
      this.(kind := kind.(latestOnlineTime := now))
    }
  }

  /** The log after a `for_each_msg` whose callback maps each message by `f`. */
  function MapMsgs(msgs: seq<Msg>, f: Msg -> Msg): (r: seq<Msg>)
    ensures |r| == |msgs|
    ensures forall i :: 0 <= i < |msgs| ==> r[i] == f(msgs[i])
  {
    if msgs == [] then [] else MapMsgs(msgs[..|msgs| - 1], f) + [f(msgs[|msgs| - 1])]
  }

  /** `Item.for_each_msg(callback)`: visit the log in order, replacing each
      message by what the callback makes of it. */
  method ForEachMsg(item: Item, f: Msg -> Msg) returns (r: Item)
    ensures r.msg == MapMsgs(item.msg, f)
    ensures r == item.(msg := r.msg)
  {
    r := item;
    var i := 0;
    while i < |item.msg|
      invariant 0 <= i <= |item.msg|
      invariant r == item.(msg := r.msg)
      invariant |r.msg| == |item.msg|
      invariant forall j :: 0 <= j < i ==> r.msg[j] == f(item.msg[j])
      invariant forall j :: i <= j < |item.msg| ==> r.msg[j] == item.msg[j]
    {
      r := r.(msg := r.msg[i := f(r.msg[i])]);
      i := i + 1;
    }
  }

  /** The sender rewrite of `handle_default_sender_change`: messages sent by
      `oldName` are now sent by `newName`. */
  function ChangeSender(oldName: string, newName: string): Msg -> Msg {
    (m: Msg) => if m.sender == oldName then m.SetSender(newName) else m
  }

  /** The item whose messages from `oldName` now come from `newName`. */
  function RenameSender(item: Item, oldName: string, newName: string): (r: Item)
    ensures r == item.(msg := r.msg) && |r.msg| == |item.msg|
    ensures forall i :: 0 <= i < |item.msg| ==>
      r.msg[i] == (if item.msg[i].sender == oldName then item.msg[i].(sender := newName) else item.msg[i])
  {
    item.(msg := MapMsgs(item.msg, ChangeSender(oldName, newName)))
  }

  /** `build_player(ip)` as written: the membership list is whatever
      `get_group_for_all()` returned (`None` when that call raised), in its own
      order; `now` is the clock value. */
  function BuildPlayer(cfg: Config, groupForAll: Option<seq<string>>, ip: string, now: int): (r: Item)
    ensures r.perm == -1 && r.color == cfg.defaultColor && r.kind == PlayerKind(ip, now)
    ensures r.list == (if groupForAll.Some? then groupForAll.value else [])
    ensures cfg.msgForNewPlayer != "" ==> r.msg == [Msg(now, cfg.defaultSender, cfg.msgForNewPlayer)]
    ensures cfg.msgForNewPlayer == "" ==> r.msg == []
  {
    var player := Item(-1, cfg.defaultColor, [], match groupForAll case Some(l) => l case None => [], PlayerKind(ip, now));
    if cfg.msgForNewPlayer != "" then player.AddMsg(cfg.defaultSender, cfg.msgForNewPlayer, now) else player
  }

  /** The player's membership list when the group-for-all list is in append
      order: a member is missed by `in_list`, and joining it again adds a
      duplicate, so the list is no longer a set. */
  lemma BuildPlayerMissesMember(cfg: Config, ip: string, now: int)
    ensures var p := BuildPlayer(cfg, Some(["broadcast", "alpha"]), ip, now);
      && "alpha" in p.list
      && !p.InList("alpha")
      && p.Join("alpha").0
      && p.Join("alpha").1.list == ["alpha", "broadcast", "alpha"]
  {
    var s := ["broadcast", "alpha"];
    assert !Order.Less("alpha", "alpha") by { Order.Irreflexive("alpha"); }
    assert !Order.Less("broadcast", "alpha");
    assert BisectLeft(s, "alpha") == 0;
  }

  /** The group-for-all list brought into ascending order by joining its names
      one at a time. */
  function SortedSeed(groups: seq<string>): (r: seq<string>)
    ensures Sorted(r)
    ensures forall g :: g in r <==> g in groups
    decreases |groups|
  {
    if groups == [] then []
    else
      var prefix := SortedSeed(groups[..|groups| - 1]);
      var last := groups[|groups| - 1];
      InsertSorted(prefix, last);
      assert groups == groups[..|groups| - 1] + [last];
      Bisect.Insert(prefix, last).1
  }

  /** `build_player` with the seed list sorted, so that the membership list is a
      sorted set from the start and `in_list` answers membership. */
  function BuildPlayerSorted(cfg: Config, groupForAll: Option<seq<string>>, ip: string, now: int): (r: Item)
    ensures r.perm == -1 && r.color == cfg.defaultColor && r.kind == PlayerKind(ip, now)
    ensures Sorted(r.list)
    ensures forall g :: g in r.list <==> groupForAll.Some? && g in groupForAll.value
    ensures forall g :: r.InList(g) <==> groupForAll.Some? && g in groupForAll.value
    ensures cfg.msgForNewPlayer != "" ==> r.msg == [Msg(now, cfg.defaultSender, cfg.msgForNewPlayer)]
    ensures cfg.msgForNewPlayer == "" ==> r.msg == []
  {
    var seed := match groupForAll case Some(l) => Some(SortedSeed(l)) case None => None;
    var r := BuildPlayer(cfg, seed, ip, now);
    assert Sorted(r.list);
    assert forall g :: r.InList(g) <==> g in r.list by {
      forall g ensures r.InList(g) <==> g in r.list { ContainsSorted(r.list, g); }
    }
    r
  }

  /** `Item.in_list` on a sorted list is linear membership. */
  lemma InListSorted(item: Item, value: string)
    requires Sorted(item.list)
    ensures item.InList(value) <==> value in item.list
  {
    ContainsSorted(item.list, value);
  }

  /** `Item.join` on a sorted list: true exactly when `value` was absent;
      the list stays sorted and gains `value` and nothing else. */
  lemma JoinSorted(item: Item, value: string)
    requires Sorted(item.list)
    ensures var (changed, after) := item.Join(value);
      && (changed <==> value !in item.list)
      && Sorted(after.list)
      && value in after.list
      && multiset(after.list) == multiset(item.list) + (if changed then multiset{value} else multiset{})
      && after == item.(list := after.list)
  {
    InsertSorted(item.list, value);
  }

  /** `Item.leave` on a sorted list: true exactly when `value` was present;
      the list stays sorted, loses `value` and keeps everything else. */
  lemma LeaveSorted(item: Item, value: string)
    requires Sorted(item.list)
    ensures var (changed, after) := item.Leave(value);
      && (changed <==> value in item.list)
      && Sorted(after.list)
      && value !in after.list
      && multiset(after.list) == multiset(item.list) - multiset{value}
      && after == item.(list := after.list)
  {
    RemoveSorted(item.list, value);
  }

  /** The membership the sorted-set join leaves: the old members and `value`. */
  lemma JoinSortedMembers(item: Item, value: string)
    requires Sorted(item.list)
    ensures Sorted(item.Join(value).1.list)
    ensures forall x :: x in item.Join(value).1.list <==> x in item.list || x == value
  {
    JoinSorted(item, value);
    var after := item.Join(value).1;
    forall x ensures x in after.list <==> x in item.list || x == value {
      assert x in after.list <==> x in multiset(after.list);
      assert x in item.list <==> x in multiset(item.list);
    }
  }

  /** The membership the sorted-set leave leaves: the old members but `value`. */
  lemma LeaveSortedMembers(item: Item, value: string)
    requires Sorted(item.list)
    ensures Sorted(item.Leave(value).1.list)
    ensures forall x :: x in item.Leave(value).1.list <==> x in item.list && x != value
  {
    LeaveSorted(item, value);
    var after := item.Leave(value).1;
    forall x ensures x in after.list <==> x in item.list && x != value {
      assert x in after.list <==> x in multiset(after.list);
      assert x in item.list <==> x in multiset(item.list);
      if x in item.list && x != value {
        assert multiset(item.list)[x] >= 1;
      }
    }
  }
}
