/** The command handlers of division/entry.py that the storage model
    carries: the permission decision of `del_msg`, and the bulk membership
    updates `handle_join_all`, `handle_leave_all` and
    `handle_default_sender_change`, over the local backend. */
module Entry {
  import opened Common
  import opened Entities
  import opened Bisect
  import opened Direct
  import opened Confirmation

  /** The `del_msg` refusal: a player is refused when the item is private
      (perm -1) and not theirs, or the player's level is below the item's perm,
      and in both cases only when the player did not send the message.
      Non-player sources are never refused. */
  predicate DeleteDenied(source: Source, name: string, perm: int, sender: string) {
    && source.PlayerSource?
    && ((perm == -1 && source.player != name) || source.level < perm)
    && source.player != sender
  }

  /** Who may delete: the console, the message's sender, and a player who
      reaches the item's perm, unless the item is private and someone else's. */
  lemma DeleteAllowedExactly(source: Source, name: string, perm: int, sender: string)
    ensures !DeleteDenied(source, name, perm, sender) <==>
      || source.ConsoleSource?
      || source.player == sender
      || (source.level >= perm && (perm != -1 || source.player == name))
  {
  }

  /** How `del_msg` answers a request to delete line `line` of `item`. */
  datatype DelRequest =
    | DelFailed(error: Error)   // the lookup `item.msg[line - 1]` raised
    | DelRefused                // permission denied
    | DelPending(index: int)    // a confirmation is requested for `del_msg(name, index)`

  /** `del_msg(source, name, line)` up to the confirmation request. The line
      is 1-based but looked up with Python indexing, so line 0 names the last
      message and a line past the log fails. */
  function DelMsgRequest(source: Source, name: string, item: Item, line: int): (r: DelRequest)
    ensures r.DelFailed? <==> PyIndex(line - 1, |item.msg|).None?
    ensures r.DelFailed? ==> r.error == IndexError
    ensures r.DelRefused? <==>
      PyIndex(line - 1, |item.msg|).Some? &&
      DeleteDenied(source, name, item.perm, item.msg[PyIndex(line - 1, |item.msg|).value].sender)
    ensures r.DelPending? ==> r.index == line - 1 && item.DelMsg(r.index).Ok?
  {
    match PyIndex(line - 1, |item.msg|)
    case None => DelFailed(IndexError)
    case Some(k) =>
      if DeleteDenied(source, name, item.perm, item.msg[k].sender) then DelRefused
      else DelPending(line - 1)
  }

  /** A confirmed deletion of line `line` in 1 .. |msg| removes exactly that
      message. */
  lemma DelPendingRemovesLine(source: Source, name: string, item: Item, line: int)
    requires 1 <= line <= |item.msg|
    requires DelMsgRequest(source, name, item, line).DelPending?
    ensures item.DelMsg(line - 1).value.msg == item.msg[..line - 1] + item.msg[line..]
  {
  }

  /** Line 0 passes the lookup and names the LAST message. */
  lemma DelLineZeroIsLast(source: Source, name: string, item: Item)
    requires item.msg != [] && !DeleteDenied(source, name, item.perm, item.msg[|item.msg| - 1].sender)
    ensures DelMsgRequest(source, name, item, 0) == DelPending(-1)
    ensures item.DelMsg(-1).value.msg == item.msg[..|item.msg| - 1]
  {
  }

  /** The callback `handle_join_all` passes to the player store. */
  function JoinEach(group: string): (string, Item) -> Item {
    (n: string, v: Item) => v.Join(group).1
  }

  /** The callback `handle_leave_all` builds: a player the group does not list
      explicitly leaves it. */
  function LeaveUnlisted(groupItem: Item, group: string): (string, Item) -> Item {
    (n: string, v: Item) => if groupItem.InList(n) then v else v.Leave(group).1
  }

  /** `handle_join_all(name)`: make the group a group for all. When it newly
      gains GROUP_OF_ALL it is recorded in the group-for-all list and every
      stored player joins it; otherwise no player changes. No display order
      changes. */
  method HandleJoinAll(groups: DirectStorage, others: DirectOtherStorage, players: DirectStorage, name: string)
    returns (r: Result<bool>)
    requires groups.Valid() && others.Valid() && players.Valid()
    requires groups != players
    modifies groups, others, players
    ensures groups.Valid() && others.Valid() && players.Valid()
    ensures groups.names == old(groups.names) && players.names == old(players.names)
    ensures name !in old(groups.items) ==>
      r == Err(AttributeError) && groups.items == old(groups.items) && players.items == old(players.items)
    ensures name in old(groups.items) ==>
      && r == Ok(!old(groups.items)[name].InList(GroupOfAll))
      && groups.items == old(groups.items)[name := old(groups.items)[name].Join(GroupOfAll).1]
    ensures r == Ok(true) ==>
      && others.groupForAll == (if name in old(others.groupForAll) then old(others.groupForAll) else old(others.groupForAll) + [name])
      && players.items.Keys == old(players.items).Keys
      && (forall n :: n in players.items ==> players.items[n] == old(players.items)[n].Join(name).1)
      && (forall n :: n in players.items && Sorted(old(players.items)[n].list) ==>
            name in players.items[n].list && Sorted(players.items[n].list))
    ensures r != Ok(true) ==> players.items == old(players.items) && others.groupForAll == old(others.groupForAll)
  {
    r := groups.Join(name, GroupOfAll);
    if r == Ok(true) {
      others.AddGroupForAll(name);
      EveryPlayerJoins(players, name);
    }
  }

  /** The player step of `handle_join_all`: every stored player joins, and the
      display order stays. */
  method EveryPlayerJoins(players: DirectStorage, name: string)
    requires players.Valid()
    modifies players
    ensures players.Valid()
    ensures players.names == old(players.names)
    ensures players.items.Keys == old(players.items).Keys
    ensures forall n :: n in players.items ==> players.items[n] == old(players.items)[n].Join(name).1
    ensures forall n :: n in players.items && Sorted(old(players.items)[n].list) ==>
      name in players.items[n].list && Sorted(players.items[n].list)
  {
    ghost var before := players.items;
    players.ForEach(JoinEach(name));
    forall n | n in players.items && Sorted(before[n].list)
      ensures name in players.items[n].list && Sorted(players.items[n].list)
    {
      JoinSortedMembers(before[n], name);
    }
  }

  /** `handle_leave_all(name)` as written. When the group loses GROUP_OF_ALL,
      `remove_group_for_all` is called with its inverted guard: a listed group
      stays in the group-for-all list and every player the group does not
      list explicitly leaves it, while an unlisted group raises ValueError,
      which ends the handler before any player changes. The group consulted
      is the stored one, read after the leave (the local backend hands out
      the live object). */
  method HandleLeaveAll(groups: DirectStorage, others: DirectOtherStorage, players: DirectStorage, name: string)
    returns (r: Result<bool>)
    requires groups.Valid() && others.Valid() && players.Valid()
    requires groups != players
    modifies groups, others, players
    ensures groups.Valid() && others.Valid() && players.Valid()
    ensures groups.names == old(groups.names) && players.names == old(players.names)
    ensures others.groupForAll == old(others.groupForAll)
    ensures r == if name !in old(groups.items) then Err(AttributeError)
                 else if !old(groups.items)[name].InList(GroupOfAll) then Ok(false)
                 else if name !in old(others.groupForAll) then Err(ValueError)
                 else Ok(true)
    ensures groups.items == if name in old(groups.items)
      then old(groups.items)[name := old(groups.items)[name].Leave(GroupOfAll).1] else old(groups.items)
    ensures r == Ok(true) ==>
      var g := groups.items[name];
      && players.items.Keys == old(players.items).Keys
      && (forall n :: n in players.items ==>
            players.items[n] == if g.InList(n) then old(players.items)[n] else old(players.items)[n].Leave(name).1)
      && (forall n :: n in players.items && Sorted(old(players.items)[n].list) && !g.InList(n) ==>
            name !in players.items[n].list && Sorted(players.items[n].list))
    ensures r != Ok(true) ==> players.items == old(players.items)
  {
    r := groups.Leave(name, GroupOfAll);
    if r == Ok(true) {
      var o := others.RemoveGroupForAll(name);
      if o.Fail? {
        return Err(o.error);
      }
      var g := groups.Get(name).value;
      UnlistedPlayersLeave(players, g, name);
    }
  }

  /** `handle_leave_all(name)` over the corrected `remove_group_for_all`: the
      group leaves the group-for-all list and the unlisted players always
      leave it. */
  method HandleLeaveAllFixed(groups: DirectStorage, others: DirectOtherStorage, players: DirectStorage, name: string)
    returns (r: Result<bool>)
    requires groups.Valid() && others.Valid() && players.Valid()
    requires groups != players
    modifies groups, others, players
    ensures groups.Valid() && others.Valid() && players.Valid()
    ensures groups.names == old(groups.names) && players.names == old(players.names)
    ensures name !in old(groups.items) ==>
      r == Err(AttributeError) && groups.items == old(groups.items) && players.items == old(players.items)
    ensures name in old(groups.items) ==>
      && r == Ok(old(groups.items)[name].InList(GroupOfAll))
      && groups.items == old(groups.items)[name := old(groups.items)[name].Leave(GroupOfAll).1]
    ensures r == Ok(true) ==>
      var g := groups.items[name];
      && others.groupForAll == Without(old(others.groupForAll), name)
      && name !in others.groupForAll
      && players.items.Keys == old(players.items).Keys
      && (forall n :: n in players.items ==>
            players.items[n] == if g.InList(n) then old(players.items)[n] else old(players.items)[n].Leave(name).1)
      && (forall n :: n in players.items && Sorted(old(players.items)[n].list) && !g.InList(n) ==>
            name !in players.items[n].list && Sorted(players.items[n].list))
    ensures r != Ok(true) ==> players.items == old(players.items) && others.groupForAll == old(others.groupForAll)
  {
    r := groups.Leave(name, GroupOfAll);
    if r == Ok(true) {
      others.RemoveGroupForAllFixed(name);
      var g := groups.Get(name).value;
      UnlistedPlayersLeave(players, g, name);
    }
  }

  /** The player step of `handle_leave_all`: every player that `g` does not
      list leaves the group, and the display order stays. */
  method UnlistedPlayersLeave(players: DirectStorage, g: Item, name: string)
    requires players.Valid()
    modifies players
    ensures players.Valid()
    ensures players.names == old(players.names)
    ensures players.items.Keys == old(players.items).Keys
    ensures forall n :: n in players.items ==>
      players.items[n] == if g.InList(n) then old(players.items)[n] else old(players.items)[n].Leave(name).1
    ensures forall n :: n in players.items && Sorted(old(players.items)[n].list) && !g.InList(n) ==>
      name !in players.items[n].list && Sorted(players.items[n].list)
  {
    ghost var before := players.items;
    players.ForEach(LeaveUnlisted(g, name));
    forall n | n in players.items && Sorted(before[n].list) && !g.InList(n)
      ensures name !in players.items[n].list && Sorted(players.items[n].list)
    {
      LeaveSortedMembers(before[n], name);
    }
  }

  /** The group callback of `handle_default_sender_change`: a group that
      lists `oldName` lists `newName` instead. */
  function SwapMember(g: Item, oldName: string, newName: string): (r: Item)
    ensures r == g.(list := r.list)
  {
    if g.kind.GroupKind? && g.Leave(oldName).0 then g.Leave(oldName).1.Join(newName).1 else g
  }

  /** On a sorted member list the swap is exact: `oldName` goes, `newName`
      comes in only where `oldName` was, and everyone else stays. */
  lemma SwapMemberSorted(g: Item, oldName: string, newName: string)
    requires g.kind.GroupKind? && Sorted(g.list) && oldName != newName
    ensures var r := SwapMember(g, oldName, newName);
      && Sorted(r.list)
      && oldName !in r.list
      && (newName in r.list <==> newName in g.list || oldName in g.list)
      && (forall x :: x != oldName && x != newName ==> (x in r.list <==> x in g.list))
  {
    LeaveSortedMembers(g, oldName);
    InListSorted(g, oldName);
    LeaveSorted(g, oldName);
    if oldName in g.list {
      JoinSortedMembers(g.Leave(oldName).1, newName);
    }
  }

  /** The message callback: messages sent by `oldName` are sent by `newName`. */
  function RenameEach(oldName: string, newName: string): (string, Item) -> Item {
    (n: string, v: Item) => RenameSender(v, oldName, newName)
  }

  /** The player store's items once `newName` has taken over from
      `oldName`: `oldName`'s item moves to `newName`, unless `newName` is
      already stored, in which case it is dropped; with no `oldName`,
      `newName` gets `newcomer` unless it is already stored. */
  function TakenOver(items: map<string, Item>, oldName: string, newName: string, newcomer: Item): map<string, Item> {
    if oldName in items then
      var rest := items - {oldName};
      if newName in rest then rest else rest[newName := items[oldName]]
    else if newName in items then items
    else items[newName := newcomer]
  }

  /** What the takeover does to each name. */
  lemma TakenOverSpec(items: map<string, Item>, oldName: string, newName: string, newcomer: Item)
    ensures var t := TakenOver(items, oldName, newName, newcomer);
      && t.Keys == items.Keys - {oldName} + {newName}
      && (oldName in items && newName !in items ==> t[newName] == items[oldName])
      && (oldName !in items && newName !in items ==> t[newName] == newcomer)
      && (newName in items && newName != oldName ==> t[newName] == items[newName])
      && (forall n :: n in t && n != newName ==> t[n] == items[n])
  {
  }

  /** The display order once `newName` has taken over from `oldName`:
      `oldName` is gone, and `newName` is at the front unless it was already
      stored, in which case it keeps its place. */
  function TakenOverNames(names: seq<string>, oldName: string, newName: string): (r: seq<string>)
    ensures oldName != newName ==> oldName !in r
    ensures newName in r
    ensures forall n :: n != newName ==> (n in r <==> n in names && n != oldName)
    ensures newName !in names || newName == oldName ==> r[0] == newName
  {
    var rest := Without(names, oldName);
    if newName in rest then rest else [newName] + rest
  }

  /** The first step of `handle_default_sender_change`: move `oldName`'s
      player to `newName`, or add `newcomer` when `oldName` is not stored. */
  method TakeOver(players: DirectStorage, newName: string, oldName: string, newcomer: Item)
    requires players.Valid() && players.kind == Players
    modifies players
    ensures players.Valid()
    ensures players.items == TakenOver(old(players.items), oldName, newName, newcomer)
    ensures players.names == TakenOverNames(old(players.names), oldName, newName)
  {
    if players.Contains(oldName) {
      var popped := players.PopItem(oldName);
      var _ := players.AddItem(newName, popped.value);
    } else {
      WithoutAbsent(players.names, oldName);
      var _ := players.AddItem(newName, newcomer);
    }
  }

  /** The steps of `handle_default_sender_change` after the fresh player is
      chosen: `newName` takes over the player stored as `oldName` (or
      `newcomer` when there is none), the groups list `newName` where they
      listed `oldName`, and every message from `oldName` is now from
      `newName`. */
  method ChangeSender(groups: DirectStorage, players: DirectStorage, newName: string, oldName: string, newcomer: Item)
    requires groups.Valid() && players.Valid() && players.kind == Players
    requires groups != players
    modifies groups, players
    ensures groups.Valid() && players.Valid()
    ensures players.names == TakenOverNames(old(players.names), oldName, newName)
    ensures var t := TakenOver(old(players.items), oldName, newName, newcomer);
      && players.items.Keys == t.Keys
      && forall n :: n in players.items ==> players.items[n] == RenameSender(t[n], oldName, newName)
    ensures groups.names == old(groups.names)
    ensures groups.items.Keys == old(groups.items).Keys
    ensures forall n :: n in groups.items ==>
      groups.items[n] == RenameSender(SwapMember(old(groups.items)[n], oldName, newName), oldName, newName)
  {
    TakeOver(players, newName, oldName, newcomer);
    groups.ForEach((n: string, g: Item) => SwapMember(g, oldName, newName));
    groups.ForEach(RenameEach(oldName, newName));
    players.ForEach(RenameEach(oldName, newName));
  }

  /** `handle_default_sender_change(new, old)` as written: the fresh player is
      `build_player`'s, seeded with the group-for-all list in its own order.
      `cfg` and `now` stand for the configuration and the clock. */
  method HandleDefaultSenderChange(groups: DirectStorage, others: DirectOtherStorage, players: DirectStorage,
                                   cfg: Config, newName: string, oldName: string, now: int)
    requires groups.Valid() && others.Valid() && players.Valid() && players.kind == Players
    requires groups != players
    modifies groups, players
    ensures groups.Valid() && players.Valid()
    ensures players.names == TakenOverNames(old(players.names), oldName, newName)
    ensures var t := TakenOver(old(players.items), oldName, newName,
                               BuildPlayer(cfg, Some(others.groupForAll), "127.0.0.1", now));
      && players.items.Keys == t.Keys
      && forall n :: n in players.items ==> players.items[n] == RenameSender(t[n], oldName, newName)
    ensures groups.names == old(groups.names)
    ensures groups.items.Keys == old(groups.items).Keys
    ensures forall n :: n in groups.items ==>
      groups.items[n] == RenameSender(SwapMember(old(groups.items)[n], oldName, newName), oldName, newName)
  {
    ChangeSender(groups, players, newName, oldName, BuildPlayer(cfg, Some(others.GetGroupForAll()), "127.0.0.1", now));
  }

  /** `handle_default_sender_change` over the corrected `build_player`, whose
      seed list is sorted. */
  method HandleDefaultSenderChangeFixed(groups: DirectStorage, others: DirectOtherStorage, players: DirectStorage,
                                        cfg: Config, newName: string, oldName: string, now: int)
    requires groups.Valid() && others.Valid() && players.Valid() && players.kind == Players
    requires groups != players
    modifies groups, players
    ensures groups.Valid() && players.Valid()
    ensures players.names == TakenOverNames(old(players.names), oldName, newName)
    ensures var t := TakenOver(old(players.items), oldName, newName,
                               BuildPlayerSorted(cfg, Some(others.groupForAll), "127.0.0.1", now));
      && players.items.Keys == t.Keys
      && forall n :: n in players.items ==> players.items[n] == RenameSender(t[n], oldName, newName)
    ensures groups.names == old(groups.names)
    ensures groups.items.Keys == old(groups.items).Keys
    ensures forall n :: n in groups.items ==>
      groups.items[n] == RenameSender(SwapMember(old(groups.items)[n], oldName, newName), oldName, newName)
  {
    ChangeSender(groups, players, newName, oldName, BuildPlayerSorted(cfg, Some(others.GetGroupForAll()), "127.0.0.1", now));
  }
}
