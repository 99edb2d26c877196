# MCDR-Division storage core in Dafny

MCDR-Division is a plugin for the MCDReforged Minecraft server host. It
keeps **groups** and **players**. Each one is an *item*: a permission level,
a colour, a message log and a sorted membership list. It also keeps a
**group-for-all** list: the groups that every player belongs to, marked by the
member id `@all`. This project models the plugin's storage layer and the
handlers that depend on it directly:

- `Entities`: the item and message values and their in-place operations. Each
  one becomes a function that returns the updated item. `Bisect` holds the
  `bisect_left`/`insort_left` binary search behind `in_list`, `join` and
  `leave`, run on Python's string order (`Order`).
- `Direct`: the local backend. It has an ordered dictionary of items, here a
  display order `names` plus a map `items`, and a group-for-all list. There is
  a ghost snapshot of what was last written to disk, so the model records which
  operations persist. `DisplayOrder` holds the `move_to_end` and placement
  arithmetic behind it.
- `Redis`: the remote backend. The remote store is a name-index array plus one
  document per name, changed one RedisJSON command at a time. `RedisJson`
  holds those commands.
- `Confirmation`: the confirmation gate. It is a registry of pending requests,
  each with a callback. A request is confirmed within 60 seconds or it expires.
- `Text`, `Paging` and `Entry`: the `$`/`§` translators, the page window of
  `list_items`, the permission test of `del_msg`, and the bulk membership
  handlers `handle_join_all`, `handle_leave_all` and
  `handle_default_sender_change`.

Clock readings (`time.time()`) are integer parameters. GROUP_OF_ALL is the
string `@all`. division/constants.py is not part of this model.

## Model

| member | source | states |
|---|---|---|
| Common.PyIndex | division/storage/storage.py:35-39 | Python list indexing: an index is valid exactly when `-n <= i < n`, and a negative one counts from the end |
| Common.Without | division/storage/direct.py:67-71 | the order with key `x` taken out has exactly the other keys |
| Common.WithoutAt | division/storage/direct.py:67-71 | on a duplicate-free order, taking a key out removes its one position and keeps the rest in order |
| Common.DistinctWithout | division/storage/direct.py:67-71 | removing a key keeps an order duplicate-free |
| Common.IndexOf | division/storage/redis_s.py:91 | the position of the first occurrence, or the length when the key is absent |
| Order.Irreflexive | division/storage/storage.py:45-47 | Python string `<` is irreflexive |
| Order.Asymmetric | division/storage/storage.py:45-47 | Python string `<` is asymmetric |
| Order.Transitive | division/storage/storage.py:45-47 | Python string `<` is transitive |
| Order.Total | division/storage/storage.py:45-47 | two different strings are ordered one way or the other |
| Bisect.BisectLeft | division/storage/storage.py:46 | `bisect_left` over the whole list, an index in 0 .. len; definition, its properties are in rows Bisect.BisectLeftSplits, Bisect.BisectLeftFinds |
| Bisect.InsortLeft | division/storage/storage.py:51 | `insort_left`: the list grows by one; sortedness is in row Bisect.InsortLeftSorted |
| Bisect.Contains | division/storage/storage.py:45-47 | definition of the `in_list` test; its properties are in rows Bisect.ContainsSorted, Entities.InListSorted |
| Bisect.Insert | division/storage/storage.py:49-53 | the list update of `join`: an unchanged list when the flag is false; the rest is in row Bisect.InsertSorted |
| Bisect.Remove | division/storage/storage.py:55-59 | the list update of `leave`: an unchanged list when the flag is false; the rest is in row Bisect.RemoveSorted |
| Bisect.BisectLeftSplits | division/storage/storage.py:46 | on a sorted list, `bisect_left` splits it into the entries below `x` and those not below it |
| Bisect.BisectLeftFinds | division/storage/storage.py:46-47 | on a sorted list, the entry at `bisect_left` is `x` exactly when `x` is in the list |
| Bisect.InsortLeftSorted | division/storage/storage.py:51 | `insort_left` of an absent value keeps a list sorted |
| Bisect.PopAtSorted | division/storage/storage.py:57 | popping any entry keeps a list sorted |
| Bisect.ContainsSorted | division/storage/storage.py:45-47 | on a sorted list, `in_list` is membership |
| Bisect.InsertSorted | division/storage/storage.py:49-53 | on a sorted list, join reports true exactly when the value was absent, and the list stays sorted, gains the value and loses nothing |
| Bisect.RemoveSorted | division/storage/storage.py:55-59 | on a sorted list, leave reports true exactly when the value was present, and the list stays sorted, loses the value and keeps the rest |
| Entities.Msg.SetSender | division/storage/storage.py:14-15 | only the sender changes |
| Entities.Item.AddMsg | division/storage/storage.py:32-33 | the log gains one message at its end, stamped with the clock, and nothing else changes |
| Entities.Item.DelMsg | division/storage/storage.py:35-36 | fails with IndexError exactly when the index is out of range, and otherwise removes that one message, shifting the later ones down |
| Entities.Item.EditMsg | division/storage/storage.py:38-39 | fails with IndexError exactly when the index is out of range, and otherwise changes that message's text only |
| Entities.Item.InList | division/storage/storage.py:45-47 | definition; its properties are in rows Entities.InListSorted, Bisect.ContainsSorted |
| Entities.Item.Join | division/storage/storage.py:49-53 | reports true exactly when `in_list` did not hold, and changes only the list |
| Entities.Item.Leave | division/storage/storage.py:55-59 | reports true exactly when `in_list` held, and changes only the list |
| Entities.Item.UpdateLatestOnlineTime | division/storage/storage.py:70-71 | the latest online time becomes the clock value, and nothing else changes |
| Entities.MapMsgs | division/storage/storage.py:41-43 | every message is replaced by the callback's image, in place and in order |
| Entities.ForEachMsg | division/storage/storage.py:41-43 | the loop leaves the log mapped message by message through the callback, and the rest of the item untouched |
| Entities.ChangeSender | division/entry.py:235-237 | definition of the message callback; its effect is in row Entities.RenameSender |
| Entities.RenameSender | division/entry.py:234-239 | the messages from `old` are now from `new`, and every other message is unchanged |
| Entities.BuildPlayer | division/storage/storage.py:161-181 | a new player has perm -1, the default colour, the IP and clock, the group-for-all list (or an empty list when that call raised), and the welcome message exactly when one is configured |
| Entities.BuildPlayerMissesMember | division/storage/storage.py:170 | seeding from an unsorted group-for-all list makes `in_list` miss a member, and joining it again duplicates it |
| Entities.SortedSeed | division/storage/storage.py:170 | the group-for-all list, sorted, with the same members |
| Entities.BuildPlayerSorted | division/storage/storage.py:161-181 | as `build_player`, but the membership list is sorted, so `in_list` is exactly membership of the group-for-all list |
| Entities.InListSorted | division/storage/storage.py:45-47 | on a sorted list, `in_list` is membership |
| Entities.JoinSorted | division/storage/storage.py:49-53 | on a sorted list, join reports true exactly when the value was absent, gains it as a multiset, and keeps the list sorted |
| Entities.LeaveSorted | division/storage/storage.py:55-59 | on a sorted list, leave reports true exactly when the value was present, removes it as a multiset, and keeps the list sorted |
| Entities.JoinSortedMembers | division/storage/storage.py:49-53 | after a sorted join, the members are the old ones plus the value |
| Entities.LeaveSortedMembers | division/storage/storage.py:55-59 | after a sorted leave, the members are the old ones minus the value |
| DisplayOrder.MoveToFront | division/storage/direct.py:202 | `move_to_end(k, last=False)` puts `k` first |
| DisplayOrder.MoveToEnd | division/storage/direct.py:145 | `move_to_end(k, last=True)` puts `k` last |
| DisplayOrder.MoveToFrontAt | division/storage/direct.py:202 | the key at index `p` moves to the front, and the others keep their order |
| DisplayOrder.MoveToEndAt | division/storage/direct.py:145 | the key at index `p` moves to the back, and the others keep their order |
| DisplayOrder.Filter | division/storage/direct.py:129-135 | the filtered keys are exactly those that satisfy the test |
| DisplayOrder.FilterKeepsOrder | division/storage/direct.py:129-135 | the filter of a duplicate-free order is duplicate-free and keeps the relative order |
| DisplayOrder.PlacedSpec | division/storage/direct.py:137-147 | the placement puts the key at `pos`, keeps the same keys without duplicates, and keeps the others in their order |
| DisplayOrder.PlacedAtOwnIndex | division/storage/direct.py:137-147 | placing a key at its own index changes nothing |
| Direct.DirectStorage.constructor | division/storage/direct.py:38-40 | a new store is empty |
| Direct.DirectStorage.Get | division/storage/direct.py:50-52 | the item stored under the name, or none |
| Direct.DirectStorage.Contains | division/storage/direct.py:54-56 | true exactly when the name is stored |
| Direct.DirectStorage.GetAllNames | division/storage/direct.py:125-127 | the key order of the ordered dictionary itself, which holds exactly the stored names |
| Direct.DirectStorage.AddItem | division/storage/direct.py:58-65 | refuses a stored name and changes nothing; otherwise stores the item, appends a group or puts a player first, and saves |
| Direct.DirectStorage.PopItem | division/storage/direct.py:67-71 | returns the stored item or none, removes the name from the order and the map, and saves either way |
| Direct.DirectStorage.ForEach | division/storage/direct.py:73-77 | every stored item is replaced by the callback's image, the order is kept, and the store is saved |
| Direct.DirectStorage.ChangePerm | division/storage/direct.py:79-86 | fails ('No such item') and changes nothing for an absent name; otherwise sets the perm and saves |
| Direct.DirectStorage.ChangeColor | division/storage/direct.py:88-96 | fails ('No such item') and changes nothing for an absent name; otherwise sets the colour and saves |
| Direct.DirectStorage.Join | division/storage/direct.py:98-102 | an absent name raises AttributeError; otherwise `Item.join` on the stored item, saved |
| Direct.DirectStorage.Leave | division/storage/direct.py:104-108 | an absent name raises AttributeError; otherwise `Item.leave` on the stored item, saved |
| Direct.DirectStorage.AddMsg | division/storage/direct.py:110-113 | an absent name raises AttributeError; otherwise `Item.add_msg`, saved |
| Direct.DirectStorage.EditMsg | division/storage/direct.py:115-118 | an absent name raises AttributeError, a bad index raises IndexError; otherwise `Item.edit_msg`, saved |
| Direct.DirectStorage.DelMsg | division/storage/direct.py:120-123 | an absent name raises AttributeError, a bad index raises IndexError; otherwise `Item.del_msg`, saved |
| Direct.DirectStorage.OrderedItems | division/storage/direct.py:129-135 | the loop returns the stored names that occur in the list, in display order |
| Direct.DirectStorage.PlaceItem | division/storage/direct.py:137-149 | raises IndexError unless the name is stored and `pos` is below the count; otherwise the counted `move_to_end` loops put the name at `pos` (or first when `pos` is negative), keep the others in order, and do not save |
| Direct.DirectStorage.ShiftFromFront | division/storage/direct.py:140-143 | the front-half branch of `place_item` ends with the name at `pos` |
| Direct.DirectStorage.ShiftFromBack | division/storage/direct.py:144-147 | the back-half branch of `place_item` ends with the name at `pos` |
| Direct.DirectStorage.UpdateLatestOnlineTime | division/storage/direct.py:212-218 | an absent name raises KeyError; otherwise a player's time becomes the clock, the name moves to the front, and the store is saved |
| Direct.FrontStageStep | division/storage/direct.py:142-143 | one front-moving step of the loop advances the partial placement |
| Direct.FrontStageDone | division/storage/direct.py:141-143 | the front loop starts from the name first and ends at the placement |
| Direct.EndStageStep | division/storage/direct.py:146-147 | one back-moving step of the loop advances the partial placement |
| Direct.EndStageDone | division/storage/direct.py:145-147 | the back loop starts from the name last and ends at the placement |
| Direct.GroupsForAll | division/storage/direct.py:15-23 | definition of the group scan, the groups holding GROUP_OF_ALL in display order; its properties are in rows Direct.DirectOtherStorage.constructor, DisplayOrder.FilterKeepsOrder |
| Direct.DirectOtherStorage.constructor | division/storage/direct.py:15-23 | the group-for-all list is the groups that hold GROUP_OF_ALL, in display order, with no duplicates, and the group store is saved |
| Direct.DirectOtherStorage.GetGroupForAll | division/storage/direct.py:25-26 | the list, which has no duplicates |
| Direct.DirectOtherStorage.AddGroupForAll | division/storage/direct.py:28-30 | appends the name only when it is absent |
| Direct.DirectOtherStorage.RemoveGroupForAll | division/storage/direct.py:32-34 | as written: the list never changes; an absent name raises ValueError |
| Direct.DirectOtherStorage.RemoveGroupForAllFixed | division/storage/direct.py:32-34 | a present name is removed, the others keep their order, and nothing raises |
| Direct.RemoveGroupForAllKeepsGroup | division/storage/direct.py:28-34 | adding then removing "vip" leaves ["vip"] |
| RedisJson.ArrIndex | division/storage/redis_s.py:44 | JSON.ARRINDEX: the first position of the value, or -1 exactly when it is absent |
| RedisJson.PopIndex | division/storage/redis_s.py:44 | JSON.ARRPOP's index: an in-range index is kept, a negative one counts from the end, anything else is clamped to the nearer end |
| RedisJson.ArrPop | division/storage/redis_s.py:44 | JSON.ARRPOP: null on an empty array, otherwise the element at the clamped index, and the array without it |
| RedisJson.ArrInsert | division/storage/redis_s.py:157 | JSON.ARRINSERT succeeds exactly for indices in `[-len, len]`, and then inserts at that position |
| RedisJson.PopFound | division/storage/redis_s.py:91 | popping at ARRINDEX of a present value removes its first occurrence |
| RedisJson.PopAbsentDropsLast | division/storage/redis_s.py:91 | popping at ARRINDEX of an absent value removes the last element |
| RedisJson.PopInsertIsPlaced | division/storage/redis_s.py:153-157 | on a duplicate-free index, the pop-then-insert of `place_item` is the local backend's placement |
| Redis.ApplyEach | division/storage/redis_s.py:96-100 | the walk succeeds exactly when every listed name has a document; it keeps the document names and leaves unlisted documents alone |
| Redis.ApplyEachOnce | division/storage/redis_s.py:96-100 | on a duplicate-free index, every listed document is mapped through the callback exactly once |
| Redis.ApplyEachSnoc | division/storage/redis_s.py:96-100 | walking one more name is the shorter walk followed by one fetch, call back and write of that name, or AttributeError when it has no document |
| Redis.WalkStep | division/storage/redis_s.py:97-100 | one pass of the loop keeps the rest of the walk on course and grows the walked prefix by the name just written |
| Redis.RedisStorage.constructor | division/storage/redis_s.py:48-53 | a missing index is created empty and marks a first load; an existing one is kept |
| Redis.RedisStorage.Get | division/storage/redis_s.py:64-74 | the document, whether or not the index lists the name |
| Redis.RedisStorage.Contains | division/storage/redis_s.py:81-82 | true exactly when the document exists and the index lists the name |
| Redis.RedisStorage.GetAllNames | division/storage/redis_s.py:140-144 | the index array |
| Redis.RedisStorage.Set | division/storage/redis_s.py:76-79 | writes the document, and appends the name to the index unless `contains` held |
| Redis.RedisStorage.AddItem | division/storage/redis_s.py:84-88 | refuses when `contains` holds and changes nothing; otherwise writes the document, appends a group, or inserts a player at the front |
| Redis.RedisStorage.PopItem | division/storage/redis_s.py:90-94 | returns and deletes the document; the index loses the name's first occurrence, or its last entry when the name is absent |
| Redis.RedisStorage.ForEach | division/storage/redis_s.py:96-100 | over the index as it stood: every listed document is passed through the callback and written back, and the index is unchanged; when a listed name has no document, the documents are those of the walk over the names before it |
| Redis.RedisStorage.ChangePerm | division/storage/redis_s.py:102-103 | a missing document is an error that changes nothing; otherwise the perm is set |
| Redis.RedisStorage.ChangeColor | division/storage/redis_s.py:105-106 | a missing document is an error that changes nothing; otherwise the colour is set |
| Redis.RedisStorage.Join | division/storage/redis_s.py:108-117 | a missing document raises TypeError; otherwise the same flag and list as `Item.join`, written back only when the flag is true |
| Redis.RedisStorage.Leave | division/storage/redis_s.py:119-128 | a missing document raises TypeError; otherwise the same flag and list as `Item.leave`, written back only when the flag is true |
| Redis.RedisStorage.AddMsg | division/storage/redis_s.py:130-132 | a missing document is an error; otherwise `Item.add_msg` |
| Redis.RedisStorage.EditMsg | division/storage/redis_s.py:134-135 | succeeds exactly when the document exists and the index is in range, and then is `Item.edit_msg` |
| Redis.RedisStorage.DelMsg | division/storage/redis_s.py:137-138 | a missing document is an error; otherwise JSON.ARRPOP on the log, which agrees with `Item.del_msg` for every in-range index |
| Redis.RedisStorage.OrderedItems | division/storage/redis_s.py:146-151 | the loop returns the listed names that occur in the list, in index order |
| Redis.RedisStorage.PlaceItem | division/storage/redis_s.py:153-157 | refuses unless `contains` holds; then the name is popped and inserted at `pos`, or left out of the index when ARRINSERT refuses `pos`; on a duplicate-free index an in-range `pos` gives the local placement |
| Redis.RedisStorage.UpdateLatestOnlineTime | division/storage/redis_s.py:187-190 | a missing document is an error that changes nothing; otherwise the player's time becomes the clock and the index is rotated by `FrontPopped` |
| Redis.RedisStorage.RaiseToFront | division/storage/redis_s.py:189-190 | pop at ARRINDEX and insert what was popped at index 0; an empty index is refused |
| Redis.FrontPopped | division/storage/redis_s.py:189-190 | definition of the pop-and-insert; its properties are in rows Redis.FrontPoppedListed, Redis.FrontPoppedUnlisted |
| Redis.FrontPoppedListed | division/storage/redis_s.py:189-190 | a listed name comes to the front, the others keeping their order; on a duplicate-free index this is the local `move_to_end(name, last=False)` |
| Redis.FrontPoppedUnlisted | division/storage/redis_s.py:189-190 | an unlisted name moves the last entry to the front instead |
| Redis.RedisOtherStorage.constructor | division/storage/redis_s.py:30-32 | a missing list is created empty; an existing one is kept |
| Redis.RedisOtherStorage.GetGroupForAll | division/storage/redis_s.py:34-38 | the stored list |
| Redis.RedisOtherStorage.AddGroupForAll | division/storage/redis_s.py:40-41 | appends, with no duplicate check |
| Redis.RedisOtherStorage.RemoveGroupForAll | division/storage/redis_s.py:43-44 | removes the first occurrence, or the last entry when the name is absent |
| Confirmation.KeyOf | division/confirm.py:14-17 | the key is the player's name for a player and the default sender for any other source |
| Confirmation.Register | division/confirm.py:18-19 | a request overwrites the entry under its key and touches no other key |
| Confirmation.Poll | division/confirm.py:21-29 | a waiting request stops untouched when its entry is gone or newer, purges only its own current entry once more than 60 seconds old, and otherwise waits |
| Confirmation.Apply | division/confirm.py:38-42 | pops and fires the pending callback, reporting nothing-to-confirm only when it raises; with no entry, reports nothing-to-confirm and changes nothing |
| Confirmation.ApplyTwice | division/confirm.py:39-40 | an immediate second apply finds nothing to confirm |
| Confirmation.SupersededFiresLatest | division/confirm.py:18-25 | a newer request under the same key stops the older one's wait, and the apply fires only the newer callback |
| Confirmation.ExpiredThenNothing | division/confirm.py:26-28 | a request left for more than 60 seconds is purged, and a later apply finds nothing to confirm |
| Confirmation.ConfirmInTime | division/confirm.py:26-29 | within 60 seconds the request waits, and an apply fires it |
| Confirmation.OtherKeysUntouched | division/confirm.py:18-39 | no step changes the entry of another key |
| Confirmation.Confirm.constructor | division/confirm.py:8-9 | the registry starts empty |
| Confirmation.Confirm.ReqConfirm | division/confirm.py:12-19 | registers the request under the source's key |
| Confirmation.Confirm.PollOnce | division/confirm.py:21-29 | one pass of the waiting loop, as `Poll` |
| Confirmation.Confirm.ApplyConfirm | division/confirm.py:31-42 | `apply_confirm` under the source's key, as `Apply` |
| Text.Replace | division/entry.py:300 | definition of Python's `str.replace`; its properties are in rows Text.ReverseChar, Text.ReverseConcat, Text.NoSectionInReverse |
| Text.Interpreter | division/entry.py:299-300 | definition; its properties are in rows Text.InterpreterStep, Text.ReverseUndoesInterpreter |
| Text.ReverseInterpreter | division/entry.py:303-304 | definition; its properties are in rows Text.NoSectionInReverse, Text.ReverseConcat, Text.ReverseChar, Text.ReverseUndoesInterpreter |
| Text.NoSectionInReverse | division/entry.py:303-304 | the output of `reverse_interpreter` contains no `§` |
| Text.ReverseConcat | division/entry.py:303-304 | `reverse_interpreter` works piece by piece over a concatenation |
| Text.ReverseChar | division/entry.py:303-304 | `reverse_interpreter` doubles `$`, turns `§` into `$`, and keeps any other character |
| Text.InterpreterStep | division/entry.py:299-300 | on `§`-free text, `interpreter` keeps an ordinary character, turns `$$` into `$` and a lone `$` into `§` |
| Text.ReverseUndoesInterpreter | division/entry.py:299-304 | on text without `§`, `reverse_interpreter(interpreter(t)) == t` |
| Paging.CeilDiv | division/entry.py:885 | `ceil(a / b)`: the least multiple count of `b` that covers `a` |
| Paging.Range | division/entry.py:907 | `range(lo, hi)`: the integers from `lo` below `hi`, in order |
| Paging.Window | division/entry.py:904-909 | the shown entries are those inside the clamped page's bounds that exist |
| Paging.ListItems | division/entry.py:884-912 | without a page every entry is listed; with one, the window is listed, the previous arrow is enabled exactly when the clamped page is not 1, and the next arrow exactly when it is not the last |
| Paging.ShowRange | division/entry.py:907-909 | the loop shows, in order, the indices in `range(left, right)` that are below the count and not negative |
| Paging.EachEntryOnOnePage | division/entry.py:884-909 | every entry is shown on exactly one of the pages 1 .. page_count |
| Paging.WindowSize | division/entry.py:906-909 | a page shows at most item_per_page entries, and a page within range shows at least one |
| Entry.DeleteDenied | division/entry.py:790-792 | definition of the refusal test; its allowed side is in row Entry.DeleteAllowedExactly |
| Entry.DeleteAllowedExactly | division/entry.py:790-793 | deletion is allowed exactly for the console, the message's sender, or a player who reaches the perm, unless the item is private and someone else's |
| Entry.DelMsgRequest | division/entry.py:786-809 | a line whose lookup fails gives an IndexError; a denied player is refused; otherwise a confirmation is requested for index `line - 1`, which the item can delete |
| Entry.DelPendingRemovesLine | division/entry.py:787-798 | a confirmed deletion of line 1 .. n removes exactly that message |
| Entry.DelLineZeroIsLast | division/entry.py:787-798 | line 0 passes the lookup and deletes the last message |
| Entry.HandleJoinAll | division/entry.py:264-278 | when the group newly gains GROUP_OF_ALL it is recorded as a group for all and every player joins it; otherwise no player and no list changes; neither display order changes |
| Entry.EveryPlayerJoins | division/entry.py:271 | every stored player joins the group, and on a sorted list it ends up a member with the list still sorted; the display order stays |
| Entry.HandleLeaveAll | division/entry.py:280-297 | the group-for-all list never changes (the inverted guard of `remove_group_for_all`); when the group loses GROUP_OF_ALL and is on that list, every player the group does not list leaves it while listed players keep it; when it is not on the list the handler fails with ValueError and no player changes; neither display order changes |
| Entry.HandleLeaveAllFixed | division/entry.py:280-297 | over the corrected `remove_group_for_all`: when the group loses GROUP_OF_ALL it leaves the group-for-all list and every player the group does not list leaves it; otherwise no player changes |
| Entry.UnlistedPlayersLeave | division/entry.py:286-290 | every player the group does not list leaves it, on a sorted list it is then gone, and listed players are untouched; the display order stays |
| Entry.JoinEach | division/entry.py:271 | definition of the join callback; its effect is in rows Entry.EveryPlayerJoins, Entry.HandleJoinAll |
| Entry.LeaveUnlisted | division/entry.py:286-288 | definition of the leave callback; its effect is in rows Entry.UnlistedPlayersLeave, Entry.HandleLeaveAll |
| Entry.SwapMember | division/entry.py:241-244 | the group swap changes only the member list |
| Entry.SwapMemberSorted | division/entry.py:241-244 | on a sorted group list, `old` is gone, `new` is a member exactly when `new` or `old` was, and every other member is kept |
| Entry.RenameEach | division/entry.py:234-239 | definition of the item callback; its effect is in rows Entities.RenameSender, Entry.ChangeSender |
| Entry.TakenOver | division/entry.py:246-249 | definition of the player store after the takeover; its properties are in row Entry.TakenOverSpec |
| Entry.TakenOverSpec | division/entry.py:246-249 | `new` gets `old`'s item, or the fresh player, unless `new` was already stored; every other item is kept, and `old` is gone |
| Entry.TakenOverNames | division/entry.py:246-249 | after the takeover `old` is gone from the display order and `new` is in it, at the front unless it was already stored; every other name stays |
| Entry.TakeOver | division/entry.py:246-249 | the player store after the takeover step is `TakenOver` of the old one, in the order `TakenOverNames` gives |
| Entry.ChangeSender | division/entry.py:246-252 | the players are the takeover's, with messages from `old` renamed; every group swaps `old` for `new` and renames its messages; the group order stays |
| Entry.HandleDefaultSenderChange | division/entry.py:233-252 | as `ChangeSender`, with the fresh player `build_player`'s, seeded with the group-for-all list in its own order |
| Entry.HandleDefaultSenderChangeFixed | division/entry.py:233-252 | as `ChangeSender`, with the fresh player built by the corrected `BuildPlayerSorted` |

## Left out

- File persistence: `DirectStorage.load` and `_save` are left out. A ghost snapshot records what was last saved, so contracts say which operations persist (`place_item` does not).
- The Redis and RedisJSON client calls and connection setup: the remote store is represented by the index array and a document map. An error reply from the server is the `RemoteError` outcome.
- The `latin1` to `utf-8` re-decoding loops of the remote backend: byte-encoding behaviour, represented as the identity.
- Locks, `@new_thread` and `time.sleep`: concurrency. The confirmation wait loop is modelled one poll at a time, with the clock passed in.
- Aliasing of live item objects: items are values here. A callback of `for_each` returns the updated item instead of mutating the object it is given.
- Entities.BuildPlayer, Entry.HandleJoinAll: in the local backend `get_group_for_all` returns the live list object, so every player built in that session shares it with the group-for-all list (assuming MCDR's `Serializable` keeps constructor arguments without copying; that code is not part of this model). Here the seed is a copy. The model therefore misses the effects of that sharing, such as a later `add_group_for_all` changing those players' lists, or a player's `join` changing the group-for-all list.
- Entities.Item.UpdateLatestOnlineTime: stated only for player items; the source only calls it on objects it has checked are players.
- Redis.RedisStorage.ForEach: when the index lists a name that has no document, the walk stops there with AttributeError. The source passes `None` to the callback instead. A callback that tolerates `None` (the group callback of `handle_default_sender_change`) would go on to write a null document and append the name to the index again.
- Redis.RedisStorage.UpdateLatestOnlineTime: on an empty index the source pops null and inserts it at index 0; here that case is refused and the index is left as it is. A document that is not a player is left unchanged, whereas the server would add the field to it.
- Redis.RedisStorage.RaiseToFront: refuses an empty index, for the same reason.
- Redis.RedisStorage.EditMsg: assumes the server accepts a negative `line` in the path and counts it from the end, as Python does.
- The bulk handlers `handle_join_all`, `handle_leave_all` and `handle_default_sender_change` are stated over the local backend only. Their messages to the user are left out.
- Paging.ListItems: assumes `item_per_page` is positive; with 0 the source raises ZeroDivisionError. The matched entries are numbered, not built: the search, list and ids modes that collect them are left out.
- Entry.DelMsgRequest: models the handler up to the confirmation request. The item's lookup (groups first, then players) and the user messages are left out.
- `get_color` and colour validation, MCDR serialisation, the user interface and localisation, time zones and the network lookup of IP time zones: the host's foreign code.

## Findings

| source | as written | input that shows it | evidently intended | confidence | as-written member | corrected member |
|---|---|---|---|---|---|---|
| division/storage/storage.py:170 | a new player's membership list is the group-for-all list in append order, but `in_list` runs a binary search that needs a sorted list | group-for-all list `["broadcast", "alpha"]`: `in_list("alpha")` is false, and `join("alpha")` gives `["alpha", "broadcast", "alpha"]` | the membership list is sorted from the start, so it stays a set | not executed | Entities.BuildPlayerMissesMember | Entities.BuildPlayerSorted |
| division/storage/direct.py:33-34 | `remove_group_for_all` removes only when the name is *not* in the list | add "vip", then remove "vip": the list is still `["vip"]`, so new players still get "vip"; removing an absent name raises ValueError | remove the name when it is present | not executed | Direct.RemoveGroupForAllKeepsGroup | Direct.DirectOtherStorage.RemoveGroupForAllFixed |

The handlers are modelled as written: `HandleDefaultSenderChange` builds the fresh player with `BuildPlayer`, and `HandleLeaveAll` calls `RemoveGroupForAll`. The corrected handlers are `HandleDefaultSenderChangeFixed`, which uses `BuildPlayerSorted`, and `HandleLeaveAllFixed`, which uses `RemoveGroupForAllFixed`.
