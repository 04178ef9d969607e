/**
 The client's cache of messages per chat, MessagesList, and MessagesModel, which turns the
 list's announcements into row changes for a view.

 Both are proved against the history of calls: which vector each chat holds, which one is
 shown, and that a view that applies the row changes always counts the rows there are.
 */
module MessagesView {
  import opened Basics
  import opened Protocol

  /** A vector handed over to the list, which shares it and never changes it. */
  class MessageVec {
    const items: seq<Mesg>

    constructor (items: seq<Mesg>)
      ensures this.items == items
    {
      this.items := items;
    }
  }

  // ----- The history of calls -------------------------------------------------------

  /** A call of the list; a vector stands for what is in it. */
  datatype Call = SetCurrentChatId(chat: U64) | SetItems(vec: Option<seq<Mesg>>)

  function CurrentChat(calls: seq<Call>): U64 {
    if calls == [] then 0
    else
      match calls[|calls| - 1]
      case SetCurrentChatId(chat) => chat
      case SetItems(_) => CurrentChat(calls[..|calls| - 1])
  }

  /** The last vector set while `chat` was the current one. */
  function LastSet(calls: seq<Call>, chat: U64): Option<seq<Mesg>> {
    if calls == [] then None
    else
      var before, call := calls[..|calls| - 1], calls[|calls| - 1];
      if call.SetItems? && call.vec.Some? && CurrentChat(before) == chat then call.vec else LastSet(before, chat)
  }

  /** The list was emptied by SetItems(null), and no vector or other chat came since. */
  predicate Emptied(calls: seq<Call>) {
    calls != [] &&
    var before := calls[..|calls| - 1];
    match calls[|calls| - 1]
    case SetCurrentChatId(chat) => chat == CurrentChat(before) && Emptied(before)
    case SetItems(vec) => vec.None?
  }

  /** Call `i` sets a vector for `chat`. */
  predicate Sets(calls: seq<Call>, i: nat, chat: U64)
    requires i < |calls|
  {
    calls[i].SetItems? && calls[i].vec.Some? && CurrentChat(calls[..i]) == chat
  }

  /** Call `i` is the last one that sets a vector for `chat`. */
  predicate SetsLast(calls: seq<Call>, i: nat, chat: U64)
    requires i < |calls|
  {
    Sets(calls, i, chat) && forall j | i < j < |calls| :: !Sets(calls, j, chat)
  }

  lemma SetsBefore(calls: seq<Call>, i: nat, chat: U64)
    requires i < |calls| - 1
    ensures Sets(calls[..|calls| - 1], i, chat) == Sets(calls, i, chat)
  {
    assert calls[..|calls| - 1][..i] == calls[..i];
  }

  /** The last call is the one, or the one is among those before it. */
  lemma SetsLastStep(calls: seq<Call>, i: nat, chat: U64)
    requires i < |calls|
    ensures SetsLast(calls, i, chat) <==>
            if i == |calls| - 1 then Sets(calls, i, chat)
            else !Sets(calls, |calls| - 1, chat) && SetsLast(calls[..|calls| - 1], i, chat)
  {
    hide CurrentChat;
    var n := |calls| - 1;
    forall j | 0 <= j < n
      ensures Sets(calls[..n], j, chat) == Sets(calls, j, chat)
    {
      SetsBefore(calls, j, chat);
    }
  }

  /** LastSet is the vector of that call, and none when there is none. */
  lemma {:induction false} LastSetMeans(calls: seq<Call>, chat: U64)
    ensures LastSet(calls, chat) == None <==> forall i | 0 <= i < |calls| :: !Sets(calls, i, chat)
    ensures LastSet(calls, chat) != None ==>
              exists i | 0 <= i < |calls| :: SetsLast(calls, i, chat) && calls[i].vec == LastSet(calls, chat)
    decreases |calls|
  {
    if calls != [] {
      var n := |calls| - 1;
      LastSetMeans(calls[..n], chat);
      assert LastSet(calls, chat) == if Sets(calls, n, chat) then calls[n].vec else LastSet(calls[..n], chat);
      forall i | 0 <= i < n
        ensures Sets(calls[..n], i, chat) == Sets(calls, i, chat)
      {
        SetsBefore(calls, i, chat);
      }
      forall i | 0 <= i < |calls|
        ensures SetsLast(calls, i, chat) <==>
                if i == n then Sets(calls, i, chat) else !Sets(calls, n, chat) && SetsLast(calls[..n], i, chat)
      {
        SetsLastStep(calls, i, chat);
      }
      hide LastSet, CurrentChat;
      if Sets(calls, n, chat) {
        assert SetsLast(calls, n, chat);
      } else if LastSet(calls[..n], chat) != None {
        var i :| 0 <= i < n && SetsLast(calls[..n], i, chat) && calls[..n][i].vec == LastSet(calls[..n], chat);
        assert SetsLast(calls, i, chat);
      }
    }
  }

  /** A run that never sets null never empties the list. */
  lemma {:induction false} NeverEmptied(calls: seq<Call>)
    requires forall call | call in calls :: call.SetItems? ==> call.vec.Some?
    ensures !Emptied(calls)
    decreases |calls|
  {
    if calls != [] {
      NeverEmptied(calls[..|calls| - 1]);
    }
  }

  /** Changing the current chat files nothing. */
  lemma {:induction false} SelectingFilesNothing(calls: seq<Call>, more: seq<Call>, chat: U64)
    requires forall call | call in more :: call.SetCurrentChatId?
    ensures LastSet(calls + more, chat) == LastSet(calls, chat)
    decreases |more|
  {
    if more == [] {
      assert calls + more == calls;
    } else {
      var n, all := |more| - 1, calls + more;
      SelectingFilesNothing(calls, more[..n], chat);
      assert more[n] in more && all[|all| - 1] == more[n];
      assert all[..|all| - 1] == calls + more[..n];
    }
  }

  lemma SelectingKeeps(calls: seq<Call>, chat: U64)
    ensures var all := calls + [SetCurrentChatId(chat)];
            && CurrentChat(all) == chat && Emptied(all) == (chat == CurrentChat(calls) && Emptied(calls))
            && forall c :: LastSet(all, c) == LastSet(calls, c)
  {
    assert (calls + [SetCurrentChatId(chat)])[..|calls|] == calls;
  }

  lemma SettingFiles(calls: seq<Call>, vec: Option<seq<Mesg>>)
    ensures var all := calls + [SetItems(vec)];
            && CurrentChat(all) == CurrentChat(calls) && Emptied(all) == vec.None?
            && forall chat :: LastSet(all, chat) ==
                              if vec.Some? && chat == CurrentChat(calls) then vec else LastSet(calls, chat)
  {
    assert (calls + [SetItems(vec)])[..|calls|] == calls;
  }

  /** A vector is filed under the chat that is current when it is set, and only there. */
  lemma FiledUnderIff(calls: seq<Call>, chat: U64, items: seq<Mesg>)
    ensures LastSet(calls + [SetItems(Some(items))], chat) == Some(items) <==>
            CurrentChat(calls) == chat || LastSet(calls, chat) == Some(items)
  {
    assert (calls + [SetItems(Some(items))])[..|calls|] == calls;
  }

  /** After any run: `chat` is selected and its messages requested, another chat is selected,
      and the answer arrives. It is filed under the other chat, and not under `chat`. */
  lemma FiledUnderAnother(calls: seq<Call>, chat: U64, other: U64, items: seq<Mesg>)
    requires chat != other
    ensures var all := calls + [SetCurrentChatId(chat), SetCurrentChatId(other)] + [SetItems(Some(items))];
            LastSet(all, other) == Some(items) && LastSet(all, chat) == LastSet(calls, chat)
  {
    var selected := calls + [SetCurrentChatId(chat), SetCurrentChatId(other)];
    assert selected[|selected| - 1] == SetCurrentChatId(other);
    assert (selected + [SetItems(Some(items))])[..|selected|] == selected;
    SelectingFilesNothing(calls, [SetCurrentChatId(chat), SetCurrentChatId(other)], chat);
  }

  // ----- Row changes ----------------------------------------------------------------

  /** The calls a model makes on QAbstractItemModel. An end records the row count then. */
  datatype Change =
    | BeginReset
    | EndReset(rows: int)
    | BeginInsertRows(first: int, last: int)
    | EndInsertRows(rows: int)
    | BeginRemoveRows(first: int, last: int)
    | EndRemoveRows(rows: int)

  predicate Matches(b: Change, e: Change) {
    || (b.BeginReset? && e.EndReset?)
    || (b.BeginInsertRows? && e.EndInsertRows?)
    || (b.BeginRemoveRows? && e.EndRemoveRows?)
  }

  function Width(b: Change): int {
    match b
    case BeginInsertRows(first, last) => last - first + 1
    case BeginRemoveRows(first, last) => last - first + 1
    case _ => 0
  }

  /** The rows a view counts that asks once, at a reset, and then applies the changes. */
  function ViewRows(changes: seq<Change>): int {
    if |changes| < 2 then 0
    else
      var n := |changes|;
      var before := ViewRows(changes[..n - 2]);
      match changes[n - 1]
      case EndReset(rows) => rows
      case EndInsertRows(_) => before + Width(changes[n - 2])
      case EndRemoveRows(_) => before - Width(changes[n - 2])
      case _ => before
  }

  /** Begins and ends strictly alternate, in pairs of one kind; a removal is of rows the view
      has; and after every end the view counts the rows there are. */
  predicate InStep(changes: seq<Change>) {
    changes == [] ||
    var n := |changes|;
    && n >= 2 && InStep(changes[..n - 2]) && Matches(changes[n - 2], changes[n - 1])
    && (changes[n - 2].BeginRemoveRows? || changes[n - 2].BeginInsertRows? ==> changes[n - 2].first == 0)
    && (changes[n - 2].BeginRemoveRows? ==> changes[n - 2].last < ViewRows(changes[..n - 2]))
    && changes[n - 1].rows == ViewRows(changes)
  }

  lemma {:induction false} InStepMeans(changes: seq<Change>)
    requires InStep(changes)
    ensures |changes| % 2 == 0
    ensures forall i | 0 <= i < |changes| && i % 2 == 0 ::
              && Matches(changes[i], changes[i + 1])
              && changes[i + 1].rows == ViewRows(changes[..i + 2])
    decreases |changes|
  {
    hide ViewRows;
    if changes != [] {
      var n := |changes| - 2;
      InStepMeans(changes[..n]);
      assert changes[..n + 2] == changes;
      forall i | 0 <= i < n && i % 2 == 0
        ensures Matches(changes[i], changes[i + 1]) && changes[i + 1].rows == ViewRows(changes[..i + 2])
      {
        assert changes[..n][i] == changes[i] && changes[..n][i + 1] == changes[i + 1];
        assert changes[..n][..i + 2] == changes[..i + 2];
      }
    }
  }

  lemma OneMorePair(changes: seq<Change>, b: Change, e: Change)
    requires InStep(changes)
    requires (b.BeginInsertRows? && e.EndInsertRows?) || (b.BeginRemoveRows? && e.EndRemoveRows?)
    requires b.first == 0
    requires b.BeginRemoveRows? ==> b.last < ViewRows(changes)
    requires e.rows == ViewRows(changes) + if b.BeginInsertRows? then Width(b) else -Width(b)
    ensures InStep(changes + [b] + [e]) && ViewRows(changes + [b] + [e]) == e.rows
  {
    var all := changes + [b] + [e];
    assert all[..|all| - 2] == changes;
  }

  lemma OneMoreReset(changes: seq<Change>, rows: nat)
    requires InStep(changes)
    ensures InStep(changes + [BeginReset] + [EndReset(rows)]) && ViewRows(changes + [BeginReset] + [EndReset(rows)]) == rows
  {
    var all := changes + [BeginReset] + [EndReset(rows)];
    assert all[..|all| - 2] == changes;
  }

  // ----- The classes ----------------------------------------------------------------

  class MessagesModel {
    var list: MessagesList?
    var changes: seq<Change>

    constructor ()
      ensures list == null && changes == []
    {
      list := null;
      changes := [];
    }

    function RowCount(): (rows: nat)
      reads this, list
    {
      if list == null then 0 else list.Size()
    }

    // The handlers setList installs.

    method OnPreItemsSetted(size: nat)
      modifies this`changes
      ensures changes == old(changes) + [BeginInsertRows(0, size - 1)]
    {
      changes := changes + [BeginInsertRows(0, size - 1)];
    }

    method OnPostItemsSetted()
      modifies this`changes
      ensures changes == old(changes) + [EndInsertRows(RowCount())]
    {
      changes := changes + [EndInsertRows(RowCount())];
    }

    method OnPreListCleared(size: nat)
      modifies this`changes
      ensures changes == old(changes) + [BeginRemoveRows(0, size - 1)]
    {
      changes := changes + [BeginRemoveRows(0, size - 1)];
    }

    method OnPostListCleared()
      modifies this`changes
      ensures changes == old(changes) + [EndRemoveRows(RowCount())]
    {
      changes := changes + [EndRemoveRows(RowCount())];
    }

    /** Detaches the model from its list and attaches it to another, or to none. */
    method SetList(other: MessagesList?)
      requires InStep(changes) && (list != null ==> list.Valid())
      requires other != null ==> other.Valid() && (other.observer == null || other == list)
      requires list != null ==> list.observer == this
      modifies this, list, other
      ensures list == other && InStep(changes) && ViewRows(changes) == RowCount()
      ensures changes == old(changes) + [BeginReset] + [EndReset(RowCount())]
      ensures other != null ==> other.Valid() && other.observer == this && other.calls == old(other.calls)
      ensures old(list) != null && old(list) != other ==> old(list).Valid() && old(list).observer == null
    {
      changes := changes + [BeginReset];
      if list != null {
        list.observer := null;
      }
      list := other;
      if list != null {
        list.observer := this;
      }
      changes := changes + [EndReset(RowCount())];
      OneMoreReset(old(changes), RowCount());
    }
  }

  class MessagesList {
    var mapToItems: map<U64, MessageVec>
    var currentChatId: U64
    var items: MessageVec?
    var observer: MessagesModel?
    ghost var calls: seq<Call>

    function Size(): (n: nat)
      reads this
    {
      if items == null then 0 else |items.items|
    }

    /** The map holds for each chat the last vector set while it was current, and `items`
        is the map's own vector for the current chat, or null. */
    ghost predicate HoldsHistory()
      reads this
    {
      && currentChatId == CurrentChat(calls)
      && (forall chat: U64 :: chat in mapToItems <==> LastSet(calls, chat).Some?)
      && (forall chat | chat in mapToItems :: LastSet(calls, chat) == Some(mapToItems[chat].items))
      && items == if Emptied(calls) || currentChatId !in mapToItems then null else mapToItems[currentChatId]
    }

    ghost predicate Valid()
      reads this, observer
    {
      && HoldsHistory()
      && (observer != null ==>
            observer.list == this && InStep(observer.changes) && ViewRows(observer.changes) == Size())
    }

    constructor ()
      ensures Valid() && calls == [] && observer == null
    {
      mapToItems := map[];
      currentChatId := 0;
      items := null;
      observer := null;
      calls := [];
    }

    // Each signal reaches the handler the model has installed, if any.

    method EmitPreListCleared(size: nat)
      modifies observer
      ensures observer != null ==> observer.list == old(observer.list) && observer.changes == old(observer.changes) + [BeginRemoveRows(0, size - 1)]
    {
      if observer != null { observer.OnPreListCleared(size); }
    }

    method EmitPostListCleared()
      modifies observer
      ensures observer != null ==> observer.list == old(observer.list) && observer.changes == old(observer.changes) + [EndRemoveRows(observer.RowCount())]
    {
      if observer != null { observer.OnPostListCleared(); }
    }

    method EmitPreItemsSetted(size: nat)
      modifies observer
      ensures observer != null ==> observer.list == old(observer.list) && observer.changes == old(observer.changes) + [BeginInsertRows(0, size - 1)]
    {
      if observer != null { observer.OnPreItemsSetted(size); }
    }

    method EmitPostItemsSetted()
      modifies observer
      ensures observer != null ==> observer.list == old(observer.list) && observer.changes == old(observer.changes) + [EndInsertRows(observer.RowCount())]
    {
      if observer != null { observer.OnPostItemsSetted(); }
    }

    /** What both setters do with the items shown so far. */
    method ClearItems()
      requires observer != null ==> observer.list == this && InStep(observer.changes) && ViewRows(observer.changes) == Size()
      modifies this`items, observer
      ensures items == null
      ensures observer != null ==> observer.list == this && InStep(observer.changes) && ViewRows(observer.changes) == 0
      ensures observer != null ==>
                observer.changes == old(observer.changes) + [BeginRemoveRows(0, old(Size()) - 1)] + [EndRemoveRows(0)]
    {
      hide InStep, ViewRows, Matches;
      if observer != null { OneMorePair(observer.changes, BeginRemoveRows(0, Size() - 1), EndRemoveRows(0)); }
      EmitPreListCleared(Size());
      items := null;
      EmitPostListCleared();
    }

    /** A filled list: announced, shared with the caller's vector, and announced again. */
    method ShowItems(vec: MessageVec)
      requires items == null
      requires observer != null ==> observer.list == this && InStep(observer.changes) && ViewRows(observer.changes) == 0
      modifies this`items, observer
      ensures items == vec
      ensures observer != null ==> observer.list == this && InStep(observer.changes) && ViewRows(observer.changes) == Size()
      ensures observer != null ==>
                observer.changes == old(observer.changes) + [BeginInsertRows(0, Size() - 1)] + [EndInsertRows(Size())]
    {
      hide InStep, ViewRows, Matches;
      if observer != null {
        OneMorePair(observer.changes, BeginInsertRows(0, |vec.items| - 1), EndInsertRows(|vec.items|));
      }
      EmitPreItemsSetted(|vec.items|);
      items := vec;
      EmitPostItemsSetted();
    }

    method SetCurrentChatId(chatId: U64)
      requires Valid()
      modifies this, observer
      ensures Valid() && calls == old(calls) + [Call.SetCurrentChatId(chatId)]
      ensures mapToItems == old(mapToItems) && currentChatId == chatId && observer == old(observer)
      ensures chatId == old(currentChatId) ==> items == old(items) && (observer != null ==> observer.changes == old(observer.changes))
      ensures chatId != old(currentChatId) ==> items == if chatId in mapToItems then mapToItems[chatId] else null
      ensures chatId != old(currentChatId) && observer != null ==>
                observer.changes == old(observer.changes) + [BeginRemoveRows(0, old(Size()) - 1)] + [EndRemoveRows(0)] +
                                    if items == null then [] else [BeginInsertRows(0, Size() - 1)] + [EndInsertRows(Size())]
    {
      hide InStep, ViewRows, Matches, LastSet, CurrentChat, Emptied;
      SelectingKeeps(calls, chatId);
      calls := calls + [Call.SetCurrentChatId(chatId)];
      if currentChatId != chatId {
        ClearItems();
        currentChatId := chatId;
        if currentChatId in mapToItems {
          ShowItems(mapToItems[currentChatId]);
        }
      }
    }

    /** A vector that becomes the map's entry for the current chat and is shown. */
    method FileItems(vec: MessageVec)
      requires items == null
      requires observer != null ==> observer.list == this && InStep(observer.changes) && ViewRows(observer.changes) == 0
      modifies this`items, this`mapToItems, observer
      ensures items == vec && mapToItems == old(mapToItems)[currentChatId := vec]
      ensures observer != null ==> observer.list == this && InStep(observer.changes) && ViewRows(observer.changes) == Size()
      ensures observer != null ==>
                observer.changes == old(observer.changes) + [BeginInsertRows(0, Size() - 1)] + [EndInsertRows(Size())]
    {
      hide InStep, ViewRows, Matches;
      if observer != null {
        OneMorePair(observer.changes, BeginInsertRows(0, |vec.items| - 1), EndInsertRows(|vec.items|));
      }
      EmitPreItemsSetted(|vec.items|);
      mapToItems := mapToItems[currentChatId := vec];
      items := mapToItems[currentChatId];
      EmitPostItemsSetted();
    }

    method SetItems(vec: MessageVec?)
      requires Valid()
      modifies this, observer
      ensures Valid() && calls == old(calls) + [Call.SetItems(if vec == null then None else Some(vec.items))]
      ensures currentChatId == old(currentChatId) && items == vec && observer == old(observer)
      ensures mapToItems == if vec == null then old(mapToItems) else old(mapToItems)[currentChatId := vec]
      ensures observer != null ==>
                observer.changes == old(observer.changes) +
                                    (if old(items) == null then []
                                     else [BeginRemoveRows(0, old(Size()) - 1)] + [EndRemoveRows(0)]) +
                                    if vec == null then [] else [BeginInsertRows(0, Size() - 1)] + [EndInsertRows(Size())]
    {
      hide InStep, ViewRows, Matches, LastSet, CurrentChat, Emptied;
      SettingFiles(calls, if vec == null then None else Some(vec.items));
      calls := calls + [Call.SetItems(if vec == null then None else Some(vec.items))];
      if items != null {
        ClearItems();
      }
      if vec != null {
        FileItems(vec);
      }
    }
  }

  /** What is shown is the map's entry for the current chat, or nothing when it has none,
      exactly unless the list has been emptied while the entry stayed. */
  lemma ShowsEntryIff(list: MessagesList)
    requires list.Valid()
    ensures var entry := if list.currentChatId in list.mapToItems then list.mapToItems[list.currentChatId] else null;
            list.items == entry <==> !(Emptied(list.calls) && list.currentChatId in list.mapToItems)
  {
  }
}
