/**
 * The per-conversation message cache and read-state engine: a Channel
 * object whose methods update its fields in place, as the original class
 * does. Every method promises that the channel's new state, seen as a
 * ChannelSpec.State, is the corresponding transition of its old state, and
 * that the class invariant (ChannelSpec.Inv) is kept.
 *
 * Signals are an append-only event log; timers are "pending" flags with
 * explicit methods for their firing; each await is split into the part
 * that runs before the suspension and the part that runs after it.
 */
module ChannelModel {
  import opened Wrappers
  import opened Window
  import opened ChannelSpec

  /** The part of the owning account that a channel reads or calls into. */
  class Account {
    var isRead: bool
    /** status === 'connected' */
    var connected: bool
    /** What computeReadState() returns now: the aggregate over the account's
        other channels, which the environment keeps current. */
    var computedReadState: bool
    /** The channel's calls of setReadState, in order. */
    var readStateUpdates: seq<ReadStateUpdate>

    constructor (isRead: bool, connected: bool, computedReadState: bool)
      ensures Snapshot() == AccountState(isRead, connected, computedReadState, [])
    {
      this.isRead := isRead;
      this.connected := connected;
      this.computedReadState := computedReadState;
      readStateUpdates := [];
    }

    function Snapshot(): AccountState
      reads this
    {
      AccountState(isRead, connected, computedReadState, readStateUpdates)
    }

    /** setReadState(computeReadState()): the account takes the read state
        computed from its channels. */
    method SetReadStateComputed()
      modifies this
      ensures isRead == old(computedReadState)
      ensures Snapshot() == old(Snapshot()).(isRead := old(computedReadState),
                                             updates := old(readStateUpdates) + [Recompute(old(computedReadState))])
    {
      isRead := computedReadState;
      readStateUpdates := readStateUpdates + [Recompute(computedReadState)];
    }

    /** setReadState(false) */
    method SetReadStateFalse()
      modifies this
      ensures Snapshot() == old(Snapshot()).(isRead := false, updates := old(readStateUpdates) + [SetUnread])
    {
      isRead := false;
      readStateUpdates := readStateUpdates + [SetUnread];
    }
  }

  class Channel {
    const account: Account
    const channelType: string
    const id: string
    const name: string
    /** Date.getDate() in local time: the day of the month of an instant. */
    const dayOfMonth: int -> int

    var messages: seq<Message>
    var isRead: bool
    var lastReadTs: Option<int>
    var firstUnreadTs: Option<int>
    var latestTs: Option<int>
    var isDisplaying: bool
    var viewerCount: int
    var isReceiving: bool
    var receiverCount: int
    var messagesReady: bool
    /** readMessagesPromise !== null */
    var readMessagesInFlight: bool
    /** How many times the history fetch (readMessagesImpl) was started. */
    var fetchCalls: nat
    var stopTimerPending: bool
    var markTimerPending: bool
    /** How many times the read position was acknowledged (notifyReadImpl). */
    var readAcks: nat
    /** Dispatches of onMessage, onDeleteMessage, onModifyMessage and
        onUpdateReadState, in order. */
    var events: seq<Event>

    function Now(): State
      reads this, account
    {
      State(Cache(messages, messagesReady, readMessagesInFlight, fetchCalls),
            ReadState(isRead, lastReadTs, firstUnreadTs, latestTs),
            Viewers(isDisplaying, viewerCount),
            Receivers(isReceiving, receiverCount, stopTimerPending),
            MarkTimer(markTimerPending, readAcks),
            events,
            account.Snapshot())
    }

    ghost predicate Valid()
      reads this, account
    {
      Inv(Now())
    }

    constructor (account: Account, channelType: string, id: string, name: string, dayOfMonth: int -> int)
      ensures this.account == account && this.channelType == channelType && this.id == id && this.name == name
      ensures this.dayOfMonth == dayOfMonth
      ensures Now() == Initial(account.Snapshot()) && Valid()
    {
      this.account := account;
      this.channelType := channelType;
      this.id := id;
      this.name := name;
      this.dayOfMonth := dayOfMonth;
      messages := [];
      isRead := true;
      lastReadTs := None;
      firstUnreadTs := None;
      latestTs := None;
      isDisplaying := false;
      viewerCount := 0;
      isReceiving := false;
      receiverCount := 0;
      messagesReady := false;
      readMessagesInFlight := false;
      fetchCalls := 0;
      stopTimerPending := false;
      markTimerPending := false;
      readAcks := 0;
      events := [];
      InitialInv(account.Snapshot());
    }

    // -------------------------------------------------------------------
    // Read state

    method MarkRead()
      requires Valid()
      modifies this, account
      ensures Now() == ChannelSpec.MarkRead(old(Now())) && Valid()
    {
      lastReadTs := latestTs;
      firstUnreadTs := None;
      if isRead {
        return;
      }
      isRead := true;
      events := events + [ReadStateChanged];
      if !account.isRead {
        account.SetReadStateComputed();
      }
    }

    method MarkUnread()
      requires Valid()
      modifies this, account
      ensures Now() == ChannelSpec.MarkUnread(old(Now())) && Valid()
    {
      if !isRead || isDisplaying {
        return;
      }
      isRead := false;
      events := events + [ReadStateChanged];
      if account.isRead {
        account.SetReadStateFalse();
      }
    }

    method NotifyRead()
      requires Valid()
      modifies this, account
      ensures Now() == ChannelSpec.NotifyRead(old(Now())) && Valid()
    {
      MarkRead();
      if |messages| == 0 {
        return;
      }
      markTimerPending := true;
    }

    /** The debounced acknowledgement timer fires: notifyReadImpl. */
    method FireMarkTimer()
      requires Valid() && markTimerPending
      modifies this
      ensures Now() == ChannelSpec.FireMarkTimer(old(Now())) && Valid()
    {
      markTimerPending := false;
      readAcks := readAcks + 1;
    }

    // -------------------------------------------------------------------
    // Viewers and receivers

    method Select()
      requires Valid()
      modifies this, account
      ensures Now() == ChannelSpec.Select(old(Now())) && Valid()
    {
      viewerCount := viewerCount + 1;
      isDisplaying := true;
      if messagesReady {
        MarkRead();
      }
    }

    method Deselect()
      requires Valid()
      modifies this
      ensures Now() == ChannelSpec.Deselect(old(Now())) && Valid()
    {
      viewerCount := viewerCount - 1;
      if viewerCount == 0 {
        isDisplaying := false;
      }
    }

    method StartReceiving()
      requires Valid()
      modifies this
      ensures Now() == ChannelSpec.StartReceiving(old(Now())) && Valid()
    {
      receiverCount := receiverCount + 1;
      isReceiving := true;
      if stopTimerPending {
        stopTimerPending := false;
      }
    }

    method StopReceiving()
      requires Valid()
      modifies this
      ensures Now() == ChannelSpec.StopReceiving(old(Now())) && Valid()
    {
      receiverCount := receiverCount - 1;
      if receiverCount == 0 {
        stopTimerPending := true;
      }
    }

    /** The grace-period timer armed by StopReceiving fires:
        stopReceivingImpl. */
    method FireStopTimer()
      requires Valid() && stopTimerPending
      modifies this
      ensures Now() == ChannelSpec.FireStopTimer(old(Now())) && Valid()
    {
      isReceiving := false;
      stopTimerPending := false;
      Clear();
    }

    method Clear()
      requires Valid()
      modifies this
      ensures Now() == ChannelSpec.Clear(old(Now())) && Valid()
    {
      messagesReady := false;
      messages := [];
    }

    // -------------------------------------------------------------------
    // The message window

    function HasMessages(): (r: bool)
      reads this
      ensures r <==> messages != []
    {
      |messages| > 0
    }

    /** The newest message of the window, the one live messages are
        compared with. */
    function LatestMessage(): (r: Message)
      reads this
      requires HasMessages()
      ensures r in messages && r == Last(messages)
    {
      messages[|messages| - 1]
    }

    /** compareMessage: returns `m` as updated by the comparison with its
        predecessor `pm`, and records `m` as the first unread message when
        `pm` is the last read one. */
    method CompareMessage(m: Message, pm: Message) returns (r: Message)
      modifies this
      ensures r == Compared(m, pm, dayOfMonth)
      ensures Now() == old(Now()).(read := old(Now()).read.(
                firstUnreadTs := UnreadAfterCompare(old(lastReadTs), old(firstUnreadTs), pm, m)))
    {
      r := m;
      if m.userId == pm.userId && m.date - pm.date < FoldInterval {
        r := r.(isFolded := true);
      }
      if dayOfMonth(m.date) != dayOfMonth(pm.date) {
        r := r.(dayMarker := true);
      }
      if lastReadTs.Some? && lastReadTs.value == pm.timestamp {
        firstUnreadTs := Some(m.timestamp);
      }
    }

    /** foldMessages: the fold and day-marker pass over a fetched batch, in
        index order. */
    method FoldMessages(batch: seq<Message>) returns (folded: seq<Message>)
      modifies this
      ensures folded == Folded(batch, dayOfMonth)
      ensures Now() == old(Now()).(read := old(Now()).read.(
                firstUnreadTs := UnreadAfterFold(batch, old(lastReadTs), old(firstUnreadTs))))
    {
      folded := batch;
      var i := 0;
      while i < |batch|
        invariant 0 <= i <= |batch| && |folded| == |batch|
        invariant forall k :: 0 <= k < i ==> folded[k] == FoldedAt(batch, k, dayOfMonth)
        invariant forall k :: i <= k < |batch| ==> folded[k] == batch[k]
        invariant Now() == old(Now()).(read := old(Now()).read.(
                    firstUnreadTs := UnreadAfterFold(batch[..i], old(lastReadTs), old(firstUnreadTs))))
      {
        if i == 0 {
          folded := folded[0 := WithDayMarker(folded[0])];
        } else {
          var m := CompareMessage(folded[i], folded[i - 1]);
          folded := folded[i := m];
          assert batch[..i + 1][..i] == batch[..i];
        }
        i := i + 1;
      }
      assert batch[..i] == batch;
    }

    /** findMessageIndex: scans from the newest message down to index 1. */
    method FindMessageIndex(id: string, timestamp: int) returns (r: int)
      ensures r == FindIndex(messages, id, timestamp * 1000)
    {
      if |messages| == 0 {
        return -1;
      }
      var target := timestamp * 1000;
      var i := |messages| - 1;
      while i > 0
        invariant 0 <= i < |messages|
        invariant ScanDown(messages, i, id, target) == FindIndex(messages, id, target)
      {
        if messages[i].id == id {
          return i;
        }
        if messages[i].date < target {
          return -1;
        }
        i := i - 1;
      }
      return -1;
    }

    /** The storing tail of dispatchMessage: compare with the newest message,
        push, evict on overflow, notify. */
    method AppendMessage(m: Message)
      requires Valid()
      modifies this
      ensures Now() == Append(old(Now()), m, dayOfMonth) && Valid()
    {
      var stored := m;
      if |messages| > 0 {
        stored := CompareMessage(m, messages[|messages| - 1]);
      }
      messages := messages + [stored];
      if |messages| > CacheMessagesLimit {
        messages := messages[EvictCount..];
        messages := messages[0 := WithDayMarker(messages[0])];
      }
      events := events + [MessageAdded(stored)];
    }

    /** The read-state part of dispatchMessage: advance latestTs, then mark
        a displayed channel read and any other one unread. */
    method UpdateReadStateFor(m: Message)
      requires Valid()
      modifies this, account
      ensures Now() == DispatchReadState(old(Now()), m) && Valid()
    {
      if !m.isSub && TsNumber(latestTs) < m.timestamp {
        latestTs := Some(m.timestamp);
      }
      if isDisplaying {
        NotifyRead();
        lastReadTs := latestTs;
      } else {
        MarkUnread();
        if firstUnreadTs.None? {
          firstUnreadTs := latestTs;
        }
      }
    }

    /** dispatchMessage up to its suspension point. When it returns
        `suspended`, the call is awaiting the fetch in flight and goes on
        with DispatchMessageResume once that fetch has resolved. */
    method DispatchMessage(m: Message) returns (suspended: bool)
      requires Valid()
      modifies this, account
      ensures suspended == DispatchSuspends(old(Now()))
      ensures Now() == ChannelSpec.DispatchMessage(old(Now()), m, dayOfMonth) && Valid()
    {
      UpdateReadStateFor(m);
      if !isReceiving {
        messagesReady := false;
        return false;
      }
      if readMessagesInFlight {
        return true;
      }
      AppendMessage(m);
      return false;
    }

    /** The rest of a suspended dispatchMessage, after the awaited fetch
        has resolved: a message not newer than the newest stored one is
        dropped. */
    method DispatchMessageResume(m: Message)
      requires Valid()
      modifies this
      ensures Now() == ChannelSpec.DispatchMessageResume(old(Now()), m, dayOfMonth) && Valid()
    {
      if HasMessages() && m.date <= LatestMessage().date {
        return;
      }
      AppendMessage(m);
    }

    method DeleteMessage(id: string, timestamp: int)
      requires Valid()
      modifies this
      ensures Now() == ChannelSpec.DeleteMessage(old(Now()), id, timestamp) && Valid()
    {
      if !isReceiving {
        return;
      }
      var i := FindMessageIndex(id, timestamp);
      if i != -1 {
        FindIndexSpec(messages, id, timestamp * 1000);
        messages := messages[..i] + messages[i + 1..];
        events := events + [MessageDeleted(id, timestamp)];
      }
    }

    method ModifyMessage(id: string, timestamp: int, text: string)
      requires Valid()
      modifies this
      ensures Now() == ChannelSpec.ModifyMessage(old(Now()), id, timestamp, text) && Valid()
    {
      if !isReceiving {
        return;
      }
      var i := FindMessageIndex(id, timestamp);
      if i != -1 {
        FindIndexSpec(messages, id, timestamp * 1000);
        messages := messages[i := messages[i].(text := text)];
        events := events + [MessageModified(id, timestamp, text)];
      }
    }

    /** readMessages up to its suspension point. On a cache hit it returns
        `ready` with the cached window; otherwise the caller awaits the fetch
        in flight (started here if there was none) and goes on with
        ReadMessagesResume once it has resolved. */
    method ReadMessagesBegin() returns (ready: bool, cached: seq<Message>)
      requires Valid()
      modifies this
      ensures ready == old(messagesReady) && (ready ==> cached == messages)
      ensures Now() == ChannelSpec.ReadMessagesBegin(old(Now())) && Valid()
    {
      if messagesReady {
        return true, messages;
      }
      if !readMessagesInFlight {
        readMessagesInFlight := true;
        fetchCalls := fetchCalls + 1;
      }
      return false, [];
    }

    /** The merging part of readMessages: clear the in-flight marker, fold
        the fetched batch, place it before the window, and set an unset
        latestTs from the newest message. */
    method PrependFetched(batch: seq<Message>)
      requires Valid()
      modifies this
      ensures Now() == ChannelSpec.PrependFetched(old(Now()), batch, dayOfMonth) && Valid()
    {
      readMessagesInFlight := false;
      var folded := FoldMessages(batch);
      messages := folded + messages;
      if latestTs.None? && HasMessages() {
        latestTs := Some(LatestMessage().timestamp);
      }
    }

    /** The rest of readMessages once the awaited fetch has resolved with
        `batch`. Every caller that awaited the fetch runs this. */
    method ReadMessagesResume(batch: seq<Message>) returns (result: seq<Message>)
      requires Valid()
      modifies this
      ensures result == messages
      ensures Now() == ChannelSpec.ReadMessagesResume(old(Now()), batch, dayOfMonth) && Valid()
    {
      PrependFetched(batch);
      if account.connected {
        messagesReady := true;
      } else {
        messages := [];
      }
      result := messages;
    }
  }
}
