/**
 * The state of one channel as a value, and one transition function per
 * operation of the channel. The Channel class implements each operation
 * imperatively and promises that its new state is the transition of its old
 * state; the lemmas here state what the transitions guarantee, alone and in
 * sequence (idempotent read marking, the receive grace period, single-flight
 * fetching, the window bound, ...).
 */
module ChannelSpec {
  import opened Wrappers
  import opened Window

  /** One notification of the channel's four signals. */
  datatype Event =
    | MessageAdded(message: Message)
    | MessageDeleted(id: string, timestamp: int)
    | MessageModified(id: string, timestamp: int, text: string)
    | ReadStateChanged

  /** A channel's call of its account's setReadState. */
  datatype ReadStateUpdate =
    | Recompute(readState: bool)   // setReadState(computeReadState()), with the computed value
    | SetUnread   // setReadState(false)

  /** Read/unread markers. `latestTs` is the newest main message seen. */
  datatype ReadState = ReadState(
    isRead: bool,
    lastReadTs: Option<int>,
    firstUnreadTs: Option<int>,
    latestTs: Option<int>)

  /** The display lifecycle. */
  datatype Viewers = Viewers(isDisplaying: bool, viewerCount: int)

  /** The receive lifecycle, with the grace-period stop timer. */
  datatype Receivers = Receivers(isReceiving: bool, receiverCount: int, stopTimerPending: bool)

  /** The message window and the fetch coordination; `fetchCalls` counts the
      historical fetches started. */
  datatype Cache = Cache(messages: seq<Message>, messagesReady: bool, fetchInFlight: bool, fetchCalls: nat)

  /** The debounced acknowledgement of the read position; `readAcks` counts
      the acknowledgements sent to the backend. */
  datatype MarkTimer = MarkTimer(markTimerPending: bool, readAcks: nat)

  /** The account fields a channel reads, and its calls of setReadState.
      `computedReadState` is what the account's computeReadState() returns:
      it aggregates the account's other channels, which are not part of this
      model, so it is an input of the state. */
  datatype AccountState = AccountState(isRead: bool, connected: bool, computedReadState: bool,
                                       updates: seq<ReadStateUpdate>)

  /** Everything the channel's operations read or write, with the log of
      its signals. */
  datatype State = State(
    cache: Cache,
    read: ReadState,
    viewers: Viewers,
    receivers: Receivers,
    marker: MarkTimer,
    events: seq<Event>,
    account: AccountState)

  /** A timestamp used as a number: a missing one counts as 0. */
  function TsNumber(ts: Option<int>): int {
    if ts.Some? then ts.value else 0
  }

  /** A freshly constructed channel. */
  function Initial(account: AccountState): State {
    State(Cache([], false, false, 0), ReadState(true, None, None, None), Viewers(false, 0),
          Receivers(false, 0, false), MarkTimer(false, 0), [], account)
  }

  /** What every operation keeps: an armed stop timer means no receiver is
      attached; a positive receiver count means receiving; a positive viewer
      count means displaying. */
  ghost predicate Inv(s: State) {
    && (s.receivers.stopTimerPending ==> s.receivers.receiverCount <= 0)
    && (s.receivers.receiverCount > 0 ==> s.receivers.isReceiving)
    && (s.viewers.viewerCount > 0 ==> s.viewers.isDisplaying)
  }

  // ---------------------------------------------------------------------
  // Read state

  function MarkRead(s: State): State {
    var r := s.read.(lastReadTs := s.read.latestTs, firstUnreadTs := None);
    if s.read.isRead then s.(read := r)
    else s.(read := r.(isRead := true),
            events := s.events + [ReadStateChanged],
            account := if s.account.isRead then s.account
                       else s.account.(isRead := s.account.computedReadState,
                                       updates := s.account.updates + [Recompute(s.account.computedReadState)]))
  }

  function MarkUnread(s: State): State {
    if !s.read.isRead || s.viewers.isDisplaying then s
    else s.(read := s.read.(isRead := false),
            events := s.events + [ReadStateChanged],
            account := if s.account.isRead
                       then s.account.(isRead := false, updates := s.account.updates + [SetUnread])
                       else s.account)
  }

  function NotifyRead(s: State): State {
    var r := MarkRead(s);
    if |r.cache.messages| == 0 then r else r.(marker := r.marker.(markTimerPending := true))
  }

  /** The debounced read acknowledgement fires. */
  function FireMarkTimer(s: State): State {
    s.(marker := MarkTimer(false, s.marker.readAcks + 1))
  }

  // ---------------------------------------------------------------------
  // Viewers and receivers

  function Select(s: State): State {
    var r := s.(viewers := Viewers(true, s.viewers.viewerCount + 1));
    if r.cache.messagesReady then MarkRead(r) else r
  }

  function Deselect(s: State): State {
    var n := s.viewers.viewerCount - 1;
    s.(viewers := Viewers(if n == 0 then false else s.viewers.isDisplaying, n))
  }

  function StartReceiving(s: State): State {
    s.(receivers := Receivers(true, s.receivers.receiverCount + 1, false))
  }

  function StopReceiving(s: State): State {
    var n := s.receivers.receiverCount - 1;
    s.(receivers := s.receivers.(receiverCount := n,
                                 stopTimerPending := if n == 0 then true else s.receivers.stopTimerPending))
  }

  function Clear(s: State): State {
    s.(cache := s.cache.(messagesReady := false, messages := []))
  }

  /** The grace-period timer fires: stopReceivingImpl. */
  function FireStopTimer(s: State): State {
    Clear(s.(receivers := s.receivers.(isReceiving := false, stopTimerPending := false)))
  }

  // ---------------------------------------------------------------------
  // Window operations

  /** The latest timestamp after seeing `m`: only a main message with a
      larger timestamp advances it. */
  function AdvancedLatest(latestTs: Option<int>, m: Message): Option<int> {
    if !m.isSub && TsNumber(latestTs) < m.timestamp then Some(m.timestamp) else latestTs
  }

  /** The read-state part of dispatchMessage, run before any storing. */
  function DispatchReadState(s: State, m: Message): State {
    var s1 := s.(read := s.read.(latestTs := AdvancedLatest(s.read.latestTs, m)));
    if s1.viewers.isDisplaying then
      var s2 := NotifyRead(s1);
      s2.(read := s2.read.(lastReadTs := s2.read.latestTs))
    else
      var s2 := MarkUnread(s1);
      if s2.read.firstUnreadTs.None? then s2.(read := s2.read.(firstUnreadTs := s2.read.latestTs)) else s2
  }

  /** The message as stored: compared with the newest message, if any. */
  function Arrived(s: State, m: Message, dayOfMonth: int -> int): Message {
    if |s.cache.messages| == 0 then m else Compared(m, Last(s.cache.messages), dayOfMonth)
  }

  /** Appending a live message: compare with the newest, push, evict on
      overflow, notify. */
  function Append(s: State, m: Message, dayOfMonth: int -> int): State {
    var a := Arrived(s, m, dayOfMonth);
    var unread := if |s.cache.messages| == 0 then s.read.firstUnreadTs
                  else UnreadAfterCompare(s.read.lastReadTs, s.read.firstUnreadTs, Last(s.cache.messages), m);
    s.(read := s.read.(firstUnreadTs := unread),
       cache := s.cache.(messages := Evicted(s.cache.messages + [a])),
       events := s.events + [MessageAdded(a)])
  }

  /** dispatchMessage up to its suspension point. */
  function DispatchMessage(s: State, m: Message, dayOfMonth: int -> int): State {
    var s1 := DispatchReadState(s, m);
    if !s1.receivers.isReceiving then s1.(cache := s1.cache.(messagesReady := false))
    else if s1.cache.fetchInFlight then s1
    else Append(s1, m, dayOfMonth)
  }

  /** Whether dispatchMessage suspends on the fetch in flight. */
  function DispatchSuspends(s: State): bool {
    s.receivers.isReceiving && s.cache.fetchInFlight
  }

  /** dispatchMessage after the awaited fetch has resolved: a message not
      newer than the newest stored one is dropped. */
  function DispatchMessageResume(s: State, m: Message, dayOfMonth: int -> int): State {
    if |s.cache.messages| > 0 && m.date <= Last(s.cache.messages).date then s
    else Append(s, m, dayOfMonth)
  }

  function DeleteMessage(s: State, id: string, timestamp: int): State {
    var ms := s.cache.messages;
    var i := FindIndex(ms, id, timestamp * 1000);
    if !s.receivers.isReceiving || i == -1 then s
    else
      FindIndexSpec(ms, id, timestamp * 1000);
      s.(cache := s.cache.(messages := ms[..i] + ms[i + 1..]),
         events := s.events + [MessageDeleted(id, timestamp)])
  }

  function ModifyMessage(s: State, id: string, timestamp: int, text: string): State {
    var ms := s.cache.messages;
    var i := FindIndex(ms, id, timestamp * 1000);
    if !s.receivers.isReceiving || i == -1 then s
    else
      FindIndexSpec(ms, id, timestamp * 1000);
      s.(cache := s.cache.(messages := ms[i := ms[i].(text := text)]),
         events := s.events + [MessageModified(id, timestamp, text)])
  }

  /** readMessages up to its suspension point: a cache hit changes nothing;
      otherwise a fetch is started unless one is in flight. */
  function ReadMessagesBegin(s: State): State {
    if s.cache.messagesReady || s.cache.fetchInFlight then s
    else s.(cache := s.cache.(fetchInFlight := true, fetchCalls := s.cache.fetchCalls + 1))
  }

  /** The merging part of readMessages after the fetch resolved with
      `batch`: clear the in-flight marker, prepend the folded batch, and set
      latestTs from the newest message if it was unset. */
  function PrependFetched(s: State, batch: seq<Message>, dayOfMonth: int -> int): State {
    var ms := Folded(batch, dayOfMonth) + s.cache.messages;
    var unread := UnreadAfterFold(batch, s.read.lastReadTs, s.read.firstUnreadTs);
    var latest := if s.read.latestTs.None? && |ms| > 0 then Some(Last(ms).timestamp) else s.read.latestTs;
    s.(cache := s.cache.(messages := ms, fetchInFlight := false),
       read := s.read.(firstUnreadTs := unread, latestTs := latest))
  }

  /** readMessages after the fetch resolved with `batch`: merge it, and keep
      the result only while the account is connected. */
  function ReadMessagesResume(s: State, batch: seq<Message>, dayOfMonth: int -> int): State {
    var s1 := PrependFetched(s, batch, dayOfMonth);
    if s1.account.connected then s1.(cache := s1.cache.(messagesReady := true))
    else s1.(cache := s1.cache.(messages := []))
  }

  // ---------------------------------------------------------------------
  // Properties

  lemma InitialInv(account: AccountState)
    ensures Inv(Initial(account))
  {
  }

  /** The read-state and lifecycle operations keep the invariant; the stop
      timer fires only when it is armed. */
  lemma LifecycleKeepsInv(s: State)
    requires Inv(s)
    ensures Inv(MarkRead(s)) && Inv(MarkUnread(s)) && Inv(NotifyRead(s)) && Inv(FireMarkTimer(s))
    ensures Inv(Select(s)) && Inv(Deselect(s)) && Inv(StartReceiving(s)) && Inv(StopReceiving(s))
    ensures Inv(Clear(s))
    ensures s.receivers.stopTimerPending ==> Inv(FireStopTimer(s))
  {
  }

  /** The window operations keep the invariant. */
  lemma DispatchKeepsInv(s: State, m: Message, dayOfMonth: int -> int)
    requires Inv(s)
    ensures Inv(DispatchMessage(s, m, dayOfMonth)) && Inv(DispatchMessageResume(s, m, dayOfMonth))
  {
  }

  lemma LookupOpsKeepInv(s: State, id: string, ts: int, text: string)
    requires Inv(s)
    ensures Inv(DeleteMessage(s, id, ts)) && Inv(ModifyMessage(s, id, ts, text))
  {
  }

  lemma ReadMessagesKeepsInv(s: State, batch: seq<Message>, dayOfMonth: int -> int)
    requires Inv(s)
    ensures Inv(ReadMessagesBegin(s)) && Inv(ReadMessagesResume(s, batch, dayOfMonth))
  {
  }

  /** markRead always moves the read marker to the latest timestamp and
      clears the unread marker; it notifies exactly on the unread-to-read
      transition, so a second call changes nothing. */
  lemma MarkReadOnce(s: State)
    ensures var r := MarkRead(s);
      r.read.isRead && r.read.lastReadTs == s.read.latestTs && r.read.firstUnreadTs.None?
    ensures MarkRead(s).events == if s.read.isRead then s.events else s.events + [ReadStateChanged]
    ensures MarkRead(MarkRead(s)) == MarkRead(s)
  {
  }

  /** The account's side of markRead: only a channel turning read calls
      setReadState(computeReadState()), and only when the account is not
      read; the account then takes the computed value. */
  lemma MarkReadAccount(s: State)
    ensures var a := MarkRead(s).account;
      && (s.read.isRead || s.account.isRead ==> a == s.account)
      && (!s.read.isRead && !s.account.isRead ==>
            a.isRead == s.account.computedReadState
            && a.updates == s.account.updates + [Recompute(s.account.computedReadState)])
  {
  }

  /** An account that recomputes to read while one of its channels is read
      is told again when that channel turns unread: markRead then markUnread
      calls setReadState(computeReadState()) and then setReadState(false). */
  lemma ReadThenUnreadAccount(s: State)
    requires !s.read.isRead && !s.account.isRead && s.account.computedReadState
    requires !s.viewers.isDisplaying
    ensures var r := MarkUnread(MarkRead(s));
      && !r.read.isRead && !r.account.isRead
      && r.account.updates == s.account.updates + [Recompute(true), SetUnread]
      && r.events == s.events + [ReadStateChanged, ReadStateChanged]
  {
  }

  /** markUnread does nothing to a displayed channel or an unread one; else
      it turns the channel unread with one notification. */
  lemma MarkUnreadGuard(s: State)
    ensures s.viewers.isDisplaying || !s.read.isRead ==> MarkUnread(s) == s
    ensures !s.viewers.isDisplaying && s.read.isRead ==>
      !MarkUnread(s).read.isRead && MarkUnread(s).events == s.events + [ReadStateChanged]
  {
  }

  /** Several notifyRead calls in a row leave one pending acknowledgement, so
      a burst of them sends one acknowledgement when the timer fires. */
  lemma NotifyReadDebounced(s: State)
    requires |s.cache.messages| > 0
    ensures NotifyRead(NotifyRead(s)) == NotifyRead(s)
    ensures FireMarkTimer(NotifyRead(NotifyRead(s))).marker.readAcks == s.marker.readAcks + 1
  {
  }

  /** The viewer count, in any state: select counts one viewer more and
      always displays; deselect counts one fewer and stops displaying
      exactly when the count drops from 1 to 0. */
  lemma ViewerRule(s: State)
    ensures Select(s).viewers == Viewers(true, s.viewers.viewerCount + 1)
    ensures Deselect(s).viewers.viewerCount == s.viewers.viewerCount - 1
    ensures Deselect(s).viewers.isDisplaying == (s.viewers.isDisplaying && s.viewers.viewerCount != 1)
  {
  }

  /** select always displays and marks read only when the history is ready;
      with two viewers one deselect keeps the channel displayed and the
      second one stops displaying it. */
  lemma ViewerCounting(s: State)
    requires s.viewers.viewerCount == 0
    ensures Select(s).viewers.isDisplaying
    ensures Select(s).read.isRead == (s.read.isRead || s.cache.messagesReady)
    ensures !Deselect(Select(s)).viewers.isDisplaying
    ensures Deselect(Select(Select(s))).viewers.isDisplaying
    ensures !Deselect(Deselect(Select(Select(s)))).viewers.isDisplaying
  {
  }

  /** The receive grace period: when the last receiver detaches the stop
      timer is armed and nothing is discarded; a receiver attaching before
      it fires disarms it and keeps the window; if it fires, the window is
      emptied and not ready, and receiving stops. */
  lemma ReceiveGracePeriod(s: State)
    requires Inv(s) && s.receivers.receiverCount == 1
    ensures var t := StopReceiving(s);
      && t.receivers.stopTimerPending && t.cache == s.cache
      && StartReceiving(t).cache == s.cache
      && StartReceiving(t).receivers.isReceiving && !StartReceiving(t).receivers.stopTimerPending
      && FireStopTimer(t).cache.messages == [] && !FireStopTimer(t).cache.messagesReady
      && !FireStopTimer(t).receivers.isReceiving
  {
  }

  /** The stop timer is armed exactly when the receiver count drops to 0. */
  lemma StopReceivingArmsAtZero(s: State)
    requires !s.receivers.stopTimerPending
    ensures StopReceiving(s).receivers.stopTimerPending <==> s.receivers.receiverCount == 1
  {
  }

  /** `n` callers of readMessages running up to their suspension point. */
  function ConcurrentReads(s: State, n: nat): State
    decreases n
  {
    if n == 0 then s else ReadMessagesBegin(ConcurrentReads(s, n - 1))
  }

  /** Single flight: however many callers start readMessages before the
      fetch resolves, at most one fetch is started, and exactly one when the
      history was not ready and no fetch was in flight. */
  lemma {:induction false} SingleFlight(s: State, n: nat)
    ensures ConcurrentReads(s, n).cache.fetchCalls ==
      if n > 0 && !s.cache.messagesReady && !s.cache.fetchInFlight then s.cache.fetchCalls + 1
      else s.cache.fetchCalls
    ensures n > 0 && !s.cache.messagesReady ==> ConcurrentReads(s, n).cache.fetchInFlight
    ensures ConcurrentReads(s, n).cache.messages == s.cache.messages
    decreases n
  {
    if n > 0 {
      SingleFlight(s, n - 1);
    }
  }

  /** A cache hit: readMessages on a ready channel starts no fetch and
      changes nothing. */
  lemma ReadMessagesCacheHit(s: State)
    requires s.cache.messagesReady
    ensures ReadMessagesBegin(s) == s
  {
  }

  /** After the fetch resolves: connected, the folded batch is placed before
      the existing messages and the history is ready; disconnected, the
      window is emptied. Either way no fetch is in flight, and an unset
      latestTs is taken from the newest message. */
  lemma ReadMessagesResumeSpec(s: State, batch: seq<Message>, dayOfMonth: int -> int)
    ensures var r := ReadMessagesResume(s, batch, dayOfMonth);
      && !r.cache.fetchInFlight
      && (s.account.connected ==> r.cache.messagesReady && r.cache.messages == Folded(batch, dayOfMonth) + s.cache.messages)
      && (!s.account.connected ==> r.cache.messages == [] && r.cache.messagesReady == s.cache.messagesReady)
      && r.cache.fetchCalls == s.cache.fetchCalls && r.events == s.events
  {
  }

  /** latestTs after readMessages: kept when set, else taken from the newest
      message of the merged window. */
  lemma ReadMessagesLatest(s: State, batch: seq<Message>, dayOfMonth: int -> int)
    ensures var r := ReadMessagesResume(s, batch, dayOfMonth);
      && (s.read.latestTs.Some? ==> r.read.latestTs == s.read.latestTs)
      && (s.read.latestTs.None? && |s.cache.messages| > 0 ==> r.read.latestTs == Some(Last(s.cache.messages).timestamp))
      && (s.read.latestTs.None? && |s.cache.messages| == 0 && |batch| > 0 ==> r.read.latestTs == Some(Last(batch).timestamp))
  {
    FoldedSpec(batch, dayOfMonth);
  }

  /** The fold pass is idempotent: folding a folded batch changes nothing. */
  lemma {:induction false} FoldTwice(batch: seq<Message>, dayOfMonth: int -> int,
                                     lastReadTs: Option<int>, firstUnreadTs: Option<int>)
    ensures Folded(Folded(batch, dayOfMonth), dayOfMonth) == Folded(batch, dayOfMonth)
    ensures UnreadAfterFold(Folded(batch, dayOfMonth), lastReadTs,
                            UnreadAfterFold(batch, lastReadTs, firstUnreadTs))
            == UnreadAfterFold(batch, lastReadTs, firstUnreadTs)
  {
    var f := Folded(batch, dayOfMonth);
    FoldedSpec(batch, dayOfMonth);
    FoldedSpec(f, dayOfMonth);
    assert forall k :: 0 <= k < |batch| ==> f[k].timestamp == batch[k].timestamp;
    assert forall k :: FollowsLastRead(f, k, lastReadTs) <==> FollowsLastRead(batch, k, lastReadTs);
    UnreadAfterFoldSpec(batch, lastReadTs, firstUnreadTs);
    UnreadAfterFoldSpec(f, lastReadTs, UnreadAfterFold(batch, lastReadTs, firstUnreadTs));
    var u := UnreadAfterFold(batch, lastReadTs, firstUnreadTs);
    if exists k :: FollowsLastRead(batch, k, lastReadTs) {
      var k := NewestFollower(batch, lastReadTs);
      assert u == Some(batch[k].timestamp);
      assert UnreadAfterFold(f, lastReadTs, u) == Some(f[k].timestamp);
    }
  }

  /** The newest message that directly follows the last read one. */
  lemma NewestFollower(s: seq<Message>, lastReadTs: Option<int>) returns (k: int)
    requires exists k :: FollowsLastRead(s, k, lastReadTs)
    ensures FollowsLastRead(s, k, lastReadTs)
    ensures forall j :: k < j ==> !FollowsLastRead(s, j, lastReadTs)
  {
    var k0 :| FollowsLastRead(s, k0, lastReadTs);
    k := |s| - 1;
    while !FollowsLastRead(s, k, lastReadTs)
      invariant k0 <= k < |s|
      invariant forall j :: k < j ==> !FollowsLastRead(s, j, lastReadTs)
      decreases k
    {
      k := k - 1;
    }
  }

  /** Two callers awaiting the same fetch each prepend the batch (the
      second one folds the already folded batch, which changes nothing):
      while connected, the window ends up holding the folded batch twice. */
  lemma ConcurrentResumeDuplicates(s: State, batch: seq<Message>, dayOfMonth: int -> int)
    requires s.account.connected
    ensures var once := ReadMessagesResume(s, batch, dayOfMonth);
      var twice := ReadMessagesResume(once, Folded(batch, dayOfMonth), dayOfMonth);
      && twice.cache.messages == Folded(batch, dayOfMonth) + Folded(batch, dayOfMonth) + s.cache.messages
      && twice.read.firstUnreadTs == once.read.firstUnreadTs
  {
    FoldTwice(batch, dayOfMonth, s.read.lastReadTs, s.read.firstUnreadTs);
  }

  /** The fold pass records the follower of the last read message whatever
      the read state, so a read channel can come out of readMessages with an
      unread marker. */
  lemma FoldMarksReadChannel(s: State, a: Message, b: Message, dayOfMonth: int -> int)
    requires s.read.isRead && s.read.lastReadTs == Some(a.timestamp)
    ensures var r := ReadMessagesResume(s, [a, b], dayOfMonth);
      r.read.isRead && r.read.firstUnreadTs == Some(b.timestamp)
  {
    assert [a, b][..1] == [a];
  }

  /** The fetched batch goes before the window without any date check: a
      batch newer than the cached window leaves it out of date order. */
  lemma PrependIgnoresDates(s: State, m: Message, b: Message, dayOfMonth: int -> int)
    requires s.account.connected && s.cache.messages == [m] && m.date < b.date
    ensures !SortedByDate(ReadMessagesResume(s, [b], dayOfMonth).cache.messages)
  {
    var ms := ReadMessagesResume(s, [b], dayOfMonth).cache.messages;
    assert ms == [WithDayMarker(b), m];
    assert ms[0].date > ms[1].date;
  }

  /** A live message stored while no fetch is in flight is appended without
      a date check either: an older one lands after the newest message. */
  lemma AppendIgnoresDates(s: State, p: Message, m: Message, dayOfMonth: int -> int)
    requires s.receivers.isReceiving && !s.cache.fetchInFlight
    requires s.cache.messages == [p] && m.date < p.date
    ensures !SortedByDate(DispatchMessage(s, m, dayOfMonth).cache.messages)
  {
    DispatchReadStateSpec(s, m);
    var ms := DispatchMessage(s, m, dayOfMonth).cache.messages;
    assert ms == [p, Compared(m, p, dayOfMonth)];
    assert ms[0].date > ms[1].date;
  }

  /** dispatchMessage's read-state and latest-timestamp effects: only a main
      message with a larger timestamp advances latestTs; a displayed channel
      is marked read up to it, another one is marked unread. */
  lemma DispatchReadStateSpec(s: State, m: Message)
    ensures var r := DispatchReadState(s, m);
      && r.read.latestTs == AdvancedLatest(s.read.latestTs, m)
      && (r.read.latestTs != s.read.latestTs ==> !m.isSub && TsNumber(s.read.latestTs) < m.timestamp)
      && (s.viewers.isDisplaying ==> r.read.isRead && r.read.lastReadTs == r.read.latestTs)
      && (!s.viewers.isDisplaying ==> !r.read.isRead && (r.read.latestTs.Some? ==> r.read.firstUnreadTs.Some?))
      && r.cache == s.cache && r.receivers == s.receivers
      && |r.events| <= |s.events| + 1 && r.events[..|s.events|] == s.events
      && (forall e :: e in r.events[|s.events|..] ==> e == ReadStateChanged)
  {
  }

  /** dispatchMessage on a channel that is not receiving: the window stays,
      the history turns not ready and no message is announced; while a fetch
      is in flight, the window is left to the resumed call. */
  lemma DispatchMessageNotStored(s: State, m: Message, dayOfMonth: int -> int)
    ensures var r := DispatchMessage(s, m, dayOfMonth);
      && (!s.receivers.isReceiving ==>
            r.cache.messages == s.cache.messages && !r.cache.messagesReady
            && forall e :: e in r.events[|s.events|..] ==> !e.MessageAdded?)
      && (s.receivers.isReceiving && s.cache.fetchInFlight ==> r.cache == s.cache)
  {
    DispatchReadStateSpec(s, m);
  }

  /** dispatchMessage on a receiving channel with no fetch in flight: the
      message is stored last and announced exactly once, and a window within
      the limit stays within it. */
  lemma DispatchMessageStored(s: State, m: Message, dayOfMonth: int -> int)
    requires s.receivers.isReceiving && !s.cache.fetchInFlight
    ensures var r := DispatchMessage(s, m, dayOfMonth);
      && |r.cache.messages| > 0 && SameContent(m, Last(r.cache.messages))
      && |r.events| > |s.events| && r.events[|r.events| - 1] == MessageAdded(Last(r.cache.messages))
      && (forall e :: e in r.events[|s.events|..|r.events| - 1] ==> !e.MessageAdded?)
      && (|s.cache.messages| <= CacheMessagesLimit ==> |r.cache.messages| <= CacheMessagesLimit)
  {
    DispatchReadStateSpec(s, m);
    var s1 := DispatchReadState(s, m);
    var a := Arrived(s1, m, dayOfMonth);
    if |s.cache.messages| <= CacheMessagesLimit {
      AppendWithinLimit(s.cache.messages, a);
    } else {
      EvictedKeepsNewest(s.cache.messages + [a]);
    }
    var r := DispatchMessage(s, m, dayOfMonth);
    assert r.events == s1.events + [MessageAdded(a)];
    assert r.events[|s.events|..|r.events| - 1] == s1.events[|s.events|..];
  }

  /** A stored live message goes after the old window: below the limit the
      window grows by one and keeps its old messages in front; at the limit
      the 50 oldest go, the new head gets a day marker and the rest keep
      their order. */
  lemma DispatchMessageAppends(s: State, m: Message, dayOfMonth: int -> int)
    requires s.receivers.isReceiving && !s.cache.fetchInFlight
    ensures var ms, rm := s.cache.messages, DispatchMessage(s, m, dayOfMonth).cache.messages;
      && (|ms| < CacheMessagesLimit ==> |rm| == |ms| + 1 && rm[..|ms|] == ms)
      && (|ms| >= CacheMessagesLimit ==>
            && |rm| == |ms| + 1 - EvictCount
            && rm[0] == WithDayMarker(ms[EvictCount])
            && rm[1..|rm| - 1] == ms[EvictCount + 1..])
  {
    DispatchReadStateSpec(s, m);
    var a := Arrived(DispatchReadState(s, m), m, dayOfMonth);
    AppendedWindow(s.cache.messages, a);
    assert DispatchMessage(s, m, dayOfMonth).cache.messages == Evicted(s.cache.messages + [a]);
  }

  /** A resumed dispatch never stores a message out of date order. */
  lemma DispatchResumeKeepsSorted(s: State, m: Message, dayOfMonth: int -> int)
    requires SortedByDate(s.cache.messages)
    ensures SortedByDate(DispatchMessageResume(s, m, dayOfMonth).cache.messages)
    ensures |s.cache.messages| > 0 && m.date <= Last(s.cache.messages).date ==>
      DispatchMessageResume(s, m, dayOfMonth) == s
  {
    if !(|s.cache.messages| > 0 && m.date <= Last(s.cache.messages).date) {
      var a := Arrived(s, m, dayOfMonth);
      AppendKeepsSorted(s.cache.messages, a);
      EvictedKeepsSorted(s.cache.messages + [a]);
    }
  }

  /** deleteMessage: a no-op when not receiving or when the lookup misses;
      otherwise exactly the message found (at index 1 or above, with the id)
      is removed, the rest keep their order, and one deletion is announced. */
  lemma DeleteMessageSpec(s: State, id: string, ts: int)
    ensures var r := DeleteMessage(s, id, ts);
      var ms := s.cache.messages;
      var i := FindIndex(ms, id, ts * 1000);
      && (!s.receivers.isReceiving || i == -1 ==> r == s)
      && (s.receivers.isReceiving && i != -1 ==>
            && 1 <= i < |ms| && ms[i].id == id
            && |r.cache.messages| == |ms| - 1
            && (forall j :: 0 <= j < i ==> r.cache.messages[j] == ms[j])
            && (forall j :: i <= j < |r.cache.messages| ==> r.cache.messages[j] == ms[j + 1])
            && r.events == s.events + [MessageDeleted(id, ts)]
            && r == s.(cache := r.cache, events := r.events)
            && r.cache == s.cache.(messages := r.cache.messages))
  {
    FindIndexSpec(s.cache.messages, id, ts * 1000);
  }

  /** modifyMessage: a no-op when not receiving or when the lookup misses;
      otherwise only the text of the message found changes, and one
      modification is announced. */
  lemma ModifyMessageSpec(s: State, id: string, ts: int, text: string)
    ensures var r := ModifyMessage(s, id, ts, text);
      var ms := s.cache.messages;
      var i := FindIndex(ms, id, ts * 1000);
      && (!s.receivers.isReceiving || i == -1 ==> r == s)
      && (s.receivers.isReceiving && i != -1 ==>
            && 1 <= i < |ms| && ms[i].id == id
            && |r.cache.messages| == |ms|
            && r.cache.messages[i] == ms[i].(text := text)
            && (forall j :: 0 <= j < |ms| && j != i ==> r.cache.messages[j] == ms[j])
            && r.events == s.events + [MessageModified(id, ts, text)]
            && r == s.(cache := r.cache, events := r.events)
            && r.cache == s.cache.(messages := r.cache.messages))
  {
    FindIndexSpec(s.cache.messages, id, ts * 1000);
  }
}
