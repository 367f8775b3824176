# Channel cache and Slack message shaping, in Dafny

This project models two parts of a desktop chat client.

**The `Channel` class** (`lib/model/channel.js`) is the per-conversation
message cache and read-state engine. It keeps a window of cached messages.
Live messages are appended and fetched history is prepended. The window
evicts its 50 oldest messages once it holds more than 300. The class also
computes fold and day-marker flags, and finds a message by a backward scan.
It tracks `isRead`, `lastReadTs`, `firstUnreadTs` and `latestTs`. It
reference-counts viewers and receivers, the receivers with a one-hour grace
period before the history is dropped. It shares one in-flight history fetch
between concurrent readers.

**The text-shaping functions of the Slack message parser**
(`lib/service/slack/message-parser.js`) are the other part:

- `parseReference`, `parseChannel` and `parseSlackLink`, the last with its
  `(.+)\|(.+)` split;
- the `<...>` link-token replacement of `slackMarkdownToHtmlSync`;
- the code-fence walk of `parseMarkdown`.

Files:

- `wrappers.dfy`: `Option`.
- `window.dfy` (module `Window`): the `Message` record and the pure window
  operations, with their lemmas:
  - `Folded` and `UnreadAfterFold`, the fold pass;
  - `Evicted`, the eviction;
  - `FindIndex` and `ScanDown`, the backward lookup.
- `channel_spec.dfy` (module `ChannelSpec`): the channel's state as a
  value, one transition function per operation, and lemmas about single
  transitions and sequences of them.
- `channel.dfy` (module `ChannelModel`): class `Channel`, whose fields are
  those of the JavaScript object and whose methods update them in place.
  - Every public operation ensures `Now() == ChannelSpec.<Op>(old(Now()))`
    and keeps `Valid()`. `Now()` is the fields seen as a `ChannelSpec.State`.
  - The internal steps `CompareMessage`, `FoldMessages` and
    `FindMessageIndex` are specified by Window functions instead.
    `FoldMessages` and `FindMessageIndex` are loops proved against `Folded`
    and `FindIndex`.
  - Class `Account` stands for the fields of the owning account that a
    channel reads or calls. What `computeReadState()` returns is an input
    field, `computedReadState`.
- `message_parser.dfy` (module `MessageParser`): the parser functions, and
  `ParseMarkdown` as the source's `while` loop. `ParseMarkdown` is proved
  equal to `Render(Segments(text))`: the text is cut at its fences into
  prose and code segments, then each segment is rendered.

How the JavaScript runtime is modelled:

- **Signals** (`onMessage`, `onDeleteMessage`, `onModifyMessage`,
  `onUpdateReadState`) are an append-only log `events`.
- **Timers** are `stopTimerPending` and `markTimerPending` flags, with
  explicit `FireStopTimer` and `FireMarkTimer` methods for the callbacks.
- **Each `await`** is split in two: the part that runs before the
  suspension (`DispatchMessage`, `ReadMessagesBegin`) and the part that runs
  once the awaited fetch has resolved (`DispatchMessageResume`,
  `ReadMessagesResume`). The fetched batch is a parameter.
- **`Date.getDate()`** is an abstract function `dayOfMonth: int -> int`.
- **The markdown rules** are an abstract function `runRules: string -> string`.

The model follows the code, including these behaviours:

- `findMessageIndex` never looks at index 0 (`FindIndexSkipsHead`).
- Day markers compare only the day of the month.
- Every caller awaiting the shared fetch prepends the batch again. Two
  such callers leave the folded batch in the window twice
  (`ConcurrentResumeDuplicates`).

Some of these behaviours break properties one might expect:

- **Read state.** A read channel is not free of an unread marker. The fold
  pass sets `firstUnreadTs` whatever the read state
  (`FoldMarksReadChannel`).
- **Window order.** The window is not kept sorted by date.
  - A fetched batch is prepended without a date check
    (`PrependIgnoresDates`), and so is a second copy of it.
  - A live message stored while no fetch is in flight is appended without
    a date check too (`AppendIgnoresDates`).
  - Only the resumed dispatch drops a message that is not newer than the
    newest one (`DispatchResumeKeepsSorted`).
- **`markRead` on a read channel.** It is not a no-op. It still sets
  `lastReadTs := latestTs` and clears `firstUnreadTs` (`MarkReadOnce`).
- **The account's read state.** `markRead` asks the account to recompute
  only when the account is *not* read (`MarkReadAccount`).

## Model

| member | source | states |
|---|---|---|
| Window.FoldedSpec | lib/model/channel.js:132-148 | The fold pass keeps every message's content and position. The first message gets a day marker. A later message is folded iff it already was, or its author equals its predecessor's and the gap is under 5 minutes. It has a day marker iff it already had one, or its day of month differs from its predecessor's. |
| Window.FoldPairExamples | lib/model/channel.js:143-148 | Same author, 3 minutes apart, same day: folded, no day marker. Different authors: never folded. Different days: day marker. |
| Window.UnreadAfterFoldSpec | lib/model/channel.js:149-151 | After the pass, firstUnreadTs is unchanged when no message directly follows the last read one. Otherwise it is the timestamp of the newest such follower. |
| Window.UnreadWithoutFollower | lib/model/channel.js:149-151 | With no follower of the last read message, the pass leaves firstUnreadTs alone. |
| Window.UnreadAtNewestFollower | lib/model/channel.js:149-151 | With a newest follower k of the last read message, the pass leaves firstUnreadTs at message k's timestamp. |
| Window.Folded | lib/model/channel.js:132-148 | The fold pass over a batch: same length, each message keeping its content. FoldedSpec states the flags. |
| Window.UnreadAfterFold | lib/model/channel.js:133-151 | firstUnreadTs after the pass: the old value, or the timestamp of some message after the first. UnreadAfterFoldSpec says which. |
| Window.Evicted | lib/model/channel.js:199-204 | A window within 300 is kept. Above 300, 50 messages fewer, and everything after the new head is the old window from index 51 on. |
| Window.AppendedWindow | lib/model/channel.js:196-204 | Appending below 300 keeps the old messages in front of the new one. At 300 or more, the 50 oldest go and the new head gets a day marker. |
| Window.EvictedKeepsNewest | lib/model/channel.js:199-204 | A window within 300 is untouched. Above 300, the 50 oldest go, the rest keep their order, and the new head gets a day marker. |
| Window.AppendWithinLimit | lib/model/channel.js:196-204 | Appending to a window of at most 300 gives 251 messages at the limit and one more below it. The result never exceeds 300 and ends with the new message. |
| Window.EvictedKeepsSorted | lib/model/channel.js:201-204 | Eviction keeps date order. |
| Window.AppendKeepsSorted | lib/model/channel.js:192-198 | Appending a message no older than the newest keeps date order. |
| Window.ScanDown | lib/model/channel.js:158-164 | The backward scan from index i returns -1 or an index in 1..i whose message has the id. |
| Window.FindIndex | lib/model/channel.js:154-166 | findMessageIndex returns -1 or an index 1 <= r < length whose message has the id. |
| Window.ScanDownSpec | lib/model/channel.js:158-164 | The scan from index i returns -1 or an index in 1..i holding the id. Every message it passed has another id and is not older than the target. A miss means every match in 1..i lies below an older message. |
| Window.FindIndexSpec | lib/model/channel.js:154-166 | -1 on an empty window. Otherwise -1 or an index 1 <= r < length whose message has the id, every newer message having been passed over. A miss for a present message means a newer message older than the target stopped the scan. |
| Window.FindIndexSkipsHead | lib/model/channel.js:158 | A message at index 0 is never found, even when it has the id. |
| Window.FindIndexInSorted | lib/model/channel.js:154-166 | In a date-sorted window, a message at index >= 1 that is not older than the target is found, at its index or a newer one with the same id. |
| ChannelSpec.InitialInv | lib/model/channel.js:9-60 | A new channel satisfies the invariant. |
| ChannelSpec.LifecycleKeepsInv | lib/model/channel.js:62-121 | The read-state, viewer, receiver and clear operations keep the invariant. An armed stop timer firing keeps it. |
| ChannelSpec.DispatchKeepsInv | lib/model/channel.js:168-207 | dispatchMessage, both before and after its suspension, keeps the invariant. |
| ChannelSpec.LookupOpsKeepInv | lib/model/channel.js:209-227 | deleteMessage and modifyMessage keep the invariant. |
| ChannelSpec.ReadMessagesKeepsInv | lib/model/channel.js:229-251 | readMessages, both before and after its suspension, keeps the invariant. |
| ChannelSpec.MarkReadOnce | lib/model/channel.js:62-73 | markRead always sets lastReadTs to latestTs, clears firstUnreadTs and leaves the channel read. It logs one read-state event exactly when the channel was unread. Applying it twice equals applying it once. |
| ChannelSpec.MarkReadAccount | lib/model/channel.js:67-72 | The account is untouched when the channel was read or the account is read. Otherwise the account takes the computed read state, and the call is logged. |
| ChannelSpec.ReadThenUnreadAccount | lib/model/channel.js:62-83 | For an unread channel, an unread account that recomputes to read, and no display: markRead then markUnread logs the recompute and then setReadState(false). The account ends unread, with two read-state events. |
| ChannelSpec.MarkUnreadGuard | lib/model/channel.js:75-83 | markUnread on a displayed or already unread channel changes nothing. Otherwise the channel turns unread with exactly one read-state event. |
| ChannelSpec.NotifyReadDebounced | lib/model/channel.js:261-268 | With messages cached, two notifyRead calls equal one, and the timer then sends a single acknowledgement. |
| ChannelSpec.ViewerRule | lib/model/channel.js:85-95 | In any state, select adds a viewer and always displays. Deselect removes a viewer and stops displaying exactly when the count drops from 1 to 0. |
| ChannelSpec.ViewerCounting | lib/model/channel.js:85-95 | select always displays, and marks read only when messagesReady. With two viewers, one deselect keeps the channel displayed and the second ends the display. |
| ChannelSpec.ReceiveGracePeriod | lib/model/channel.js:97-121 | When the last receiver leaves, the stop timer is armed and the cache is kept. A new receiver before the timer fires disarms it and keeps the cache. The timer firing empties the window, unsets messagesReady and stops receiving. |
| ChannelSpec.StopReceivingArmsAtZero | lib/model/channel.js:106-110 | stopReceiving arms the timer iff the receiver count drops to 0. |
| ChannelSpec.SingleFlight | lib/model/channel.js:229-235 | Any number of readMessages calls before the fetch resolves start at most one fetch. They start exactly one when the history was not ready and no fetch was in flight. The window is untouched. |
| ChannelSpec.ReadMessagesCacheHit | lib/model/channel.js:230-231 | With messagesReady, readMessages changes nothing and starts no fetch. |
| ChannelSpec.ReadMessagesResumeSpec | lib/model/channel.js:235-250 | After the fetch, no fetch is in flight. Connected: the window is the folded batch followed by the old window, and messagesReady is set. Disconnected: the window is emptied. No event is logged. |
| ChannelSpec.ReadMessagesLatest | lib/model/channel.js:239-241 | A set latestTs is kept. An unset one becomes the timestamp of the newest message of the merged window. |
| ChannelSpec.FoldTwice | lib/model/channel.js:132-152 | Folding an already folded batch changes neither the messages nor firstUnreadTs. |
| ChannelSpec.ConcurrentResumeDuplicates | lib/model/channel.js:233-238 | Two callers resuming on one fetch while connected leave the folded batch twice before the old window. |
| ChannelSpec.FoldMarksReadChannel | lib/model/channel.js:150-151 | A read channel whose last read message is followed in the fetched batch stays read but gets a firstUnreadTs. |
| ChannelSpec.PrependIgnoresDates | lib/model/channel.js:238 | A fetched message newer than the cached window is placed before it, so the window is no longer sorted by date. |
| ChannelSpec.DispatchReadStateSpec | lib/model/channel.js:169-181 | latestTs advances only for a non-sub message with a larger timestamp, a missing one counting as 0. A displayed channel ends read with lastReadTs = latestTs. Any other channel ends unread with a firstUnreadTs once latestTs is set. The cache and receivers are untouched, and at most one read-state event is appended. |
| ChannelSpec.DispatchMessageNotStored | lib/model/channel.js:183-194 | When not receiving, the window is unchanged, messagesReady is false and no message event is logged. With a fetch in flight, the cache is left to the resumed call. |
| ChannelSpec.DispatchMessageStored | lib/model/channel.js:195-206 | When receiving with no fetch in flight, the message (flags aside) is stored last and announced exactly once, by the last event. A window within 300 stays within 300. |
| ChannelSpec.DispatchResumeKeepsSorted | lib/model/channel.js:189-198 | A resumed dispatch keeps a date-sorted window sorted. A message not newer than the newest stored one is dropped: the state is unchanged. |
| ChannelSpec.DispatchMessageAppends | lib/model/channel.js:195-204 | When receiving with no fetch in flight and below 300 messages, the window grows by one and keeps the old messages in front. At 300 or more, it loses 50, its new head is the 51st oldest with a day marker, and the rest keep their order. |
| ChannelSpec.AppendIgnoresDates | lib/model/channel.js:195-198 | A live message older than the cached window's newest is still appended after it, so the window is no longer sorted by date. |
| ChannelSpec.DeleteMessageSpec | lib/model/channel.js:209-217 | No-op when not receiving or when the lookup misses. Otherwise exactly the found message (index >= 1, with the id) is removed, the others keep their order, and one deletion event is logged. Nothing else changes. |
| ChannelSpec.ModifyMessageSpec | lib/model/channel.js:219-227 | No-op when not receiving or when the lookup misses. Otherwise only the found message's text changes, and one modification event is logged. Nothing else changes. |
| ChannelModel.Account.SetReadStateComputed | lib/model/channel.js:72 | The account's read flag becomes the computed read state, and the call is logged with that value. |
| ChannelModel.Account.SetReadStateFalse | lib/model/channel.js:82 | Records a setReadState(false) call and marks the account unread. |
| ChannelModel.Channel.constructor | lib/model/channel.js:9-60 | Fields start as in the source: empty window, read, no timestamps, zero counts, nothing pending. The invariant holds. |
| ChannelModel.Channel.MarkRead | lib/model/channel.js:62-73 | The new state is MarkRead of the old one, and the invariant is kept. |
| ChannelModel.Channel.MarkUnread | lib/model/channel.js:75-83 | The new state is MarkUnread of the old one, and the invariant is kept. |
| ChannelModel.Channel.Select | lib/model/channel.js:85-90 | The new state is Select of the old one, and the invariant is kept. |
| ChannelModel.Channel.Deselect | lib/model/channel.js:92-95 | The new state is Deselect of the old one, and the invariant is kept. |
| ChannelModel.Channel.StartReceiving | lib/model/channel.js:97-104 | The new state is StartReceiving of the old one: the count goes up, receiving is on and the stop timer is disarmed. |
| ChannelModel.Channel.StopReceiving | lib/model/channel.js:106-110 | The new state is StopReceiving of the old one, and the invariant is kept. |
| ChannelModel.Channel.FireStopTimer | lib/model/channel.js:112-116 | The armed timer fires: receiving stops and the cache is cleared. |
| ChannelModel.Channel.Clear | lib/model/channel.js:118-121 | The window is emptied and messagesReady is unset. |
| ChannelModel.Channel.HasMessages | lib/model/channel.js:123-125 | True iff the window is not empty. |
| ChannelModel.Channel.LatestMessage | lib/model/channel.js:127-129 | On a non-empty window, its last message, the one live messages are compared with. |
| ChannelModel.Channel.CompareMessage | lib/model/channel.js:143-152 | Returns the message with its fold and day-marker flags set as Compared says. firstUnreadTs becomes m's timestamp when the last read timestamp is set and equals pm's. No other field changes. |
| ChannelModel.Channel.FoldMessages | lib/model/channel.js:132-141 | The index loop returns Folded(batch). firstUnreadTs becomes UnreadAfterFold(batch). No other field changes. |
| ChannelModel.Channel.FindMessageIndex | lib/model/channel.js:154-166 | The loop from the last index down to 1 returns FindIndex(messages, id, timestamp*1000), whose meaning FindIndexSpec states. |
| ChannelModel.Channel.AppendMessage | lib/model/channel.js:195-206 | The new state is Append of the old one: compare with the newest, push, evict on overflow, announce. |
| ChannelModel.Channel.UpdateReadStateFor | lib/model/channel.js:169-181 | The new state is DispatchReadState of the old one. |
| ChannelModel.Channel.DispatchMessage | lib/model/channel.js:168-194 | The new state is DispatchMessage of the old one. It reports a suspension exactly when receiving with a fetch in flight. |
| ChannelModel.Channel.DispatchMessageResume | lib/model/channel.js:190-206 | The new state is DispatchMessageResume of the old one. |
| ChannelModel.Channel.DeleteMessage | lib/model/channel.js:209-217 | The new state is DeleteMessage of the old one. |
| ChannelModel.Channel.ModifyMessage | lib/model/channel.js:219-227 | The new state is ModifyMessage of the old one. |
| ChannelModel.Channel.NotifyRead | lib/model/channel.js:261-268 | The new state is NotifyRead of the old one: markRead, then the acknowledgement timer is armed when messages are cached. |
| ChannelModel.Channel.FireMarkTimer | lib/model/channel.js:265-267 | The pending acknowledgement is sent once and the timer is disarmed. |
| ChannelModel.Channel.ReadMessagesBegin | lib/model/channel.js:229-235 | Returns the cached window when messagesReady. Otherwise starts a fetch only if none is in flight. The new state is ReadMessagesBegin of the old one. |
| ChannelModel.Channel.PrependFetched | lib/model/channel.js:236-241 | The new state is PrependFetched of the old one: in-flight cleared, folded batch prepended, unset latestTs filled. |
| ChannelModel.Channel.ReadMessagesResume | lib/model/channel.js:235-251 | Returns the new window. The new state is ReadMessagesResume of the old one. |
| MessageParser.TrimLeftSpec | lib/service/slack/message-parser.js:118 | trimLeft keeps a suffix. Everything it drops is white space, and what it keeps does not start with white space. |
| MessageParser.TrimRightSpec | lib/service/slack/message-parser.js:110 | Trimming on the right keeps a prefix. Everything it drops is white space, and what it keeps does not end with white space. |
| MessageParser.TrimSpec | lib/service/slack/message-parser.js:110 | trim returns the slice between the leading and the trailing white space. That slice neither starts nor ends with white space. |
| MessageParser.LastBar | lib/service/slack/message-parser.js:87 | Returns the last '|' below a bound with a character on each side, or -1 when there is none. |
| MessageParser.LineEnd | lib/service/slack/message-parser.js:87 | Returns the length of the first line: no line terminator before it, and one at it unless at the end. |
| MessageParser.SplitLine | lib/service/slack/message-parser.js:87 | On one line: no match iff no '\|' has a character on each side. On a match, both captures are non-empty and content + "\|" + display is the line. |
| MessageParser.MatchLink | lib/service/slack/message-parser.js:87 | A match has two non-empty captures, and its content holds no line terminator. |
| MessageParser.SplitLineSpec | lib/service/slack/message-parser.js:87-90 | On one line, the regex fails iff no '|' has a character on each side. On a match, content + "\|" + display is the text, both parts are non-empty, and display has no '\|' before its last character. |
| MessageParser.MatchLinkAtBar | lib/service/slack/message-parser.js:87-90 | A one-line c\|d whose d has no '\|' matches with content c and display d. |
| MessageParser.NoBarNoMatch | lib/service/slack/message-parser.js:87-93 | Text without '\|' never matches, so the whole text is both content and display. |
| MessageParser.ParseReference | lib/service/slack/message-parser.js:66-71 | Content that is not a broadcast keyword yields display unchanged. |
| MessageParser.BroadcastSpanNamesKeyword | lib/service/slack/message-parser.js:66-68 | For !channel, !here and !everyone the result is a broadcast span from which "!" plus its inner text gives back the keyword. |
| MessageParser.ParseChannel | lib/service/slack/message-parser.js:73-76 | The link's href is url + "/archives/" + id, and it ends with "#" + display + "</a>". |
| MessageParser.ParseSlackLink | lib/service/slack/message-parser.js:85-103 | Without shouldParseAt the result is always markup, never the pending mention. |
| MessageParser.SlackLinkDispatch | lib/service/slack/message-parser.js:94-102 | For a token c\|d the branches are, in order: '!' a reference, '#' a channel with id c minus '#', '@' a mention only with shouldParseAt, otherwise a plain link. |
| MessageParser.SlackLinkWithoutBar | lib/service/slack/message-parser.js:87-102 | A token without '\|' dispatches on its first character with the whole text as content and display. |
| MessageParser.NextAngle | lib/service/slack/message-parser.js:123 | Returns the first '<' or '>' at or after an index, or the end. |
| MessageParser.ReplaceLinks | lib/service/slack/message-parser.js:123 | The global replacement of `<...>` tokens. ReplaceLinksNoToken and ReplaceLinksToken state its effect. |
| MessageParser.ReplaceLinksNoToken | lib/service/slack/message-parser.js:123 | Text without '<' is unchanged by the link replacement. |
| MessageParser.ReplaceLinksToken | lib/service/slack/message-parser.js:123 | "<" + inner + ">" + rest, with inner non-empty and free of angle brackets, becomes the link markup of inner (shouldParseAt false) followed by the replacement of rest. |
| MessageParser.FenceIndex | lib/service/slack/message-parser.js:108 | Returns -1 or the position, at or after from, of a fence. |
| MessageParser.FenceIndexFirst | lib/service/slack/message-parser.js:108 | No fence lies between from and the found position (or the end). |
| MessageParser.SegmentsJoin | lib/service/slack/message-parser.js:105-120 | The fence walk loses nothing: its segments joined with fences give back the text. |
| MessageParser.SegmentsFenceFree | lib/service/slack/message-parser.js:105-120 | No segment of the fence walk contains a fence. |
| MessageParser.MarkdownFromRenders | lib/service/slack/message-parser.js:105-120 | The round-by-round account of the loop equals rendering the segments. |
| MessageParser.ParseMarkdown | lib/service/slack/message-parser.js:105-120 | The while loop over fence indexes returns Render(Segments(text)). |
| MessageParser.MarkdownWithoutFence | lib/service/slack/message-parser.js:107-118 | Text without a fence is one prose segment, rendered as runRules(trimLeft(text)). |
| MessageParser.MarkdownClosedBlock | lib/service/slack/message-parser.js:109-117 | For fence-free a and b, a```b```c segments as prose a, code b, then the segments of c. It renders as runRules(trim(a)), then "<pre>" + trim(b) + "</pre>" without the rules, then the rendering of c. |
| MessageParser.MarkdownUnclosedFence | lib/service/slack/message-parser.js:112-118 | For fence-free a and b, the unmatched fence in a```b is dropped. The result is runRules(trim(a)) followed by runRules(trimLeft(b)). |
| MessageParser.SlackMarkdownToHtmlSync | lib/service/slack/message-parser.js:122-125 | The result is the markdown rendering of the text after every link token is replaced with shouldParseAt false. |

## Left out

- GUI code (the chat box and action panel views) is not part of this model.
- Real timers are not modelled: `setTimeout`/`clearTimeout` and the 1-hour and 5-second delays become pending flags with explicit fire methods.
- The signal library is not modelled; signals are an event log, and subscribers are not.
- `process.gc()` (lib/model/channel.js:243) has no observable effect on the model and is left out.
- Account internals are not modelled: how `computeReadState` aggregates the account's channels, the rest of `setReadState`, and `status`. The account is a connected flag, a read flag, the current result of `computeReadState()` as an input field, and a log of the channel's `setReadState` calls.
- The subclass hooks `readMessagesImpl`, `sendMessage` and `notifyReadImpl` only throw here. The fetched batch is a parameter of `ReadMessagesResume`, and a fetch that fails is not modelled.
- JavaScript `Date` objects are integer milliseconds. `getDate()` in local time is an abstract `dayOfMonth` function.
- Timestamps are integers. Slack's decimal timestamp strings, their coercion with `* 1` and `new Date(timestamp * 1000)` on fractional seconds are not modelled. A missing `latestTs` counts as 0, and the truthiness of a timestamp is its presence.
- Metadata fields (`description`, `isMember`, `isPrivate`, `isDefault`, `isMultiParty`, `isMuted`) are constant and left out.
- Aliasing is left out: the window is a `seq` that methods reassign, and message objects are values. So the model does not capture these effects:
  - A caller holding the array returned by `readMessages` does not see later in-place changes.
  - After two concurrent resumes (`ConcurrentResumeDuplicates`), the two copies of the batch are the same objects in the source. `ModifyMessage` and the day marker set after an eviction change both copies there, but one slot in the model.
  - `CompareMessage` and `FoldMessages` return updated copies, where the source mutates the caller's message objects.
  - The `onMessage` signal hands out the live stored object, where the model's event log keeps a snapshot (`MessageAdded`).
- The rule list behind `runRules` (emoji lookup, platform check, bold/italic/strike/code regexes) is not modelled; `runRules` is an abstract function.
- The async mention path (`parseAt`, `parseLinks`, `slackMarkdownToHtml`, which fetch user names) is left out. `ParseSlackLink` returns `PendingMention(userId)` on that branch.
- Interleavings are modelled only through the split methods. Any order of calls to the Begin, Resume and other methods is one possible schedule; the event loop itself is not modelled.
