/**
 * The message record of one conversation and the pure operations a channel
 * applies to its cached window of messages: the fold and day-marker pass,
 * the capacity eviction, and the backward lookup of a message by id.
 */
module Window {
  import opened Wrappers

  /** A chat message. `date` is the wall-clock instant in milliseconds;
      `isFolded` and `dayMarker` are presentation flags, which the channel
      only ever sets, never clears. */
  datatype Message = Message(
    id: string,
    timestamp: int,
    date: int,
    userId: string,
    text: string,
    isSub: bool,
    isFolded: bool,
    dayMarker: bool)

  /** Soft capacity of the window. */
  const CacheMessagesLimit: nat := 300
  /** How many of the oldest messages one overflow evicts. */
  const EvictCount: nat := 50
  /** Messages of one author closer than this (milliseconds) are folded. */
  const FoldInterval: int := 5 * 60 * 1000

  function Last(s: seq<Message>): Message
    requires |s| > 0
  {
    s[|s| - 1]
  }

  /** Same message, apart from the presentation flags. */
  predicate SameContent(a: Message, b: Message) {
    a.(isFolded := b.isFolded, dayMarker := b.dayMarker) == b
  }

  ghost predicate SortedByDate(s: seq<Message>) {
    forall i, j :: 0 <= i < j < |s| ==> s[i].date <= s[j].date
  }

  // ---------------------------------------------------------------------
  // Fold and day markers

  function WithDayMarker(m: Message): Message {
    m.(dayMarker := true)
  }

  /** The effect of comparing message `m` with its predecessor `pm` on `m`:
      folded when the author is the same and the gap is under five minutes,
      day marker when the day of the month differs. */
  function Compared(m: Message, pm: Message, dayOfMonth: int -> int): Message {
    var fold := m.userId == pm.userId && m.date - pm.date < FoldInterval;
    var newDay := dayOfMonth(m.date) != dayOfMonth(pm.date);
    m.(isFolded := m.isFolded || fold, dayMarker := m.dayMarker || newDay)
  }

  /** The effect of comparing `m` with its predecessor `pm` on firstUnreadTs:
      `m` becomes the first unread message when `pm` is the last read one. */
  function UnreadAfterCompare(lastReadTs: Option<int>, firstUnreadTs: Option<int>,
                              pm: Message, m: Message): Option<int>
  {
    if lastReadTs.Some? && lastReadTs.value == pm.timestamp then Some(m.timestamp) else firstUnreadTs
  }

  function FoldedAt(s: seq<Message>, k: nat, dayOfMonth: int -> int): Message
    requires k < |s|
  {
    if k == 0 then WithDayMarker(s[0]) else Compared(s[k], s[k - 1], dayOfMonth)
  }

  /** The messages after the fold pass: the first gets a day marker, every
      other one is compared with its predecessor in the input. */
  function Folded(s: seq<Message>, dayOfMonth: int -> int): (r: seq<Message>)
    ensures |r| == |s|
    ensures forall k :: 0 <= k < |s| ==> SameContent(s[k], r[k])
  {
    seq(|s|, k requires 0 <= k < |s| => FoldedAt(s, k, dayOfMonth))
  }

  /** firstUnreadTs after the fold pass over `s`, the comparisons being made
      in index order. */
  function UnreadAfterFold(s: seq<Message>, lastReadTs: Option<int>, firstUnreadTs: Option<int>): (r: Option<int>)
    ensures r == firstUnreadTs || exists k :: 0 < k < |s| && r == Some(s[k].timestamp)
    decreases |s|
  {
    if |s| < 2 then firstUnreadTs
    else UnreadAfterCompare(lastReadTs, UnreadAfterFold(s[..|s| - 1], lastReadTs, firstUnreadTs),
                            s[|s| - 2], s[|s| - 1])
  }

  /** The fold pass keeps every message and its content in place; the first
      message carries a day marker; every later one is folded exactly when
      it was already, or its author is its predecessor's and the gap is under
      five minutes; it carries a day marker exactly when it did already, or
      its day of the month differs from its predecessor's. */
  lemma FoldedSpec(s: seq<Message>, dayOfMonth: int -> int)
    ensures |Folded(s, dayOfMonth)| == |s|
    ensures forall k :: 0 <= k < |s| ==> SameContent(s[k], Folded(s, dayOfMonth)[k])
    ensures |s| > 0 ==> Folded(s, dayOfMonth)[0].dayMarker
    ensures forall k :: 1 <= k < |s| ==>
      Folded(s, dayOfMonth)[k].isFolded ==
        (s[k].isFolded || (s[k].userId == s[k - 1].userId && s[k].date - s[k - 1].date < FoldInterval))
    ensures forall k :: 1 <= k < |s| ==>
      Folded(s, dayOfMonth)[k].dayMarker ==
        (s[k].dayMarker || dayOfMonth(s[k].date) != dayOfMonth(s[k - 1].date))
  {
  }

  /** Two unflagged messages of one author three minutes apart on the same
      day: the second is folded and has no day marker. Two messages of
      different authors: the second is not folded, whatever the gap. */
  lemma FoldPairExamples(a: Message, b: Message, dayOfMonth: int -> int)
    requires !b.isFolded && !b.dayMarker
    ensures a.userId == b.userId && b.date - a.date == 3 * 60 * 1000 && dayOfMonth(a.date) == dayOfMonth(b.date)
      ==> Folded([a, b], dayOfMonth)[1].isFolded && !Folded([a, b], dayOfMonth)[1].dayMarker
    ensures a.userId != b.userId ==> !Folded([a, b], dayOfMonth)[1].isFolded
    ensures dayOfMonth(a.date) != dayOfMonth(b.date) ==> Folded([a, b], dayOfMonth)[1].dayMarker
  {
  }

  /** Message `k` directly follows the last read message. */
  predicate FollowsLastRead(s: seq<Message>, k: int, lastReadTs: Option<int>) {
    1 <= k < |s| && lastReadTs.Some? && lastReadTs.value == s[k - 1].timestamp
  }

  /** The fold pass leaves firstUnreadTs alone unless some message follows
      the last read one; then it points at the newest such follower. */
  lemma UnreadAfterFoldSpec(s: seq<Message>, lastReadTs: Option<int>, firstUnreadTs: Option<int>)
    ensures (forall k :: !FollowsLastRead(s, k, lastReadTs))
      ==> UnreadAfterFold(s, lastReadTs, firstUnreadTs) == firstUnreadTs
    ensures forall k ::
              FollowsLastRead(s, k, lastReadTs) && (forall j :: k < j ==> !FollowsLastRead(s, j, lastReadTs))
              ==> UnreadAfterFold(s, lastReadTs, firstUnreadTs) == Some(s[k].timestamp)
  {
    if forall k :: !FollowsLastRead(s, k, lastReadTs) {
      UnreadWithoutFollower(s, lastReadTs, firstUnreadTs);
    }
    forall k | FollowsLastRead(s, k, lastReadTs) && (forall j :: k < j ==> !FollowsLastRead(s, j, lastReadTs))
      ensures UnreadAfterFold(s, lastReadTs, firstUnreadTs) == Some(s[k].timestamp)
    {
      UnreadAtNewestFollower(s, k, lastReadTs, firstUnreadTs);
    }
  }

  lemma {:induction false} UnreadWithoutFollower(s: seq<Message>, lastReadTs: Option<int>, firstUnreadTs: Option<int>)
    requires forall k :: !FollowsLastRead(s, k, lastReadTs)
    ensures UnreadAfterFold(s, lastReadTs, firstUnreadTs) == firstUnreadTs
    decreases |s|
  {
    if |s| >= 2 {
      var p := s[..|s| - 1];
      forall k
        ensures !FollowsLastRead(p, k, lastReadTs)
      {
        assert FollowsLastRead(p, k, lastReadTs) ==> FollowsLastRead(s, k, lastReadTs);
      }
      UnreadWithoutFollower(p, lastReadTs, firstUnreadTs);
      assert !FollowsLastRead(s, |s| - 1, lastReadTs);
    }
  }

  lemma {:induction false} UnreadAtNewestFollower(s: seq<Message>, k: int, lastReadTs: Option<int>, firstUnreadTs: Option<int>)
    requires FollowsLastRead(s, k, lastReadTs)
    requires forall j :: k < j ==> !FollowsLastRead(s, j, lastReadTs)
    ensures UnreadAfterFold(s, lastReadTs, firstUnreadTs) == Some(s[k].timestamp)
    decreases |s|
  {
    if k < |s| - 1 {
      var p := s[..|s| - 1];
      assert FollowsLastRead(p, k, lastReadTs);
      forall j | k < j
        ensures !FollowsLastRead(p, j, lastReadTs)
      {
        assert FollowsLastRead(p, j, lastReadTs) ==> FollowsLastRead(s, j, lastReadTs);
      }
      UnreadAtNewestFollower(p, k, lastReadTs, firstUnreadTs);
      assert !FollowsLastRead(s, |s| - 1, lastReadTs);
    }
  }

  // ---------------------------------------------------------------------
  // Capacity eviction

  /** The window after an insertion: once it holds more than the limit, the
      oldest EvictCount messages go and the new oldest gets a day marker. */
  function Evicted(s: seq<Message>): (r: seq<Message>)
    ensures |s| <= CacheMessagesLimit ==> r == s
    ensures |s| > CacheMessagesLimit ==> |r| == |s| - EvictCount && r[1..] == s[EvictCount + 1..]
  {
    if |s| > CacheMessagesLimit then
      var rest := s[EvictCount..];
      [WithDayMarker(rest[0])] + rest[1..]
    else s
  }

  /** Eviction keeps the newest messages, in order and with their content,
      and marks the new head with a day marker; a window within the limit
      is left alone. */
  lemma EvictedKeepsNewest(s: seq<Message>)
    ensures |s| <= CacheMessagesLimit ==> Evicted(s) == s
    ensures |s| > CacheMessagesLimit ==>
      && |Evicted(s)| == |s| - EvictCount
      && Evicted(s)[0] == WithDayMarker(s[EvictCount])
      && Evicted(s)[1..] == s[EvictCount + 1..]
  {
  }

  /** Appending one message to a window within the limit: at the limit the
      window shrinks to 251, below it grows by one, so it stays within 300. */
  lemma AppendWithinLimit(s: seq<Message>, m: Message)
    requires |s| <= CacheMessagesLimit
    ensures |Evicted(s + [m])| == if |s| == CacheMessagesLimit then 251 else |s| + 1
    ensures |Evicted(s + [m])| <= CacheMessagesLimit
    ensures Last(Evicted(s + [m])) == m
  {
  }

  /** The window after appending `a`: below the limit the old messages
      stay in front of it; at the limit the 50 oldest go and the new head
      gets a day marker. */
  lemma AppendedWindow(s: seq<Message>, a: Message)
    ensures var e := Evicted(s + [a]);
      && (|s| < CacheMessagesLimit ==> e == s + [a])
      && (|s| >= CacheMessagesLimit ==>
            && |e| == |s| + 1 - EvictCount
            && e[0] == WithDayMarker(s[EvictCount])
            && e[1..|e| - 1] == s[EvictCount + 1..])
  {
    var t := s + [a];
    if |s| >= CacheMessagesLimit {
      var e := Evicted(t);
      assert e[1..] == t[EvictCount + 1..];
      assert e[1..|e| - 1] == t[EvictCount + 1..|t| - 1];
      assert t[EvictCount + 1..|t| - 1] == s[EvictCount + 1..];
    }
  }

  /** Eviction never breaks the date order. */
  lemma EvictedKeepsSorted(s: seq<Message>)
    requires SortedByDate(s)
    ensures SortedByDate(Evicted(s))
  {
    if |s| > CacheMessagesLimit {
      var r := Evicted(s);
      forall i, j | 0 <= i < j < |r| ensures r[i].date <= r[j].date {
        assert r[i].date == s[i + EvictCount].date;
        assert r[j].date == s[j + EvictCount].date;
      }
    }
  }

  /** Appending a message no older than the newest keeps the date order. */
  lemma AppendKeepsSorted(s: seq<Message>, m: Message)
    requires SortedByDate(s)
    requires |s| > 0 ==> Last(s).date <= m.date
    ensures SortedByDate(s + [m])
  {
    var t := s + [m];
    forall i, j | 0 <= i < j < |t| ensures t[i].date <= t[j].date {
      if j == |s| && i < |s| {
        assert s[i].date <= Last(s).date;
      }
    }
  }

  // ---------------------------------------------------------------------
  // Backward lookup

  /** The scan of findMessageIndex from index `i` down to index 1: the first
      message with the id wins; the first message dated before `target`
      ends the scan with -1. Index 0 is never examined. */
  function ScanDown(s: seq<Message>, i: nat, id: string, target: int): (r: int)
    requires i < |s|
    ensures r == -1 || (1 <= r <= i && s[r].id == id)
    decreases i
  {
    if i == 0 then -1
    else if s[i].id == id then i
    else if s[i].date < target then -1
    else ScanDown(s, i - 1, id, target)
  }

  /** findMessageIndex's answer: -1 on an empty window, else the scan from
      the newest message down. */
  function FindIndex(s: seq<Message>, id: string, target: int): (r: int)
    ensures r == -1 || (1 <= r < |s| && s[r].id == id)
  {
    if |s| == 0 then -1 else ScanDown(s, |s| - 1, id, target)
  }

  /** The messages above index `r` the scan passes over on its way to `r`. */
  ghost predicate PassedOver(s: seq<Message>, r: int, hi: int, id: string, target: int) {
    forall k :: r < k <= hi && 0 <= k < |s| ==> s[k].id != id && s[k].date >= target
  }

  lemma {:induction false} ScanDownSpec(s: seq<Message>, i: nat, id: string, target: int)
    requires i < |s|
    ensures var r := ScanDown(s, i, id, target);
      && (r == -1 || 1 <= r <= i)
      && (r != -1 ==> s[r].id == id && PassedOver(s, r, i, id, target))
      && (r == -1 ==> forall j :: 1 <= j <= i && s[j].id == id ==>
                        exists k :: j < k <= i && s[k].date < target)
    decreases i
  {
    if i > 0 && s[i].id != id && s[i].date >= target {
      ScanDownSpec(s, i - 1, id, target);
      var r := ScanDown(s, i, id, target);
      if r == -1 {
        forall j | 1 <= j <= i && s[j].id == id
          ensures exists k :: j < k <= i && s[k].date < target
        {
          assert j <= i - 1;
          var k :| j < k <= i - 1 && s[k].date < target;
        }
      }
    }
  }

  /** A found index is at least 1, holds the id, and every newer message was
      scanned past (other id, not older than the target). A miss for a
      message that is present at index 1 or above means a newer message
      dated before the target ended the scan. */
  lemma FindIndexSpec(s: seq<Message>, id: string, target: int)
    ensures var r := FindIndex(s, id, target);
      && (|s| == 0 ==> r == -1)
      && (r == -1 || 1 <= r < |s|)
      && (r != -1 ==> s[r].id == id && PassedOver(s, r, |s| - 1, id, target))
      && (r == -1 ==> forall j :: 1 <= j < |s| && s[j].id == id ==>
                        exists k :: j < k < |s| && s[k].date < target)
  {
    if |s| > 0 {
      ScanDownSpec(s, |s| - 1, id, target);
    }
  }

  /** The head of the window is never found, even when it holds the id. */
  lemma FindIndexSkipsHead(m: Message, target: int)
    ensures FindIndex([m], m.id, target) == -1
  {
  }

  /** In a window sorted by date, a message at index 1 or above that is not
      older than the target is always found (at the newest index with its
      id). */
  lemma FindIndexInSorted(s: seq<Message>, j: int, target: int)
    requires SortedByDate(s)
    requires 1 <= j < |s| && s[j].date >= target
    ensures var r := FindIndex(s, s[j].id, target);
      j <= r < |s| && s[r].id == s[j].id
  {
    var id := s[j].id;
    FindIndexSpec(s, id, target);
    assert forall k :: j < k < |s| ==> s[j].date <= s[k].date;
  }
}
