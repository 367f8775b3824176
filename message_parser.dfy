/**
 * Slack message text to HTML: link tokens `<...>`, code fences and the
 * per-piece markdown rules.  The markdown rules themselves are a parameter
 * `runRules` (a function from text to text); everything around them is
 * modelled exactly.
 */
module MessageParser {
  import opened Wrappers

  /* ---------------- whitespace and trimming ---------------- */

  /** JavaScript's white space and line terminators, as `trim` removes them. */
  predicate IsSpace(c: char) {
    c == ' ' || c == '\t' || c == '\n' || c == '\r' || c == '\U{B}' || c == '\U{C}'
    || c == '\U{A0}' || c == '\U{1680}' || ('\U{2000}' <= c <= '\U{200A}')
    || c == '\U{2028}' || c == '\U{2029}' || c == '\U{202F}' || c == '\U{205F}'
    || c == '\U{3000}' || c == '\U{FEFF}'
  }

  /** `String.prototype.trimLeft`: drops the leading white space. */
  function TrimLeft(s: string): string
    decreases |s|
  {
    if |s| > 0 && IsSpace(s[0]) then TrimLeft(s[1..]) else s
  }

  /** Drops the trailing white space. */
  function TrimRight(s: string): string
    decreases |s|
  {
    if |s| > 0 && IsSpace(s[|s| - 1]) then TrimRight(s[..|s| - 1]) else s
  }

  /** trimLeft keeps a suffix: what it drops is white space, and what it
      keeps does not start with any. */
  lemma {:induction false} TrimLeftSpec(s: string)
    ensures var r := TrimLeft(s);
      |r| <= |s| && r == s[|s| - |r|..]
      && (forall i :: 0 <= i < |s| - |r| ==> IsSpace(s[i]))
      && (|r| > 0 ==> !IsSpace(r[0]))
    decreases |s|
  {
    if |s| > 0 && IsSpace(s[0]) {
      TrimLeftSpec(s[1..]);
      assert s[1..][|s| - 1 - |TrimLeft(s)|..] == s[|s| - |TrimLeft(s)|..];
    }
  }

  /** Trimming on the right keeps a prefix: what it drops is white space,
      and what it keeps does not end with any. */
  lemma {:induction false} TrimRightSpec(s: string)
    ensures var r := TrimRight(s);
      |r| <= |s| && r == s[..|r|]
      && (forall i :: |r| <= i < |s| ==> IsSpace(s[i]))
      && (|r| > 0 ==> !IsSpace(r[|r| - 1]))
    decreases |s|
  {
    if |s| > 0 && IsSpace(s[|s| - 1]) {
      TrimRightSpec(s[..|s| - 1]);
      assert s[..|s| - 1][..|TrimRight(s)|] == s[..|TrimRight(s)|];
    }
  }

  /** `String.prototype.trim`. */
  function Trim(s: string): string {
    TrimRight(TrimLeft(s))
  }

  /** Trim returns the piece of `s` that lies between its leading and its
      trailing white space, and that piece neither starts nor ends with any. */
  lemma TrimSpec(s: string)
    ensures exists i, j {:trigger s[i..j]} ::
      (0 <= i <= j <= |s| && Trim(s) == s[i..j]
       && (forall k :: 0 <= k < i ==> IsSpace(s[k]))
       && (forall k :: j <= k < |s| ==> IsSpace(s[k])))
    ensures |Trim(s)| > 0 ==> !IsSpace(Trim(s)[0]) && !IsSpace(Trim(s)[|Trim(s)| - 1])
  {
    var l := TrimLeft(s);
    var r := TrimRight(l);
    TrimLeftSpec(s);
    TrimRightSpec(l);
    var i := |s| - |l|;
    var j := i + |r|;
    TrimPiece(s, l, r, i, j);
  }

  /** The piece kept by TrimRight inside the piece kept by TrimLeft. */
  lemma TrimPiece(s: string, l: string, r: string, i: nat, j: nat)
    requires |l| <= |s| && i == |s| - |l| && l == s[i..]
    requires |r| <= |l| && j == i + |r| && r == l[..|r|]
    requires forall k :: |r| <= k < |l| ==> IsSpace(l[k])
    ensures j <= |s| && r == s[i..j]
    ensures forall k :: j <= k < |s| ==> IsSpace(s[k])
  {
    forall k | j <= k < |s|
      ensures IsSpace(s[k])
    {
      assert s[k] == l[k - i];
    }
  }

  /* ---------------- link tokens ---------------- */

  /** The characters the regular-expression `.` does not match. */
  predicate IsLineTerminator(c: char) {
    c == '\n' || c == '\r' || c == '\U{2028}' || c == '\U{2029}'
  }

  /** The two captures of `(.+)\|(.+)`. */
  datatype Split = Split(content: string, display: string)

  /** A '|' with at least one character on each side of it in `line`. */
  predicate BarAt(line: string, p: int) {
    1 <= p <= |line| - 2 && line[p] == '|'
  }

  /** The last position `p < below` with `BarAt(line, p)`, or -1. */
  function LastBar(line: string, below: int): (p: int)
    requires below <= |line|
    ensures p == -1 || (p < below && BarAt(line, p))
    ensures forall q :: p < q < below ==> !BarAt(line, q)
    decreases below
  {
    if below <= 1 then -1
    else if BarAt(line, below - 1) then below - 1
    else LastBar(line, below - 1)
  }

  /** The length of the first line of `t` (the index of its first line
      terminator, or |t|). */
  function LineEnd(t: string): (k: nat)
    ensures k <= |t|
    ensures k < |t| ==> IsLineTerminator(t[k])
    ensures forall i :: 0 <= i < k ==> !IsLineTerminator(t[i])
    decreases |t|
  {
    if |t| == 0 || IsLineTerminator(t[0]) then 0 else 1 + LineEnd(t[1..])
  }

  /** The match of `(.+)\|(.+)` within one line: the greedy first capture
      runs up to the last '|' that still leaves a character after it. */
  function SplitLine(line: string): (r: Option<Split>)
    ensures r.None? <==> forall p :: 0 <= p < |line| ==> !BarAt(line, p)
    ensures r.Some? ==>
      |r.value.content| >= 1 && |r.value.display| >= 1 && r.value.content + "|" + r.value.display == line
  {
    var p := LastBar(line, |line|);
    if p == -1 then None
    else
      assert line[..p] + "|" + line[p + 1..] == line;
      Some(Split(line[..p], line[p + 1..]))
  }

  /** `text.match(/(.+)\|(.+)/)`: since `.` stops at line terminators, the
      match lies in the first line that has a usable '|'. */
  function MatchLink(t: string): (r: Option<Split>)
    ensures r.Some? ==> |r.value.content| >= 1 && |r.value.display| >= 1
    ensures r.Some? ==> forall i :: 0 <= i < |r.value.content| ==> !IsLineTerminator(r.value.content[i])
    decreases |t|
  {
    var k := LineEnd(t);
    var m := SplitLine(t[..k]);
    if m.Some? then m
    else if k < |t| then MatchLink(t[k + 1..])
    else None
  }

  /** On a single line the match splits the text at its last usable '|':
      content, the bar and display put back together give the line. */
  lemma SplitLineSpec(t: string)
    requires forall i :: 0 <= i < |t| ==> !IsLineTerminator(t[i])
    ensures MatchLink(t).None? <==> forall p :: 0 <= p < |t| ==> !BarAt(t, p)
    ensures MatchLink(t).Some? ==>
      var c, d := MatchLink(t).value.content, MatchLink(t).value.display;
      c + "|" + d == t && |c| >= 1 && |d| >= 1
      && forall i :: 0 <= i < |d| - 1 ==> d[i] != '|'
  {
    assert LineEnd(t) == |t|;
    assert t[..|t|] == t;
    var p := LastBar(t, |t|);
    if p != -1 {
      var d := t[p + 1..];
      assert t[..p] + "|" + d == t;
      forall i | 0 <= i < |d| - 1
        ensures d[i] != '|'
      {
        assert !BarAt(t, p + 1 + i);
      }
    }
  }

  /** Text without any '|' never matches: content and display are both
      the whole text. */
  lemma {:induction false} NoBarNoMatch(t: string)
    requires forall i :: 0 <= i < |t| ==> t[i] != '|'
    ensures MatchLink(t) == None
    decreases |t|
  {
    var k := LineEnd(t);
    assert LastBar(t[..k], k) == -1;
    if k < |t| {
      var rest := t[k + 1..];
      assert forall i :: 0 <= i < |rest| ==> rest[i] == t[k + 1 + i];
      NoBarNoMatch(rest);
    }
  }

  /** What a link token becomes: markup, or, on the mention branch, the user
      id whose name has still to be fetched (the source returns a promise). */
  datatype LinkHtml = Html(html: string) | PendingMention(userId: string)

  const Broadcasts: seq<string> := ["!channel", "!here", "!everyone"]

  /** parseReference: a broadcast keyword becomes a span, anything else shows
      its display text. */
  function ParseReference(content: string, display: string): (r: string)
    ensures content !in Broadcasts ==> r == display
  {
    if content in Broadcasts then
      "<span class=\"broadcast\">@" + content[1..] + "</span>"
    else
      display
  }

  /** The keyword can be read back from the broadcast span. */
  lemma BroadcastSpanNamesKeyword(content: string, display: string)
    requires content in Broadcasts
    ensures var r := ParseReference(content, display);
      var head, tail := "<span class=\"broadcast\">@", "</span>";
      |head| + |tail| <= |r| && r[..|head|] == head && r[|r| - |tail|..] == tail
      && "!" + r[|head|..|r| - |tail|] == content
  {
  }

  /** parseChannel: a link to the channel's archive page whose click handler
      opens the channel inside the application. */
  function ParseChannel(accountUrl: string, id: string, display: string): (r: string)
    ensures var href := "<a href=\"" + accountUrl + "/archives/" + id + "\"";
      |href| <= |r| && r[..|href|] == href
    ensures var tail := "#" + display + "</a>";
      |tail| <= |r| && r[|r| - |tail|..] == tail
  {
    var href := "<a href=\"" + accountUrl + "/archives/" + id + "\"";
    var onclick := " onclick=\"wey.openChannel('" + id + "'); return false\">";
    var tail := "#" + display + "</a>";
    assert (href + onclick + tail)[..|href|] == href;
    assert (href + onclick + tail)[|href + onclick|..] == tail;
    href + onclick + tail
  }

  /** parseSlackLink, with the content/display split of `(.+)\|(.+)`. */
  function ParseSlackLink(accountUrl: string, text: string, shouldParseAt: bool): (r: LinkHtml)
    ensures !shouldParseAt ==> r.Html?
  {
    var m := MatchLink(text);
    var content := if m.Some? then m.value.content else text;
    var display := if m.Some? then m.value.display else text;
    if |content| > 0 && content[0] == '!' then
      Html(ParseReference(content, display))
    else if |content| > 0 && content[0] == '#' then
      Html(ParseChannel(accountUrl, content[1..], display))
    else if shouldParseAt && |content| > 0 && content[0] == '@' then
      PendingMention(content[1..])
    else
      Html("<a href=\"" + content + "\">" + display + "</a>")
  }

  /** The branches of parseSlackLink for a one-line token `c|d`, taken in
      order: '!' a reference, '#' a channel, '@' a mention only when mentions
      are parsed, anything else a plain link. */
  lemma SlackLinkDispatch(accountUrl: string, c: string, d: string, shouldParseAt: bool)
    requires |c| >= 1 && |d| >= 1
    requires forall i :: 0 <= i < |c| ==> !IsLineTerminator(c[i])
    requires forall i :: 0 <= i < |d| ==> !IsLineTerminator(d[i]) && d[i] != '|'
    ensures var r := ParseSlackLink(accountUrl, c + "|" + d, shouldParseAt);
      && (c[0] == '!' ==> r == Html(ParseReference(c, d)))
      && (c[0] == '#' ==> r == Html(ParseChannel(accountUrl, c[1..], d)))
      && (c[0] == '@' && shouldParseAt ==> r == PendingMention(c[1..]))
      && (c[0] == '@' && !shouldParseAt ==> r == Html("<a href=\"" + c + "\">" + d + "</a>"))
      && (c[0] != '!' && c[0] != '#' && c[0] != '@' ==> r == Html("<a href=\"" + c + "\">" + d + "</a>"))
  {
    MatchLinkAtBar(c, d);
  }

  /** A one-line `c|d` where d holds no '|' matches with content c and
      display d. */
  lemma MatchLinkAtBar(c: string, d: string)
    requires |c| >= 1 && |d| >= 1
    requires forall i :: 0 <= i < |c| ==> !IsLineTerminator(c[i])
    requires forall i :: 0 <= i < |d| ==> !IsLineTerminator(d[i]) && d[i] != '|'
    ensures MatchLink(c + "|" + d) == Some(Split(c, d))
  {
    var t := c + "|" + d;
    forall i | 0 <= i < |t|
      ensures !IsLineTerminator(t[i])
    {
      if i > |c| {
        assert t[i] == d[i - |c| - 1];
      }
    }
    assert LineEnd(t) == |t|;
    assert t[..|t|] == t;
    // the last usable bar is the one between c and d, since d holds none
    assert BarAt(t, |c|);
    assert forall q :: |c| < q < |t| ==> t[q] == d[q - |c| - 1];
    assert LastBar(t, |t|) == |c|;
    assert t[..|c|] == c;
    assert t[|c| + 1..] == d;
  }

  /** A token without '|' uses the whole text as both content and display. */
  lemma SlackLinkWithoutBar(accountUrl: string, text: string, shouldParseAt: bool)
    requires |text| >= 1 && forall i :: 0 <= i < |text| ==> text[i] != '|'
    ensures var r := ParseSlackLink(accountUrl, text, shouldParseAt);
      && (text[0] == '!' ==> r == Html(ParseReference(text, text)))
      && (text[0] == '#' ==> r == Html(ParseChannel(accountUrl, text[1..], text)))
      && (text[0] != '!' && text[0] != '#' && !(shouldParseAt && text[0] == '@') ==>
            r == Html("<a href=\"" + text + "\">" + text + "</a>"))
  {
    NoBarNoMatch(text);
  }

  /** The first index at or after `from` holding '<' or '>', or |t|. */
  function NextAngle(t: string, from: nat): (j: nat)
    requires from <= |t|
    ensures from <= j <= |t|
    ensures j < |t| ==> t[j] == '<' || t[j] == '>'
    ensures forall i :: from <= i < j ==> t[i] != '<' && t[i] != '>'
    decreases |t| - from
  {
    if from == |t| || t[from] == '<' || t[from] == '>' then from else NextAngle(t, from + 1)
  }

  /** `text.replace(/<([^<>]+)>/g, p1 => parseSlackLink(account, p1, false))`:
      scanning left to right, a '<' whose next angle bracket is a '>' with at
      least one character between them is replaced by its link markup. */
  function ReplaceLinks(accountUrl: string, t: string): string
    decreases |t|
  {
    if |t| == 0 then ""
    else if t[0] == '<' then
      var j := NextAngle(t, 1);
      if j < |t| && t[j] == '>' && j > 1 then
        ParseSlackLink(accountUrl, t[1..j], false).html + ReplaceLinks(accountUrl, t[j + 1..])
      else
        [t[0]] + ReplaceLinks(accountUrl, t[1..])
    else
      [t[0]] + ReplaceLinks(accountUrl, t[1..])
  }

  /** Text without '<' is left as it is. */
  lemma {:induction false} ReplaceLinksNoToken(accountUrl: string, t: string)
    requires forall i :: 0 <= i < |t| ==> t[i] != '<'
    ensures ReplaceLinks(accountUrl, t) == t
    decreases |t|
  {
    if |t| > 0 {
      ReplaceLinksNoToken(accountUrl, t[1..]);
    }
  }

  /** A well-formed token followed by more text: the token becomes its link
      markup and the scan goes on after the closing '>'. */
  lemma ReplaceLinksToken(accountUrl: string, inner: string, rest: string)
    requires |inner| >= 1
    requires forall i :: 0 <= i < |inner| ==> inner[i] != '<' && inner[i] != '>'
    ensures ReplaceLinks(accountUrl, "<" + inner + ">" + rest)
      == ParseSlackLink(accountUrl, inner, false).html + ReplaceLinks(accountUrl, rest)
  {
    var t := "<" + inner + ">" + rest;
    assert t[|inner| + 1] == '>';
    assert forall i :: 1 <= i < |inner| + 1 ==> t[i] == inner[i - 1];
    assert NextAngle(t, 1) == |inner| + 1;
    assert t[1..|inner| + 1] == inner;
    assert t[|inner| + 2..] == rest;
  }

  /* ---------------- code fences ---------------- */

  /** A "```" starts at index i of t. */
  predicate FenceAt(t: string, i: int) {
    0 <= i && i + 3 <= |t| && t[i] == '`' && t[i + 1] == '`' && t[i + 2] == '`'
  }

  predicate NoFence(t: string) {
    forall i :: 0 <= i < |t| ==> !FenceAt(t, i)
  }

  /** `t.indexOf('```', from)`. */
  function FenceIndex(t: string, from: nat): (r: int)
    requires from <= |t|
    ensures r == -1 || (from <= r && FenceAt(t, r))
    decreases |t| - from
  {
    if from + 3 > |t| then -1
    else if FenceAt(t, from) then from
    else FenceIndex(t, from + 1)
  }

  /** The fence found is the first one: none starts between `from` and it
      (or anywhere from `from` on, when none is found). */
  lemma {:induction false} FenceIndexFirst(t: string, from: nat)
    requires from <= |t|
    ensures var r := FenceIndex(t, from);
      forall i :: from <= i && (r == -1 || i < r) ==> !FenceAt(t, i)
    decreases |t| - from
  {
    if from + 3 <= |t| && !FenceAt(t, from) {
      FenceIndexFirst(t, from + 1);
    }
  }

  /** A piece of the message between fences: markdown prose, or the inside
      of a closed code block. */
  datatype Segment = Prose(text: string) | Code(text: string)

  /** The cut parseMarkdown makes, from `start` on: prose up to a fence, the
      inside of the block up to the closing fence, and so on; after an
      unmatched fence the rest is prose. */
  function SegmentsFrom(t: string, start: nat): (segs: seq<Segment>)
    requires start <= |t|
    ensures |segs| >= 1
    decreases |t| - start
  {
    var p := FenceIndex(t, start);
    if p == -1 then [Prose(t[start..])]
    else
      var q := FenceIndex(t, p + 3);
      if q == -1 then [Prose(t[start..p]), Prose(t[p + 3..])]
      else [Prose(t[start..p]), Code(t[p + 3..q])] + SegmentsFrom(t, q + 3)
  }

  function Segments(t: string): seq<Segment> {
    SegmentsFrom(t, 0)
  }

  /** Joins segment texts with fences between them. */
  function Join(segs: seq<Segment>): string
    decreases |segs|
  {
    if |segs| == 0 then ""
    else if |segs| == 1 then segs[0].text
    else segs[0].text + "```" + Join(segs[1..])
  }

  /** Segmenting loses nothing: putting the fences back gives the text. */
  lemma {:induction false} SegmentsJoin(t: string, start: nat)
    requires start <= |t|
    ensures Join(SegmentsFrom(t, start)) == t[start..]
    decreases |t| - start
  {
    var p := FenceIndex(t, start);
    if p == -1 {
      LastStep(t, start);
    } else {
      var q := FenceIndex(t, p + 3);
      if q == -1 {
        UnclosedStep(t, start, p);
        SplitAtFence(t, start, p);
        assert [Prose(t[start..p]), Prose(t[p + 3..])][1..] == [Prose(t[p + 3..])];
      } else {
        var r := q + 3;
        SegmentsJoin(t, r);
        JoinClosed(t, start, p, q, r);
        SplitAtTwoFences(t, start, p, q, r);
      }
    }
  }

  /** The closed-block case of SegmentsJoin, given the join of the rest. */
  lemma JoinClosed(t: string, start: nat, p: nat, q: nat, r: nat)
    requires start <= |t| && FenceIndex(t, start) == p && FenceIndex(t, p + 3) == q && r == q + 3
    ensures Join(SegmentsFrom(t, start))
      == t[start..p] + "```" + (t[p + 3..q] + "```" + Join(SegmentsFrom(t, r)))
  {
    ClosedStep(t, start, p, q);
    JoinTwo(Prose(t[start..p]), Code(t[p + 3..q]), SegmentsFrom(t, r));
  }

  lemma JoinTwo(a: Segment, b: Segment, rest: seq<Segment>)
    requires |rest| >= 1
    ensures Join([a, b] + rest) == a.text + "```" + (b.text + "```" + Join(rest))
  {
    assert [a, b] + rest == [a] + ([b] + rest);
    JoinCons(b, rest);
    JoinCons(a, [b] + rest);
  }

  lemma JoinCons(s: Segment, rest: seq<Segment>)
    requires |rest| >= 1
    ensures Join([s] + rest) == s.text + "```" + Join(rest)
  {
    assert ([s] + rest)[1..] == rest;
  }

  /** Cutting out the fences at p and q. */
  lemma SplitAtTwoFences(t: string, i: nat, p: nat, q: nat, r: nat)
    requires i <= p && p + 3 <= q && FenceAt(t, p) && FenceAt(t, q) && r == q + 3
    ensures t[i..] == t[i..p] + "```" + (t[p + 3..q] + "```" + t[r..])
  {
  }

  /** Cutting out a fence at p. */
  lemma SplitAtFence(t: string, i: nat, p: nat)
    requires i <= p && FenceAt(t, p)
    ensures t[i..] == t[i..p] + "```" + t[p + 3..]
  {
  }

  predicate AllFenceFree(segs: seq<Segment>) {
    forall k :: 0 <= k < |segs| ==> NoFence(segs[k].text)
  }

  /** No segment contains a fence. */
  lemma {:induction false} SegmentsFenceFree(t: string, start: nat)
    requires start <= |t|
    ensures AllFenceFree(SegmentsFrom(t, start))
    decreases |t| - start
  {
    var p := FenceIndex(t, start);
    if p == -1 {
      FenceFreeLast(t, start);
    } else {
      var q := FenceIndex(t, p + 3);
      if q == -1 {
        FenceFreeUnclosed(t, start, p);
      } else {
        var r := q + 3;
        SegmentsFenceFree(t, r);
        FenceFreeClosed(t, start, p, q, r);
      }
    }
  }

  /** The cases of SegmentsFenceFree: no fence left, an unmatched fence,
      and a closed block followed by the rest (whose segments are given). */
  lemma FenceFreeLast(t: string, start: nat)
    requires start <= |t| && FenceIndex(t, start) == -1
    ensures AllFenceFree(SegmentsFrom(t, start))
  {
    FenceIndexFirst(t, start);
    LastStep(t, start);
    NoFenceBetween(t, start, |t|);
    assert t[start..|t|] == t[start..];
  }

  lemma FenceFreeUnclosed(t: string, start: nat, p: nat)
    requires start <= |t| && FenceIndex(t, start) == p && FenceIndex(t, p + 3) == -1
    ensures AllFenceFree(SegmentsFrom(t, start))
  {
    FenceIndexFirst(t, start);
    FenceIndexFirst(t, p + 3);
    NoFenceBetween(t, start, p);
    UnclosedStep(t, start, p);
    NoFenceBetween(t, p + 3, |t|);
    assert t[p + 3..|t|] == t[p + 3..];
  }

  lemma FenceFreeClosed(t: string, start: nat, p: nat, q: nat, r: nat)
    requires start <= |t| && FenceIndex(t, start) == p && FenceIndex(t, p + 3) == q && r == q + 3
    requires AllFenceFree(SegmentsFrom(t, r))
    ensures AllFenceFree(SegmentsFrom(t, start))
  {
    FenceIndexFirst(t, start);
    FenceIndexFirst(t, p + 3);
    NoFenceBetween(t, start, p);
    NoFenceBetween(t, p + 3, q);
    ClosedStep(t, start, p, q);
    FenceFreeCons(Prose(t[start..p]), Code(t[p + 3..q]), SegmentsFrom(t, r));
  }

  lemma FenceFreeCons(a: Segment, b: Segment, rest: seq<Segment>)
    requires NoFence(a.text) && NoFence(b.text) && AllFenceFree(rest)
    ensures AllFenceFree([a, b] + rest)
  {
    var segs := [a, b] + rest;
    assert forall k :: 2 <= k < |segs| ==> segs[k] == rest[k - 2];
  }

  /** No fence starts in [lo, hi) and none ends past hi ⇒ t[lo..hi] has none. */
  lemma NoFenceBetween(t: string, lo: nat, hi: nat)
    requires lo <= hi <= |t|
    requires forall i :: lo <= i < hi ==> !FenceAt(t, i)
    ensures NoFence(t[lo..hi])
  {
    forall i | 0 <= i < hi - lo
      ensures !FenceAt(t[lo..hi], i)
    {
      assert !FenceAt(t, lo + i);
    }
  }

  /** Turning the segments into markup: every prose piece but the last is
      trimmed and goes through the rules, the last is only left-trimmed, a
      code block is trimmed and wrapped in `<pre>` without the rules. */
  function RenderPiece(s: Segment, runRules: string -> string): string {
    match s
    case Prose(x) => runRules(Trim(x))
    case Code(x) => "<pre>" + Trim(x) + "</pre>"
  }

  function Render(segs: seq<Segment>, runRules: string -> string): string
    decreases |segs|
  {
    if |segs| == 0 then ""
    else if |segs| == 1 then runRules(TrimLeft(segs[0].text))
    else RenderPiece(segs[0], runRules) + Render(segs[1..], runRules)
  }

  /** The markup of the text from `start` on, fence by fence. */
  function MarkdownFrom(t: string, start: nat, runRules: string -> string): string
    requires start <= |t|
    decreases |t| - start
  {
    var p := FenceIndex(t, start);
    if p == -1 then runRules(TrimLeft(t[start..]))
    else
      var q := FenceIndex(t, p + 3);
      if q == -1 then runRules(Trim(t[start..p])) + runRules(TrimLeft(t[p + 3..]))
      else (runRules(Trim(t[start..p])) + ("<pre>" + Trim(t[p + 3..q]) + "</pre>")
            + MarkdownFrom(t, q + 3, runRules))
  }

  /** MarkdownFrom is the rendering of the segmentation. */
  lemma {:induction false} MarkdownFromRenders(t: string, start: nat, runRules: string -> string)
    requires start <= |t|
    ensures MarkdownFrom(t, start, runRules) == Render(SegmentsFrom(t, start), runRules)
    decreases |t| - start
  {
    var p := FenceIndex(t, start);
    if p == -1 {
      FromRendersLast(t, start, runRules);
    } else {
      var q := FenceIndex(t, p + 3);
      if q == -1 {
        FromRendersUnclosed(t, start, p, runRules);
      } else {
        var r := q + 3;
        MarkdownFromRenders(t, r, runRules);
        FromRendersClosed(t, start, p, q, r, runRules);
      }
    }
  }

  /** The closed-block case of MarkdownFromRenders, given the rest. */
  lemma FromRendersLast(t: string, start: nat, runRules: string -> string)
    requires start <= |t| && FenceIndex(t, start) == -1
    ensures MarkdownFrom(t, start, runRules) == Render(SegmentsFrom(t, start), runRules)
  {
    FromLast(t, start, runRules);
    RenderLast(t, start, runRules);
  }

  lemma FromRendersUnclosed(t: string, start: nat, p: nat, runRules: string -> string)
    requires start <= |t| && FenceIndex(t, start) == p && FenceIndex(t, p + 3) == -1
    ensures MarkdownFrom(t, start, runRules) == Render(SegmentsFrom(t, start), runRules)
  {
    FromUnclosed(t, start, p, runRules);
    FromLast(t, p + 3, runRules);
    RenderUnclosed(t, start, p, runRules);
  }

  lemma FromRendersClosed(t: string, start: nat, p: nat, q: nat, r: nat, runRules: string -> string)
    requires start <= |t| && FenceIndex(t, start) == p && FenceIndex(t, p + 3) == q && r == q + 3
    requires MarkdownFrom(t, r, runRules) == Render(SegmentsFrom(t, r), runRules)
    ensures MarkdownFrom(t, start, runRules) == Render(SegmentsFrom(t, start), runRules)
  {
    FromClosed(t, start, p, q, runRules);
    RenderClosed(t, start, p, q, runRules);
  }

  /** parseMarkdown: the loop over fences.  The result is the rendering of
      the fence segmentation of the text. */
  method ParseMarkdown(text: string, runRules: string -> string) returns (html: string)
    ensures html == Render(Segments(text), runRules)
  {
    ghost var whole := MarkdownFrom(text, 0, runRules);
    var start := 0;
    html := "";
    var preIndex := FenceIndex(text, start);
    while preIndex != -1
      invariant 0 <= start <= |text|
      invariant preIndex == FenceIndex(text, start)
      invariant html + MarkdownFrom(text, start, runRules) == whole
      decreases |text| - start
    {
      ghost var s0, p, html0 := start, preIndex, html;
      var prose := runRules(Trim(text[start..preIndex]));
      html := html + prose;
      start := preIndex + 3;
      preIndex := FenceIndex(text, start);
      if preIndex == -1 {
        RoundUnclosed(text, s0, p, runRules, html0, prose, whole);
        break;
      }
      var pre := "<pre>" + Trim(text[start..preIndex]) + "</pre>";
      html := html + pre;
      start := preIndex + 3;
      RoundClosed(text, s0, p, preIndex, runRules, html0, prose, pre, whole);
      preIndex := FenceIndex(text, start);
    }
    FromLast(text, start, runRules);
    html := html + runRules(TrimLeft(text[start..]));
    MarkdownFromRenders(text, 0, runRules);
  }

  /** The rounds of the loop of parseMarkdown keep its invariant: an
      unmatched fence ends the loop, a closed block is one whole round. */
  lemma RoundUnclosed(t: string, start: nat, p: nat, runRules: string -> string,
                      html: string, prose: string, whole: string)
    requires start <= |t| && FenceIndex(t, start) == p && FenceIndex(t, p + 3) == -1
    requires html + MarkdownFrom(t, start, runRules) == whole
    requires prose == runRules(Trim(t[start..p]))
    ensures html + prose + MarkdownFrom(t, p + 3, runRules) == whole
  {
    FromUnclosed(t, start, p, runRules);
    Regroup(html, prose, MarkdownFrom(t, p + 3, runRules));
  }

  lemma RoundClosed(t: string, start: nat, p: nat, q: nat, runRules: string -> string,
                    html: string, prose: string, pre: string, whole: string)
    requires start <= |t| && FenceIndex(t, start) == p && FenceIndex(t, p + 3) == q && q != -1
    requires html + MarkdownFrom(t, start, runRules) == whole
    requires prose == runRules(Trim(t[start..p])) && pre == "<pre>" + Trim(t[p + 3..q]) + "</pre>"
    ensures html + prose + pre + MarkdownFrom(t, q + 3, runRules) == whole
  {
    FromClosed(t, start, p, q, runRules);
    Regroup3(html, prose, pre, MarkdownFrom(t, q + 3, runRules));
  }

  /** One round of the loop of parseMarkdown, as MarkdownFrom sees it: an
      unmatched fence ends the loop, a closed block is one whole round. */
  lemma FromLast(t: string, start: nat, runRules: string -> string)
    requires start <= |t| && FenceIndex(t, start) == -1
    ensures MarkdownFrom(t, start, runRules) == runRules(TrimLeft(t[start..]))
  {
  }

  lemma FromUnclosed(t: string, start: nat, p: nat, runRules: string -> string)
    requires start <= |t| && FenceIndex(t, start) == p && FenceIndex(t, p + 3) == -1
    ensures MarkdownFrom(t, start, runRules) == runRules(Trim(t[start..p])) + MarkdownFrom(t, p + 3, runRules)
  {
  }

  lemma FromClosed(t: string, start: nat, p: nat, q: nat, runRules: string -> string)
    requires start <= |t| && FenceIndex(t, start) == p && FenceIndex(t, p + 3) == q && q != -1
    ensures MarkdownFrom(t, start, runRules) == runRules(Trim(t[start..p]))
      + ("<pre>" + Trim(t[p + 3..q]) + "</pre>") + MarkdownFrom(t, q + 3, runRules)
  {
  }

  lemma Regroup3(w: string, x: string, y: string, z: string)
    ensures w + (x + y + z) == w + x + y + z
  {
  }

  lemma Regroup(x: string, y: string, z: string)
    ensures x + y + z == x + (y + z)
  {
  }

  /** The three ways one round of the loop can go, read off the segments. */
  lemma RenderLast(t: string, start: nat, runRules: string -> string)
    requires start <= |t| && FenceIndex(t, start) == -1
    ensures Render(SegmentsFrom(t, start), runRules) == runRules(TrimLeft(t[start..]))
  {
  }

  lemma RenderUnclosed(t: string, start: nat, p: nat, runRules: string -> string)
    requires start <= |t| && FenceIndex(t, start) == p && FenceIndex(t, p + 3) == -1
    ensures Render(SegmentsFrom(t, start), runRules)
      == runRules(Trim(t[start..p])) + runRules(TrimLeft(t[p + 3..]))
  {
    var segs := [Prose(t[start..p]), Prose(t[p + 3..])];
    assert SegmentsFrom(t, start) == segs;
    assert segs[1..] == [Prose(t[p + 3..])];
  }

  lemma RenderClosed(t: string, start: nat, p: nat, q: nat, runRules: string -> string)
    requires start <= |t| && FenceIndex(t, start) == p && FenceIndex(t, p + 3) == q
    ensures Render(SegmentsFrom(t, start), runRules)
      == runRules(Trim(t[start..p])) + ("<pre>" + Trim(t[p + 3..q]) + "</pre>")
         + Render(SegmentsFrom(t, q + 3), runRules)
  {
    ClosedStep(t, start, p, q);
    RenderTwo(Prose(t[start..p]), Code(t[p + 3..q]), SegmentsFrom(t, q + 3), runRules);
  }

  lemma RenderTwo(a: Segment, b: Segment, rest: seq<Segment>, runRules: string -> string)
    requires |rest| >= 1
    ensures Render([a, b] + rest, runRules)
      == RenderPiece(a, runRules) + RenderPiece(b, runRules) + Render(rest, runRules)
  {
    assert [a, b] + rest == [a] + ([b] + rest);
    RenderCons(b, rest, runRules);
    RenderCons(a, [b] + rest, runRules);
    Regroup(RenderPiece(a, runRules), RenderPiece(b, runRules), Render(rest, runRules));
  }

  /** A segment followed by more is rendered as a piece. */
  lemma RenderCons(s: Segment, rest: seq<Segment>, runRules: string -> string)
    requires |rest| >= 1
    ensures Render([s] + rest, runRules) == RenderPiece(s, runRules) + Render(rest, runRules)
  {
    assert ([s] + rest)[1..] == rest;
  }

  /** A text without fences is only left-trimmed and run through the rules. */
  lemma MarkdownWithoutFence(text: string, runRules: string -> string)
    requires NoFence(text)
    ensures Segments(text) == [Prose(text)]
    ensures Render(Segments(text), runRules) == runRules(TrimLeft(text))
  {
    assert FenceIndex(text, 0) == -1;
    assert text[0..] == text;
  }

  /** `FenceIndex(t, from)` is p when p is the first fence from `from` on. */
  lemma FirstFence(t: string, from: nat, p: nat)
    requires from <= p && FenceAt(t, p)
    requires forall i :: from <= i < p ==> !FenceAt(t, i)
    ensures FenceIndex(t, from) == p
  {
    FenceIndexFirst(t, from);
  }

  /** `c` is the part of `t` from index n on. */
  ghost predicate SuffixAt(t: string, n: nat, c: string) {
    n + |c| == |t| && forall i :: 0 <= i < |c| ==> t[n + i] == c[i]
  }

  /** Fences of `t` at or after n are those of its suffix `c`. */
  lemma {:induction false} FenceIndexShift(t: string, n: nat, c: string, k: nat)
    requires SuffixAt(t, n, c) && k <= |c|
    ensures FenceIndex(t, n + k)
      == if FenceIndex(c, k) == -1 then -1 else n + FenceIndex(c, k)
    decreases |c| - k
  {
    if k + 3 <= |c| {
      assert FenceAt(t, n + k) == FenceAt(c, k) by {
        assert t[n + k] == c[k] && t[n + k + 1] == c[k + 1] && t[n + k + 2] == c[k + 2];
      }
      if !FenceAt(c, k) {
        FenceIndexShift(t, n, c, k + 1);
      }
    }
  }

  /** Segmenting `t` from n + k on is segmenting its suffix `c` from k on. */
  lemma {:induction false} SegmentsShift(t: string, n: nat, c: string, k: nat)
    requires SuffixAt(t, n, c) && k <= |c|
    ensures SegmentsFrom(t, n + k) == SegmentsFrom(c, k)
    decreases |c| - k
  {
    var p := FenceIndex(c, k);
    if p == -1 {
      ShiftLast(t, n, c, k);
    } else {
      var q := FenceIndex(c, p + 3);
      if q == -1 {
        ShiftUnclosed(t, n, c, k, p);
      } else {
        var r := q + 3;
        SegmentsShift(t, n, c, r);
        ShiftClosed(t, n, c, k, p, q);
        SameClosedStep(t, n + k, n + p, n + q, n + r, c, k, p, q, r);
      }
    }
  }

  /** The cases of SegmentsShift: no fence left, an unmatched fence, and
      where the first closed block lies in `t`. */
  lemma ShiftLast(t: string, n: nat, c: string, k: nat)
    requires SuffixAt(t, n, c) && k <= |c| && FenceIndex(c, k) == -1
    ensures SegmentsFrom(t, n + k) == SegmentsFrom(c, k)
  {
    FenceIndexShift(t, n, c, k);
    SliceShift(t, n, c, k, |c|);
    LastStep(t, n + k);
    LastStep(c, k);
  }

  lemma ShiftUnclosed(t: string, n: nat, c: string, k: nat, p: nat)
    requires SuffixAt(t, n, c) && k <= |c| && FenceIndex(c, k) == p && FenceIndex(c, p + 3) == -1
    ensures SegmentsFrom(t, n + k) == SegmentsFrom(c, k)
  {
    FenceIndexShift(t, n, c, k);
    FenceIndexShift(t, n, c, p + 3);
    assert FenceIndex(t, n + k) == n + p;
    assert FenceIndex(t, n + p + 3) == -1;
    SliceShift(t, n, c, k, p);
    SliceShift(t, n, c, p + 3, |c|);
    UnclosedStep(t, n + k, n + p);
    UnclosedStep(c, k, p);
  }

  lemma ShiftClosed(t: string, n: nat, c: string, k: nat, p: nat, q: nat)
    requires SuffixAt(t, n, c) && k <= |c|
    requires FenceIndex(c, k) == p && FenceIndex(c, p + 3) == q && q != -1
    ensures n + k <= |t| && FenceIndex(t, n + k) == n + p && FenceIndex(t, n + p + 3) == n + q
    ensures t[n + k..n + p] == c[k..p] && t[n + p + 3..n + q] == c[p + 3..q]
  {
    ShiftClosedFences(t, n, c, k, p, q);
    SliceShift(t, n, c, k, p);
    SliceShift(t, n, c, p + 3, q);
  }

  lemma ShiftClosedFences(t: string, n: nat, c: string, k: nat, p: nat, q: nat)
    requires SuffixAt(t, n, c) && k <= |c|
    requires FenceIndex(c, k) == p && FenceIndex(c, p + 3) == q && q != -1
    ensures FenceIndex(t, n + k) == n + p && FenceIndex(t, n + p + 3) == n + q
  {
    FenceIndexShift(t, n, c, k);
    FenceIndexShift(t, n, c, p + 3);
  }

  /** A slice of `t` past n is the slice of its suffix `c`. */
  lemma SliceShift(t: string, n: nat, c: string, i: nat, j: nat)
    requires SuffixAt(t, n, c) && i <= j <= |c|
    ensures t[n + i..n + j] == c[i..j]
    ensures t[n + i..] == c[i..]
  {
  }

  /** No fence from `start` on: a single prose segment. */
  lemma LastStep(t: string, start: nat)
    requires start <= |t| && FenceIndex(t, start) == -1
    ensures SegmentsFrom(t, start) == [Prose(t[start..])]
  {
  }

  /** A fence with no closing one after it: two prose segments. */
  lemma UnclosedStep(t: string, start: nat, p: nat)
    requires start <= |t| && FenceIndex(t, start) == p && FenceIndex(t, p + 3) == -1
    ensures SegmentsFrom(t, start) == [Prose(t[start..p]), Prose(t[p + 3..])]
  {
  }

  /** Two texts whose first closed blocks and remainders segment alike
      segment alike. */
  lemma SameClosedStep(t: string, s: nat, p: nat, q: nat, r: nat, u: string, s': nat, p': nat, q': nat, r': nat)
    requires s <= |t| && FenceIndex(t, s) == p && FenceIndex(t, p + 3) == q && r == q + 3
    requires s' <= |u| && FenceIndex(u, s') == p' && FenceIndex(u, p' + 3) == q' && r' == q' + 3
    requires t[s..p] == u[s'..p'] && t[p + 3..q] == u[p' + 3..q']
    requires SegmentsFrom(t, r) == SegmentsFrom(u, r')
    ensures SegmentsFrom(t, s) == SegmentsFrom(u, s')
  {
    ClosedStep(t, s, p, q);
    ClosedStep(u, s', p', q');
  }

  /** One closed block at the front of the segmentation from `start`. */
  lemma ClosedStep(t: string, start: nat, p: nat, q: nat)
    requires start <= |t| && FenceIndex(t, start) == p && FenceIndex(t, p + 3) == q
    ensures SegmentsFrom(t, start) == [Prose(t[start..p]), Code(t[p + 3..q])] + SegmentsFrom(t, q + 3)
  {
  }

  /** When `t` starts with fence-free text `a` followed by a fence, that
      fence is the first one. */
  lemma FenceAfterFenceFree(t: string, a: string)
    requires NoFence(a + "``") && FenceAt(t, |a|)
    requires forall i :: 0 <= i < |a| ==> t[i] == a[i]
    ensures FenceIndex(t, 0) == |a|
  {
    var u := a + "``";
    forall i | 0 <= i < |a|
      ensures !FenceAt(t, i)
    {
      assert !FenceAt(u, i);
      assert forall j :: i <= j < i + 3 ==> t[j] == u[j];
    }
    FirstFence(t, 0, |a|);
  }

  /** A closed block: the prose before it goes through the rules trimmed,
      the inside is trimmed and wrapped in `<pre>` without the rules, and
      the rest of the text is rendered on its own. */
  lemma MarkdownClosedBlock(a: string, b: string, c: string, runRules: string -> string)
    requires NoFence(a + "``") && NoFence(b + "``")
    ensures Segments(a + "```" + b + "```" + c) == [Prose(a), Code(b)] + Segments(c)
    ensures Render(Segments(a + "```" + b + "```" + c), runRules)
      == runRules(Trim(a)) + ("<pre>" + Trim(b) + "</pre>") + Render(Segments(c), runRules)
  {
    SegmentsClosedBlock(a, b, c);
    var rest := Segments(c);
    assert [Prose(a), Code(b)] + rest == [Prose(a)] + ([Code(b)] + rest);
    RenderCons(Code(b), rest, runRules);
    RenderCons(Prose(a), [Code(b)] + rest, runRules);
    Regroup(runRules(Trim(a)), "<pre>" + Trim(b) + "</pre>", Render(rest, runRules));
  }

  lemma SegmentsClosedBlock(a: string, b: string, c: string)
    requires NoFence(a + "``") && NoFence(b + "``")
    ensures Segments(a + "```" + b + "```" + c) == [Prose(a), Code(b)] + Segments(c)
  {
    var t := a + "```" + b + "```" + c;
    var p := |a|;
    var q := p + 3 + |b|;
    var r := q + 3;
    ClosedBlockFences(a, b, c, t, p, q);
    ClosedBlockSlices(a, b, c, t, p, q, r);
    ClosedBlockRest(a, b, c, t, r);
    ClosedBlockSegments(t, p, q, r, a, b, c);
  }

  /** The segmentation of a text whose first closed block is known. */
  lemma ClosedBlockSegments(t: string, p: nat, q: nat, r: nat, a: string, b: string, c: string)
    requires p <= |t| && FenceIndex(t, 0) == p && FenceIndex(t, p + 3) == q && r == q + 3
    requires t[0..p] == a && t[p + 3..q] == b && SegmentsFrom(t, r) == SegmentsFrom(c, 0)
    ensures SegmentsFrom(t, 0) == [Prose(a), Code(b)] + SegmentsFrom(c, 0)
  {
    ClosedStep(t, 0, p, q);
  }

  /** After the closing fence, the text segments as `c` does. */
  lemma ClosedBlockRest(a: string, b: string, c: string, t: string, r: nat)
    requires t == a + "```" + b + "```" + c && r == |a| + 3 + |b| + 3
    ensures SegmentsFrom(t, r) == SegmentsFrom(c, 0)
  {
    SegmentsAfterPrefix(a + "```" + b + "```", c);
  }

  /** Segmenting `x + c` past x is segmenting c. */
  lemma SegmentsAfterPrefix(x: string, c: string)
    ensures SegmentsFrom(x + c, |x|) == SegmentsFrom(c, 0)
  {
    assert SuffixAt(x + c, |x|, c);
    SegmentsShift(x + c, |x|, c, 0);
  }

  /** Where the fences of a closed block are... */
  lemma ClosedBlockFences(a: string, b: string, c: string, t: string, p: nat, q: nat)
    requires NoFence(a + "``") && NoFence(b + "``")
    requires t == a + "```" + b + "```" + c && p == |a| && q == p + 3 + |b|
    ensures FenceIndex(t, 0) == p && FenceIndex(t, p + 3) == q
  {
    var x, y := a + "```", b + "```" + c;
    assert t == a + "```" + y == x + y;
    FenceAfterPrefix(a, y);
    FenceAfterPrefix(b, c);
    FenceIndexAfterPrefix(x, y, 0);
  }

  /** Fence-free `a` followed by a fence: that fence is the first. */
  lemma FenceAfterPrefix(a: string, rest: string)
    requires NoFence(a + "``")
    ensures FenceIndex(a + "```" + rest, 0) == |a|
  {
    var t := a + "```" + rest;
    assert forall i :: 0 <= i < |a| ==> t[i] == a[i];
    assert FenceAt(t, |a|);
    FenceAfterFenceFree(t, a);
  }

  /** Searching `x + y` past x is searching y. */
  lemma FenceIndexAfterPrefix(x: string, y: string, k: nat)
    requires k <= |y|
    ensures FenceIndex(x + y, |x| + k)
      == if FenceIndex(y, k) == -1 then -1 else |x| + FenceIndex(y, k)
  {
    assert SuffixAt(x + y, |x|, y);
    FenceIndexShift(x + y, |x|, y, k);
  }

  /** ... and what lies between them. */
  lemma ClosedBlockSlices(a: string, b: string, c: string, t: string, p: nat, q: nat, r: nat)
    requires t == a + "```" + b + "```" + c && p == |a| && q == p + 3 + |b| && r == q + 3
    ensures t[0..p] == a && t[p + 3..q] == b
  {
  }

  /** An unmatched fence: the prose before it is trimmed, the text after it
      is only left-trimmed, both go through the rules, the fence vanishes. */
  lemma MarkdownUnclosedFence(a: string, b: string, runRules: string -> string)
    requires NoFence(a + "``") && NoFence(b)
    ensures Segments(a + "```" + b) == [Prose(a), Prose(b)]
    ensures Render(Segments(a + "```" + b), runRules) == runRules(Trim(a)) + runRules(TrimLeft(b))
  {
    var t := a + "```" + b;
    var p := |a|;
    UnclosedBlockFences(a, b, t, p);
    assert t[0..p] == a && t[p + 3..] == b;
    UnclosedBlockSegments(t, p, a, b, runRules);
  }

  lemma UnclosedBlockFences(a: string, b: string, t: string, p: nat)
    requires NoFence(a + "``") && NoFence(b) && t == a + "```" + b && p == |a|
    ensures FenceIndex(t, 0) == p && FenceIndex(t, p + 3) == -1
  {
    FenceAfterPrefix(a, b);
    FenceIndexAfterPrefix(a + "```", b, 0);
  }

  lemma UnclosedBlockSegments(t: string, p: nat, a: string, b: string, runRules: string -> string)
    requires p <= |t| && FenceIndex(t, 0) == p && FenceIndex(t, p + 3) == -1
    requires t[0..p] == a && t[p + 3..] == b
    ensures SegmentsFrom(t, 0) == [Prose(a), Prose(b)]
    ensures Render(SegmentsFrom(t, 0), runRules) == runRules(Trim(a)) + runRules(TrimLeft(b))
  {
    UnclosedStep(t, 0, p);
    RenderUnclosed(t, 0, p, runRules);
  }

  /** slackMarkdownToHtmlSync: link tokens are replaced first (mentions
      stay plain links), then the markdown pass runs over the result. */
  method SlackMarkdownToHtmlSync(accountUrl: string, text: string, runRules: string -> string)
    returns (html: string)
    ensures html == Render(Segments(ReplaceLinks(accountUrl, text)), runRules)
  {
    var linked := ReplaceLinks(accountUrl, text);
    html := ParseMarkdown(linked, runRules);
  }
}
