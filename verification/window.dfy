/** The conversation window the off-topic analysis looks at: the most recent
    human messages of a channel, no older than a cutoff, capped in number and
    put oldest-first (`_fetch_recent_messages` in offtopic/offtopic.py). */
module Window {
  import opened Seqs

  /** A chat message as the workflow sees it. `createdAt` is in microseconds,
      the resolution of Python's `datetime`. */
  datatype Message = Message(
    id: nat,
    authorIsBot: bool,
    authorName: string,
    createdAt: int,
    content: string)

  /** Default number of messages kept. */
  const WindowLimit := 30
  /** Number of history entries read, to leave room for skipped bot messages. */
  const HistoryLimit := 100
  /** Default maximum age of a kept message. */
  const MaxAgeHours := 3
  const MicrosPerHour := 3_600_000_000

  /** `now - timedelta(hours=maxAgeHours)`. */
  function Cutoff(now: int, maxAgeHours: int): int {
    now - maxAgeHours * MicrosPerHour
  }

  /** A message is kept when a human wrote it no earlier than the cutoff. */
  predicate Qualifies(m: Message, cutoff: int) {
    !m.authorIsBot && m.createdAt >= cutoff
  }

  /** The history entries scanned: `channel.history(limit=100)`, newest first. */
  function Scanned(history: seq<Message>): (r: seq<Message>)
    ensures r <= history && |r| <= HistoryLimit
  {
    Take(history, HistoryLimit)
  }

  /** The loop appends before it tests `len(messages) >= limit`, so at least one
      qualifying message is kept even for a limit below one. */
  function Cap(limit: int): nat {
    if limit >= 1 then limit else 1
  }

  /** Reference definition of the window: the first `Cap(limit)` qualifying
      scanned messages, reversed to oldest-first. */
  function WindowOf(history: seq<Message>, now: int, limit: int, maxAgeHours: int): seq<Message> {
    Reverse(Take(Candidates(history, now, maxAgeHours), Cap(limit)))
  }

  /** All qualifying scanned messages, newest first, before the cap applies. */
  function Candidates(history: seq<Message>, now: int, maxAgeHours: int): seq<Message> {
    Filter((m: Message) => Qualifies(m, Cutoff(now, maxAgeHours)), Scanned(history))
  }

  /** `_fetch_recent_messages(channel, limit, max_age_hours)` over a history
      given newest first. */
  method FetchRecentMessages(history: seq<Message>, now: int, limit: int, maxAgeHours: int)
    returns (window: seq<Message>)
    ensures window == WindowOf(history, now, limit, maxAgeHours)
    ensures forall k :: 0 <= k < |window| ==> !window[k].authorIsBot
    ensures forall k :: 0 <= k < |window| ==> window[k].createdAt >= Cutoff(now, maxAgeHours)
    ensures |window| <= Cap(limit) && |window| <= HistoryLimit
  {
    var cutoff := Cutoff(now, maxAgeHours);
    var p := (m: Message) => Qualifies(m, cutoff);
    var scan := Scanned(history);
    var messages: seq<Message> := [];
    var i := 0;
    while i < |scan|
      invariant 0 <= i <= |scan|
      invariant messages == Filter(p, scan[..i])
      invariant |messages| < Cap(limit)
    {
      var msg := scan[i];
      FilterStep(p, scan, i);
      i := i + 1;
      if msg.authorIsBot {
        continue;
      }
      if msg.createdAt >= cutoff {
        messages := messages + [msg];
        if |messages| >= limit {
          break;
        }
      }
    }
    FilterPrefix(p, scan, i);
    if i == |scan| {
      assert scan[..i] == scan;
    }
    window := Reverse(messages);
    WindowBounds(history, now, limit, maxAgeHours);
  }

  lemma FilterStep(p: Message -> bool, s: seq<Message>, i: nat)
    requires i < |s|
    ensures Filter(p, s[..i + 1]) == Filter(p, s[..i]) + (if p(s[i]) then [s[i]] else [])
  {
    assert s[..i + 1][..i] == s[..i];
  }

  lemma WindowBounds(history: seq<Message>, now: int, limit: int, maxAgeHours: int)
    ensures forall k :: 0 <= k < |WindowOf(history, now, limit, maxAgeHours)| ==>
              Qualifies(WindowOf(history, now, limit, maxAgeHours)[k], Cutoff(now, maxAgeHours))
    ensures |WindowOf(history, now, limit, maxAgeHours)| <= Cap(limit)
    ensures |WindowOf(history, now, limit, maxAgeHours)| <= HistoryLimit
  {
    var p := (m: Message) => Qualifies(m, Cutoff(now, maxAgeHours));
    var kept := Take(Filter(p, Scanned(history)), Cap(limit));
    assert forall k :: 0 <= k < |kept| ==> p(kept[k]);
  }

  /** Read oldest-last, the window is a subsequence of the history: nothing is
      invented and the history's order is kept. */
  lemma WindowIsSubsequence(history: seq<Message>, now: int, limit: int, maxAgeHours: int)
    ensures IsSubsequence(Reverse(WindowOf(history, now, limit, maxAgeHours)), history)
  {
    var p := (m: Message) => Qualifies(m, Cutoff(now, maxAgeHours));
    var scan := Scanned(history);
    var f := Filter(p, scan);
    var kept := Take(f, Cap(limit));
    ReverseReverse(kept);
    FilterIsSubsequence(p, scan);
    SubsequencePrefix(f, scan, |kept|);
    assert f[..|kept|] == kept;
    assert scan == history[..|scan|];
    SubsequenceOfPrefix(kept, history, |scan|);
  }

  /** When no more than `Cap(limit)` of the scanned messages qualify, all of them
      are in the window: a message that is too old or written by a bot is
      skipped and the scan goes on past it. */
  lemma WindowKeepsEveryQualifying(history: seq<Message>, now: int, limit: int, maxAgeHours: int, m: Message)
    requires m in Scanned(history) && Qualifies(m, Cutoff(now, maxAgeHours))
    requires |Candidates(history, now, maxAgeHours)| <= Cap(limit)
    ensures m in WindowOf(history, now, limit, maxAgeHours)
  {
    var p := (m: Message) => Qualifies(m, Cutoff(now, maxAgeHours));
    var f := Filter(p, Scanned(history));
    FilterMembership(p, Scanned(history), m);
    var i :| 0 <= i < |f| && f[i] == m;
    var w := WindowOf(history, now, limit, maxAgeHours);
    assert w[|f| - 1 - i] == m;
  }

  /** A message beyond the 100 newest history entries never reaches the window,
      even when it qualifies. */
  lemma WindowOnlyFromNewest(history: seq<Message>, now: int, limit: int, maxAgeHours: int, m: Message)
    requires m in WindowOf(history, now, limit, maxAgeHours)
    ensures m in history[..if |history| < HistoryLimit then |history| else HistoryLimit]
  {
    var p := (m: Message) => Qualifies(m, Cutoff(now, maxAgeHours));
    var f := Filter(p, Scanned(history));
    FilterMembership(p, Scanned(history), m);
    assert Scanned(history) == history[..if |history| < HistoryLimit then |history| else HistoryLimit];
  }
}
