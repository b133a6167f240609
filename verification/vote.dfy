/** The reaction vote on the summary message (`_handle_voting` in
    offtopic/offtopic.py). The wall clock and the five-second sleeps are
    replaced by a finite sequence of polls, each recording the clock reading at
    the loop test and the reactions read back from the summary message (or
    that the message was not found). */
module Vote {
  import opened Wrappers

  const ThumbsUp := "\U{1F44D}"
  const ThumbsDown := "\U{1F44E}"
  /** Guild defaults for the vote (offtopic/offtopic.py:30-31). */
  const DefaultTimeoutSeconds := 300
  const DefaultThreshold := 5
  const MicrosPerSecond := 1_000_000

  /** One reaction on the summary message: its emoji as `str(reaction.emoji)`
      and the number of users who reacted with it, the bot included. */
  datatype Reaction = Reaction(emoji: string, count: int)

  datatype Tally = Tally(up: int, down: int)

  /** `"approve"`, `"reject"` or `"timeout"`. */
  datatype Outcome = Approve | Reject | Timeout

  /** One turn of the polling loop: the clock reading at the loop test, and the
      reactions of the refetched message, `None` when the fetch raised
      `NotFound`. */
  datatype Poll = Poll(now: int, fetched: Option<seq<Reaction>>)

  /** `end_time = now + timedelta(seconds=timeout)`. */
  function Deadline(start: int, timeoutSeconds: int): int {
    start + timeoutSeconds * MicrosPerSecond
  }

  /** The last reaction in `rs` with emoji `e` is at index `i`. */
  predicate LastWith(rs: seq<Reaction>, e: string, i: int) {
    0 <= i < |rs| && rs[i].emoji == e && forall j :: i < j < |rs| ==> rs[j].emoji != e
  }

  /** The two counts of one poll: each starts at zero and is set, minus the
      bot's own reaction, by the thumbs-up (thumbs-down) reaction. */
  function CountVotes(rs: seq<Reaction>): Tally {
    if |rs| == 0 then Tally(0, 0)
    else
      var t := CountVotes(rs[..|rs| - 1]);
      var r := rs[|rs| - 1];
      if r.emoji == ThumbsUp then t.(up := r.count - 1)
      else if r.emoji == ThumbsDown then t.(down := r.count - 1)
      else t
  }

  /** The count one emoji alone would get: its last reaction's count minus the
      bot, or zero. */
  function LastCount(rs: seq<Reaction>, e: string): int {
    if |rs| == 0 then 0
    else if rs[|rs| - 1].emoji == e then rs[|rs| - 1].count - 1
    else LastCount(rs[..|rs| - 1], e)
  }

  lemma {:induction false} LastCountAt(rs: seq<Reaction>, e: string, i: int)
    requires LastWith(rs, e, i)
    ensures LastCount(rs, e) == rs[i].count - 1
  {
    var n := |rs| - 1;
    if i < n {
      var init := rs[..n];
      assert init[i] == rs[i];
      assert LastWith(init, e, i);
      LastCountAt(init, e, i);
    }
  }

  lemma {:induction false} LastCountAbsent(rs: seq<Reaction>, e: string)
    requires forall i :: 0 <= i < |rs| ==> rs[i].emoji != e
    ensures LastCount(rs, e) == 0
  {
    if |rs| > 0 {
      var init := rs[..|rs| - 1];
      assert forall i :: 0 <= i < |init| ==> init[i] == rs[i];
      LastCountAbsent(init, e);
    }
  }

  /** The single pass with its `elif` counts each emoji on its own. */
  lemma {:induction false} CountVotesPerEmoji(rs: seq<Reaction>)
    ensures CountVotes(rs) == Tally(LastCount(rs, ThumbsUp), LastCount(rs, ThumbsDown))
  {
    assert ThumbsUp[0] != ThumbsDown[0];
    if |rs| > 0 {
      CountVotesPerEmoji(rs[..|rs| - 1]);
    }
  }

  /** The count of an emoji is its last reaction's count minus one, or zero
      when it has no reaction; should an emoji appear twice the later one wins. */
  lemma CountVotesSpec(rs: seq<Reaction>)
    ensures (forall i :: 0 <= i < |rs| ==> rs[i].emoji != ThumbsUp) ==> CountVotes(rs).up == 0
    ensures (forall i :: 0 <= i < |rs| ==> rs[i].emoji != ThumbsDown) ==> CountVotes(rs).down == 0
    ensures forall i :: LastWith(rs, ThumbsUp, i) ==> CountVotes(rs).up == rs[i].count - 1
    ensures forall i :: LastWith(rs, ThumbsDown, i) ==> CountVotes(rs).down == rs[i].count - 1
  {
    CountVotesPerEmoji(rs);
    if forall i :: 0 <= i < |rs| ==> rs[i].emoji != ThumbsUp {
      LastCountAbsent(rs, ThumbsUp);
    }
    if forall i :: 0 <= i < |rs| ==> rs[i].emoji != ThumbsDown {
      LastCountAbsent(rs, ThumbsDown);
    }
    forall i | LastWith(rs, ThumbsUp, i)
      ensures CountVotes(rs).up == rs[i].count - 1
    {
      LastCountAt(rs, ThumbsUp, i);
    }
    forall i | LastWith(rs, ThumbsDown, i)
      ensures CountVotes(rs).down == rs[i].count - 1
    {
      LastCountAt(rs, ThumbsDown, i);
    }
  }

  /** The decision after one poll, `None` to keep polling: approval is tested
      before rejection. */
  function Decide(t: Tally, threshold: int): Option<Outcome> {
    if t.up >= threshold then Some(Approve)
    else if t.down >= threshold then Some(Reject)
    else None
  }

  /** The outcome of one loop turn, `None` to sleep and poll again. */
  function Step(p: Poll, deadline: int, threshold: int): Option<Outcome> {
    if p.now >= deadline then Some(Timeout)
    else match p.fetched
      case None => Some(Timeout)
      case Some(rs) => Decide(CountVotes(rs), threshold)
  }

  /** `_handle_voting` over a finite run of polls; `None` means the vote is
      still open when the observed polls run out. */
  function RunVote(polls: seq<Poll>, deadline: int, threshold: int): Option<Outcome> {
    if |polls| == 0 then None
    else match Step(polls[0], deadline, threshold)
      case Some(o) => Some(o)
      case None => RunVote(polls[1..], deadline, threshold)
  }

  /** The vote ends with the outcome of the first decisive poll, and stays open
      exactly when no poll is decisive. */
  lemma {:induction false} RunVoteFirstDecisive(polls: seq<Poll>, deadline: int, threshold: int)
    ensures RunVote(polls, deadline, threshold).None? <==>
              forall i :: 0 <= i < |polls| ==> Step(polls[i], deadline, threshold).None?
    ensures RunVote(polls, deadline, threshold).Some? ==>
              exists i :: && 0 <= i < |polls|
                          && Step(polls[i], deadline, threshold) == RunVote(polls, deadline, threshold)
                          && forall j :: 0 <= j < i ==> Step(polls[j], deadline, threshold).None?
  {
    if |polls| > 0 && Step(polls[0], deadline, threshold).None? {
      var rest := polls[1..];
      RunVoteFirstDecisive(rest, deadline, threshold);
      assert forall i :: 1 <= i < |polls| ==> polls[i] == rest[i - 1];
      if RunVote(rest, deadline, threshold).Some? {
        var i :| && 0 <= i < |rest|
                 && Step(rest[i], deadline, threshold) == RunVote(rest, deadline, threshold)
                 && forall j :: 0 <= j < i ==> Step(rest[j], deadline, threshold).None?;
        assert Step(polls[i + 1], deadline, threshold) == RunVote(polls, deadline, threshold);
      }
    }
  }

  /** Conversely, a poll that is decisive after undecided ones fixes the outcome. */
  lemma {:induction false} RunVoteDecidedAt(polls: seq<Poll>, deadline: int, threshold: int, i: nat)
    requires i < |polls| && Step(polls[i], deadline, threshold).Some?
    requires forall j :: 0 <= j < i ==> Step(polls[j], deadline, threshold).None?
    ensures RunVote(polls, deadline, threshold) == Step(polls[i], deadline, threshold)
  {
    if i > 0 {
      var rest := polls[1..];
      assert Step(polls[0], deadline, threshold).None?;
      assert RunVote(polls, deadline, threshold) == RunVote(rest, deadline, threshold);
      forall j | 0 <= j < i - 1
        ensures Step(rest[j], deadline, threshold).None?
      {
        assert rest[j] == polls[j + 1];
      }
      assert rest[i - 1] == polls[i];
      RunVoteDecidedAt(rest, deadline, threshold, i - 1);
    }
  }

  /** One poll's decision: approval whenever the thumbs-up count reaches the
      threshold, whatever the thumbs-down count; rejection only when thumbs-down
      reaches it and thumbs-up does not; otherwise keep polling. */
  lemma DecidePrecedence(t: Tally, threshold: int)
    ensures Decide(t, threshold) == Some(Approve) <==> t.up >= threshold
    ensures Decide(t, threshold) == Some(Reject) <==> t.up < threshold && t.down >= threshold
    ensures Decide(t, threshold).None? <==> t.up < threshold && t.down < threshold
  {
  }

  /** An approval needs a poll, before the deadline and on a message still
      there, whose thumbs-up count minus the bot reached the threshold. */
  lemma ApproveNeedsVotes(polls: seq<Poll>, deadline: int, threshold: int)
    requires RunVote(polls, deadline, threshold) == Some(Approve)
    ensures exists i :: && 0 <= i < |polls| && polls[i].now < deadline && polls[i].fetched.Some?
                        && CountVotes(polls[i].fetched.value).up >= threshold
  {
    RunVoteFirstDecisive(polls, deadline, threshold);
    var i :| 0 <= i < |polls| && Step(polls[i], deadline, threshold) == Some(Approve);
    assert polls[i].now < deadline && polls[i].fetched.Some?;
  }

  /** Once the deadline has passed, or the summary message is gone, the next
      poll ends the vote with a timeout unless an earlier poll decided it. */
  lemma TimeoutWhenLateOrGone(polls: seq<Poll>, deadline: int, threshold: int, i: nat)
    requires i < |polls| && (polls[i].now >= deadline || polls[i].fetched.None?)
    requires forall j :: 0 <= j < i ==> Step(polls[j], deadline, threshold).None?
    ensures RunVote(polls, deadline, threshold) == Some(Timeout)
  {
    RunVoteDecidedAt(polls, deadline, threshold, i);
  }

  /** A vote that never reaches the threshold can only time out or stay open. */
  lemma BelowThresholdNeverDecides(polls: seq<Poll>, deadline: int, threshold: int)
    requires forall i :: 0 <= i < |polls| && polls[i].fetched.Some? ==>
               CountVotes(polls[i].fetched.value).up < threshold &&
               CountVotes(polls[i].fetched.value).down < threshold
    ensures RunVote(polls, deadline, threshold) != Some(Approve)
    ensures RunVote(polls, deadline, threshold) != Some(Reject)
  {
    RunVoteFirstDecisive(polls, deadline, threshold);
    if RunVote(polls, deadline, threshold).Some? {
      var i :| && 0 <= i < |polls|
               && Step(polls[i], deadline, threshold) == RunVote(polls, deadline, threshold)
               && forall j :: 0 <= j < i ==> Step(polls[j], deadline, threshold).None?;
      assert Step(polls[i], deadline, threshold) == Some(Timeout);
    }
  }

  /** An illustration of `BelowThresholdNeverDecides` at the guild defaults
      (threshold 5, 300 seconds): three thumbs-up and one thumbs-down besides
      the bot's, and the vote ends in a timeout rather than staying open. */
  lemma ExpiredBelowThreshold()
    ensures RunVote([Poll(0, Some([Reaction(ThumbsUp, 4), Reaction(ThumbsDown, 2)])),
                     Poll(Deadline(0, DefaultTimeoutSeconds), None)],
                    Deadline(0, DefaultTimeoutSeconds), DefaultThreshold) == Some(Timeout)
  {
    var rs := [Reaction(ThumbsUp, 4), Reaction(ThumbsDown, 2)];
    CountVotesSpec(rs);
    assert LastWith(rs, ThumbsUp, 0) && LastWith(rs, ThumbsDown, 1);
  }
}
