/** The `/offtopic` slash command up to the start of the vote
    (`offtopic_slash` in offtopic/offtopic.py): the role gate, the
    configuration checks, the window, the analysis verdict, the lookup of the
    flagged message, the count of messages to move and the content preview.
    Guild configuration, the history fetch and the language model call are
    inputs; the messages sent back to the user are the result's cases. */
module Slash {
  import opened Wrappers
  import opened Text
  import opened Seqs
  import opened Window

  /** Characters of the flagged message shown in the summary. */
  const PreviewLength := 100
  /** discord.py's default `limit` for `channel.history(...)`, which the tail
      count uses. */
  const HistoryDefaultLimit := 100

  /** Guild configuration and collaborators read by the command. Ids are 0 when
      unset (Python's `None` and `0` are both falsy); `topic` is "" when the
      channel has none. */
  datatype Setup = Setup(
    allowedRoleId: nat,
    guildRoles: set<nat>,
    offtopicChannelId: nat,
    offtopicChannelExists: bool,
    topic: string,
    apiKeyConfigured: bool,
    transferCogLoaded: bool)

  /** What `_analyze_messages` returns: `None` on a transport or parse failure,
      otherwise `str()` of the `first_offtopic_id` field (or `None` when the
      field is null or missing) and the reason. */
  datatype Analysis = AnalysisFailed | Verdict(firstOfftopicId: Option<string>, reason: string)

  /** How the command ends before voting, or the proposal it puts to the vote. */
  datatype SlashResult =
    | PermissionDenied
    | ChannelNotConfigured
    | ChannelMissing
    | TopicMissing
    | ApiKeyMissing
    | TransferCogMissing
    | NothingToAnalyze
    | AnalysisError
    | OnTopic
    | AnchorNotFound(id: string)
    | Proposal(anchor: Message, preview: string, moveCount: nat, reason: string)

  /** The role gate: refused only when a role is configured, still exists in
      the guild, and the user does not hold it. */
  predicate Permitted(allowedRoleId: nat, guildRoles: set<nat>, userRoles: set<nat>) {
    !(allowedRoleId != 0 && allowedRoleId in guildRoles && allowedRoleId !in userRoles)
  }

  /** Who passes the gate: everyone when no role is set or the set role was
      deleted, otherwise exactly the holders of that role. */
  lemma PermittedCases(allowedRoleId: nat, guildRoles: set<nat>, userRoles: set<nat>)
    ensures allowedRoleId == 0 ==> Permitted(allowedRoleId, guildRoles, userRoles)
    ensures allowedRoleId !in guildRoles ==> Permitted(allowedRoleId, guildRoles, userRoles)
    ensures allowedRoleId != 0 && allowedRoleId in guildRoles ==>
              (Permitted(allowedRoleId, guildRoles, userRoles) <==> allowedRoleId in userRoles)
  {
  }

  /** The first window message whose `str(id)` equals the verdict's id. */
  function FindAnchor(window: seq<Message>, verdictId: string): Option<Message> {
    if |window| == 0 then None
    else if NatToString(window[0].id) == verdictId then Some(window[0])
    else FindAnchor(window[1..], verdictId)
  }

  /** The lookup returns the first message with that id string, and fails
      exactly when no message has it. */
  lemma {:induction false} FindAnchorSpec(window: seq<Message>, verdictId: string)
    ensures FindAnchor(window, verdictId).None? <==>
              forall i :: 0 <= i < |window| ==> NatToString(window[i].id) != verdictId
    ensures FindAnchor(window, verdictId).Some? ==>
              exists i :: && 0 <= i < |window| && window[i] == FindAnchor(window, verdictId).value
                          && NatToString(window[i].id) == verdictId
                          && forall j :: 0 <= j < i ==> NatToString(window[j].id) != verdictId
  {
    if |window| > 0 && NatToString(window[0].id) != verdictId {
      var rest := window[1..];
      FindAnchorSpec(rest, verdictId);
      assert FindAnchor(window, verdictId) == FindAnchor(rest, verdictId);
      forall i | 1 <= i < |window|
        ensures window[i] == rest[i - 1]
      {
      }
      if FindAnchor(rest, verdictId).Some? {
        var i :| && 0 <= i < |rest| && rest[i] == FindAnchor(rest, verdictId).value
                 && NatToString(rest[i].id) == verdictId
                 && forall j :: 0 <= j < i ==> NatToString(rest[j].id) != verdictId;
        assert window[i + 1] == rest[i];
        forall j | 0 <= j < i + 1
          ensures NatToString(window[j].id) != verdictId
        {
          if j > 0 {
            assert window[j] == rest[j - 1];
          }
        }
      }
    }
  }

  /** Since `str` is injective on ids, a verdict naming the id `n` finds a
      message with id `n` whenever the window holds one, and only such a
      message. */
  lemma FindAnchorById(window: seq<Message>, n: nat)
    ensures FindAnchor(window, NatToString(n)).Some? ==> FindAnchor(window, NatToString(n)).value.id == n
    ensures (exists i :: 0 <= i < |window| && window[i].id == n) ==> FindAnchor(window, NatToString(n)).Some?
  {
    FindAnchorSpec(window, NatToString(n));
    if FindAnchor(window, NatToString(n)).Some? {
      var m := FindAnchor(window, NatToString(n)).value;
      NatToStringInjective(m.id, n);
    }
  }

  /** The messages to move: the flagged message, then the messages after it in
      the channel, oldest first, as many as one `channel.history` call yields.
      Bot messages are not excluded. `channel` is the channel's full history,
      oldest first. */
  function TailToMove(anchor: Message, channel: seq<Message>): seq<Message> {
    [anchor] + Take(Filter((m: Message) => m.id > anchor.id, channel), HistoryDefaultLimit)
  }

  /** The tail starts at the flagged message, counts at least one message and at
      most the flagged one plus 100, and holds every later message when there
      are at most 100 of them, whoever wrote it. */
  lemma TailToMoveSpec(anchor: Message, channel: seq<Message>, m: Message)
    ensures TailToMove(anchor, channel)[0] == anchor
    ensures 1 <= |TailToMove(anchor, channel)| <= 1 + HistoryDefaultLimit
    ensures |TailToMove(anchor, channel)| <= 1 + |channel|
    ensures m in TailToMove(anchor, channel)[1..] ==> m in channel && m.id > anchor.id
    ensures m in channel && m.id > anchor.id &&
            |Filter((m: Message) => m.id > anchor.id, channel)| <= HistoryDefaultLimit ==>
              m in TailToMove(anchor, channel)[1..]
  {
    var p := (m: Message) => m.id > anchor.id;
    var later := Filter(p, channel);
    FilterMembership(p, channel, m);
    var tail := TailToMove(anchor, channel);
    assert tail[1..] == Take(later, HistoryDefaultLimit);
  }

  /** The later messages of the tail keep the channel's order. */
  lemma TailIsSubsequence(anchor: Message, channel: seq<Message>)
    ensures IsSubsequence(TailToMove(anchor, channel)[1..], channel)
  {
    var p := (m: Message) => m.id > anchor.id;
    var later := Filter(p, channel);
    var kept := Take(later, HistoryDefaultLimit);
    FilterIsSubsequence(p, channel);
    SubsequencePrefix(later, channel, |kept|);
    assert later[..|kept|] == kept;
    assert TailToMove(anchor, channel)[1..] == kept;
  }

  /** The summary's preview of the flagged message: its first 100 characters,
      with "..." appended exactly when something was cut. */
  function Preview(content: string): (r: string)
    ensures |content| <= PreviewLength ==> r == content
    ensures |content| > PreviewLength ==>
              |r| == PreviewLength + 3 && r[..PreviewLength] == content[..PreviewLength] && r[PreviewLength..] == "..."
    ensures |r| <= PreviewLength + 3
  {
    var head := if |content| <= PreviewLength then content else content[..PreviewLength];
    if |content| > PreviewLength then head + "..." else head
  }

  /** The command from the role check to the proposal put to the vote.
      `channel` is the channel's history oldest first, `now` the time of the
      call, `analyze` the language model step applied to the window. */
  function OfftopicSlash(setup: Setup, userRoles: set<nat>, channel: seq<Message>, now: int,
                         analyze: seq<Message> -> Analysis): SlashResult
  {
    if !Permitted(setup.allowedRoleId, setup.guildRoles, userRoles) then PermissionDenied
    else if setup.offtopicChannelId == 0 then ChannelNotConfigured
    else if !setup.offtopicChannelExists then ChannelMissing
    else if setup.topic == "" then TopicMissing
    else if !setup.apiKeyConfigured then ApiKeyMissing
    else if !setup.transferCogLoaded then TransferCogMissing
    else
      var window := WindowOf(Reverse(channel), now, WindowLimit, MaxAgeHours);
      if |window| == 0 then NothingToAnalyze
      else match analyze(window)
        case AnalysisFailed => AnalysisError
        case Verdict(None, _) => OnTopic
        case Verdict(Some(id), reason) =>
          match FindAnchor(window, id)
          case None => AnchorNotFound(id)
          case Some(anchor) =>
            Proposal(anchor, Preview(anchor.content), |TailToMove(anchor, channel)|, reason)
  }

  /** The command never consults the language model when the window is empty:
      any two analyzers give the same answer, "nothing to analyze". */
  lemma EmptyWindowSkipsAnalysis(setup: Setup, userRoles: set<nat>, channel: seq<Message>, now: int,
                                 analyze1: seq<Message> -> Analysis, analyze2: seq<Message> -> Analysis)
    requires |WindowOf(Reverse(channel), now, WindowLimit, MaxAgeHours)| == 0
    ensures OfftopicSlash(setup, userRoles, channel, now, analyze1) ==
            OfftopicSlash(setup, userRoles, channel, now, analyze2)
    ensures OfftopicSlash(setup, userRoles, channel, now, analyze1).NothingToAnalyze? ||
            OfftopicSlash(setup, userRoles, channel, now, analyze1).ChannelNotConfigured? ||
            OfftopicSlash(setup, userRoles, channel, now, analyze1).PermissionDenied? ||
            OfftopicSlash(setup, userRoles, channel, now, analyze1).ChannelMissing? ||
            OfftopicSlash(setup, userRoles, channel, now, analyze1).TopicMissing? ||
            OfftopicSlash(setup, userRoles, channel, now, analyze1).ApiKeyMissing? ||
            OfftopicSlash(setup, userRoles, channel, now, analyze1).TransferCogMissing?
  {
  }

  /** A user refused by the role gate is refused before anything else happens. */
  lemma GateComesFirst(setup: Setup, userRoles: set<nat>, channel: seq<Message>, now: int,
                       analyze: seq<Message> -> Analysis)
    requires setup.allowedRoleId != 0 && setup.allowedRoleId in setup.guildRoles
    requires setup.allowedRoleId !in userRoles
    ensures OfftopicSlash(setup, userRoles, channel, now, analyze) == PermissionDenied
  {
  }

  /** A proposal names a message of the window, recent and written by a human,
      whose id string is the verdict's; it moves at least that message and
      shows its preview. A null verdict never leads to a proposal. */
  lemma ProposalSpec(setup: Setup, userRoles: set<nat>, channel: seq<Message>, now: int,
                     analyze: seq<Message> -> Analysis)
    requires OfftopicSlash(setup, userRoles, channel, now, analyze).Proposal?
    ensures var p := OfftopicSlash(setup, userRoles, channel, now, analyze);
            var window := WindowOf(Reverse(channel), now, WindowLimit, MaxAgeHours);
            && p.anchor in window
            && !p.anchor.authorIsBot
            && p.anchor.createdAt >= Cutoff(now, MaxAgeHours)
            && analyze(window).Verdict?
            && analyze(window).firstOfftopicId == Some(NatToString(p.anchor.id))
            && p.moveCount >= 1
            && p.preview == Preview(p.anchor.content)
  {
    var window := WindowOf(Reverse(channel), now, WindowLimit, MaxAgeHours);
    var id := analyze(window).firstOfftopicId.value;
    FindAnchorSpec(window, id);
    WindowBounds(Reverse(channel), now, WindowLimit, MaxAgeHours);
  }
}
