/** The request side of the Perplexity commands (pplx_api/pplx_api.py): the
    question built from a replied-to message and the command text, the
    message list and model settings sent, the failover over the configured
    API keys, and the handling of the answer. */
module Perplexity {
  import opened Wrappers
  import opened Text
  import opened SmartSplit
  import opened Search
  import opened Seqs

  const DefaultModel := "sonar-reasoning-pro"
  const DefaultMaxTokens := 8000
  const MinTokens := 400
  const MaxTokens := 8000
  const SourcesHeader := "**Quellen:**"

  /** What the replied-to message resolved to. */
  datatype Reference =
    | NoReference
    | Resolved(content: string)
    | NotAMessage
    | Deleted
    | NotFound
    | Forbidden
    | HttpError

  /** The error notice `_get_question` sends before giving up. */
  datatype Notice = ReferenceNotFound | ReferenceForbidden | ReferenceHttpError | ReferenceDeleted | ReferenceNoText

  /** The question, and the notice sent when the reference failed. */
  datatype Question = Question(text: string, notice: Option<Notice>)

  /** Python truthiness of a string. */
  predicate Present(s: string) {
    s != ""
  }

  /** Joining the non-empty ones of two texts with a space. */
  lemma JoinPresent(q: string, a: string)
    ensures Join(Filter(Present, [q, a]), " ") ==
            if a != "" then (if q != "" then q + " " + a else a) else q
  {
    assert [q, a][..1] == [q] && [q][..0] == [];
    var first := if q != "" then [q] else [];
    assert Filter(Present, [q]) == first;
    assert Filter(Present, [q, a]) == first + (if a != "" then [a] else []);
    if q != "" && a != "" {
      assert [q, a][1..] == [a];
    }
  }

  /** The combine step: of the referenced text and the stripped command text,
      the non-empty ones, joined by a single space. */
  function Combine(q: string, message: string): (r: string)
    ensures r == Join(Filter(Present, [q, Strip(message)]), " ")
  {
    var additional := Strip(message);
    JoinPresent(q, additional);
    if additional != "" then (if q != "" then q + " " + additional else additional) else q
  }

  /** `_get_question(ctx, message)`. A failed reference ends the lookup with an
      empty question, whatever the command text. */
  function GetQuestion(ref: Reference, message: string): Question {
    match ref
    case NoReference => Question(Combine("", message), None)
    case NotFound => Question("", Some(ReferenceNotFound))
    case Forbidden => Question("", Some(ReferenceForbidden))
    case HttpError => Question("", Some(ReferenceHttpError))
    case Deleted => Question("", Some(ReferenceDeleted))
    case NotAMessage => Question("", Some(ReferenceNoText))
    case Resolved(content) =>
      if Strip(content) == "" then Question("", Some(ReferenceNoText))
      else Question(Combine(Strip(content), message), None)
  }

  /** The question is stripped; it is empty exactly when the reference failed
      or neither the reference nor the command text holds anything but spaces;
      and a notice is sent only with an empty question. */
  lemma GetQuestionSpec(ref: Reference, message: string)
    ensures IsStripped(GetQuestion(ref, message).text)
    ensures GetQuestion(ref, message).notice.Some? ==> GetQuestion(ref, message).text == ""
    ensures GetQuestion(ref, message).notice.None? ==>
              (GetQuestion(ref, message).text == "" <==>
                 Strip(message) == "" && ref.NoReference?)
    ensures ref.NoReference? ==> GetQuestion(ref, message).text == Strip(message)
  {
    if ref.Resolved? && Strip(ref.content) != "" {
      CombineStripped(Strip(ref.content), message);
    } else if ref.NoReference? {
      CombineStripped("", message);
    }
  }

  /** Combining a stripped question with the command text gives a stripped
      text, empty exactly when both are. */
  lemma CombineStripped(q: string, message: string)
    requires IsStripped(q)
    ensures IsStripped(Combine(q, message))
    ensures Combine(q, message) == "" <==> q == "" && Strip(message) == ""
  {
    if q != "" && Strip(message) != "" {
      JoinedStripped(q, Strip(message));
    }
  }

  /** Two stripped non-empty texts joined by a space give a stripped text. */
  lemma JoinedStripped(q: string, a: string)
    requires IsStripped(q) && IsStripped(a) && q != "" && a != ""
    ensures IsStripped(q + " " + a)
  {
    var r := q + " " + a;
    assert r[0] == q[0] && r[|r| - 1] == a[|a| - 1];
  }

  /** `filter(None, api_keys)`: the non-empty keys, in order. */
  function UsableKeys(keys: seq<string>): (r: seq<string>)
    ensures |r| <= |keys|
    ensures forall i :: 0 <= i < |r| ==> r[i] != "" && r[i] in keys
  {
    if |keys| == 0 then []
    else UsableKeys(keys[..|keys| - 1]) + (if keys[|keys| - 1] != "" then [keys[|keys| - 1]] else [])
  }

  /** The first key, in order, whose request succeeds. */
  function FirstSuccess<R>(keys: seq<string>, attempt: string -> Option<R>): Option<R> {
    if |keys| == 0 then None
    else if attempt(keys[0]).Some? then attempt(keys[0])
    else FirstSuccess(keys[1..], attempt)
  }

  /** `call_api`: try the non-empty keys in order, return the first response,
      `None` when every request raised. `attempt` stands for the request with
      one key. */
  method CallApi<R>(keys: seq<string>, attempt: string -> Option<R>) returns (response: Option<R>)
    ensures response == FirstSuccess(UsableKeys(keys), attempt)
  {
    var usable := UsableKeys(keys);
    var i := 0;
    while i < |usable|
      invariant 0 <= i <= |usable|
      invariant FirstSuccess(usable[i..], attempt) == FirstSuccess(usable, attempt)
    {
      assert usable[i..][1..] == usable[i + 1..];
      if attempt(usable[i]).Some? {
        return attempt(usable[i]);
      }
      i := i + 1;
    }
    return None;
  }

  /** The failover answers with the response of a usable key all of whose
      usable predecessors failed, and with `None` exactly when every usable key
      failed. */
  lemma {:induction false} FirstSuccessSpec<R>(keys: seq<string>, attempt: string -> Option<R>)
    ensures FirstSuccess(keys, attempt).None? <==> forall i :: 0 <= i < |keys| ==> attempt(keys[i]).None?
    ensures FirstSuccess(keys, attempt).Some? ==>
              exists i :: && 0 <= i < |keys| && attempt(keys[i]) == FirstSuccess(keys, attempt)
                          && forall j :: 0 <= j < i ==> attempt(keys[j]).None?
  {
    if |keys| > 0 && attempt(keys[0]).None? {
      var rest := keys[1..];
      FirstSuccessSpec(rest, attempt);
      forall i | 1 <= i < |keys|
        ensures keys[i] == rest[i - 1]
      {
      }
      if FirstSuccess(rest, attempt).Some? {
        var i :| && 0 <= i < |rest| && attempt(rest[i]) == FirstSuccess(rest, attempt)
                 && forall j :: 0 <= j < i ==> attempt(rest[j]).None?;
        assert keys[i + 1] == rest[i];
        forall j | 0 <= j < i + 1
          ensures attempt(keys[j]).None?
        {
          if j > 0 {
            assert keys[j] == rest[j - 1];
          }
        }
      }
    } else if |keys| > 0 {
      assert attempt(keys[0]) == FirstSuccess(keys, attempt);
    }
  }

  /** Every non-empty key is usable and no empty one is. */
  lemma {:induction false} UsableKeysSpec(keys: seq<string>, k: string)
    ensures k in UsableKeys(keys) <==> k in keys && k != ""
  {
    if |keys| > 0 {
      var init := keys[..|keys| - 1];
      UsableKeysSpec(init, k);
      assert keys == init + [keys[|keys| - 1]];
    }
  }

  /** An empty key is never tried: with no usable key the call answers `None`
      without any request, so it does not depend on `attempt`. */
  lemma NoUsableKey<R>(keys: seq<string>, attempt1: string -> Option<R>, attempt2: string -> Option<R>)
    requires forall i :: 0 <= i < |keys| ==> keys[i] == ""
    ensures FirstSuccess(UsableKeys(keys), attempt1) == FirstSuccess(UsableKeys(keys), attempt2) == None
  {
    NoUsableKeys(keys);
  }

  /** `setperplexitytokens`: `max(400, min(tokens, 8000))`. */
  function ClampTokens(tokens: int): (r: int)
    ensures MinTokens <= r <= MaxTokens
    ensures MinTokens <= tokens <= MaxTokens ==> r == tokens
    ensures tokens < MinTokens ==> r == MinTokens
    ensures tokens > MaxTokens ==> r == MaxTokens
  {
    var capped := if tokens < MaxTokens then tokens else MaxTokens;
    if MinTokens > capped then MinTokens else capped
  }

  /** The clamp is idempotent and keeps order. */
  lemma ClampTokensMonotone(a: int, b: int)
    ensures ClampTokens(ClampTokens(a)) == ClampTokens(a)
    ensures a <= b ==> ClampTokens(a) <= ClampTokens(b)
  {
  }

  /** One chat message. */
  datatype ChatMessage = ChatMessage(role: string, content: string)

  /** `_prepare_messages`: the user message, after a system message holding
      the prompt when one is configured. */
  function PrepareMessages(prompt: string, message: string): (r: seq<ChatMessage>)
    ensures 1 <= |r| && r[|r| - 1] == ChatMessage("user", message)
    ensures |r| == 2 <==> prompt != ""
    ensures |r| == 1 || (|r| == 2 && r[0] == ChatMessage("system", prompt))
    ensures forall i :: 0 <= i < |r| - 1 ==> r[i].role != "user"
  {
    var user := [ChatMessage("user", message)];
    if prompt != "" then [ChatMessage("system", prompt)] + user else user
  }

  /** The stored settings: `model`, `max_tokens` (`None` when unset) and the
      system `prompt`. */
  datatype Settings = Settings(model: string, maxTokens: Option<int>, prompt: string)

  const DefaultSettings := Settings(DefaultModel, Some(DefaultMaxTokens), "")

  /** `_get_model_config(override)`: the override model when given, else the
      stored one; the stored token count, or 8000 when it is unset or 0. */
  function GetModelConfig(s: Settings, overrideModel: string): (r: (string, int))
    ensures r.0 == overrideModel || (overrideModel == "" && r.0 == s.model)
    ensures overrideModel == "" ==> r.0 == s.model
    ensures r.1 != 0
    ensures r.1 == DefaultMaxTokens || s.maxTokens == Some(r.1)
    ensures s.maxTokens.Some? && s.maxTokens.value != 0 ==> r.1 == s.maxTokens.value
  {
    var model := if overrideModel != "" then overrideModel else s.model;
    var maxTokens := if s.maxTokens.Some? && s.maxTokens.value != 0 then s.maxTokens.value else DefaultMaxTokens;
    (model, maxTokens)
  }

  /** `setperplexitytokens` followed by a request: the request carries the
      clamped count, which is never the 0 that would fall back to 8000; so the
      token count sent always lies in [400, 8000] once set, and is 8000 when
      never set. */
  lemma ConfigAfterClamp(s: Settings, tokens: int, overrideModel: string)
    ensures GetModelConfig(s.(maxTokens := Some(ClampTokens(tokens))), overrideModel).1 == ClampTokens(tokens)
    ensures s.maxTokens.None? ==> GetModelConfig(s, overrideModel).1 == DefaultMaxTokens
    ensures MinTokens <= GetModelConfig(s.(maxTokens := Some(ClampTokens(tokens))), overrideModel).1 <= MaxTokens
  {
  }

  /** The three question commands; each but `perplexity` fixes its model. */
  datatype Command = AskDefault | AskDeep | AskR1

  function CommandModel(c: Command): string {
    match c
    case AskDefault => ""
    case AskDeep => "sonar-deep-research"
    case AskR1 => "r1-1776"
  }

  /** The request sent with every key. */
  datatype Request = Request(model: string, messages: seq<ChatMessage>, maxTokens: int)

  function BuildRequest(s: Settings, c: Command, question: string): Request {
    var config := GetModelConfig(s, CommandModel(c));
    Request(config.0, PrepareMessages(s.prompt, question), config.1)
  }

  /** The commands with a fixed model send it whatever model is stored, and
      only `perplexity` sends the stored one; the token count sent depends on
      the stored count alone, is never 0, and is the stored count whenever
      that is set and not 0. */
  lemma BuildRequestConfig(s: Settings, s': Settings, c: Command, question: string)
    ensures !c.AskDefault? ==> BuildRequest(s, c, question).model == BuildRequest(s', c, question).model == CommandModel(c)
    ensures BuildRequest(s, AskDefault, question).model == s.model
    ensures s.maxTokens == s'.maxTokens ==> BuildRequest(s, c, question).maxTokens == BuildRequest(s', c, question).maxTokens
    ensures BuildRequest(s, c, question).maxTokens != 0
    ensures s.maxTokens.Some? && s.maxTokens.value != 0 ==> BuildRequest(s, c, question).maxTokens == s.maxTokens.value
  {
  }

  /** How a command ends: a notice, or the messages sent. Without a question
      the command asks for one, after the notice `_get_question` already sent
      when the reference failed. */
  datatype Reply =
    | AskForQuestion(notice: Option<Notice>)
    | KeysMissing
    | NoResponse
    | EmptyAnswer
    | Answer(chunks: seq<string>, sources: Option<string>)

  /** The answer of one request: its text and its sources. */
  datatype Completion = Completion(content: string, sources: ApiResponse)

  /** `_process_and_send_response` for an answer without a reasoning block:
      the text cut by `smart_split`, then one sources message when any source
      gives a line. */
  function ProcessResponse(c: Completion, parseDate: string -> Option<string>): (r: Reply)
    ensures r.EmptyAnswer? || r.Answer?
    ensures r.EmptyAnswer? <==> c.content == ""
  {
    if c.content == "" then EmptyAnswer
    else
      var lines := FormatSearchResults(ExtractSearchResults(c.sources), parseDate);
      Answer(SplitReply(c.content, DefaultLimit),
             if |lines| > 0 then Some(SourcesHeader + "\n" + Join(lines, "\n")) else None)
  }

  /** A question command from the question to the reply. `send` stands for the
      chat completion request with one key, `None` where it raises. */
  function AskPerplexity(c: Command, s: Settings, ref: Reference, message: string, keys: seq<string>,
                         send: (Request, string) -> Option<Completion>, parseDate: string -> Option<string>): Reply
  {
    var q := GetQuestion(ref, message);
    if q.text == "" then AskForQuestion(q.notice)
    else if |UsableKeys(keys)| == 0 then KeysMissing
    else
      var request := BuildRequest(s, c, q.text);
      match FirstSuccess(UsableKeys(keys), k => send(request, k))
      case None => NoResponse
      case Some(completion) => ProcessResponse(completion, parseDate)
  }

  /** A non-empty answer always yields at least one chunk, so the "no content
      to send" branch of the response handling cannot be taken; the chunks
      carry the answer's lines in order. */
  lemma AnswerHasChunks(c: Completion, parseDate: string -> Option<string>)
    requires c.content != ""
    ensures ProcessResponse(c, parseDate).Answer?
    ensures |ProcessResponse(c, parseDate).chunks| >= 1
    ensures |ProcessResponse(c, parseDate).chunks| == |Pieces(AsWritten, c.content, DefaultLimit)|
    ensures Bodies(Pieces(AsWritten, c.content, DefaultLimit)) == Split(c.content, "\n")
  {
    assert ProcessResponse(c, parseDate).chunks == SplitReply(c.content, DefaultLimit);
    SplitReplyKeepsLines(c.content, DefaultLimit);
  }

  /** A command without a question asks for one; the notice of a failed
      reference comes first, and a notice is sent exactly when the reference
      could not be read. */
  lemma NoQuestionReply(c: Command, s: Settings, ref: Reference, message: string, keys: seq<string>,
                        send: (Request, string) -> Option<Completion>, parseDate: string -> Option<string>)
    ensures AskPerplexity(c, s, ref, message, keys, send, parseDate).AskForQuestion? <==>
              GetQuestion(ref, message).text == ""
    ensures AskPerplexity(c, s, ref, message, keys, send, parseDate) == AskForQuestion(None) <==>
              ref.NoReference? && Strip(message) == ""
    ensures (AskPerplexity(c, s, ref, message, keys, send, parseDate).AskForQuestion? &&
             AskPerplexity(c, s, ref, message, keys, send, parseDate).notice.Some?) <==>
              !ref.NoReference? && !(ref.Resolved? && Strip(ref.content) != "")
  {
    AskWithoutQuestion(c, s, ref, message, keys, send, parseDate);
    QuestionNotice(ref, message);
  }

  lemma AskWithoutQuestion(c: Command, s: Settings, ref: Reference, message: string, keys: seq<string>,
                           send: (Request, string) -> Option<Completion>, parseDate: string -> Option<string>)
    ensures GetQuestion(ref, message).text == "" ==>
              AskPerplexity(c, s, ref, message, keys, send, parseDate) == AskForQuestion(GetQuestion(ref, message).notice)
    ensures GetQuestion(ref, message).text != "" ==>
              !AskPerplexity(c, s, ref, message, keys, send, parseDate).AskForQuestion?
  {
    var q := GetQuestion(ref, message);
    var reply := AskPerplexity(c, s, ref, message, keys, send, parseDate);
    if q.text != "" {
      assert reply.KeysMissing? || reply.NoResponse? || reply.EmptyAnswer? || reply.Answer?;
    }
  }

  /** `_get_question` sends a notice exactly when the reference cannot be
      read, and then gives no question. */
  lemma QuestionNotice(ref: Reference, message: string)
    ensures GetQuestion(ref, message).notice.Some? <==>
              !ref.NoReference? && !(ref.Resolved? && Strip(ref.content) != "")
    ensures GetQuestion(ref, message).notice.Some? ==> GetQuestion(ref, message).text == ""
    ensures GetQuestion(ref, message).notice.None? ==>
              (GetQuestion(ref, message).text == "" <==> ref.NoReference? && Strip(message) == "")
  {
    GetQuestionSpec(ref, message);
  }

  /** A sources message follows the answer exactly when some source has a
      title or a url. */
  lemma AnswerSources(c: Completion, parseDate: string -> Option<string>)
    requires c.content != ""
    ensures ProcessResponse(c, parseDate).sources.Some? <==>
              exists i :: 0 <= i < |ExtractSearchResults(c.sources)| && Shown(ExtractSearchResults(c.sources)[i])
  {
    var results := ExtractSearchResults(c.sources);
    FormatSearchResultsNumbering(results, parseDate);
    if exists i :: 0 <= i < |results| && Shown(results[i]) {
      var i :| 0 <= i < |results| && Shown(results[i]);
      ShownPositionsComplete(results, i);
    }
  }

  /** An answer is sent only for a non-empty question, with a usable key whose
      request succeeded after every earlier usable key failed; that request
      names the command's model (the stored one for `perplexity`) and ends
      with the question as the user message. */
  lemma AnswerNeedsQuestionAndKey(c: Command, s: Settings, ref: Reference, message: string, keys: seq<string>,
                                  send: (Request, string) -> Option<Completion>, parseDate: string -> Option<string>)
    requires AskPerplexity(c, s, ref, message, keys, send, parseDate).Answer?
    ensures GetQuestion(ref, message).text != ""
    ensures var request := BuildRequest(s, c, GetQuestion(ref, message).text);
            && request.model == (if c.AskDefault? then s.model else CommandModel(c))
            && request.messages[|request.messages| - 1] == ChatMessage("user", GetQuestion(ref, message).text)
            && exists i :: && 0 <= i < |UsableKeys(keys)| && send(request, UsableKeys(keys)[i]).Some?
                           && forall j :: 0 <= j < i ==> send(request, UsableKeys(keys)[j]).None?
  {
    var request := BuildRequest(s, c, GetQuestion(ref, message).text);
    FirstSuccessSpec(UsableKeys(keys), k => send(request, k));
  }

  /** "API keys missing" is answered exactly when a question was asked and
      every configured key is empty. */
  lemma KeysMissingSpec(c: Command, s: Settings, ref: Reference, message: string, keys: seq<string>,
                        send: (Request, string) -> Option<Completion>, parseDate: string -> Option<string>)
    ensures AskPerplexity(c, s, ref, message, keys, send, parseDate) == KeysMissing <==>
              GetQuestion(ref, message).text != "" && forall i :: 0 <= i < |keys| ==> keys[i] == ""
  {
    NoUsableKeys(keys);
    var q := GetQuestion(ref, message);
    var reply := AskPerplexity(c, s, ref, message, keys, send, parseDate);
    if q.text == "" {
      assert reply == AskForQuestion(q.notice);
    } else if |UsableKeys(keys)| == 0 {
      assert reply == KeysMissing;
    } else {
      assert reply.NoResponse? || reply.EmptyAnswer? || reply.Answer?;
    }
  }

  /** `not any(keys)` holds exactly when no key is usable. */
  lemma NoUsableKeys(keys: seq<string>)
    ensures |UsableKeys(keys)| == 0 <==> forall i :: 0 <= i < |keys| ==> keys[i] == ""
  {
    if !forall i :: 0 <= i < |keys| ==> keys[i] == "" {
      var i :| 0 <= i < |keys| && keys[i] != "";
      UsableKeysSpec(keys, keys[i]);
    }
  }
}
