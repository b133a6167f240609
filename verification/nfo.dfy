/** Choosing where an NFO is answered from in the getnfo cog: the srrDB
    lookup's success rule (`fetch_srrdb_response`) and the source priority of
    `send_nfo` in getnfo/getnfo.py. The HTTP request and the xREL `curl` runs
    are inputs; what is sent once a source is chosen is left out. */
module Nfo {
  import opened Wrappers
  import opened Token

  /** The srrDB reply body as `response.json()['release']` sees it. */
  datatype SrrdbBody = NotJson | NoReleaseKey | ReleaseNull | ReleaseValue

  /** What `fetch_srrdb_response` returns: `success` `None` or `True`, or the
      exception it raises. */
  datatype SrrdbResult = SrrdbMissing | SrrdbFound | SrrdbRaised

  /** `fetch_srrdb_response` for an HTTP status and body. */
  function FetchSrrdb(status: int, body: SrrdbBody): SrrdbResult {
    if status == 200 then
      match body
      case NotJson => SrrdbRaised
      case NoReleaseKey => SrrdbRaised
      case ReleaseNull => SrrdbMissing
      case ReleaseValue => SrrdbFound
    else SrrdbFound
  }

  /** srrDB reports "not found" only for status 200 with a null `release`; it
      raises only for status 200 with a body that is not JSON or has no
      `release`; everything else, every non-200 status included, counts as
      found. */
  lemma FetchSrrdbSpec(status: int, body: SrrdbBody)
    ensures FetchSrrdb(status, body) == SrrdbMissing <==> status == 200 && body == ReleaseNull
    ensures FetchSrrdb(status, body) == SrrdbRaised <==> status == 200 && (body == NotJson || body == NoReleaseKey)
    ensures status != 200 ==> FetchSrrdb(status, body) == SrrdbFound
  {
  }

  /** What `fetch_xrel_response` returns: `None` when no token could be had,
      else a dictionary whose `success` says whether a release was found. */
  datatype XrelResult = XrelNone | XrelDict(success: bool)

  /** `fetch_xrel_response` up to its `curl` loop: it asks for a token first
      and gives up with `None` without one. `found` stands for the outcome of
      the two release lookups. */
  function FetchXrel(c: Cache, now: int, outcome: FetchOutcome, found: bool): (r: (Cache, XrelResult))
    ensures r.0 == GetToken(c, now, outcome).0
    ensures r.1.XrelNone? <==> GetToken(c, now, outcome).1.None?
  {
    var (c', token) := GetToken(c, now, outcome);
    (c', if token.None? then XrelNone else XrelDict(found))
  }

  /** Where the answer comes from; `Crash` when the command raises before
      answering. */
  datatype NfoAnswer = FromXrel | FromSrrdb | NotFoundMessage | Crash

  /** `send_nfo` as written: `api_responses['xrel']['success']` subscripts the
      xREL result even when it is `None`. */
  function SendNfo(srrdb: SrrdbResult, xrel: XrelResult): NfoAnswer {
    match xrel
    case XrelNone => Crash
    case XrelDict(ok) =>
      if ok then FromXrel
      else if srrdb == SrrdbFound then FromSrrdb
      else NotFoundMessage
  }

  /** `send_nfo` as evidently intended: a missing xREL result is a failed xREL
      lookup. */
  function SendNfoCorrected(srrdb: SrrdbResult, xrel: XrelResult): (r: NfoAnswer)
    ensures r != Crash
  {
    if xrel.XrelDict? && xrel.success then FromXrel
    else if srrdb == SrrdbFound then FromSrrdb
    else NotFoundMessage
  }

  /** The priority rule: xREL whenever it found the release, whatever srrDB
      says; srrDB only when xREL did not and srrDB did; the not-found message
      when neither did. */
  lemma SendNfoPriority(srrdb: SrrdbResult, ok: bool)
    ensures ok ==> SendNfo(srrdb, XrelDict(ok)) == FromXrel
    ensures SendNfo(srrdb, XrelDict(ok)) == FromSrrdb <==> !ok && srrdb == SrrdbFound
    ensures SendNfo(srrdb, XrelDict(ok)) == NotFoundMessage <==> !ok && srrdb != SrrdbFound
  {
  }

  /** The corrected rule agrees with the code whenever xREL returned a
      dictionary, and without one falls back to srrDB as a failed xREL lookup
      would. */
  lemma SendNfoCorrectedAgrees(srrdb: SrrdbResult, xrel: XrelResult)
    ensures xrel.XrelDict? ==> SendNfoCorrected(srrdb, xrel) == SendNfo(srrdb, xrel)
    ensures SendNfoCorrected(srrdb, XrelNone) == SendNfo(srrdb, XrelDict(false))
  {
  }

  /** The `nfo` command from its two lookups to the answer: the srrDB lookup
      runs first, and when it raises the command ends there, before the xREL
      lookup asks for a token; otherwise the token cache moves on as the token
      request decides. */
  function NfoCommand(status: int, body: SrrdbBody, c: Cache, now: int, outcome: FetchOutcome, found: bool,
                      corrected: bool): (r: (Cache, NfoAnswer))
    ensures FetchSrrdb(status, body) == SrrdbRaised ==> r == (c, Crash)
    ensures FetchSrrdb(status, body) != SrrdbRaised ==> r.0 == GetToken(c, now, outcome).0
  {
    var srrdb := FetchSrrdb(status, body);
    if srrdb == SrrdbRaised then (c, Crash)
    else
      var (c', xrel) := FetchXrel(c, now, outcome, found);
      (c', if corrected then SendNfoCorrected(srrdb, xrel) else SendNfo(srrdb, xrel))
  }

  /** As written, the first command after start-up whose token request fails
      raises, even when srrDB has the release: `fetch_xrel_response` returns
      `None` and `send_nfo` subscripts it. */
  lemma NoTokenCrashes(now: int, found: bool)
    ensures NfoCommand(200, ReleaseValue, Initial, now, CurlFailed, found, false).1 == Crash
  {
  }

  /** With the corrected rule the command raises only when the srrDB lookup
      itself raises, and the same failed token request answers from srrDB. */
  lemma CorrectedNeverCrashesOnToken(status: int, body: SrrdbBody, c: Cache, now: int, outcome: FetchOutcome,
                                     found: bool)
    ensures NfoCommand(status, body, c, now, outcome, found, true).1 == Crash <==>
              FetchSrrdb(status, body) == SrrdbRaised
    ensures NfoCommand(200, ReleaseValue, Initial, now, CurlFailed, found, true).1 == FromSrrdb
  {
  }
}
