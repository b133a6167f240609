/** The xREL OAuth2 token cache of the getnfo cog (`get_token` and
    `schedule_token_refresh` in getnfo/getnfo.py). The event loop's clock is
    an input, read in whole seconds; the `curl` run and the parse of its output
    are an input too, the outcome of the refresh request. */
module Token {
  import opened Wrappers
  import opened Text

  /** Lifetime assumed when the response names none. */
  const DefaultExpiresIn := 3600
  /** Seconds before the announced expiry at which the token is renewed. */
  const RefreshMargin := 60
  /** Seconds between two runs of the refresh loop. */
  const RefreshPeriod := 3600

  /** The cached token and the time from which it must be renewed. */
  datatype Cache = Cache(token: Option<string>, expiresAt: int)

  /** `self.token = None`, `self.token_expires_at = 0`. */
  const Initial := Cache(None, 0)

  /** `access_token` of the response: a string, or anything else (absent,
      `null`, a number, ...). */
  datatype TokenField = TokenString(s: string) | NotAString

  /** `expires_in` of the response: absent, an integer, or a value that
      `current_time + expires_in` cannot add (`null`, a string, ...). */
  datatype ExpiresField = ExpiresAbsent | ExpiresIn(seconds: int) | ExpiresInvalid

  /** What the refresh request produced. */
  datatype FetchOutcome =
    | CurlRaised
    | CurlFailed
    | NotAnObject
    | Object(accessToken: TokenField, expiresIn: ExpiresField)

  /** A token of the expected form: three parts separated by two dots. */
  predicate WellFormed(s: string) {
    CountChar(s, '.') == 2
  }

  /** A well-formed token is never empty, so it is truthy. */
  lemma WellFormedNonEmpty(s: string)
    requires WellFormed(s)
    ensures s != ""
  {
  }

  /** Every cached token is well formed. */
  predicate CacheValid(c: Cache) {
    c.token.Some? ==> WellFormed(c.token.value)
  }

  /** `not self.token or current_time >= self.token_expires_at`. */
  predicate NeedsRefresh(c: Cache, now: int) {
    c.token.None? || c.token.value == "" || now >= c.expiresAt
  }

  /** The cache after a refresh at `now`. Failures before the expiry is set
      keep the old expiry; once it is set, a missing or malformed token is
      dropped but the new expiry stays. */
  function Refresh(c: Cache, now: int, outcome: FetchOutcome): (r: Cache)
    ensures CacheValid(r)
  {
    match outcome
    case CurlRaised => Cache(None, c.expiresAt)
    case CurlFailed => Cache(None, c.expiresAt)
    case NotAnObject => Cache(None, c.expiresAt)
    case Object(tok, exp) =>
      match exp
      case ExpiresInvalid => Cache(None, c.expiresAt)
      case ExpiresAbsent => Cache(Kept(tok), now + DefaultExpiresIn - RefreshMargin)
      case ExpiresIn(e) => Cache(Kept(tok), now + e - RefreshMargin)
  }

  /** The token kept from a response: a well-formed string, else `None`. */
  function Kept(tok: TokenField): Option<string> {
    if tok.TokenString? && WellFormed(tok.s) then Some(tok.s) else None
  }

  /** `get_token()` at time `now`: the cache afterwards and the token returned.
      `outcome` is what a refresh request would produce; it is used only when
      the cache needs renewing. */
  function GetToken(c: Cache, now: int, outcome: FetchOutcome): (r: (Cache, Option<string>))
    ensures r.1 == r.0.token
  {
    var c' := if NeedsRefresh(c, now) then Refresh(c, now, outcome) else c;
    (c', c'.token)
  }

  /** A fresh cached token is returned as it is, without any request: the
      outcome of the request plays no part. */
  lemma ReuseWhileFresh(c: Cache, now: int, o1: FetchOutcome, o2: FetchOutcome)
    requires c.token.Some? && c.token.value != "" && now < c.expiresAt
    ensures GetToken(c, now, o1) == GetToken(c, now, o2) == (c, c.token)
  {
  }

  /** A renewal returns a token exactly when the response is an object whose
      `access_token` is a well-formed string and whose `expires_in` is absent
      or a number; the new expiry is `now + expires_in - 60`, with 3600 for an
      absent one, whether or not the token was kept; every earlier failure
      keeps the old expiry. */
  lemma RefreshSpec(c: Cache, now: int, outcome: FetchOutcome)
    requires NeedsRefresh(c, now)
    ensures GetToken(c, now, outcome).1.Some? <==>
              && outcome.Object? && outcome.accessToken.TokenString? && WellFormed(outcome.accessToken.s)
              && !outcome.expiresIn.ExpiresInvalid?
    ensures GetToken(c, now, outcome).1.Some? ==> GetToken(c, now, outcome).1.value == outcome.accessToken.s
    ensures outcome.Object? && outcome.expiresIn.ExpiresIn? ==>
              GetToken(c, now, outcome).0.expiresAt == now + outcome.expiresIn.seconds - RefreshMargin
    ensures outcome.Object? && outcome.expiresIn.ExpiresAbsent? ==>
              GetToken(c, now, outcome).0.expiresAt == now + DefaultExpiresIn - RefreshMargin
    ensures !outcome.Object? || outcome.expiresIn.ExpiresInvalid? ==>
              GetToken(c, now, outcome).0 == Cache(None, c.expiresAt)
  {
  }

  /** `get_token` keeps the cache valid, and every token it returns is well
      formed. */
  lemma GetTokenKeepsValid(c: Cache, now: int, outcome: FetchOutcome)
    requires CacheValid(c)
    ensures CacheValid(GetToken(c, now, outcome).0)
    ensures GetToken(c, now, outcome).1.Some? ==> WellFormed(GetToken(c, now, outcome).1.value)
  {
  }

  /** After a renewal that kept a token with lifetime `e`, every call before
      `now + e - 60` returns that same token without a request. */
  lemma ReuseAfterRefresh(c: Cache, now: int, s: string, exp: ExpiresField, later: int, o: FetchOutcome)
    requires NeedsRefresh(c, now)
    requires WellFormed(s) && !exp.ExpiresInvalid?
    requires later < GetToken(c, now, Object(TokenString(s), exp)).0.expiresAt
    ensures var c' := GetToken(c, now, Object(TokenString(s), exp)).0;
            GetToken(c', later, o) == (c', Some(s))
  {
    WellFormedNonEmpty(s);
  }

  /** One run of `get_token`: when it is called and what a request would
      produce. */
  datatype Call = Call(now: int, outcome: FetchOutcome)

  /** The cache after a series of `get_token` calls, such as the refresh loop
      makes every 3600 seconds. */
  function RunCalls(c: Cache, calls: seq<Call>): (r: Cache)
    ensures CacheValid(c) ==> CacheValid(r)
  {
    if |calls| == 0 then c
    else
      var prev := RunCalls(c, calls[..|calls| - 1]);
      var last := calls[|calls| - 1];
      GetToken(prev, last.now, last.outcome).0
  }

  /** The tokens the calls return, in order. */
  function Returned(c: Cache, calls: seq<Call>): (ts: seq<Option<string>>)
    ensures |ts| == |calls|
  {
    if |calls| == 0 then []
    else
      var prev := RunCalls(c, calls[..|calls| - 1]);
      var last := calls[|calls| - 1];
      Returned(c, calls[..|calls| - 1]) + [GetToken(prev, last.now, last.outcome).1]
  }

  /** From the cog's initial state, every token any call ever returns is well
      formed, whatever the responses. */
  lemma {:induction false} ReturnedWellFormed(calls: seq<Call>)
    ensures forall i :: 0 <= i < |calls| && Returned(Initial, calls)[i].Some? ==>
              WellFormed(Returned(Initial, calls)[i].value)
  {
    if |calls| > 0 {
      var init := calls[..|calls| - 1];
      ReturnedWellFormed(init);
      var last := calls[|calls| - 1];
      GetTokenKeepsValid(RunCalls(Initial, init), last.now, last.outcome);
    }
  }

  /** The refresh loop's calls: one at `start`, then one every 3600 seconds. */
  predicate Hourly(calls: seq<Call>, start: int) {
    forall i :: 0 <= i < |calls| ==> calls[i].now == start + i * RefreshPeriod
  }

  /** A renewal in the refresh loop that announces a lifetime of at least an
      hour and a minute is reused, unchanged, by the next run of the loop. */
  lemma HourlyReuse(calls: seq<Call>, start: int, i: nat, s: string)
    requires Hourly(calls, start) && i + 1 < |calls|
    requires NeedsRefresh(RunCalls(Initial, calls[..i]), calls[i].now)
    requires calls[i].outcome.Object? && calls[i].outcome.accessToken == TokenString(s) && WellFormed(s)
    requires calls[i].outcome.expiresIn.ExpiresIn? && calls[i].outcome.expiresIn.seconds > RefreshPeriod + RefreshMargin
    ensures Returned(Initial, calls[..i + 2])[i + 1] == Some(s)
    ensures RunCalls(Initial, calls[..i + 2]) == RunCalls(Initial, calls[..i + 1])
  {
    var prefix := calls[..i + 2];
    assert prefix[..i + 1] == calls[..i + 1];
    assert calls[..i + 1][..i] == calls[..i];
    var c := RunCalls(Initial, calls[..i]);
    ReuseAfterRefresh(c, calls[i].now, s, calls[i].outcome.expiresIn, calls[i + 1].now, calls[i + 1].outcome);
  }
}
