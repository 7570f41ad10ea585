/**
 * The HTTP rate-limit middleware: every request is keyed by its API key or
 * its client address, checked against the token bucket with the limit and
 * window the middleware was configured with, and answered either with a 429
 * reply or by the downstream handler's response carrying the rate-limit
 * headers.
 */
module Middleware {
  import opened Wrappers
  import opened Numeric
  import opened PyText
  import opened StrategyBase
  import opened MemoryBackend
  import TokenBucket

  // ---------------------------------------------------------------------------
  // Client key
  // ---------------------------------------------------------------------------

  /** An incoming request: its headers, and the host of the connected client
      when there is one. */
  datatype Request = Request(headers: map<string, string>, client: Option<string>)

  const ApiKeyHeader := "X-API-Key"
  const ForwardedHeader := "X-Forwarded-For"

  /** The request carries a non-empty API key. */
  predicate UsesApiKey(req: Request) {
    ApiKeyHeader in req.headers && req.headers[ApiKeyHeader] != []
  }

  /** The address the request is attributed to: the first entry of a
      non-empty X-Forwarded-For header with surrounding whitespace removed,
      else the client host, else "unknown". */
  function ClientIp(req: Request): (ip: string)
    ensures ForwardedHeader in req.headers && req.headers[ForwardedHeader] != [] ==>
              && ',' !in ip
              && (ip != [] ==> !IsSpace(ip[0]) && !IsSpace(ip[|ip| - 1]))
  {
    var forwarded := Get(req.headers, ForwardedHeader);
    if forwarded.Some? && forwarded.value != [] then
      var ip := Strip(FirstField(forwarded.value));
      StripRemovesOnlySpace(FirstField(forwarded.value));
      ip
    else if req.client.Some? then req.client.value
    else "unknown"
  }

  /** The rate-limit key of a request: "api:" and the API key when one is
      given, otherwise "ip:" and the client address. */
  function ClientKey(req: Request): (k: string)
    ensures "api:" <= k <==> UsesApiKey(req)
    ensures "ip:" <= k <==> !UsesApiKey(req)
  {
    if UsesApiKey(req) then
      var k := "api:" + req.headers[ApiKeyHeader];
      assert k[..4] == "api:" && k[0] == 'a';
      k
    else
      var k := "ip:" + ClientIp(req);
      assert k[..3] == "ip:" && k[0] == 'i';
      k
  }

  /** A non-empty API key decides the key alone: forwarding headers and the
      client address are then ignored. */
  lemma ApiKeyTakesPrecedence(req: Request, forwarded: string, client: Option<string>)
    requires UsesApiKey(req)
    ensures ClientKey(Request(req.headers[ForwardedHeader := forwarded], client)) == ClientKey(req)
  {
  }

  /** Distinct API keys are limited separately. */
  lemma ApiKeysSeparate(r1: Request, r2: Request)
    requires UsesApiKey(r1) && UsesApiKey(r2)
    requires r1.headers[ApiKeyHeader] != r2.headers[ApiKeyHeader]
    ensures ClientKey(r1) != ClientKey(r2)
  {
    assert ClientKey(r1)[4..] == r1.headers[ApiKeyHeader];
    assert ClientKey(r2)[4..] == r2.headers[ApiKeyHeader];
  }

  /** Without an API key, the key is the address: the forwarded one when the
      header is present and non-empty, taken up to its first comma, or the
      client host, or "unknown". */
  lemma AddressKey(req: Request)
    requires !UsesApiKey(req)
    ensures var k := ClientKey(req);
            && k[..3] == "ip:"
            && (ForwardedHeader in req.headers && req.headers[ForwardedHeader] != [] ==>
                  k[3..] == Strip(FirstField(req.headers[ForwardedHeader])))
            && (!(ForwardedHeader in req.headers && req.headers[ForwardedHeader] != []) ==>
                  k[3..] == if req.client.Some? then req.client.value else "unknown")
  {
  }

  /** Entries after the first comma of X-Forwarded-For, and whitespace around
      the first one, do not change the key. */
  lemma ForwardedFirstEntryOnly(headers: map<string, string>, client: Option<string>, first: string, rest: string, pad: string)
    requires ',' !in first && first != [] && !IsSpace(first[0]) && !IsSpace(first[|first| - 1])
    requires forall i :: 0 <= i < |pad| ==> IsSpace(pad[i])
    requires ApiKeyHeader !in headers
    ensures ClientKey(Request(headers[ForwardedHeader := pad + first + pad + "," + rest], client)) == "ip:" + first
  {
    var field := pad + first + pad;
    var v := pad + first + pad + "," + rest;
    var req := Request(headers[ForwardedHeader := v], client);
    assert !UsesApiKey(req);
    assert v != [] by {
      assert |v| > |first|;
    }
    FirstFieldPadded(pad, first, rest);
    StripPadded(pad, first);
    assert ClientIp(req) == first;
  }

  /** A padded word without commas is the first field. */
  lemma FirstFieldPadded(pad: string, first: string, rest: string)
    requires ',' !in first
    requires forall i :: 0 <= i < |pad| ==> IsSpace(pad[i])
    ensures FirstField(pad + first + pad + "," + rest) == pad + first + pad
  {
    var field := pad + first + pad;
    forall i | 0 <= i < |field|
      ensures field[i] != ','
    {
      if i < |pad| || i >= |pad| + |first| {
        assert IsSpace(field[i]);
      } else {
        assert field[i] == first[i - |pad|];
      }
    }
    FirstFieldBeforeComma(field, rest);
  }

  /** The first field of `a + "," + b` is `a` when `a` holds no comma. */
  lemma {:induction false} FirstFieldBeforeComma(a: string, b: string)
    requires ',' !in a
    ensures FirstField(a + "," + b) == a
    decreases |a|
  {
    if a != [] {
      assert (a + "," + b)[1..] == a[1..] + "," + b;
      FirstFieldBeforeComma(a[1..], b);
    } else {
      assert (a + "," + b)[0] == ',';
    }
  }

  /** Whitespace around a word with no whitespace at its ends is stripped. */
  lemma StripPadded(pad: string, w: string)
    requires w != [] && !IsSpace(w[0]) && !IsSpace(w[|w| - 1])
    requires forall i :: 0 <= i < |pad| ==> IsSpace(pad[i])
    ensures Strip(pad + w + pad) == w
  {
    TrimStartPadded(pad, w + pad);
    assert pad + w + pad == pad + (w + pad);
    TrimEndPadded(w, pad);
  }

  lemma {:induction false} TrimStartPadded(pad: string, s: string)
    requires s != [] && !IsSpace(s[0])
    requires forall i :: 0 <= i < |pad| ==> IsSpace(pad[i])
    ensures TrimStart(pad + s) == s
    decreases |pad|
  {
    if pad != [] {
      assert (pad + s)[0] == pad[0] && IsSpace(pad[0]);
      assert (pad + s)[1..] == pad[1..] + s;
      TrimStartPadded(pad[1..], s);
    } else {
      assert pad + s == s;
      assert TrimStart(s) == s;
    }
  }

  lemma {:induction false} TrimEndPadded(s: string, pad: string)
    requires s != [] && !IsSpace(s[|s| - 1])
    requires forall i :: 0 <= i < |pad| ==> IsSpace(pad[i])
    ensures TrimEnd(s + pad) == s
    decreases |pad|
  {
    if pad != [] {
      assert (s + pad)[|s + pad| - 1] == pad[|pad| - 1] && IsSpace(pad[|pad| - 1]);
      assert (s + pad)[..|s + pad| - 1] == s + pad[..|pad| - 1];
      TrimEndPadded(s, pad[..|pad| - 1]);
    } else {
      assert s + pad == s;
      assert TrimEnd(s) == s;
    }
  }

  // ---------------------------------------------------------------------------
  // Headers
  // ---------------------------------------------------------------------------

  /** A Python dict of header names to values, in insertion order. */
  type HeaderDict = seq<(string, string)>

  /** `d.get(name)`. */
  function DictGet(d: HeaderDict, name: string): Option<string> {
    if d == [] then None
    else if d[0].0 == name then Some(d[0].1)
    else DictGet(d[1..], name)
  }

  /** `d[name] = value`: an existing entry keeps its place and takes the new
      value, a new one goes at the end. */
  function DictSet(d: HeaderDict, name: string, value: string): (r: HeaderDict)
    ensures DictGet(r, name) == Some(value)
    ensures forall other :: other != name ==> DictGet(r, other) == DictGet(d, other)
    ensures DictGet(d, name).Some? ==> |r| == |d|
    ensures DictGet(d, name).None? ==> r == d + [(name, value)]
  {
    if d == [] then [(name, value)]
    else if d[0].0 == name then [(name, value)] + d[1..]
    else [d[0]] + DictSet(d[1..], name, value)
  }

  const LimitHeader := "X-RateLimit-Limit"
  const RemainingHeader := "X-RateLimit-Remaining"
  const ResetHeader := "X-RateLimit-Reset"
  const RetryAfterHeader := "Retry-After"

  /** The headers every decision carries. */
  function RateLimitHeaders(r: RateLimitResponse): HeaderDict {
    [(LimitHeader, IntToString(r.limit)),
     (RemainingHeader, IntToString(r.remaining)),
     (ResetHeader, IntToString(Trunc(r.resetAt)))]
  }

  /** The headers read back as the decision's limit, its remaining count and
      its reset time truncated to whole seconds. */
  lemma RateLimitHeadersMeaning(r: RateLimitResponse)
    ensures var d := RateLimitHeaders(r);
            && DictGet(d, LimitHeader).Some? && Denotes(DictGet(d, LimitHeader).value, r.limit)
            && DictGet(d, RemainingHeader).Some? && Denotes(DictGet(d, RemainingHeader).value, r.remaining)
            && DictGet(d, ResetHeader).Some? && Denotes(DictGet(d, ResetHeader).value, Trunc(r.resetAt))
  {
    var d := RateLimitHeaders(r);
    assert LimitHeader[12] != RemainingHeader[12] && LimitHeader[12] != ResetHeader[12];
    assert RemainingHeader[14] != ResetHeader[14];
    assert DictGet(d, LimitHeader) == Some(IntToString(r.limit));
    assert DictGet(d[1..], RemainingHeader) == Some(IntToString(r.remaining));
    assert DictGet(d[1..][1..], ResetHeader) == Some(IntToString(Trunc(r.resetAt)));
    IntToStringRoundTrip(r.limit);
    IntToStringRoundTrip(r.remaining);
    IntToStringRoundTrip(Trunc(r.resetAt));
  }

  /** The rate-limit headers are the three named ones and no others. */
  lemma RateLimitHeaderNames(r: RateLimitResponse, name: string)
    ensures DictGet(RateLimitHeaders(r), name).Some? <==> name == LimitHeader || name == RemainingHeader || name == ResetHeader
  {
    var d := RateLimitHeaders(r);
    assert d[1..][1..][1..] == [];
    assert DictGet(d[1..][1..], name).Some? <==> name == ResetHeader;
    assert DictGet(d[1..], name).Some? <==> name == RemainingHeader || name == ResetHeader;
  }

  /** `int(retry_after or 1)`: a missing or zero retry time becomes one
      second, any other is truncated to whole seconds. */
  function RetrySeconds(retryAfter: Option<real>): (s: int)
    ensures retryAfter.None? || retryAfter.value == 0.0 ==> s == 1
    ensures retryAfter.Some? && retryAfter.value > 0.0 ==> 0 <= s && s as real <= retryAfter.value < s as real + 1.0
  {
    if retryAfter.None? || retryAfter.value == 0.0 then 1 else Trunc(retryAfter.value)
  }

  /** A denial's headers: the rate-limit headers and Retry-After. */
  function DenialHeaders(r: RateLimitResponse): HeaderDict {
    DictSet(RateLimitHeaders(r), RetryAfterHeader, IntToString(RetrySeconds(r.retryAfter)))
  }

  /** A denial keeps the three rate-limit headers and adds Retry-After as a
      fourth, which reads back as the whole seconds to wait. */
  lemma DenialHeadersMeaning(r: RateLimitResponse)
    ensures var d := DenialHeaders(r);
            && |d| == 4
            && (forall name :: name != RetryAfterHeader ==> DictGet(d, name) == DictGet(RateLimitHeaders(r), name))
            && DictGet(d, RetryAfterHeader).Some?
            && Denotes(DictGet(d, RetryAfterHeader).value, RetrySeconds(r.retryAfter))
  {
    var d := RateLimitHeaders(r);
    assert RetryAfterHeader[0] != LimitHeader[0];
    assert RetryAfterHeader[0] != RemainingHeader[0];
    assert RetryAfterHeader[0] != ResetHeader[0];
    RateLimitHeaderNames(r, RetryAfterHeader);
    IntToStringRoundTrip(RetrySeconds(r.retryAfter));
  }

  /** A wait under one second is announced as `Retry-After: 0`. */
  lemma SubSecondRetryIsZero(x: real)
    requires 0.0 < x < 1.0
    ensures RetrySeconds(Some(x)) == 0
  {
  }

  /** A token-bucket denial on a bucket that never held more than its
      capacity asks for a wait no longer than the window. */
  lemma TokenBucketRetryHeaderBound<M>(st: Store<TokenBucket.BucketState, M>, key: string, limit: int, window: int, now: real)
    requires limit > 0 && window > 0
    requires TokenBucket.BucketOk(st, key, limit, now)
    requires !TokenBucket.Outcome(st, key, limit, window, now).IsAllowed()
    ensures 0 <= RetrySeconds(TokenBucket.Outcome(st, key, limit, window, now).retryAfter) <= window
  {
    TokenBucket.DenialRetryBounds(st, key, limit, window, now);
  }

  /** The JSON body of a 429 reply. */
  datatype DenialBody = DenialBody(error: string, message: string, retryAfter: Option<real>)

  /** What the middleware answers: a 429 reply it builds itself, or the
      downstream handler's response, headers added. */
  datatype Reply = Rejected(status: int, headers: HeaderDict, body: DenialBody) | Downstream

  const TooManyRequests := 429

  /** The reply to a denied decision. */
  function Rejection(r: RateLimitResponse): (reply: Reply)
    requires !r.IsAllowed()
    ensures reply.Rejected? && reply.status == 429
    ensures reply.body.retryAfter == r.retryAfter
  {
    Rejected(TooManyRequests, DenialHeaders(r), DenialBody("rate_limit_exceeded", "Too many requests", r.retryAfter))
  }

  /** `response.headers[name] = value` for each entry of `d` in order. */
  function Applied(m: map<string, string>, d: HeaderDict): map<string, string>
    decreases |d|
  {
    if d == [] then m
    else Applied(m, d[..|d| - 1])[d[|d| - 1].0 := d[|d| - 1].1]
  }

  /** Copying a dictionary onto a header map: each name of the dictionary
      gets its value there, and every other header stays as it was. */
  lemma {:induction false} AppliedAgrees(m: map<string, string>, d: HeaderDict)
    requires forall i, j :: 0 <= i < j < |d| ==> d[i].0 != d[j].0
    ensures forall name :: DictGet(d, name).Some? ==> name in Applied(m, d) && Applied(m, d)[name] == DictGet(d, name).value
    ensures forall name :: DictGet(d, name).None? ==> (name in Applied(m, d) <==> name in m)
    ensures forall name :: DictGet(d, name).None? && name in m ==> Applied(m, d)[name] == m[name]
    decreases |d|
  {
    if d != [] {
      var p := d[..|d| - 1];
      var last := d[|d| - 1];
      AppliedAgrees(m, p);
      forall name
        ensures DictGet(d, name) == if DictGet(p, name).Some? then DictGet(p, name)
                                    else if name == last.0 then Some(last.1) else None
      {
        DictGetSnoc(p, last, name);
        assert p + [last] == d;
      }
      forall name | DictGet(p, name).Some?
        ensures name != last.0
      {
        DictGetSome(p, name);
      }
    }
  }

  lemma {:induction false} DictGetSnoc(d: HeaderDict, e: (string, string), name: string)
    ensures DictGet(d + [e], name) == if DictGet(d, name).Some? then DictGet(d, name)
                                      else if name == e.0 then Some(e.1) else None
    decreases |d|
  {
    if d != [] {
      assert (d + [e])[1..] == d[1..] + [e];
      DictGetSnoc(d[1..], e, name);
    }
  }

  /** A name `get` finds is one of the dictionary's names. */
  lemma {:induction false} DictGetSome(d: HeaderDict, name: string)
    requires DictGet(d, name).Some?
    ensures exists i :: 0 <= i < |d| && d[i].0 == name
    decreases |d|
  {
    if d[0].0 != name {
      DictGetSome(d[1..], name);
      var i :| 0 <= i < |d[1..]| && d[1..][i].0 == name;
      assert d[i + 1].0 == name;
    }
  }

  /** A downstream response, whose headers the middleware sets in place. */
  class HttpResponse {
    var status: int
    var headers: map<string, string>

    constructor (status: int, headers: map<string, string>)
      ensures this.status == status && this.headers == headers
    {
      this.status := status;
      this.headers := headers;
    }

    /** Sets each header of `d` in turn. */
    method SetHeaders(d: HeaderDict)
      modifies this
      ensures status == old(status)
      ensures headers == Applied(old(headers), d)
    {
      var i := 0;
      while i < |d|
        invariant 0 <= i <= |d|
        invariant status == old(status)
        invariant headers == Applied(old(headers), d[..i])
      {
        assert d[..i + 1][..i] == d[..i];
        headers := headers[d[i].0 := d[i].1];
        i := i + 1;
      }
      assert d[..|d|] == d;
    }
  }

  // ---------------------------------------------------------------------------
  // Dispatch
  // ---------------------------------------------------------------------------

  /** The middleware as the application installs it: a token-bucket strategy
      with one limit and window for every client. */
  class RateLimitMiddleware<M(==)> {
    const strategy: TokenBucket.TokenBucketStrategy<M>
    const limit: int
    const window: int

    constructor (strategy: TokenBucket.TokenBucketStrategy<M>, limit: int, window: int)
      ensures this.strategy == strategy && this.limit == limit && this.window == window
    {
      this.strategy := strategy;
      this.limit := limit;
      this.window := window;
    }

    /** Handles one request at time `now`. `downstream` is the response the
        next handler would produce; it is only used, and only changed, when
        the request is allowed. */
    method Dispatch(req: Request, now: real, downstream: HttpResponse) returns (reply: Reply)
      requires strategy.backend.Valid() && limit > 0 && window > 0
      modifies strategy.backend, downstream
      ensures strategy.backend.Valid()
      ensures strategy.backend.State() == TokenBucket.StepStore(old(strategy.backend.State()), ClientKey(req), limit, window, now)
      ensures var r := TokenBucket.Outcome(old(strategy.backend.State()), ClientKey(req), limit, window, now);
              && (r.IsAllowed() ==>
                    && reply == Downstream
                    && downstream.status == old(downstream.status)
                    && downstream.headers == Applied(old(downstream.headers), RateLimitHeaders(r)))
              && (!r.IsAllowed() ==>
                    && reply == Rejection(r)
                    && downstream.status == old(downstream.status)
                    && downstream.headers == old(downstream.headers))
    {
      var clientKey := ClientKey(req);
      var result := strategy.Check(clientKey, limit, window, now);
      var headers := RateLimitHeaders(result);
      if result.result == Denied {
        headers := DictSet(headers, RetryAfterHeader, IntToString(RetrySeconds(result.retryAfter)));
        reply := Rejected(TooManyRequests, headers, DenialBody("rate_limit_exceeded", "Too many requests", result.retryAfter));
        return;
      }
      downstream.SetHeaders(headers);
      reply := Downstream;
    }
  }

  /** An allowed request's response carries the three rate-limit headers,
      reading back as the decision's numbers, and keeps its other headers. */
  lemma AllowedResponseHeaders(m: map<string, string>, r: RateLimitResponse)
    ensures var h := Applied(m, RateLimitHeaders(r));
            && LimitHeader in h && Denotes(h[LimitHeader], r.limit)
            && RemainingHeader in h && Denotes(h[RemainingHeader], r.remaining)
            && ResetHeader in h && Denotes(h[ResetHeader], Trunc(r.resetAt))
            && forall name :: name != LimitHeader && name != RemainingHeader && name != ResetHeader ==>
                 (name in h <==> name in m) && (name in m ==> h[name] == m[name])
  {
    var d := RateLimitHeaders(r);
    assert LimitHeader[12] != RemainingHeader[12] && LimitHeader[12] != ResetHeader[12];
    assert RemainingHeader[14] != ResetHeader[14];
    AppliedAgrees(m, d);
    RateLimitHeadersMeaning(r);
    forall name | name != LimitHeader && name != RemainingHeader && name != ResetHeader
      ensures DictGet(d, name).None?
    {
      RateLimitHeaderNames(r, name);
    }
  }
}
