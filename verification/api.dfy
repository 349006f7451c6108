/** includes/api.php: the access-token cache and the lead lookup with its
    single legacy retry. HTTP is replaced by the responses the server would
    give, passed in; the transient store is an explicit cache value with
    expiry times and an explicit clock; the requests issued are an output. */
module Api {
  import opened Options
  import opened Strings
  import Helpers
  import OrderedMap
  import Wp

  /** `mp_get_marketo_settings`: the connection settings after both filters. */
  datatype MarketoSettings = MarketoSettings(
    identityUrl: string, restUrl: string, clientId: string, clientSecret: string, segmentField: string)

  /** The saved settings with both URLs normalised and an empty segment
      field replaced by `web_segment`, before any filter runs. */
  function Normalised(s: Helpers.Settings): (r: MarketoSettings)
    ensures r.identityUrl == Helpers.NormalizeUrl(s.identityUrl) && r.restUrl == Helpers.NormalizeUrl(s.restUrl)
    ensures r.clientId == s.clientId && r.clientSecret == s.clientSecret
    ensures !Wp.Empty(r.segmentField)
    ensures !Wp.Empty(s.segmentField) ==> r.segmentField == s.segmentField
  {
    MarketoSettings(Helpers.NormalizeUrl(s.identityUrl), Helpers.NormalizeUrl(s.restUrl),
                    s.clientId, s.clientSecret, SegmentFieldOrDefault(s.segmentField))
  }

  /** The segment field, or `web_segment` when the saved one is PHP-empty. */
  function SegmentFieldOrDefault(field: string): (r: string)
    ensures !Wp.Empty(r)
    ensures !Wp.Empty(field) ==> r == field
    ensures Wp.Empty(field) ==> r == "web_segment"
  {
    if Wp.Empty(field) then "web_segment" else field
  }

  /** `mp_get_marketo_settings`: the normalised settings passed through the
      new and then the legacy `*_marketo_settings` filter. A filter that
      changes nothing drops out; with neither filter hooked the settings are
      the normalised ones. */
  function MarketoSettingsOf(s: Helpers.Settings, filter: MarketoSettings -> MarketoSettings,
                             legacyFilter: MarketoSettings -> MarketoSettings): (r: MarketoSettings)
    ensures (forall m :: legacyFilter(m) == m) ==> r == filter(Normalised(s))
    ensures (forall m :: filter(m) == m) ==> r == legacyFilter(Normalised(s))
    ensures (forall m :: filter(m) == m) && (forall m :: legacyFilter(m) == m) ==> r == Normalised(s)
  {
    legacyFilter(filter(Normalised(s)))
  }

  /** The filters see nothing of the saved settings but their normalised
      form: two saved settings that normalise alike give the same result. */
  lemma SettingsSeeOnlyNormalised(s: Helpers.Settings, s': Helpers.Settings,
                                  filter: MarketoSettings -> MarketoSettings,
                                  legacyFilter: MarketoSettings -> MarketoSettings)
    requires Normalised(s) == Normalised(s')
    ensures MarketoSettingsOf(s, filter, legacyFilter) == MarketoSettingsOf(s', filter, legacyFilter)
  {
  }

  /** Unless a site adds a filter, the connection settings are the saved
      ones with both URLs normalised, so neither ends in `/`, and the
      segment field is never empty. */
  lemma UnfilteredSettings(s: Helpers.Settings)
    ensures var r := MarketoSettingsOf(s, m => m, m => m);
            && r.identityUrl == Helpers.NormalizeUrl(s.identityUrl)
            && r.restUrl == Helpers.NormalizeUrl(s.restUrl)
            && (r.identityUrl == "" || r.identityUrl[|r.identityUrl| - 1] != '/')
            && (r.restUrl == "" || r.restUrl[|r.restUrl| - 1] != '/')
            && r.clientId == s.clientId && r.clientSecret == s.clientSecret
            && !Wp.Empty(r.segmentField)
            && (!Wp.Empty(s.segmentField) ==> r.segmentField == s.segmentField)
  {
  }

  /** One transient: a value and the time after which it is gone. */
  datatype Transient = Transient(value: string, expiresAt: int)

  /** The two token transients, `mp_marketo_token` and the legacy
      `tcp_mp_marketo_token`. */
  datatype TokenCache = TokenCache(primary: Option<Transient>, legacy: Option<Transient>)

  const EmptyCache := TokenCache(None, None)

  /** `get_transient`: the value while `now` has not passed its expiry. */
  function ReadTransient(t: Option<Transient>, now: int): (r: Option<string>)
    ensures r.Some? <==> t.Some? && now <= t.value.expiresAt
    ensures r.Some? ==> r.value == t.value.value
  {
    if t.Some? && now <= t.value.expiresAt then Some(t.value.value) else None
  }

  /** The cached token: the primary transient when it is non-empty,
      otherwise the legacy one, when that is non-empty. */
  function CachedToken(c: TokenCache, now: int): (r: Option<string>)
    ensures r.Some? ==> !Wp.Empty(r.value)
    ensures !Wp.EmptyOpt(ReadTransient(c.primary, now)) ==> r == ReadTransient(c.primary, now)
    ensures Wp.EmptyOpt(ReadTransient(c.primary, now)) && !Wp.EmptyOpt(ReadTransient(c.legacy, now)) ==>
              r == ReadTransient(c.legacy, now)
    ensures Wp.EmptyOpt(ReadTransient(c.primary, now)) && Wp.EmptyOpt(ReadTransient(c.legacy, now)) ==> r.None?
  {
    var p := ReadTransient(c.primary, now);
    var cached := if Wp.EmptyOpt(p) then ReadTransient(c.legacy, now) else p;
    if Wp.EmptyOpt(cached) then None else cached
  }

  /** A response: a transport error, or a status code with a body that
      decoded as JSON (`Some`) or did not (`None`). */
  datatype Http<B> = WpError | Response(code: int, body: Option<B>)

  /** The decoded token response's two fields of interest. */
  datatype TokenBody = TokenBody(accessToken: Option<string>, expiresIn: Option<int>)

  /** The fields of a decoded lead lookup response: `success` and the
      `result` records. */
  datatype LeadBody = LeadBody(success: bool, result: seq<seq<(string, string)>>)

  /** A request the plugin issued. */
  datatype Request = TokenRequest(url: string) | LeadLookup(url: string) | LegacyLookup(url: string)

  datatype TokenResult = TokenResult(token: Option<string>, cache: TokenCache, requests: seq<Request>)

  const HourInSeconds := 3600

  /** PHP `absint` on an integer. */
  function AbsInt(x: int): nat {
    if x < 0 then -x else x
  }

  /** The token lifetime: 60 seconds short of `expires_in` but at least 60
      seconds, or an hour when `expires_in` is absent or zero. */
  function Ttl(expiresIn: Option<int>): (r: int)
    ensures r >= 60
    ensures expiresIn.None? || expiresIn.value == 0 ==> r == HourInSeconds
    ensures expiresIn.Some? && expiresIn.value != 0 ==>
              r >= AbsInt(expiresIn.value) - 60 && (r == 60 || r == AbsInt(expiresIn.value) - 60)
  {
    if expiresIn.Some? && expiresIn.value != 0 then
      var a := AbsInt(expiresIn.value);
      if a - 60 > 60 then a - 60 else 60
    else HourInSeconds
  }

  /** The token endpoint URL for the configured credentials. */
  function TokenUrl(ms: MarketoSettings, wp: Wp.Library): string {
    ms.identityUrl + "/oauth/token?grant_type=client_credentials&client_id="
      + wp.rawUrlEncode(ms.clientId) + "&client_secret=" + wp.rawUrlEncode(ms.clientSecret)
  }

  /** Whether the credentials allow a token request at all. */
  predicate CanRequestToken(ms: MarketoSettings) {
    !Wp.Empty(ms.identityUrl) && !Wp.Empty(ms.clientId) && !Wp.Empty(ms.clientSecret)
  }

  /** `mp_get_marketo_access_token` at time `now`, where `response` is what
      the token endpoint answers if it is asked. */
  function GetAccessToken(c: TokenCache, now: int, ms: MarketoSettings, response: Http<TokenBody>,
                          wp: Wp.Library): (r: TokenResult)
    ensures r.token.Some? ==> !Wp.Empty(r.token.value)
    ensures CachedToken(c, now).Some? ==> r == TokenResult(CachedToken(c, now), c, [])
    ensures CachedToken(c, now).None? && !CanRequestToken(ms) ==> r == TokenResult(None, c, [])
    ensures CachedToken(c, now).None? && CanRequestToken(ms) ==> r.requests == [TokenRequest(TokenUrl(ms, wp))]
    ensures r.token.None? ==> r.cache == c
    ensures r.requests != [] && r.token.Some? ==>
              && response.Response? && response.code == 200 && response.body.Some?
              && r.token == response.body.value.accessToken
              && r.cache.primary == r.cache.legacy
              && r.cache.primary == Some(Transient(r.token.value, now + Ttl(response.body.value.expiresIn)))
    ensures CachedToken(c, now).None? && CanRequestToken(ms)
            && response.Response? && response.code == 200 && response.body.Some?
            && !Wp.EmptyOpt(response.body.value.accessToken) ==>
              var slot := Transient(response.body.value.accessToken.value, now + Ttl(response.body.value.expiresIn));
              r == TokenResult(response.body.value.accessToken, TokenCache(Some(slot), Some(slot)),
                               [TokenRequest(TokenUrl(ms, wp))])
  {
    var cached := CachedToken(c, now);
    if cached.Some? then TokenResult(cached, c, [])
    else if !CanRequestToken(ms) then TokenResult(None, c, [])
    else
      var reqs := [TokenRequest(TokenUrl(ms, wp))];
      match response
      case WpError => TokenResult(None, c, reqs)
      case Response(code, body) =>
        if code != 200 || body.None? || Wp.EmptyOpt(body.value.accessToken) then TokenResult(None, c, reqs)
        else
          var token := body.value.accessToken.value;
          var slot := Transient(token, now + Ttl(body.value.expiresIn));
          TokenResult(Some(token), TokenCache(Some(slot), Some(slot)), reqs)
  }

  /** A freshly fetched token is served from the cache, with no request, for
      at least the next 60 seconds, whatever the endpoint would answer then. */
  lemma FetchedTokenIsReused(c: TokenCache, now: int, ms: MarketoSettings, response: Http<TokenBody>,
                             later: int, response': Http<TokenBody>, wp: Wp.Library)
    requires GetAccessToken(c, now, ms, response, wp).requests != []
    requires GetAccessToken(c, now, ms, response, wp).token.Some?
    requires now <= later <= now + 60
    ensures var r := GetAccessToken(c, now, ms, response, wp);
            var r' := GetAccessToken(r.cache, later, ms, response', wp);
            r'.requests == [] && r'.token == r.token && r'.cache == r.cache
  {
    var r := GetAccessToken(c, now, ms, response, wp);
    assert ReadTransient(r.cache.primary, later) == r.token;
  }

  /** `untrailingslashit`: strips trailing `/` and `\`. */
  function Untrailingslashit(s: string): string {
    TrimRight(s, IsSlashOrBackslash)
  }

  predicate IsSlashOrBackslash(c: char) { c == '/' || c == '\\' }

  /** `s` ends with the lower-case `suffix`, ignoring ASCII case. */
  predicate EndsWithIgnoringCase(s: string, suffix: string) {
    |suffix| <= |s| && Lower(s[|s| - |suffix|..]) == suffix
  }

  /** `preg_match('#/rest$#i', $s)`: `$` also matches before a final newline. */
  predicate HasRestSuffix(s: string) {
    EndsWithIgnoringCase(s, "/rest")
    || (|s| > 0 && s[|s| - 1] == '\n' && EndsWithIgnoringCase(s[..|s| - 1], "/rest"))
  }

  /** The REST base: the configured URL without trailing slashes, with
      `/rest` appended unless it already ends that way. */
  function RestBase(restUrl: string): (r: string)
    ensures HasRestSuffix(r)
    ensures HasRestSuffix(Untrailingslashit(restUrl)) ==> r == Untrailingslashit(restUrl)
    ensures !HasRestSuffix(Untrailingslashit(restUrl)) ==> r == Untrailingslashit(restUrl) + "/rest"
  {
    var b := Untrailingslashit(restUrl);
    if HasRestSuffix(b) then b
    else
      RestSuffixAppended(b);
      b + "/rest"
  }

  lemma RestSuffixAppended(b: string)
    ensures EndsWithIgnoringCase(b + "/rest", "/rest")
  {
    assert (b + "/rest")[|b + "/rest"| - 5..] == "/rest";
    var l := Lower("/rest");
    assert l[0] == '/' && l[1] == 'r' && l[2] == 'e' && l[3] == 's' && l[4] == 't';
    assert l == "/rest";
  }

  /** Computing the REST base of a REST base changes nothing. */
  lemma RestBaseIdempotent(restUrl: string)
    ensures RestBase(RestBase(restUrl)) == RestBase(restUrl)
  {
    var r := RestBase(restUrl);
    assert r != [] && !IsSlashOrBackslash(r[|r| - 1]) by {
      if EndsWithIgnoringCase(r, "/rest") {
        var tail := r[|r| - 5..];
        assert Lower(tail)[4] == 't';
      }
    }
    assert Untrailingslashit(r) == r;
  }

  /** The primary lookup URL for a cookie and a field. */
  function LookupUrl(base: string, cookie: string, field: string, wp: Wp.Library): string {
    base + "/v1/leads.json?filterType=cookie&filterValues=" + wp.rawUrlEncode(cookie)
      + "&fields=" + wp.rawUrlEncode(field)
  }

  /** The legacy lookup URL, with the non-standard `cookie=` parameter. */
  function LegacyLookupUrl(base: string, cookie: string, field: string, wp: Wp.Library): string {
    base + "/v1/leads.json?cookie=" + wp.rawUrlEncode(cookie) + "&fields=" + wp.rawUrlEncode(field)
  }

  /** The `mp_segment_value` and legacy `tcp_mp_segment_value` filters. */
  datatype SegmentHooks = SegmentHooks(
    filter: (string, LeadBody, string) -> string,
    legacyFilter: (string, LeadBody, string) -> string)

  /** The answers the server would give to each request the lookup can make. */
  datatype Responses = Responses(token: Http<TokenBody>, lookup: Http<LeadBody>, legacyLookup: Http<LeadBody>)

  datatype FetchResult = FetchResult(segment: Option<string>, cache: TokenCache, requests: seq<Request>)

  /** The segment field of the first result record of a successful body,
      when it is non-empty, passed through both filters and sanitised. */
  function ExtractSegment(body: Option<LeadBody>, field: string, hooks: SegmentHooks, wp: Wp.Library): (r: Option<string>)
    ensures r.Some? ==> r.value != ""
    ensures body.None? || !body.value.success || body.value.result == [] ==> r.None?
    ensures body.Some? && body.value.result != [] && Wp.EmptyOpt(OrderedMap.Get(body.value.result[0], field)) ==> r.None?
    ensures body.Some? && body.value.success && body.value.result != []
            && !Wp.EmptyOpt(OrderedMap.Get(body.value.result[0], field)) ==>
              var v := OrderedMap.Get(body.value.result[0], field).value;
              r == Helpers.SanitizeSegment(
                     Helpers.Scalar(hooks.legacyFilter(hooks.filter(v, body.value, field), body.value, field)), wp)
  {
    if body.None? || !body.value.success || body.value.result == [] then None
    else
      var v := OrderedMap.Get(body.value.result[0], field);
      if Wp.EmptyOpt(v) then None
      else
        var filtered := hooks.legacyFilter(hooks.filter(v.value, body.value, field), body.value, field);
        Helpers.SanitizeSegment(Helpers.Scalar(filtered), wp)
  }

  /** The segment field to request: the configured one, or `web_segment`. */
  function SegmentField(ms: MarketoSettings): (r: string)
    ensures !Wp.Empty(r)
  {
    if Wp.Empty(ms.segmentField) then "web_segment" else ms.segmentField
  }

  /** `mp_fetch_from_marketo` for the raw tracking cookie `cookie`. */
  function FetchFromMarketo(cookie: string, ms: MarketoSettings, c: TokenCache, now: int,
                            answers: Responses, hooks: SegmentHooks, wp: Wp.Library): (r: FetchResult)
    ensures r.segment.Some? ==> r.segment.value != ""
    ensures wp.sanitizeText(cookie) == "" || Wp.Empty(ms.restUrl) ==> r == FetchResult(None, c, [])
    ensures wp.sanitizeText(cookie) != "" && !Wp.Empty(ms.restUrl) ==>
              r.cache == GetAccessToken(c, now, ms, answers.token, wp).cache
    ensures wp.sanitizeText(cookie) != "" && !Wp.Empty(ms.restUrl)
            && GetAccessToken(c, now, ms, answers.token, wp).token.Some? ==>
              && (answers.lookup.Response? && answers.lookup.code == 200 ==>
                    r.segment == ExtractSegment(answers.lookup.body, SegmentField(ms), hooks, wp))
              && (answers.lookup.Response? && answers.lookup.code != 200
                  && answers.legacyLookup.Response? && answers.legacyLookup.code == 200 ==>
                    r.segment == ExtractSegment(answers.legacyLookup.body, SegmentField(ms), hooks, wp))
  {
    var ck := wp.sanitizeText(cookie);
    if ck == "" || Wp.Empty(ms.restUrl) then FetchResult(None, c, [])
    else
      var tr := GetAccessToken(c, now, ms, answers.token, wp);
      if tr.token.None? then FetchResult(None, tr.cache, tr.requests)
      else
        var field := SegmentField(ms);
        var base := RestBase(ms.restUrl);
        var reqs := tr.requests + [LeadLookup(LookupUrl(base, ck, field, wp))];
        match answers.lookup
        case WpError => FetchResult(None, tr.cache, reqs)
        case Response(code, body) =>
          if code == 200 then FetchResult(ExtractSegment(body, field, hooks, wp), tr.cache, reqs)
          else
            var reqs' := reqs + [LegacyLookup(LegacyLookupUrl(base, ck, field, wp))];
            match answers.legacyLookup
            case WpError => FetchResult(None, tr.cache, reqs')
            case Response(code', body') =>
              if code' != 200 then FetchResult(None, tr.cache, reqs')
              else FetchResult(ExtractSegment(body', field, hooks, wp), tr.cache, reqs')
  }

  /** The lookups among the requests issued. */
  function Lookups(reqs: seq<Request>): (r: seq<Request>)
    ensures forall i :: 0 <= i < |r| ==> !r[i].TokenRequest?
  {
    if reqs == [] then []
    else (if reqs[0].TokenRequest? then [] else [reqs[0]]) + Lookups(reqs[1..])
  }

  lemma {:induction false} LookupsAppend(a: seq<Request>, b: seq<Request>)
    ensures Lookups(a + b) == Lookups(a) + Lookups(b)
  {
    if a != [] {
      assert (a + b)[0] == a[0];
      assert (a + b)[1..] == a[1..] + b;
      LookupsAppend(a[1..], b);
    } else {
      assert a + b == b;
    }
  }

  lemma LookupsOfTokenRequests(c: TokenCache, now: int, ms: MarketoSettings, response: Http<TokenBody>, wp: Wp.Library)
    ensures Lookups(GetAccessToken(c, now, ms, response, wp).requests) == []
  {
  }

  /** The retry policy: once the guards pass and a token is available, the
      primary lookup is issued; a transport error ends the attempt, a 200 is
      used as is, and any other status triggers exactly one legacy lookup,
      whose failure makes the whole fetch fail. */
  lemma RetryPolicy(cookie: string, ms: MarketoSettings, c: TokenCache, now: int,
                    answers: Responses, hooks: SegmentHooks, wp: Wp.Library)
    requires wp.sanitizeText(cookie) != "" && !Wp.Empty(ms.restUrl)
    requires GetAccessToken(c, now, ms, answers.token, wp).token.Some?
    ensures var r := FetchFromMarketo(cookie, ms, c, now, answers, hooks, wp);
            var base := RestBase(ms.restUrl);
            var ck := wp.sanitizeText(cookie);
            var primary := LeadLookup(LookupUrl(base, ck, SegmentField(ms), wp));
            var legacy := LegacyLookup(LegacyLookupUrl(base, ck, SegmentField(ms), wp));
            && (answers.lookup.WpError? ==> Lookups(r.requests) == [primary] && r.segment.None?)
            && (answers.lookup.Response? && answers.lookup.code == 200 ==> Lookups(r.requests) == [primary])
            && (answers.lookup.Response? && answers.lookup.code != 200 ==>
                  && Lookups(r.requests) == [primary, legacy]
                  && (answers.legacyLookup.WpError? || answers.legacyLookup.code != 200 ==> r.segment.None?))
  {
    var tr := GetAccessToken(c, now, ms, answers.token, wp);
    var base := RestBase(ms.restUrl);
    var ck := wp.sanitizeText(cookie);
    var primary := LeadLookup(LookupUrl(base, ck, SegmentField(ms), wp));
    var legacy := LegacyLookup(LegacyLookupUrl(base, ck, SegmentField(ms), wp));
    LookupsOfTokenRequests(c, now, ms, answers.token, wp);
    var r := FetchFromMarketo(cookie, ms, c, now, answers, hooks, wp);
    if answers.lookup.WpError? || answers.lookup.code == 200 {
      assert r.requests == tr.requests + [primary];
      OneLookupAfterToken(tr.requests, primary);
    } else {
      assert r.requests == tr.requests + [primary] + [legacy];
      TwoLookupsAfterToken(tr.requests, primary, legacy);
    }
  }

  lemma OneLookupAfterToken(tokenReqs: seq<Request>, primary: Request)
    requires Lookups(tokenReqs) == [] && !primary.TokenRequest?
    ensures Lookups(tokenReqs + [primary]) == [primary]
  {
    LookupsAppend(tokenReqs, [primary]);
    assert Lookups([primary]) == [primary];
  }

  lemma TwoLookupsAfterToken(tokenReqs: seq<Request>, primary: Request, legacy: Request)
    requires Lookups(tokenReqs) == [] && !primary.TokenRequest? && !legacy.TokenRequest?
    ensures Lookups(tokenReqs + [primary] + [legacy]) == [primary, legacy]
  {
    OneLookupAfterToken(tokenReqs, primary);
    LookupsAppend(tokenReqs + [primary], [legacy]);
    assert Lookups([legacy]) == [legacy];
  }

  /** Without a usable token the fetch fails after, at most, the token
      request: no lookup is made. */
  lemma NoTokenNoLookup(cookie: string, ms: MarketoSettings, c: TokenCache, now: int,
                        answers: Responses, hooks: SegmentHooks, wp: Wp.Library)
    requires GetAccessToken(c, now, ms, answers.token, wp).token.None?
    ensures var r := FetchFromMarketo(cookie, ms, c, now, answers, hooks, wp);
            r.segment.None? && r.cache == c && Lookups(r.requests) == []
  {
    LookupsOfTokenRequests(c, now, ms, answers.token, wp);
  }
}
