/** includes/rest.php: the three-tier segment resolver (segment cookie, then
    tracking cookie plus external lookup, then `default`) and the
    personalization payload. Request cookies are an input, the cookie the
    resolver sets is an output, and the external lookup is a parameter. */
module Rest {
  import opened Options
  import opened OrderedMap
  import opened Helpers
  import Api
  import Wp

  /** The request's `tcp_user_segment` and `_mkto_trk` cookies. */
  datatype Cookies = Cookies(segment: Option<PhpValue>, tracking: Option<string>)

  /** What `mp_set_segment_cookie` needs from its surroundings: the clock,
      `COOKIEPATH` and `COOKIE_DOMAIN` when defined, and `is_ssl()`. */
  datatype CookieEnv = CookieEnv(now: int, cookiePath: Option<string>, cookieDomain: Option<string>, ssl: bool)

  /** The `tcp_user_segment` cookie the resolver sets. */
  datatype CookieWrite = CookieWrite(
    value: string, expires: int, path: string, domain: string, secure: bool, httpOnly: bool, sameSite: string)

  /** The resolved segment, whether the external lookup was invoked, and
      the cookie written, if any. */
  datatype Resolution = Resolution(segment: string, fetched: bool, cookie: Option<CookieWrite>)

  const SegmentCookieName := "tcp_user_segment"
  const DayInSeconds := 86400

  /** `mp_set_segment_cookie`: the sanitised segment for one day, HTTP-only,
      secure exactly on TLS connections, `SameSite=Lax`. */
  function SegmentCookie(segment: string, env: CookieEnv, wp: Wp.Library): (c: CookieWrite)
    ensures c.value == wp.sanitizeText(segment) && c.expires == env.now + DayInSeconds
    ensures c.httpOnly && c.secure == env.ssl && c.sameSite == "Lax"
  {
    CookieWrite(wp.sanitizeText(segment), env.now + DayInSeconds,
                env.cookiePath.GetOr("/"), env.cookieDomain.GetOr(""), env.ssl, true, "Lax")
  }

  /** PHP `empty($_COOKIE[...])` for the segment cookie. */
  predicate EmptyCookie(c: Option<PhpValue>) {
    c.None? || (c.value.Scalar? && Wp.Empty(c.value.s))
  }

  /** The segment cookie's value when it is present and sanitises to a
      truthy string. */
  function UsableSegmentCookie(c: Option<PhpValue>, wp: Wp.Library): (r: Option<string>)
    ensures r.Some? <==> !EmptyCookie(c) && c.value.Scalar? && !Wp.Empty(wp.sanitizeText(c.value.s))
    ensures r.Some? ==> r.value == wp.sanitizeText(c.value.s) && !Wp.Empty(r.value)
  {
    if EmptyCookie(c) then None
    else
      var v := SanitizeSegment(c.value, wp);
      if v.None? || Wp.Empty(v.value) then None else v
  }

  /** `mp_get_segment` with `fetch` standing for `mp_fetch_from_marketo`. */
  function GetSegment(s: Settings, cookies: Cookies, fetch: string -> Option<string>,
                      env: CookieEnv, wp: Wp.Library): (r: Resolution)
    ensures r.segment in Keys(SegmentKeys(s))
    ensures r.cookie.Some? <==> r.fetched
    ensures r.cookie.Some? ==> r.cookie.value == SegmentCookie(r.segment, env, wp)
    ensures UsableSegmentCookie(cookies.segment, wp).Some? ==>
              r == Resolution(SegmentToKey(s, UsableSegmentCookie(cookies.segment, wp).value), false, None)
    ensures UsableSegmentCookie(cookies.segment, wp).None? && Wp.EmptyOpt(cookies.tracking) ==>
              r == Resolution(DefaultSegment, false, None)
  {
    var existing := UsableSegmentCookie(cookies.segment, wp);
    if existing.Some? then Resolution(SegmentToKey(s, existing.value), false, None)
    else if Wp.EmptyOpt(cookies.tracking) then Resolution(DefaultSegment, false, None)
    else
      var fetched := fetch(cookies.tracking.value);
      var raw := if Wp.EmptyOpt(fetched) then DefaultSegment else fetched.value;
      var segment := SegmentToKey(s, raw);
      Resolution(segment, true, Some(SegmentCookie(segment, env, wp)))
  }

  /** On the fetch path the segment is the normalised fetched value, and a
      failed fetch is treated as the raw value `default`; the cookie then
      holds the (sanitised) segment returned. */
  lemma FetchPath(s: Settings, cookies: Cookies, fetch: string -> Option<string>, env: CookieEnv, wp: Wp.Library)
    requires UsableSegmentCookie(cookies.segment, wp).None? && !Wp.EmptyOpt(cookies.tracking)
    ensures var r := GetSegment(s, cookies, fetch, env, wp);
            var f := fetch(cookies.tracking.value);
            && r.fetched
            && (!Wp.EmptyOpt(f) ==> r.segment == SegmentToKey(s, f.value))
            && (Wp.EmptyOpt(f) ==> r.segment == SegmentToKey(s, DefaultSegment))
            && r.cookie == Some(SegmentCookie(r.segment, env, wp))
  {
  }

  /** A failed fetch yields `default` itself unless an alias rewrites it. */
  lemma FailedFetchGivesDefault(s: Settings, cookies: Cookies, fetch: string -> Option<string>,
                                env: CookieEnv, wp: Wp.Library)
    requires UsableSegmentCookie(cookies.segment, wp).None? && !Wp.EmptyOpt(cookies.tracking)
    requires fetch(cookies.tracking.value).None?
    requires forall i :: 0 <= i < |s.segmentAlias| ==> !Fires(s.segmentAlias[i], DefaultSegment)
    ensures GetSegment(s, cookies, fetch, env, wp).segment == DefaultSegment
    ensures GetSegment(s, cookies, fetch, env, wp).cookie.value.value == wp.sanitizeText(DefaultSegment)
  {
    assert forall i :: 0 <= i < |DefaultSegment| ==> IsPlainSlugChar(DefaultSegment[i]);
    CanonicalKeyIsFixed(s, DefaultSegment);
  }

  /** `mp_get_personalization`: the resolved segment (or `Default` should
      it be PHP-empty) with the CTA configuration of every CTA key for it,
      and the segment cookie the resolver wrote on the way, if any. */
  datatype Personalization = Personalization(segment: string, ctas: seq<(string, CtaConfig)>, cookie: Option<CookieWrite>)

  function GetPersonalization(s: Settings, cookies: Cookies, fetch: string -> Option<string>,
                              env: CookieEnv, wp: Wp.Library): (r: Personalization)
    ensures var seg := GetSegment(s, cookies, fetch, env, wp).segment;
            !Wp.Empty(seg) ==> r.segment == seg
    ensures Wp.Empty(GetSegment(s, cookies, fetch, env, wp).segment) ==> r.segment == "Default"
    ensures Keys(r.ctas) == CtaKeys(s)
    ensures forall i :: 0 <= i < |r.ctas| ==> r.ctas[i].1 == CtaConfigFor(s, r.ctas[i].0, r.segment, wp)
    ensures r.cookie == GetSegment(s, cookies, fetch, env, wp).cookie
  {
    var res := GetSegment(s, cookies, fetch, env, wp);
    var segment := if Wp.Empty(res.segment) then "Default" else res.segment;
    Personalization(segment, AllCtaConfigs(s, segment, wp), res.cookie)
  }

  /** The resolver wired to the lead lookup of includes/api.php, threading
      the token cache: the resolution, the cache afterwards and the HTTP
      requests issued. When the lookup runs, the cache and the requests are
      those of that one `mp_fetch_from_marketo` call for the tracking
      cookie; otherwise nothing is asked and the cache is left alone. */
  function GetSegmentFromMarketo(s: Settings, cookies: Cookies, ms: Api.MarketoSettings, c: Api.TokenCache,
                                 answers: Api.Responses, hooks: Api.SegmentHooks, env: CookieEnv,
                                 wp: Wp.Library): (r: (Resolution, Api.TokenCache, seq<Api.Request>))
    ensures r.0 == GetSegment(s, cookies,
                              t => Api.FetchFromMarketo(t, ms, c, env.now, answers, hooks, wp).segment, env, wp)
    ensures !r.0.fetched ==> r.1 == c && r.2 == []
    ensures r.0.fetched ==> !Wp.EmptyOpt(cookies.tracking)
    ensures r.0.fetched ==>
              var f := Api.FetchFromMarketo(cookies.tracking.value, ms, c, env.now, answers, hooks, wp);
              r.1 == f.cache && r.2 == f.requests
  {
    var fetch := t => Api.FetchFromMarketo(t, ms, c, env.now, answers, hooks, wp).segment;
    var res := GetSegment(s, cookies, fetch, env, wp);
    if res.fetched then
      var f := Api.FetchFromMarketo(cookies.tracking.value, ms, c, env.now, answers, hooks, wp);
      (res, f.cache, f.requests)
    else (res, c, [])
  }

  /** A visitor with a usable segment cookie causes no HTTP request at all. */
  lemma SegmentCookieMeansNoRequest(s: Settings, cookies: Cookies, ms: Api.MarketoSettings, c: Api.TokenCache,
                                    answers: Api.Responses, hooks: Api.SegmentHooks, env: CookieEnv, wp: Wp.Library)
    requires UsableSegmentCookie(cookies.segment, wp).Some?
    ensures GetSegmentFromMarketo(s, cookies, ms, c, answers, hooks, env, wp).2 == []
    ensures GetSegmentFromMarketo(s, cookies, ms, c, answers, hooks, env, wp).0.cookie.None?
  {
  }

  /** A visitor with neither cookie gets `default`, with no request and no
      cookie written. */
  lemma AnonymousVisitorGetsDefault(s: Settings, ms: Api.MarketoSettings, c: Api.TokenCache,
                                    answers: Api.Responses, hooks: Api.SegmentHooks, env: CookieEnv, wp: Wp.Library)
    ensures var r := GetSegmentFromMarketo(s, Cookies(None, None), ms, c, answers, hooks, env, wp);
            r.0 == Resolution(DefaultSegment, false, None) && r.2 == []
  {
  }

  /** When both lookups answer HTTP 500, the visitor gets the segment that
      `default` normalises to, and that is what the cookie records. */
  lemma ServerErrorFallsBack(s: Settings, tracking: string, ms: Api.MarketoSettings, c: Api.TokenCache,
                             token: Api.Http<Api.TokenBody>, hooks: Api.SegmentHooks, env: CookieEnv, wp: Wp.Library)
    requires !Wp.Empty(tracking)
    ensures var answers := Api.Responses(token, Api.Response(500, None), Api.Response(500, None));
            var r := GetSegmentFromMarketo(s, Cookies(None, Some(tracking)), ms, c, answers, hooks, env, wp);
            r.0.segment == SegmentToKey(s, DefaultSegment)
            && r.0.cookie == Some(SegmentCookie(SegmentToKey(s, DefaultSegment), env, wp))
  {
    var answers := Api.Responses(token, Api.Response(500, None), Api.Response(500, None));
    assert Api.FetchFromMarketo(tracking, ms, c, env.now, answers, hooks, wp).segment.None?;
  }
}
