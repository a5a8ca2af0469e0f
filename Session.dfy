/**
  The cookie session of an endpoint: the cookie issued on its first request,
  the check of later requests against it, and the expiration timer scheduled
  when a bound message finishes.  Times are whole seconds since the epoch.
*/
module Session {
  import opened Wrappers
  import opened Bootstrap

  /** `guint`: timer intervals, lifetimes and timeouts are 32-bit unsigned. */
  type uint32 = x: int | 0 <= x < 0x1_0000_0000

  const COOKIE_NAME: string := "HttpEPCookie"

  /** The cookie stored on an endpoint. */
  datatype SessionCookie = SessionCookie(name: string, value: string, domain: AnnouncedAddress, path: string, expiresAt: int)

  /** A cookie presented in a request's `Cookie` header. */
  datatype RequestCookie = RequestCookie(name: string, value: string)

  /** `soup_cookie_new (COOKIE_NAME, value, announcedAddr, path, lifetime)` at time `now`. */
  function IssueCookie(value: string, domain: AnnouncedAddress, path: string, lifetime: uint32, now: int): (c: SessionCookie)
    ensures c.name == COOKIE_NAME && c.value == value && c.domain == domain && c.path == path
    ensures c.expiresAt - now == lifetime
  {
    SessionCookie(COOKIE_NAME, value, domain, path, now + lifetime)
  }

  /** `cookie_has_expired`: the expiry date lies in the past. */
  predicate Expired(c: SessionCookie, now: int)
  {
    c.expiresAt < now
  }

  /** Some presented cookie carries the session cookie's name and value. */
  predicate Presents(c: SessionCookie, presented: seq<RequestCookie>)
  {
    exists i :: 0 <= i < |presented| && presented[i].name == c.name && presented[i].value == c.value
  }

  /** The request is in the session: the cookie is live and presented back unchanged. */
  predicate SessionAccepts(c: SessionCookie, now: int, presented: seq<RequestCookie>)
  {
    !Expired(c, now) && Presents(c, presented)
  }

  /**
    `kms_http_ep_server_check_cookie`: an expired cookie and a request
    without cookies are refused; otherwise the presented cookies are scanned
    for one with the same name and value, passing over same-named cookies
    with another value.
  */
  method CheckCookie(c: SessionCookie, now: int, presented: seq<RequestCookie>) returns (ok: bool)
    ensures ok == SessionAccepts(c, now, presented)
  {
    if Expired(c, now) {
      return false;
    }
    if |presented| == 0 {
      return false;
    }
    ok := false;
    var i := 0;
    while i < |presented|
      invariant 0 <= i <= |presented|
      invariant !ok
      invariant forall j :: 0 <= j < i ==> presented[j].name != c.name || presented[j].value != c.value
    {
      if presented[i].name != c.name {
        i := i + 1;
        continue;
      }
      if presented[i].value == c.value {
        ok := true;
        break;
      }
      i := i + 1;
    }
  }

  /** `kms_http_ep_server_manage_cookie_session`: whether the request may go on, and the cookie stored afterwards. */
  datatype SessionOutcome = SessionOutcome(accepted: bool, stored: SessionCookie, issued: bool)

  /**
    The session decision on an endpoint holding `stored`: a first request is
    always accepted and gets a new cookie; later ones must pass the check.
  */
  function ManageSession(stored: Option<SessionCookie>, freshValue: string, domain: AnnouncedAddress, path: string,
                         lifetime: uint32, now: int, presented: seq<RequestCookie>): (o: SessionOutcome)
    ensures stored.None? ==> o.accepted && o.issued && o.stored == IssueCookie(freshValue, domain, path, lifetime, now)
    ensures stored.Some? ==> !o.issued && o.stored == stored.value &&
                             (o.accepted <==> SessionAccepts(stored.value, now, presented))
  {
    match stored
    case None => SessionOutcome(true, IssueCookie(freshValue, domain, path, lifetime, now), true)
    case Some(c) => SessionOutcome(SessionAccepts(c, now, presented), c, false)
  }

  /**
    `kms_http_ep_server_manage_cookie_session` step by step: the stored
    cookie is checked when there is one, otherwise a new one is issued.
  */
  method AdmitRequest(stored: Option<SessionCookie>, freshValue: string, domain: AnnouncedAddress, path: string,
                      lifetime: uint32, now: int, presented: seq<RequestCookie>) returns (o: SessionOutcome)
    ensures o == ManageSession(stored, freshValue, domain, path, lifetime, now, presented)
  {
    if stored.Some? {
      var ok := CheckCookie(stored.value, now, presented);
      return SessionOutcome(ok, stored.value, false);
    }
    var c := IssueCookie(freshValue, domain, path, lifetime, now);
    o := SessionOutcome(true, c, true);
  }

  /** A client that sends back the cookie it was issued is accepted until the cookie's lifetime has passed. */
  lemma IssuedCookieAcceptedWithinLifetime(value: string, domain: AnnouncedAddress, path: string, lifetime: uint32,
                                           issuedAt: int, now: int, presented: seq<RequestCookie>)
    requires issuedAt <= now <= issuedAt + lifetime
    requires RequestCookie(COOKIE_NAME, value) in presented
    ensures SessionAccepts(IssueCookie(value, domain, path, lifetime, issuedAt), now, presented)
  {
    var i :| 0 <= i < |presented| && presented[i] == RequestCookie(COOKIE_NAME, value);
    assert presented[i].name == COOKIE_NAME;
  }

  /** After the lifetime has passed no request is accepted, whatever it presents. */
  lemma IssuedCookieRefusedAfterLifetime(value: string, domain: AnnouncedAddress, path: string, lifetime: uint32,
                                         issuedAt: int, now: int, presented: seq<RequestCookie>)
    requires now > issuedAt + lifetime
    ensures !SessionAccepts(IssueCookie(value, domain, path, lifetime, issuedAt), now, presented)
  {
  }

  /** A request whose cookies all carry another value, or another name, is refused. */
  lemma ForeignCookiesRefused(c: SessionCookie, now: int, presented: seq<RequestCookie>)
    requires forall i :: 0 <= i < |presented| ==> presented[i] != RequestCookie(c.name, c.value)
    ensures !SessionAccepts(c, now, presented)
  {
  }

  // ---------------------------------------------------------------------------
  // Expiration scheduling

  /** What `emit_expiration_signal` does once a bound message has finished. */
  datatype Plan =
    | NoCookie                // no cookie on the endpoint: a warning only
    | ExpireNow               // the cookie has expired: `url-expired` at once
    | Arm(seconds: uint32)    // a timer of that many seconds

  /**
    The expiration decision: the timer runs for the cookie's remaining
    lifetime or the endpoint's idle timeout, whichever is shorter.
  */
  function PlanExpiration(cookie: Option<SessionCookie>, timeout: uint32, now: int): (p: Plan)
    ensures cookie.None? <==> p == NoCookie
    ensures cookie.Some? ==> (p == ExpireNow <==> Expired(cookie.value, now))
    ensures p.Arm? ==> p.seconds <= timeout && p.seconds <= cookie.value.expiresAt - now
    ensures p.Arm? ==> p.seconds == timeout || p.seconds == cookie.value.expiresAt - now
  {
    match cookie
    case None => NoCookie
    case Some(c) =>
      if Expired(c, now) then ExpireNow
      else if c.expiresAt - now < timeout then Arm(c.expiresAt - now)
      else Arm(timeout)
  }

  /** `interval * 1000` as a `guint`: the millisecond count wraps at 2^32. */
  function TimerMillis(seconds: uint32): (ms: uint32)
    ensures seconds <= 4294967 ==> ms == seconds * 1000
    ensures (ms - seconds * 1000) % 0x1_0000_0000 == 0
  {
    (seconds * 1000) % 0x1_0000_0000
  }

  /** Just past 4294967 seconds (about 49.7 days) the interval wraps to a timer of under a second. */
  lemma TimerMillisWraps()
    ensures TimerMillis(4294968) == 704
  {
  }
}
