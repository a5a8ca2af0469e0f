/**
  The endpoint registry and request-binding state machine of
  `KmsHttpEPServer`: endpoints registered under URL paths, the message each
  one is bound to, its cookie and expiration timer, and the signals the
  server emits.

  Each registered endpoint element is one record, keyed by the path it was
  registered under.  `destroy_handlers` drops the hash table, but the data
  slots live on the elements, so the records outlive the table as long as
  something besides the table holds a reference to each element: messages
  still bound to them can finish, push chunks and arm timers afterwards.
*/
module Server {
  import opened Wrappers
  import opened MultipartPart
  import opened PostContent
  import opened Session
  import opened Bootstrap

  type Path = string

  datatype Method = Get | Post | OtherMethod(name: string)

  /** `KmsHttpEndPointAction` carried by `action-requested`. */
  datatype Action = ActionGet | ActionPost

  /** The server's signals, in emission order. */
  datatype Event =
    | UrlRemoved(path: Path)
    | UrlExpired(path: Path)
    | ActionRequested(path: Path, action: Action)

  /** What the server does to an endpoint element. */
  datatype Command =
    | StartFlow               // `start` set to TRUE
    | StopFlow                // `start` set to FALSE
    | PushBuffer(data: seq<byte>)
    | EndOfStream

  /** A command together with the path of the element it was sent to. */
  datatype Sent = Sent(path: Path, command: Command)

  /**
    The message in an endpoint's `KEY_MESSAGE` slot.  `hooked` says whether
    the handler ids its teardown reads exist: a GET always has them, a POST
    only when it was accepted, any other method never.
  */
  datatype Binding = Binding(verb: Method, hooked: bool, boundary: Option<seq<byte>>)

  /** The data slots of one endpoint element. */
  datatype Endpoint = Endpoint(lifetime: uint32, timeout: uint32, cookie: Option<SessionCookie>,
                               timer: Option<nat>, bound: Option<Binding>)

  /** A pending `g_timeout_add_full` source: the message path it reports, and its interval. */
  datatype ArmedTimer = ArmedTimer(path: Path, millis: uint32)

  /** Status, content type and Set-Cookie header left on the message. */
  datatype Response = Response(status: int, contentType: Option<string>, setCookie: Option<SessionCookie>)

  const WEBM: string := "video/webm"

  /**
    The data slots `register_end_point` gives an element on its first
    registration.  Neither unregistering nor registering clears the cookie
    slot, so an element registered again keeps its old cookie; the model does
    not track elements across registrations (see `RegisterEndPoint`).
  */
  function FreshEndpoint(lifetime: uint32, timeout: uint32): (e: Endpoint)
    ensures e.lifetime == lifetime && e.timeout == timeout
    ensures e.cookie.None? && e.timer.None? && e.bound.None?
  {
    Endpoint(lifetime, timeout, None, None, None)
  }

  predicate BindingOk(b: Binding)
  {
    (b.verb.Get? ==> b.hooked && b.boundary.None?) &&
    (b.verb.OtherMethod? ==> !b.hooked && b.boundary.None?) &&
    (b.boundary.Some? ==> b.hooked)
  }

  /**
    The data slots every reachable endpoint keeps consistent: a bound message
    passed the session check, so a cookie exists, and binding cancelled any
    timer; a timer is armed only from a cookie.
  */
  predicate EndpointOk(e: Endpoint)
  {
    (e.bound.Some? ==> e.cookie.Some? && e.timer.None? && BindingOk(e.bound.value)) &&
    (e.timer.Some? ==> e.cookie.Some?)
  }

  /** The binding `got_headers_handler` leaves for a request of method `m`. */
  function BindingFor(m: Method, contentType: Option<string>, boundaryParam: Option<seq<byte>>): (b: Binding)
    ensures BindingOk(b) && b.verb == m
    ensures b.hooked <==> m.Get? || (m.Post? && PostDecide(contentType, boundaryParam) != NotAcceptable)
    ensures b.boundary.Some? <==> m.Post? && PostDecide(contentType, boundaryParam).Multipart?
    ensures b.boundary.Some? ==> b.boundary == Some(PostDecide(contentType, boundaryParam).boundary)
  {
    match m
    case Get => Binding(Get, true, None)
    case Post =>
      var d := PostDecide(contentType, boundaryParam);
      Binding(Post, d != NotAcceptable, if d.Multipart? then Some(d.boundary) else None)
    case OtherMethod(_) => Binding(m, false, None)
  }

  /** The status of an accepted request of method `m`. */
  function StatusFor(m: Method, contentType: Option<string>, boundaryParam: Option<seq<byte>>): (s: int)
    ensures m.Get? ==> s == STATUS_OK
    ensures m.Post? ==> s == PostStatus(PostDecide(contentType, boundaryParam))
    ensures m.OtherMethod? ==> s == STATUS_METHOD_NOT_ALLOWED
  {
    match m
    case Get => STATUS_OK
    case Post => PostStatus(PostDecide(contentType, boundaryParam))
    case OtherMethod(_) => STATUS_METHOD_NOT_ALLOWED
  }

  /** The `action-requested` signal an accepted request emits: none for methods other than GET and POST. */
  function ActionEvents(path: Path, m: Method): (es: seq<Event>)
    ensures m.OtherMethod? <==> es == []
    ensures m.Get? ==> es == [ActionRequested(path, ActionGet)]
    ensures m.Post? ==> es == [ActionRequested(path, ActionPost)]
  {
    match m
    case Get => [ActionRequested(path, ActionGet)]
    case Post => [ActionRequested(path, ActionPost)]
    case OtherMethod(_) => []
  }

  /**
    `destroy_pending_message`: a GET stops the element's flow; a POST whose
    got-chunk handler id is missing, or a message of another method, whose
    finished handler id is missing, dereferences NULL.
  */
  function Teardown(b: Binding): (r: Result<seq<Command>, Fault>)
    ensures r.Failure? <==> !b.hooked
    ensures r.Failure? ==> r.error == NullDereference
    ensures r.Success? ==> (r.value == [StopFlow] <==> b.verb.Get?) && (r.value == [] <==> !b.verb.Get?)
  {
    if !b.hooked then Failure(NullDereference)
    else if b.verb.Get? then Success([StopFlow])
    else Success([])
  }

  /** Exactly the requests that are refused by method or content type leave a binding whose teardown faults. */
  lemma TeardownFaultsAfterRefusedRequest(m: Method, contentType: Option<string>, boundaryParam: Option<seq<byte>>)
    ensures Teardown(BindingFor(m, contentType, boundaryParam)).Failure? <==>
              StatusFor(m, contentType, boundaryParam) != STATUS_OK
  {
  }

  /** The commands for `path` as `Sent` entries. */
  function SentTo(path: Path, cs: seq<Command>): (r: seq<Sent>)
    ensures |r| == |cs| && forall i :: 0 <= i < |cs| ==> r[i] == Sent(path, cs[i])
  {
    if cs == [] then [] else [Sent(path, cs[0])] + SentTo(path, cs[1..])
  }

  /** `remove_cookie_timeout`'s effect on the pending sources. */
  function Cancel(armed: map<nat, ArmedTimer>, timer: Option<nat>): (r: map<nat, ArmedTimer>)
    ensures timer.None? ==> r == armed
    ensures timer.Some? ==> timer.value !in r && forall id :: id in r <==> id in armed && id != timer.value
    ensures forall id :: id in r ==> r[id] == armed[id]
  {
    if timer.Some? then armed - {timer.value} else armed
  }

  /** A sequence of `url-removed` signals naming each of `keys` once. */
  predicate EachRemovedOnce(es: seq<Event>, keys: set<Path>)
  {
    |es| == |keys| &&
    (forall i :: 0 <= i < |es| ==> es[i].UrlRemoved? && es[i].path in keys) &&
    (forall p :: p in keys ==> UrlRemoved(p) in es)
  }

  /** The pending timers and the endpoints' timer slots match one to one. */
  predicate TimersMatch(endpoints: map<Path, Endpoint>, armed: map<nat, ArmedTimer>)
  {
    (forall id :: id in armed ==> armed[id].path in endpoints && endpoints[armed[id].path].timer == Some(id)) &&
    (forall p :: p in endpoints && endpoints[p].timer.Some? ==>
       endpoints[p].timer.value in armed && armed[endpoints[p].timer.value].path == p)
  }

  /**
    Source ids are fresh; every endpoint's slots are consistent; while the
    table exists the timers match the slots.  Once the table is gone a fired
    timer no longer clears its slot, so stale ids may remain.
  */
  predicate Consistent(tableLive: bool, endpoints: map<Path, Endpoint>, armed: map<nat, ArmedTimer>, nextTimer: nat)
  {
    (forall id :: id in armed ==> id < nextTimer) &&
    (forall p :: p in endpoints ==> EndpointOk(endpoints[p])) &&
    (tableLive ==> TimersMatch(endpoints, armed))
  }

  /** Cancelling an endpoint's timer and storing slots without one keeps the state consistent. */
  lemma CancelAndStore(tableLive: bool, endpoints: map<Path, Endpoint>, armed: map<nat, ArmedTimer>, nextTimer: nat,
                       path: Path, e: Endpoint)
    requires Consistent(tableLive, endpoints, armed, nextTimer)
    requires path in endpoints && EndpointOk(e) && e.timer.None?
    ensures Consistent(tableLive, endpoints[path := e], Cancel(armed, endpoints[path].timer), nextTimer)
  {
    var armed' := Cancel(armed, endpoints[path].timer);
    var endpoints' := endpoints[path := e];
    if tableLive {
      forall id | id in armed'
        ensures armed'[id].path in endpoints' && endpoints'[armed'[id].path].timer == Some(id)
      {
        assert armed'[id] == armed[id];
      }
    }
  }

  /** Cancelling an endpoint's timer and dropping it keeps the state consistent. */
  lemma CancelAndDrop(tableLive: bool, endpoints: map<Path, Endpoint>, armed: map<nat, ArmedTimer>, nextTimer: nat,
                      path: Path)
    requires Consistent(tableLive, endpoints, armed, nextTimer)
    requires path in endpoints
    ensures Consistent(tableLive, endpoints - {path}, Cancel(armed, endpoints[path].timer), nextTimer)
  {
    var armed' := Cancel(armed, endpoints[path].timer);
    var endpoints' := endpoints - {path};
    if tableLive {
      forall id | id in armed'
        ensures armed'[id].path in endpoints' && endpoints'[armed'[id].path].timer == Some(id)
      {
        assert armed'[id] == armed[id];
      }
    }
  }

  /** Arming a fresh timer for an endpoint without one keeps the state consistent. */
  lemma ArmFresh(tableLive: bool, endpoints: map<Path, Endpoint>, armed: map<nat, ArmedTimer>, nextTimer: nat,
                 path: Path, e: Endpoint, millis: uint32)
    requires Consistent(tableLive, endpoints, armed, nextTimer)
    requires path in endpoints && endpoints[path].timer.None?
    requires EndpointOk(e) && e.timer == Some(nextTimer)
    ensures Consistent(tableLive, endpoints[path := e], armed[nextTimer := ArmedTimer(path, millis)], nextTimer + 1)
  {
    var armed' := armed[nextTimer := ArmedTimer(path, millis)];
    var endpoints' := endpoints[path := e];
    if tableLive {
      forall id | id in armed'
        ensures armed'[id].path in endpoints' && endpoints'[armed'[id].path].timer == Some(id)
      {
      }
    }
  }

  /** A fired timer that is gone from the sources, with its endpoint's slot cleared while the table exists. */
  lemma FiredTimerGone(tableLive: bool, endpoints: map<Path, Endpoint>, armed: map<nat, ArmedTimer>, nextTimer: nat,
                       id: nat)
    requires Consistent(tableLive, endpoints, armed, nextTimer)
    requires id in armed
    ensures var p := armed[id].path;
      tableLive ==> p in endpoints && endpoints[p].timer == Some(id) &&
                    Cancel(armed, endpoints[p].timer) - {id} == Cancel(armed, endpoints[p].timer) &&
                    Consistent(tableLive, endpoints[p := endpoints[p].(timer := None)], armed - {id}, nextTimer)
    ensures !tableLive ==> Consistent(tableLive, endpoints, armed - {id}, nextTimer)
  {
    var p := armed[id].path;
    if tableLive {
      CancelAndStore(tableLive, endpoints, armed, nextTimer, p, endpoints[p].(timer := None));
      assert Cancel(armed, endpoints[p].timer) == armed - {id};
    }
  }

  /** Appending the `url-removed` of one more key. */
  lemma RemovedOneMore(es: seq<Event>, done: set<Path>, p: Path)
    requires EachRemovedOnce(es, done) && p !in done
    ensures EachRemovedOnce(es + [UrlRemoved(p)], done + {p})
  {
    var es' := es + [UrlRemoved(p)];
    forall q | q in done + {p}
      ensures UrlRemoved(q) in es'
    {
      if q != p {
        var i :| 0 <= i < |es| && es[i] == UrlRemoved(q);
        assert es'[i] == UrlRemoved(q);
      } else {
        assert es'[|es|] == UrlRemoved(p);
      }
    }
  }

  /**
    `g_list_foreach (keys, emit_removed_url_signal, self)`: one `url-removed`
    per key of the table, in the order the table lists them.
  */
  method RemovalSignals(keys: set<Path>) returns (es: seq<Event>)
    ensures EachRemovedOnce(es, keys)
  {
    es := [];
    ghost var done: set<Path> := {};
    var left := keys;
    while left != {}
      invariant left <= keys && done == keys - left
      invariant EachRemovedOnce(es, done)
      decreases |left|
    {
      var p :| p in left;
      RemovedOneMore(es, done, p);
      es := es + [UrlRemoved(p)];
      left := left - {p};
      done := done + {p};
    }
  }

  class HttpEPServer {
    /** `priv->handlers != NULL`: the table exists; `destroy_handlers` clears it for good. */
    var tableLive: bool
    /** The endpoint elements, by registered path; while the table exists its keys are exactly these. */
    var endpoints: map<Path, Endpoint>
    /** Pending expiration timers by source id. */
    var armed: map<nat, ArmedTimer>
    var nextTimer: nat
    var events: seq<Event>
    var sent: seq<Sent>
    /** `priv->server != NULL`; never reset once set. */
    var serverCreated: bool
    var iface: Option<string>
    var announced: AnnouncedAddress

    /** The invariant of the object: its state is `Consistent`. */
    predicate Valid()
      reads this
    {
      Consistent(tableLive, endpoints, armed, nextTimer)
    }

    /**
      `kms_http_ep_server_init`, followed by the construct-time properties:
      the interface, and the announced address, whose NULL default is
      replaced by the first local IPv4 address.
    */
    constructor (iface: Option<string>, announcedValue: Option<string>, ips: seq<LocalIp>)
      ensures Valid()
      ensures tableLive && endpoints == map[] && armed == map[] && events == [] && sent == []
      ensures !serverCreated && this.iface == iface
      ensures announcedValue.Some? ==> announced == Address(announcedValue.value)
      ensures announcedValue.None? ==> announced == PickedAddress(ips)
    {
      var picked: AnnouncedAddress;
      if announcedValue.None? {
        picked := GetAddress(ips);
      } else {
        picked := Address(announcedValue.value);
      }
      tableLive := true;
      endpoints := map[];
      armed := map[];
      nextTimer := 0;
      events := [];
      sent := [];
      serverCreated := false;
      this.iface := iface;
      announced := picked;
    }

    /** Setting `announced-address`: NULL means the first local IPv4 address. */
    method SetAnnouncedAddress(value: Option<string>, ips: seq<LocalIp>)
      modifies this`announced
      ensures value.Some? ==> announced == Address(value.value)
      ensures value.None? ==> announced == PickedAddress(ips)
    {
      if value.None? {
        announced := GetAddress(ips);
      } else {
        announced := Address(value.value);
      }
    }

    /** `kms_http_ep_server_start_impl` and `soup_address_callback`. */
    method Start(resolveStatus: int) returns (o: StartOutcome)
      modifies this`serverCreated
      ensures o == StartDecision(old(serverCreated), iface, resolveStatus)
      ensures serverCreated == (old(serverCreated) || o == Started)
    {
      o := StartDecision(serverCreated, iface, resolveStatus);
      if o == Started {
        serverCreated := true;
      }
    }

    /**
      `kms_http_ep_server_register_end_point_impl` with the UUID path given:
      refused for an element that is not an `httpendpoint` and for a path
      already in the table; once the table is gone the path is returned but
      nothing is stored.
    */
    method RegisterEndPoint(path: Path, isHttpEndpoint: bool, lifetime: uint32, timeout: uint32)
      returns (url: Option<Path>)
      requires Valid()
      modifies this`endpoints
      ensures Valid()
      ensures url.Some? ==> url.value == path
      ensures url.None? <==> !isHttpEndpoint || (old(tableLive) && path in old(endpoints))
      ensures url.Some? && tableLive ==> endpoints == old(endpoints)[path := FreshEndpoint(lifetime, timeout)]
      ensures url.None? || !tableLive ==> endpoints == old(endpoints)
    {
      if !isHttpEndpoint {
        return None;
      }
      if !tableLive {
        return Some(path);
      }
      if path in endpoints {
        return None;
      }
      endpoints := endpoints[path := FreshEndpoint(lifetime, timeout)];
      url := Some(path);
    }

    /**
      `kms_http_ep_server_unregister_end_point_impl`: cancels the timer, tears
      down the bound message, drops the endpoint and emits one `url-removed`.
      A teardown that dereferences NULL leaves the timer cancelled.
    */
    method UnregisterEndPoint(path: Path) returns (r: Result<bool, Fault>)
      requires Valid()
      modifies this`endpoints, this`armed, this`events, this`sent
      ensures Valid()
      ensures !old(tableLive) || path !in old(endpoints) ==>
                r == Success(false) && endpoints == old(endpoints) && armed == old(armed) &&
                events == old(events) && sent == old(sent)
      ensures old(tableLive) && path in old(endpoints) ==>
                var e := old(endpoints)[path];
                armed == Cancel(old(armed), e.timer) &&
                (r.Failure? <==> e.bound.Some? && Teardown(e.bound.value).Failure?) &&
                (r.Failure? ==> r.error == NullDereference && events == old(events) && sent == old(sent) &&
                                endpoints == old(endpoints)[path := e.(timer := None)]) &&
                (r.Success? ==> r.value && endpoints == old(endpoints) - {path} &&
                                events == old(events) + [UrlRemoved(path)] &&
                                sent == old(sent) + (if e.bound.Some? then SentTo(path, Teardown(e.bound.value).value) else []))
    {
      if !tableLive || path !in endpoints {
        return Success(false);
      }
      var e := endpoints[path];
      if e.bound.Some? {
        var t := Teardown(e.bound.value);
        if t.Failure? {
          CancelAndStore(tableLive, endpoints, armed, nextTimer, path, e.(timer := None));
          armed := Cancel(armed, e.timer);
          endpoints := endpoints[path := e.(timer := None)];
          return Failure(t.error);
        }
        sent := sent + SentTo(path, t.value);
      }
      CancelAndDrop(tableLive, endpoints, armed, nextTimer, path);
      armed := Cancel(armed, e.timer);
      endpoints := endpoints - {path};
      events := events + [UrlRemoved(path)];
      r := Success(true);
    }

    /**
      `kms_http_ep_server_destroy_handlers`: one `url-removed` per key, in the
      table's order, then the table is gone.  Timers and bound messages are
      left as they are.
    */
    method DestroyHandlers()
      requires Valid()
      modifies this`tableLive, this`events
      ensures Valid() && !tableLive
      ensures |events| >= |old(events)| && events[..|old(events)|] == old(events)
      ensures EachRemovedOnce(events[|old(events)|..], if old(tableLive) then old(endpoints).Keys else {})
    {
      var keys := if tableLive then endpoints.Keys else {};
      var removed := RemovalSignals(keys);
      events := events + removed;
      assert events[|old(events)|..] == removed;
      tableLive := false;
    }

    /** `kms_http_ep_server_stop_impl`: nothing while no server was ever created. */
    method Stop()
      requires Valid()
      modifies this`tableLive, this`events
      ensures Valid()
      ensures !serverCreated ==> tableLive == old(tableLive) && events == old(events)
      ensures serverCreated ==>
                (!tableLive && |events| >= |old(events)| && events[..|old(events)|] == old(events) &&
                 EachRemovedOnce(events[|old(events)|..], if old(tableLive) then old(endpoints).Keys else {}))
    {
      if !serverCreated {
        return;
      }
      DestroyHandlers();
    }

    /**
      `got_headers_handler`: 404 for a path not in the table, 400 when the
      session check fails; otherwise the timer is cancelled, the new message
      replaces the bound one (whose teardown may fault) and is dispatched on
      its method.
    */
    method GotHeaders(path: Path, m: Method, presented: seq<RequestCookie>, contentType: Option<string>,
                      boundaryParam: Option<seq<byte>>, freshValue: string, now: int)
      returns (r: Result<Response, Fault>)
      requires Valid()
      modifies this`endpoints, this`armed, this`events, this`sent
      ensures Valid()
      ensures !old(tableLive) || path !in old(endpoints) ==>
                r == Success(Response(STATUS_NOT_FOUND, None, None)) &&
                endpoints == old(endpoints) && armed == old(armed) && events == old(events) && sent == old(sent)
      ensures old(tableLive) && path in old(endpoints) ==>
                var e := old(endpoints)[path];
                var s := ManageSession(e.cookie, freshValue, announced, path, e.lifetime, now, presented);
                (!s.accepted ==>
                   r == Success(Response(STATUS_BAD_REQUEST, None, None)) &&
                   endpoints == old(endpoints) && armed == old(armed) && events == old(events) && sent == old(sent)) &&
                (s.accepted ==>
                   armed == Cancel(old(armed), e.timer) &&
                   var e' := e.(cookie := Some(s.stored), timer := None);
                   (r.Failure? <==> e.bound.Some? && Teardown(e.bound.value).Failure?) &&
                   (r.Failure? ==>
                      r.error == NullDereference && endpoints == old(endpoints)[path := e'] &&
                      events == old(events) && sent == old(sent)) &&
                   (r.Success? ==>
                      var b := BindingFor(m, contentType, boundaryParam);
                      endpoints == old(endpoints)[path := e'.(bound := Some(b))] &&
                      r.value.status == StatusFor(m, contentType, boundaryParam) &&
                      r.value.contentType == (if m.Get? then Some(WEBM) else None) &&
                      r.value.setCookie == (if s.issued then Some(s.stored) else None) &&
                      events == old(events) + ActionEvents(path, m) &&
                      sent == old(sent) +
                              (if e.bound.Some? then SentTo(path, Teardown(e.bound.value).value) else []) +
                              (if m.Get? then [Sent(path, StartFlow)] else [])))
    {
      if !tableLive || path !in endpoints {
        return Success(Response(STATUS_NOT_FOUND, None, None));
      }
      var e := endpoints[path];
      var s := AdmitRequest(e.cookie, freshValue, announced, path, e.lifetime, now, presented);
      if !s.accepted {
        return Success(Response(STATUS_BAD_REQUEST, None, None));
      }
      var bound := BindMessage(path, s.stored, m, contentType, boundaryParam);
      if bound.Failure? {
        return Failure(bound.error);
      }
      r := Success(Response(StatusFor(m, contentType, boundaryParam), if m.Get? then Some(WEBM) else None,
                            if s.issued then Some(s.stored) else None));
    }

    /**
      The accepted half of `got_headers_handler`: the cookie is stored, the
      timer cancelled, the bound message torn down and replaced, and the new
      one dispatched on its method.
    */
    method BindMessage(path: Path, cookie: SessionCookie, m: Method, contentType: Option<string>,
                       boundaryParam: Option<seq<byte>>)
      returns (r: Result<(), Fault>)
      requires Valid() && tableLive && path in endpoints
      modifies this`endpoints, this`armed, this`events, this`sent
      ensures Valid()
      ensures var e := old(endpoints)[path];
        var e' := e.(cookie := Some(cookie), timer := None);
        armed == Cancel(old(armed), e.timer) &&
        (r.Failure? <==> e.bound.Some? && Teardown(e.bound.value).Failure?) &&
        (r.Failure? ==>
           r.error == NullDereference && endpoints == old(endpoints)[path := e'] &&
           events == old(events) && sent == old(sent)) &&
        (r.Success? ==>
           endpoints == old(endpoints)[path := e'.(bound := Some(BindingFor(m, contentType, boundaryParam)))] &&
           events == old(events) + ActionEvents(path, m) &&
           sent == old(sent) +
                   (if e.bound.Some? then SentTo(path, Teardown(e.bound.value).value) else []) +
                   (if m.Get? then [Sent(path, StartFlow)] else []))
    {
      var e := endpoints[path];
      var e' := e.(cookie := Some(cookie), timer := None);
      var torn: seq<Command> := [];
      if e.bound.Some? {
        var t := Teardown(e.bound.value);
        if t.Failure? {
          CancelAndStore(tableLive, endpoints, armed, nextTimer, path, e');
          armed := Cancel(armed, e.timer);
          endpoints := endpoints[path := e'];
          return Failure(t.error);
        }
        torn := t.value;
      }
      var b := BindingFor(m, contentType, boundaryParam);
      CancelAndStore(tableLive, endpoints, armed, nextTimer, path, e'.(bound := Some(b)));
      armed := Cancel(armed, e.timer);
      endpoints := endpoints[path := e'.(bound := Some(b))];
      sent := sent + SentTo(path, torn) + (if m.Get? then [Sent(path, StartFlow)] else []);
      events := events + ActionEvents(path, m);
      r := Success(());
    }

    /**
      `finished_get_processing` and `finished_post_processing`: the bound
      message at `path` finishes.  Only a hooked message has the handler.  A
      GET stops the flow, a POST ends the stream; the message is unbound and
      the expiration is scheduled.  This also runs after the table is gone.
    */
    method MessageFinished(path: Path, now: int)
      requires Valid()
      modifies this`endpoints, this`armed, this`nextTimer, this`events, this`sent
      ensures Valid()
      ensures path !in old(endpoints) || old(endpoints)[path].bound.None? || !old(endpoints)[path].bound.value.hooked ==>
                endpoints == old(endpoints) && armed == old(armed) && nextTimer == old(nextTimer) &&
                events == old(events) && sent == old(sent)
      ensures path in old(endpoints) && old(endpoints)[path].bound.Some? && old(endpoints)[path].bound.value.hooked ==>
                var e := old(endpoints)[path];
                var plan := PlanExpiration(e.cookie, e.timeout, now);
                sent == old(sent) + [Sent(path, if e.bound.value.verb.Get? then StopFlow else EndOfStream)] &&
                events == old(events) + (if plan == ExpireNow then [UrlExpired(path)] else []) &&
                (plan.Arm? ==>
                   armed == old(armed)[old(nextTimer) := ArmedTimer(path, TimerMillis(plan.seconds))] &&
                   nextTimer == old(nextTimer) + 1 &&
                   endpoints == old(endpoints)[path := e.(bound := None, timer := Some(old(nextTimer)))]) &&
                (!plan.Arm? ==>
                   armed == old(armed) && nextTimer == old(nextTimer) &&
                   endpoints == old(endpoints)[path := e.(bound := None)])
    {
      if path !in endpoints || endpoints[path].bound.None? || !endpoints[path].bound.value.hooked {
        return;
      }
      var e := endpoints[path];
      sent := sent + [Sent(path, if e.bound.value.verb.Get? then StopFlow else EndOfStream)];
      e := e.(bound := None);
      var plan := PlanExpiration(e.cookie, e.timeout, now);
      match plan
      case NoCookie =>
        assert false;
      case ExpireNow =>
        CancelAndStore(tableLive, endpoints, armed, nextTimer, path, e);
        endpoints := endpoints[path := e];
        events := events + [UrlExpired(path)];
      case Arm(seconds) =>
        ArmFresh(tableLive, endpoints, armed, nextTimer, path, e.(timer := Some(nextTimer)), TimerMillis(seconds));
        armed := armed[nextTimer := ArmedTimer(path, TimerMillis(seconds))];
        endpoints := endpoints[path := e.(timer := Some(nextTimer))];
        nextTimer := nextTimer + 1;
    }

    /**
      `got_chunk_handler`: a chunk arrives for the accepted POST bound at
      `path`; the selected bytes are pushed to the element.  Returns the
      pushed bytes, or `None` when no got-chunk handler is connected.
    */
    method ChunkReceived(path: Path, chunk: seq<byte>) returns (r: Result<Option<seq<byte>>, Fault>)
      requires Valid()
      modifies this`sent
      ensures Valid()
      ensures !(path in endpoints && endpoints[path].bound.Some? && endpoints[path].bound.value.verb.Post? &&
                endpoints[path].bound.value.hooked) ==>
                r == Success(None) && sent == old(sent)
      ensures path in endpoints && endpoints[path].bound.Some? && endpoints[path].bound.value.verb.Post? &&
              endpoints[path].bound.value.hooked ==>
                var payload := SelectPayload(chunk, endpoints[path].bound.value.boundary);
                (r.Failure? <==> payload.Failure?) &&
                (r.Failure? ==> r.error == payload.error && sent == old(sent)) &&
                (r.Success? ==> r.value == Some(payload.value) && sent == old(sent) + [Sent(path, PushBuffer(payload.value))])
    {
      if !(path in endpoints && endpoints[path].bound.Some? && endpoints[path].bound.value.verb.Post? &&
           endpoints[path].bound.value.hooked) {
        return Success(None);
      }
      var data := chunk;
      var boundary := endpoints[path].bound.value.boundary;
      if boundary.Some? {
        var loc := FindContentPart(chunk, boundary.value);
        if loc.Failure? {
          return Failure(loc.error);
        }
        LocatedInChunk(chunk, boundary.value);
        var sl := Slice(chunk, loc.value);
        if sl.Failure? {
          return Failure(sl.error);
        }
        data := sl.value;
      }
      sent := sent + [Sent(path, PushBuffer(data))];
      r := Success(Some(data));
    }

    /**
      `emit_expiration_signal_cb`: the timer reports `url-expired` once for
      its path and is gone; while the table exists the endpoint's timer slot
      is cleared.
    */
    method TimerFired(id: nat)
      requires Valid()
      modifies this`endpoints, this`armed, this`events
      ensures Valid()
      ensures id !in old(armed) ==> endpoints == old(endpoints) && armed == old(armed) && events == old(events)
      ensures id in old(armed) ==>
                var p := old(armed)[id].path;
                events == old(events) + [UrlExpired(p)] &&
                armed == old(armed) - {id} &&
                (tableLive && p in old(endpoints) ==> endpoints == old(endpoints)[p := old(endpoints)[p].(timer := None)]) &&
                (!(tableLive && p in old(endpoints)) ==> endpoints == old(endpoints))
    {
      if id !in armed {
        return;
      }
      var p := armed[id].path;
      FiredTimerGone(tableLive, endpoints, armed, nextTimer, id);
      events := events + [UrlExpired(p)];
      if tableLive && p in endpoints {
        var e := endpoints[p];
        armed := Cancel(armed, e.timer);
        endpoints := endpoints[p := e.(timer := None)];
      }
      armed := armed - {id};
    }
  }
}
