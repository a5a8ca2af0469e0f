/**
  Start-up of the server: the announced address picked from the host's local
  addresses, the decision `start` takes, and the error reported when the
  interface name does not resolve.
*/
module Bootstrap {
  import opened Wrappers

  /** `GSocketFamily` of a parsed address. */
  datatype Family = FamilyInvalid | FamilyUnix | FamilyIPv6 | FamilyIPv4

  /** One local address as text, with its family, or `None` when `g_inet_address_new_from_string` fails. */
  datatype LocalIp = LocalIp(text: string, family: Option<Family>)

  /**
    The announced address: unset (NULL), an address, or the value of an
    uninitialised pointer when no local address is IPv4.
  */
  datatype AnnouncedAddress = NoAddress | Address(text: string) | Indeterminate

  predicate IsIPv4(ip: LocalIp)
  {
    ip.family == Some(FamilyIPv4)
  }

  /** The position of the first IPv4 address in the list, if there is one. */
  function FirstIPv4(ips: seq<LocalIp>): (r: Option<nat>)
    ensures r.Some? ==> r.value < |ips| && IsIPv4(ips[r.value])
    ensures r.Some? ==> forall j :: 0 <= j < r.value ==> !IsIPv4(ips[j])
    ensures r.None? ==> forall j :: 0 <= j < |ips| ==> !IsIPv4(ips[j])
  {
    if |ips| == 0 then None
    else if IsIPv4(ips[0]) then Some(0)
    else
      match FirstIPv4(ips[1..])
      case None => None
      case Some(k) => Some(k + 1)
  }

  /** The address `get_address` returns: the first IPv4 entry's text, or garbage. */
  function PickedAddress(ips: seq<LocalIp>): (a: AnnouncedAddress)
    ensures a != NoAddress
    ensures a.Address? ==> exists i :: 0 <= i < |ips| && IsIPv4(ips[i]) && ips[i].text == a.text &&
                                       forall j :: 0 <= j < i ==> !IsIPv4(ips[j])
    ensures a == Indeterminate <==> forall i :: 0 <= i < |ips| ==> !IsIPv4(ips[i])
  {
    match FirstIPv4(ips)
    case Some(i) => Address(ips[i].text)
    case None => Indeterminate
  }

  /**
    `get_address`: walks the local addresses until one parses as IPv4,
    passing over unparsable, Unix, invalid and IPv6 entries.
  */
  method GetAddress(ips: seq<LocalIp>) returns (r: AnnouncedAddress)
    ensures r == PickedAddress(ips)
    ensures r.Address? ==> exists i :: 0 <= i < |ips| && IsIPv4(ips[i]) && ips[i].text == r.text
    ensures r == Indeterminate <==> forall i :: 0 <= i < |ips| ==> !IsIPv4(ips[i])
  {
    r := Indeterminate;
    var done := false;
    var i := 0;
    while i < |ips| && !done
      invariant 0 <= i <= |ips|
      invariant done ==> 0 < i && FirstIPv4(ips) == Some(i - 1) && r == Address(ips[i - 1].text)
      invariant !done ==> r == Indeterminate && forall j :: 0 <= j < i ==> !IsIPv4(ips[j])
      decreases |ips| - i
    {
      // an unparsable entry is passed over like an unwanted family
      if ips[i].family == Some(FamilyIPv4) {
        r := Address(ips[i].text);
        done := true;
      }
      i := i + 1;
    }
  }

  /** libsoup status codes seen by the resolution callback. */
  const SOUP_STATUS_CANCELLED: int := 1
  const SOUP_STATUS_CANT_RESOLVE: int := 2
  const SOUP_STATUS_OK: int := 200

  /** The `KmsHttpEPServerError` codes passed to the start callback. */
  datatype StartError = ResolveCanceled | CantResolve | Unexpected

  /** `soup_address_callback`: the error, if any, that a resolution status maps to. */
  function ResolutionError(status: int): (e: Option<StartError>)
    ensures e.None? <==> status == SOUP_STATUS_OK
    ensures e == Some(ResolveCanceled) <==> status == SOUP_STATUS_CANCELLED
    ensures e == Some(CantResolve) <==> status == SOUP_STATUS_CANT_RESOLVE
    ensures e == Some(Unexpected) <==> status !in {SOUP_STATUS_OK, SOUP_STATUS_CANCELLED, SOUP_STATUS_CANT_RESOLVE}
  {
    if status == SOUP_STATUS_OK then None
    else if status == SOUP_STATUS_CANCELLED then Some(ResolveCanceled)
    else if status == SOUP_STATUS_CANT_RESOLVE then Some(CantResolve)
    else Some(Unexpected)
  }

  /** What a call to `start` comes to. */
  datatype StartOutcome =
    | AlreadyRunning             // a warning; the callback is not called
    | Started                    // server created; callback called without error
    | StartFailed(error: StartError)  // no server; callback called with the error

  /**
    `kms_http_ep_server_start_impl` with the resolution collapsed into its
    final status: no interface means listening on all interfaces at once,
    otherwise the interface name is resolved first.
  */
  function StartDecision(serverCreated: bool, iface: Option<string>, resolveStatus: int): (o: StartOutcome)
    ensures serverCreated <==> o == AlreadyRunning
    ensures !serverCreated && iface.None? ==> o == Started
    ensures !serverCreated && iface.Some? ==>
              (o == Started <==> resolveStatus == SOUP_STATUS_OK) &&
              (o.StartFailed? ==> ResolutionError(resolveStatus) == Some(o.error))
  {
    if serverCreated then AlreadyRunning
    else if iface.None? then Started
    else
      match ResolutionError(resolveStatus)
      case None => Started
      case Some(e) => StartFailed(e)
  }
}
