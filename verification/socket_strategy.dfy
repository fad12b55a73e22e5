/**
 * `SocketInternetObservingStrategy`: decides whether the Internet is reachable
 * by opening a TCP socket to a host, on every tick of a timer, and passes on
 * only the ticks whose answer differs from the previous one.
 */
module SocketStrategy {
  import opened Wrappers
  import opened JavaString
  import opened Net
  import opened Distinct

  const DefaultHost: string := "www.google.com"
  const HttpProtocol: string := "http://"
  const HttpsProtocol: string := "https://"
  const CloseErrorMessage: string := "Could not close the socket"

  /** `getDefaultPingHost()`: a host that passes validation and needs no adjusting. */
  function DefaultPingHost(): (r: string)
    ensures r != [] && AdjustHost(r) == r
  {
    assert DefaultHost[0] == 'w';
    DefaultHost
  }

  // ---------------------------------------------------------------------
  // Host normalisation
  // ---------------------------------------------------------------------

  /**
   * `adjustHost(host)`: a host starting with "http://" has every occurrence of
   * "http://" that `String.replace` finds deleted; otherwise a host starting
   * with "https://" has every occurrence of "https://" deleted; any other host
   * is returned unchanged. The result is never longer than the host.
   */
  function AdjustHost(host: string): (r: string)
    ensures |r| <= |host|
    ensures !StartsWith(host, HttpProtocol) && !StartsWith(host, HttpsProtocol) ==> r == host
  {
    if StartsWith(host, HttpProtocol) then RemoveAll(host, HttpProtocol)
    else if StartsWith(host, HttpsProtocol) then RemoveAll(host, HttpsProtocol)
    else host
  }

  /** "http://" followed by a host that does not contain "http://" loses exactly the prefix. */
  lemma AdjustHostStripsHttp(rest: string)
    requires !Contains(rest, HttpProtocol)
    ensures AdjustHost(HttpProtocol + rest) == rest
  {
    assert (HttpProtocol + rest)[..|HttpProtocol|] == HttpProtocol;
    assert [] + HttpProtocol + rest == HttpProtocol + rest;
    RemoveAllLeftmost([], HttpProtocol, rest);
    RemoveAllWithoutOccurrence(rest, HttpProtocol);
  }

  /** "https://" followed by a host that does not contain "https://" loses exactly the prefix. */
  lemma AdjustHostStripsHttps(rest: string)
    requires !Contains(rest, HttpsProtocol)
    ensures !StartsWith(HttpsProtocol + rest, HttpProtocol)
    ensures AdjustHost(HttpsProtocol + rest) == rest
  {
    assert (HttpsProtocol + rest)[4] == 's';
    assert !StartsWith(HttpsProtocol + rest, HttpProtocol);
    assert (HttpsProtocol + rest)[..|HttpsProtocol|] == HttpsProtocol;
    assert [] + HttpsProtocol + rest == HttpsProtocol + rest;
    RemoveAllLeftmost([], HttpsProtocol, rest);
    RemoveAllWithoutOccurrence(rest, HttpsProtocol);
  }

  /**
   * Because `replace` works on the whole string, an occurrence of the protocol
   * further inside the host is deleted too, not only the leading one: with the
   * first inner occurrence right after `u`, "http://" + u + "http://" + v
   * becomes u + v when v holds no further occurrence.
   */
  lemma AdjustHostRemovesInnerOccurrence(u: string, v: string)
    requires forall i :: 0 <= i < |u| ==> !OccursAt(u + HttpProtocol + v, HttpProtocol, i)
    requires !Contains(v, HttpProtocol)
    ensures AdjustHost(HttpProtocol + u + HttpProtocol + v) == u + v
  {
    var h := HttpProtocol + u + HttpProtocol + v;
    assert h[..|HttpProtocol|] == HttpProtocol;
    assert h == [] + HttpProtocol + (u + HttpProtocol + v);
    RemoveAllLeftmost([], HttpProtocol, u + HttpProtocol + v);
    RemoveAllLeftmost(u, HttpProtocol, v);
    RemoveAllWithoutOccurrence(v, HttpProtocol);
  }

  /**
   * One scan can join two fragments into a new "http://", so adjusting an
   * adjusted host may change it again: adjusting must happen exactly once.
   */
  lemma AdjustHostNotIdempotent(x: string)
    requires !Contains(x, HttpProtocol)
    ensures AdjustHost(HttpProtocol + "ht" + HttpProtocol + "tp://" + x) == HttpProtocol + x
    ensures AdjustHost(HttpProtocol + x) == x
  {
    var tail := "tp://" + x;
    assert !Contains(tail, HttpProtocol) by {
      forall i | 0 <= i <= |tail| - |HttpProtocol| ensures !OccursAt(tail, HttpProtocol, i) {
        if i < 5 {
          assert tail[i] != 'h';
          assert tail[i..i + |HttpProtocol|][0] == tail[i];
        } else {
          assert tail[i..i + |HttpProtocol|] == x[i - 5..i - 5 + |HttpProtocol|];
          assert !OccursAt(x, HttpProtocol, i - 5);
        }
      }
    }
    var u := "ht";
    var mid := u + HttpProtocol + tail;
    assert !OccursAt(mid, HttpProtocol, 0) by { assert mid[2] == 'h'; }
    assert !OccursAt(mid, HttpProtocol, 1) by { assert mid[1] == 't'; }
    assert HttpProtocol + "ht" + HttpProtocol + "tp://" + x == HttpProtocol + u + HttpProtocol + tail;
    AdjustHostRemovesInnerOccurrence(u, tail);
    assert u + tail == HttpProtocol + x;
    AdjustHostStripsHttp(x);
  }

  /** A host that is only a protocol is adjusted to the empty string. */
  lemma ProtocolOnlyHostAdjustsToEmpty()
    ensures AdjustHost(HttpProtocol) == []
    ensures AdjustHost(HttpsProtocol) == []
  {
    assert HttpProtocol == [] + HttpProtocol + [];
    RemoveAllLeftmost([], HttpProtocol, []);
    assert HttpsProtocol[4] == 's';
    assert HttpsProtocol == [] + HttpsProtocol + [];
    RemoveAllLeftmost([], HttpsProtocol, []);
  }

  // ---------------------------------------------------------------------
  // Argument validation
  // ---------------------------------------------------------------------

  /** The arguments of `observeInternetConnectivity`; `None` and `null` stand for Java's null. */
  datatype Arguments = Arguments(
    initialIntervalInMs: int32,
    intervalInMs: int32,
    host: Option<string>,
    port: int32,
    timeoutInMs: int32,
    errorHandler: ErrorHandler?)

  /** The six argument checks. */
  datatype Check =
    | InitialIntervalNotNegative
    | IntervalPositive
    | HostNotNullOrEmpty
    | PortPositive
    | TimeoutPositive
    | ErrorHandlerNotNull

  /** The position of a check in the order the source performs them. */
  function Rank(c: Check): nat
  {
    match c
    case InitialIntervalNotNegative => 0
    case IntervalPositive => 1
    case HostNotNullOrEmpty => 2
    case PortPositive => 3
    case TimeoutPositive => 4
    case ErrorHandlerNotNull => 5
  }

  predicate Passes(c: Check, a: Arguments)
  {
    match c
    case InitialIntervalNotNegative => a.initialIntervalInMs >= 0
    case IntervalPositive => a.intervalInMs > 0
    case HostNotNullOrEmpty => a.host.Some? && a.host.value != []
    case PortPositive => a.port > 0
    case TimeoutPositive => a.timeoutInMs > 0
    case ErrorHandlerNotNull => a.errorHandler != null
  }

  /** Every check passes. */
  predicate ValidArguments(a: Arguments)
  {
    && Passes(InitialIntervalNotNegative, a)
    && Passes(IntervalPositive, a)
    && Passes(HostNotNullOrEmpty, a)
    && Passes(PortPositive, a)
    && Passes(TimeoutPositive, a)
    && Passes(ErrorHandlerNotNull, a)
  }

  /**
   * The check that rejects the call, if any: the arguments are rejected exactly
   * when some check fails, and then by the first failing check in source order.
   */
  function FirstFailure(a: Arguments): (r: Option<Check>)
    ensures r.None? <==> ValidArguments(a)
    ensures r.Some? ==> !Passes(r.value, a)
    ensures r.Some? ==> forall c :: Rank(c) < Rank(r.value) ==> Passes(c, a)
  {
    if a.initialIntervalInMs < 0 then Some(InitialIntervalNotNegative)
    else if a.intervalInMs <= 0 then Some(IntervalPositive)
    else if a.host.None? || a.host.value == [] then Some(HostNotNullOrEmpty)
    else if a.port <= 0 then Some(PortPositive)
    else if a.timeoutInMs <= 0 then Some(TimeoutPositive)
    else if a.errorHandler == null then Some(ErrorHandlerNotNull)
    else None
  }

  /** What one accepted call of `observeInternetConnectivity` probes on every tick. */
  datatype Subscription = Subscription(
    initialIntervalInMs: int32,
    intervalInMs: int32,
    host: string,
    port: int32,
    timeoutInMs: int32,
    errorHandler: ErrorHandler)

  /**
   * The synchronous part of `observeInternetConnectivity`: the checks, then the
   * host adjusted once; port, timeout and handler are passed on unchanged.
   */
  function Subscribe(a: Arguments): (r: Result<Subscription, Check>)
    ensures r.Failure? <==> !ValidArguments(a)
    ensures r.Failure? ==> FirstFailure(a) == Some(r.error)
    ensures r.Success? ==>
      && a.host.Some?
      && r.value.host == AdjustHost(a.host.value)
      && r.value.initialIntervalInMs == a.initialIntervalInMs >= 0
      && r.value.intervalInMs == a.intervalInMs > 0
      && r.value.port == a.port > 0
      && r.value.timeoutInMs == a.timeoutInMs > 0
      && r.value.errorHandler == a.errorHandler
  {
    match FirstFailure(a)
    case Some(c) => Failure(c)
    case None =>
      assert Passes(HostNotNullOrEmpty, a) && Passes(ErrorHandlerNotNull, a);
      Success(Subscription(a.initialIntervalInMs, a.intervalInMs, AdjustHost(a.host.value),
                           a.port, a.timeoutInMs, a.errorHandler))
  }

  /**
   * The host check only asks for a non-empty host, so a host of just
   * "http://" or "https://" is accepted and every tick then probes the empty
   * host name.
   */
  lemma SubscribeAcceptsProtocolOnlyHost(a: Arguments)
    requires a.host == Some(HttpProtocol) || a.host == Some(HttpsProtocol)
    requires a.initialIntervalInMs >= 0 && a.intervalInMs > 0 && a.port > 0 && a.timeoutInMs > 0
    requires a.errorHandler != null
    ensures Subscribe(a).Success? && Subscribe(a).value.host == []
  {
    ProtocolOnlyHostAdjustsToEmpty();
  }

  // ---------------------------------------------------------------------
  // The probe
  // ---------------------------------------------------------------------

  /** What `handleError` receives while releasing a socket in the given state. */
  function CloseReports(closed: bool, b: SocketBehaviour): seq<Report>
  {
    match CloseOutcome(closed, b)
    case Some(e) => [Report(e, CloseErrorMessage)]
    case None => []
  }

  /**
   * `isConnected(socket, host, port, timeoutInMs, errorHandler)`: connects,
   * reads the connected state, and closes the socket on every path. A failed
   * connect yields false and is not passed on; a failed close is handed to the
   * error handler once, with the fixed message, and does not change the result.
   */
  method IsConnectedOn(socket: Socket, host: string, port: int32, timeoutInMs: int32, errorHandler: ErrorHandler)
    returns (isConnected: bool)
    modifies socket, errorHandler
    ensures isConnected == ConnectOutcome(old(socket.connected), old(socket.closed), socket.behaviour).None?
    ensures isConnected ==> socket.IsConnected()
    ensures socket.attempts == old(socket.attempts) + [ConnectAttempt(Endpoint(host, port), timeoutInMs)]
    ensures socket.closeCalls == old(socket.closeCalls) + 1
    ensures socket.connected == (old(socket.connected) || isConnected)
    ensures socket.closed == (old(socket.closed) || CloseOutcome(old(socket.closed), socket.behaviour).None?)
    ensures errorHandler.reports == old(errorHandler.reports) + CloseReports(old(socket.closed), socket.behaviour)
  {
    var connectFailure := socket.Connect(Endpoint(host, port), timeoutInMs);
    if connectFailure.None? {
      isConnected := socket.IsConnected();
    } else {
      isConnected := false;
    }
    var closeFailure := socket.Close();
    if closeFailure.Some? {
      errorHandler.HandleError(closeFailure.value, CloseErrorMessage);
    }
  }

  /**
   * `isConnected(host, port, timeoutInMs, errorHandler)`: the same probe on a new
   * socket, whose network outcomes are `behaviour`. It returns true exactly when
   * connecting does not fail.
   */
  method IsConnected(host: string, port: int32, timeoutInMs: int32, errorHandler: ErrorHandler, behaviour: SocketBehaviour)
    returns (isConnected: bool, socket: Socket)
    modifies errorHandler
    ensures fresh(socket) && socket.behaviour == behaviour
    ensures isConnected == behaviour.connectFailure.None?
    ensures socket.attempts == [ConnectAttempt(Endpoint(host, port), timeoutInMs)] && socket.closeCalls == 1
    ensures socket.connected == isConnected && socket.closed == behaviour.closeFailure.None?
    ensures errorHandler.reports == old(errorHandler.reports) + CloseReports(false, behaviour)
  {
    socket := new Socket(behaviour);
    isConnected := IsConnectedOn(socket, host, port, timeoutInMs, errorHandler);
  }

  // ---------------------------------------------------------------------
  // The polling pipeline
  // ---------------------------------------------------------------------

  /** The raw per-tick results, one new socket per tick. */
  function TickResults(ticks: seq<SocketBehaviour>): seq<bool>
  {
    seq(|ticks|, i requires 0 <= i < |ticks| => ticks[i].connectFailure.None?)
  }

  /** Everything the error handler receives over the ticks, in tick order. */
  function TickReports(ticks: seq<SocketBehaviour>): seq<Report>
  {
    if ticks == [] then []
    else TickReports(ticks[..|ticks| - 1]) + CloseReports(false, ticks[|ticks| - 1])
  }

  /**
   * `observeInternetConnectivity` over a finite run of ticks, `ticks[i]` being
   * what the network does to the socket of tick i. Invalid arguments are
   * rejected by the first failing check before anything else happens.
   * Otherwise every tick probes the once-adjusted host with the unchanged port,
   * timeout and handler on a socket of its own, and the emitted values are the
   * tick results with consecutive duplicates collapsed.
   */
  method ObserveInternetConnectivity(a: Arguments, ticks: seq<SocketBehaviour>)
    returns (r: Result<seq<bool>, Check>, sockets: seq<Socket>)
    modifies a.errorHandler
    ensures r.Failure? <==> !ValidArguments(a)
    ensures r.Failure? ==> FirstFailure(a) == Some(r.error) && sockets == []
    ensures r.Failure? && a.errorHandler != null ==> unchanged(a.errorHandler)
    ensures r.Success? ==>
      && a.host.Some? && a.errorHandler != null
      && r.value == Collapse(TickResults(ticks))
      && |sockets| == |ticks|
      && (forall i :: 0 <= i < |ticks| ==>
            && fresh(sockets[i])
            && sockets[i].behaviour == ticks[i]
            && sockets[i].attempts == [ConnectAttempt(Endpoint(AdjustHost(a.host.value), a.port), a.timeoutInMs)]
            && sockets[i].closeCalls == 1
            && sockets[i].connected == ticks[i].connectFailure.None?
            && sockets[i].closed == ticks[i].closeFailure.None?
            && TickResults(ticks)[i] == sockets[i].connected)
      && (forall i, j :: 0 <= i < j < |ticks| ==> sockets[i] != sockets[j])
      && a.errorHandler.reports == old(a.errorHandler.reports) + TickReports(ticks)
  {
    sockets := [];
    var subscription := Subscribe(a);
    if subscription.Failure? {
      return Failure(subscription.error), sockets;
    }
    var s := subscription.value;
    var raw: seq<bool> := [];
    for i := 0 to |ticks|
      invariant |sockets| == i
      invariant raw == TickResults(ticks[..i])
      invariant s.errorHandler.reports == old(s.errorHandler.reports) + TickReports(ticks[..i])
      invariant forall j :: 0 <= j < i ==>
        && fresh(sockets[j])
        && sockets[j].behaviour == ticks[j]
        && sockets[j].attempts == [ConnectAttempt(Endpoint(s.host, s.port), s.timeoutInMs)]
        && sockets[j].closeCalls == 1
        && sockets[j].connected == ticks[j].connectFailure.None?
        && sockets[j].closed == ticks[j].closeFailure.None?
      invariant forall j, k :: 0 <= j < k < i ==> sockets[j] != sockets[k]
    {
      var isConnected, socket := IsConnected(s.host, s.port, s.timeoutInMs, s.errorHandler, ticks[i]);
      raw := raw + [isConnected];
      sockets := sockets + [socket];
      assert ticks[..i + 1][..i] == ticks[..i];
    }
    assert ticks[..|ticks|] == ticks;
    var emitted := DistinctUntilChanged(raw);
    r := Success(emitted);
  }
}
