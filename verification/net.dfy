/**
 * The collaborators the socket strategy talks to: a TCP socket whose outcomes
 * are given up front, and the library's `ErrorHandler` callback, which records
 * what it was handed.
 */
module Net {
  import opened Wrappers

  /** Java `int`. */
  newtype int32 = x: int | -0x8000_0000 <= x < 0x8000_0000

  /**
   * An `IOException`. `SocketClosed` and `AlreadyConnected` are the
   * `SocketException`s a socket raises itself when asked to connect in the
   * wrong state; `IoFault(id)` is any other failure, told apart by `id`.
   */
  datatype IOException = SocketClosed | AlreadyConnected | IoFault(id: nat)

  /** An `InetSocketAddress`: a host name and a port, never resolved here. */
  datatype Endpoint = Endpoint(host: string, port: int32)

  /** One call of `connect(endpoint, timeoutInMs)`. */
  datatype ConnectAttempt = ConnectAttempt(endpoint: Endpoint, timeoutInMs: int32)

  /**
   * What the network does to one socket: whether connecting fails (and with
   * what) and whether releasing it fails (and with what).
   */
  datatype SocketBehaviour = SocketBehaviour(connectFailure: Option<IOException>, closeFailure: Option<IOException>)

  /** What `connect` throws on a socket in the given state. */
  function ConnectOutcome(connected: bool, closed: bool, b: SocketBehaviour): Option<IOException>
  {
    if closed then Some(SocketClosed)
    else if connected then Some(AlreadyConnected)
    else b.connectFailure
  }

  /** What `close` throws on a socket in the given state; closing twice is a no-op. */
  function CloseOutcome(closed: bool, b: SocketBehaviour): Option<IOException>
  {
    if closed then None else b.closeFailure
  }

  /**
   * A `java.net.Socket`. As in Java, `connected` and `closed` are separate
   * flags: closing a connected socket leaves it reporting connected.
   * `attempts` and `closeCalls` record how the socket was used.
   */
  class Socket {
    const behaviour: SocketBehaviour
    var connected: bool
    var closed: bool
    var attempts: seq<ConnectAttempt>
    var closeCalls: nat

    /** `new Socket()`: unconnected and open. */
    constructor (behaviour: SocketBehaviour)
      ensures this.behaviour == behaviour
      ensures !connected && !closed && attempts == [] && closeCalls == 0
    {
      this.behaviour := behaviour;
      connected, closed := false, false;
      attempts, closeCalls := [], 0;
    }

    /** `connect(endpoint, timeoutInMs)`; a returned failure stands for a thrown `IOException`. */
    method Connect(endpoint: Endpoint, timeoutInMs: int32) returns (failure: Option<IOException>)
      modifies this
      ensures failure == ConnectOutcome(old(connected), old(closed), behaviour)
      ensures connected == (old(connected) || failure.None?)
      ensures closed == old(closed) && closeCalls == old(closeCalls)
      ensures attempts == old(attempts) + [ConnectAttempt(endpoint, timeoutInMs)]
    {
      attempts := attempts + [ConnectAttempt(endpoint, timeoutInMs)];
      failure := ConnectOutcome(connected, closed, behaviour);
      if failure.None? {
        connected := true;
      }
    }

    /** `isConnected()`. */
    predicate IsConnected()
      reads this
    {
      connected
    }

    /** `close()`; if releasing the socket fails, it stays open. */
    method Close() returns (failure: Option<IOException>)
      modifies this
      ensures failure == CloseOutcome(old(closed), behaviour)
      ensures closed == (old(closed) || failure.None?)
      ensures closeCalls == old(closeCalls) + 1
      ensures connected == old(connected) && attempts == old(attempts)
    {
      closeCalls := closeCalls + 1;
      failure := CloseOutcome(closed, behaviour);
      if failure.None? {
        closed := true;
      }
    }
  }

  /** One `handleError(exception, message)` call. */
  datatype Report = Report(exception: IOException, message: string)

  /** The library's `ErrorHandler`: every call is appended to `reports`. */
  class ErrorHandler {
    var reports: seq<Report>

    constructor ()
      ensures reports == []
    {
      reports := [];
    }

    method HandleError(exception: IOException, message: string)
      modifies this
      ensures reports == old(reports) + [Report(exception, message)]
    {
      reports := reports + [Report(exception, message)];
    }
  }
}
