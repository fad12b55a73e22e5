# ReactiveNetwork socket reachability strategy, modelled in Dafny

This project models `SocketInternetObservingStrategy` from ReactiveNetwork. The
strategy decides whether the Internet is reachable by opening a TCP socket to a
host on every tick of a timer, and it emits a boolean only when the answer
changes. The model covers:

- host normalisation (`adjustHost`), built on Java's `startsWith` and
  `String.replace(target, "")`;
- the six argument checks of `observeInternetConnectivity`;
- both `isConnected` overloads, over an abstract socket and an error handler
  that records its calls;
- the tick → probe → `distinctUntilChanged` pipeline, over a finite run of ticks;
- `getDefaultPingHost`.

Files:

- `wrappers.dfy`: `Option` and `Result`.
- `java_string.dfy`: `StartsWith`, `Contains`, and `RemoveAll`, which is
  `s.replace(target, "")`.
- `net.dfy`: Java `int` (`int32`), `IOException`, the `Socket` class and the
  `ErrorHandler` class.
- `distinct.dfy`: `Collapse`, the specification of `distinctUntilChanged`, and
  `DistinctUntilChanged`, the loop that keeps the last value seen.
- `socket_strategy.dfy`: the strategy itself.

The network is an oracle. Each socket carries a `SocketBehaviour` saying whether
`connect` throws and whether `close` throws, and with which exception. A run of
the timer is a sequence of such behaviours, one per tick. Each tick gets a new
socket.

The socket follows `java.net.Socket`:

- `connected` and `closed` are separate flags, and closing a connected socket
  leaves it reporting connected;
- `connect` on a closed socket throws "Socket is closed", and on a connected one
  "already connected";
- `close` on a closed socket does nothing;
- a socket whose release throws stays open.

`adjustHost` reads like a prefix strip, but `String.replace`
(SocketInternetObservingStrategy.java:79,81) deletes every occurrence of the
protocol that one left-to-right scan finds, and the model does the same. `AdjustHostRemovesInnerOccurrence` shows an inner
occurrence being deleted. `AdjustHostNotIdempotent` shows that one scan can join
two fragments into a new `"http://"`, so adjusting twice differs from adjusting once.

## Model

| member | source | states |
|---|---|---|
| `JavaString.RemoveAll` | library/src/main/java/com/github/pwittchen/reactivenetwork/library/internet/observing/strategy/SocketInternetObservingStrategy.java:79-81 | `replace(protocol, "")` never makes the host longer |
| `JavaString.RemoveAllWithoutOccurrence` | library/src/main/java/com/github/pwittchen/reactivenetwork/library/internet/observing/strategy/SocketInternetObservingStrategy.java:79-81 | a string that does not contain the target comes back from `replace` unchanged |
| `JavaString.RemoveAllLeftmost` | library/src/main/java/com/github/pwittchen/reactivenetwork/library/internet/observing/strategy/SocketInternetObservingStrategy.java:79-81 | `replace` deletes the leftmost occurrence, keeps what precedes it, and continues scanning after it |
| `SocketStrategy.AdjustHost` | library/src/main/java/com/github/pwittchen/reactivenetwork/library/internet/observing/strategy/SocketInternetObservingStrategy.java:77-84 | a host starting with neither "http://" nor "https://" is returned unchanged; the result is never longer than the host |
| `SocketStrategy.AdjustHostStripsHttp` | library/src/main/java/com/github/pwittchen/reactivenetwork/library/internet/observing/strategy/SocketInternetObservingStrategy.java:78-79 | "http://" + r, with r not containing "http://", becomes r |
| `SocketStrategy.AdjustHostStripsHttps` | library/src/main/java/com/github/pwittchen/reactivenetwork/library/internet/observing/strategy/SocketInternetObservingStrategy.java:80-81 | "https://" + r, with r not containing "https://", becomes r; such a host does not take the "http://" branch |
| `SocketStrategy.AdjustHostRemovesInnerOccurrence` | library/src/main/java/com/github/pwittchen/reactivenetwork/library/internet/observing/strategy/SocketInternetObservingStrategy.java:78-79 | an inner "http://" is deleted as well as the leading one: "http://" + u + "http://" + v becomes u + v |
| `SocketStrategy.AdjustHostNotIdempotent` | library/src/main/java/com/github/pwittchen/reactivenetwork/library/internet/observing/strategy/SocketInternetObservingStrategy.java:63 | adjusting "http://ht" + "http://tp://" + x gives "http://" + x, and adjusting that again gives x, so the host must be adjusted exactly once |
| `SocketStrategy.ProtocolOnlyHostAdjustsToEmpty` | library/src/main/java/com/github/pwittchen/reactivenetwork/library/internet/observing/strategy/SocketInternetObservingStrategy.java:78-82 | a host of just "http://" or of just "https://" is adjusted to the empty string |
| `SocketStrategy.SubscribeAcceptsProtocolOnlyHost` | library/src/main/java/com/github/pwittchen/reactivenetwork/library/internet/observing/strategy/SocketInternetObservingStrategy.java:58-63 | such a host passes the non-empty check, so the call is accepted and every tick probes the empty host name |
| `SocketStrategy.DefaultPingHost` | library/src/main/java/com/github/pwittchen/reactivenetwork/library/internet/observing/strategy/SocketInternetObservingStrategy.java:73-75 | the default host is non-empty and needs no adjusting |
| `SocketStrategy.FirstFailure` | library/src/main/java/com/github/pwittchen/reactivenetwork/library/internet/observing/strategy/SocketInternetObservingStrategy.java:55-61 | the call is rejected exactly when one of the six checks fails; the rejecting check fails and every check before it in source order passes |
| `SocketStrategy.Subscribe` | library/src/main/java/com/github/pwittchen/reactivenetwork/library/internet/observing/strategy/SocketInternetObservingStrategy.java:55-63 | invalid arguments give the first failing check; valid ones give the host adjusted once, with interval, port, timeout and handler passed on unchanged |
| `SocketStrategy.IsConnectedOn` | library/src/main/java/com/github/pwittchen/reactivenetwork/library/internet/observing/strategy/SocketInternetObservingStrategy.java:111-127 | the result is false exactly when `connect` throws, and the socket then reports connected when it is true; one connect attempt to (host, port) with the timeout; `close` is called exactly once; the socket reports connected afterwards exactly when it already did or the result is true; it is closed afterwards exactly when it already was or `close` did not throw; the handler gets exactly the close exception with "Could not close the socket" when `close` throws, and nothing otherwise |
| `SocketStrategy.IsConnected` | library/src/main/java/com/github/pwittchen/reactivenetwork/library/internet/observing/strategy/SocketInternetObservingStrategy.java:95-99 | a new socket is probed; the result is true exactly when connecting does not fail, and the socket reports connected exactly then; the socket ends closed exactly when closing does not fail; its close failure, if any, is reported once |
| `SocketStrategy.ObserveInternetConnectivity` | library/src/main/java/com/github/pwittchen/reactivenetwork/library/internet/observing/strategy/SocketInternetObservingStrategy.java:52-71 | invalid arguments are rejected by the first failing check, with no socket opened and the handler untouched; otherwise every tick gets its own new socket, distinct from every other tick's, that attempts the once-adjusted host with the unchanged port and timeout and is closed once; a tick's raw result is true exactly when its socket connected, that is, when connecting did not fail; the emissions are the raw results with consecutive duplicates collapsed; the handler receives the close failures in tick order |
| `Distinct.Collapse` | library/src/main/java/com/github/pwittchen/reactivenetwork/library/internet/observing/strategy/SocketInternetObservingStrategy.java:70 | never more emissions than ticks; the first tick's result is always the first emission |
| `Distinct.CollapseLast` | library/src/main/java/com/github/pwittchen/reactivenetwork/library/internet/observing/strategy/SocketInternetObservingStrategy.java:70 | the latest emission always equals the latest tick's result |
| `Distinct.CollapseNoRepeats` | library/src/main/java/com/github/pwittchen/reactivenetwork/library/internet/observing/strategy/SocketInternetObservingStrategy.java:70 | no two consecutive emissions are equal |
| `Distinct.CollapseSnoc` | library/src/main/java/com/github/pwittchen/reactivenetwork/library/internet/observing/strategy/SocketInternetObservingStrategy.java:70 | a new tick is emitted exactly when its result differs from the previous tick's, or it is the first tick |
| `Distinct.CollapsePrefix` | library/src/main/java/com/github/pwittchen/reactivenetwork/library/internet/observing/strategy/SocketInternetObservingStrategy.java:65-70 | emissions are never retracted: what was emitted after the first i ticks is a prefix of what is emitted later, so the emission order follows the tick order |
| `Distinct.CollapseIdentity` | library/src/main/java/com/github/pwittchen/reactivenetwork/library/internet/observing/strategy/SocketInternetObservingStrategy.java:70 | a run with no repeated adjacent results is emitted in full |
| `Distinct.CollapseFixpoint` | library/src/main/java/com/github/pwittchen/reactivenetwork/library/internet/observing/strategy/SocketInternetObservingStrategy.java:70 | collapsing leaves a run unchanged exactly when it has no repeated adjacent results, so collapsing twice equals collapsing once |
| `Distinct.DistinctUntilChanged` | library/src/main/java/com/github/pwittchen/reactivenetwork/library/internet/observing/strategy/SocketInternetObservingStrategy.java:70 | the loop that keeps the last value seen emits exactly the collapsed run |
| `Net.Socket.constructor` | library/src/main/java/com/github/pwittchen/reactivenetwork/library/internet/observing/strategy/SocketInternetObservingStrategy.java:97 | a new socket is unconnected and open, and has not been used |
| `Net.Socket.Connect` | library/src/main/java/com/github/pwittchen/reactivenetwork/library/internet/observing/strategy/SocketInternetObservingStrategy.java:115 | `connect` throws on a closed or connected socket, and otherwise throws as the network says; the socket is connected afterwards exactly when it was already connected or the call did not throw; the attempt is recorded |
| `Net.Socket.Close` | library/src/main/java/com/github/pwittchen/reactivenetwork/library/internet/observing/strategy/SocketInternetObservingStrategy.java:121 | `close` does nothing on a closed socket, and otherwise throws as the network says; the socket is closed afterwards unless the call threw; the call is counted |
| `Net.ErrorHandler.HandleError` | library/src/main/java/com/github/pwittchen/reactivenetwork/library/internet/observing/strategy/SocketInternetObservingStrategy.java:123 | each call appends exactly one (exception, message) report |

## Left out

- Timing and scheduling. The delays of `Observable.interval`, the `Schedulers.io()` worker, fixed-rate ticking and cancellation are not modelled. A run is a finite sequence of ticks.
- Emission timing. The model probes every tick first and then collapses the results. `CollapsePrefix` shows that collapsing tick by tick gives the same emissions in the same order.
- Real networking. Address construction, DNS resolution and the connect timeout itself are replaced by the per-socket oracle. The timeout is only recorded in the connect attempt.
- Port range. A port above 65535 passes the argument checks. At the first tick, `new InetSocketAddress` (SocketInternetObservingStrategy.java:115) would then throw an unchecked `IllegalArgumentException`. The `catch (IOException e)` at line 117 does not catch it, so it would leave `isConnected` after the `finally` block and reach the `map` stage (lines 66-69), which would end the stream with an error. This is not modelled, because address construction and RxJava's error handling are outside the model.
- Unchecked exceptions. Exceptions from `connect` that are not `IOException`s, such as a `SecurityException`, would escape the probe. They are not modelled.
- The `Preconditions` helper. Its exception types and messages are not modelled. A rejection is reported as the `Check` that failed.
- `SocketStrategy.IsConnectedOn`: takes a non-null error handler. Calling the protected overload directly with a null handler, and then having `close` throw, would raise a `NullPointerException`; this is not modelled.
- `JavaString.RemoveAll`: requires a non-empty target. Java's special handling of an empty target is never reached, because only the two protocol constants are passed.
- The walled-garden strategy. `WalledGardenInternetObservingStrategy` is a separate class, and its implementation is not part of this model.
- Test scaffolding. Mockito spies and stubs (for example a stubbed `connect` that does nothing) and `toBlocking().first()` are not modelled.
