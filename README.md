# EtcdRegister lease lifecycle, modelled in Dafny

This project models how the `memento` service registry publishes one service
instance in etcd:

- **Endpoint.** The `Endpoint` record and `NewEndpoint`, which fills in the
  IP text and the port. The record's JSON encoding is reduced to which
  fields `omitempty` keeps.
- **Key.** `endpointPath`: the service name with every `/` replaced by `-`,
  and `path.Join` of the base path, that name and `ip:port`. Go's `path.Join`
  and `path.Clean` are modelled in full: split at `/`, resolve the elements
  on a stack (dropping `""` and `.`, resolving `..`), then render again.
- **Lifecycle.** `EtcdRegister` is a class with its two mutable fields,
  `leaseID` and `keepAliveChan`. `Register` checks its configuration, then
  calls Grant, Put and KeepAlive, each only if the one before succeeded.
  `Close` calls Revoke and then closes the client. `Listen` drains the
  keep-alive channel.
- **Store client.** The etcd client is a `Client` class that records every
  call in a ghost trace. Each call returns the reply passed in by the
  caller, so every outcome of the store is covered.

Files and modules:

- `options.dfy`, module `Options`: the `Option` type.
- `text.dfy`, module `Text`: `%d` formatting (`Decimal`) and its inverse.
- `paths.dfy`, module `Paths`: `path.Join` and `path.Clean`, and their laws.
- `endpoint.dfy`, module `Endpoints`: IPv4 text form, `Endpoint`,
  `NewEndpoint`, `Encode` and a reference `Decode`.
- `keys.dfy`, module `Keys`: `Sanitize`, `Address`, `EndpointPath`, and the
  key's shape, depth and injectivity.
- `lifecycle.dfy`, module `Lifecycle`: the effect of `Register`,
  `putKeyWithLease` and `Close` as pure functions over the lease state, and
  a trace invariant that those effects preserve.
- `etcd.dfy`, module `Etcd`: the `Client` and `EtcdRegister` classes.
  `Register` is proved against `RegisterEffect`, `PutKeyWithLease` against
  `PutKeyWithLeaseEffect`, and `Close` against `CloseEffect`.

Behaviour of the code that the model makes explicit:

- **Close when Revoke fails.** `Close` returns Revoke's error and does not
  close the client (`pkg/register/etcd.go:114-116`). See
  `Lifecycle.CloseEffect`.
- **leaseID after Close.** `leaseID` and `keepAliveChan` are never cleared.
  See `Lifecycle.CloseEffect`, whose `after == before`.
- **Orphaned leases.** A lease granted before a failing Put or KeepAlive is
  never revoked, by `Register` or by a later `Close`. See
  `Lifecycle.FailedRegistrationOrphansLease`. A second successful `Register`
  replaces `leaseID` without revoking the lease held before, so a later
  `Close` never revokes that lease either. See
  `Lifecycle.ReregistrationOrphansLease`.
- **Key depth.** Sanitisation only replaces `/`. Under a rooted clean base
  path with at least one element, such as `/discovery`, a service name of
  `""` or `.` removes the service level from the key, and a name of `..`
  also removes the last base element. Other base paths are not covered by
  these lemmas. See `Keys.EndpointPathEmptyName`,
  `Keys.EndpointPathDotDot` and `Keys.EndpointPathDepth`.

## Model

| member | source | states |
|---|---|---|
| Text.Decimal | pkg/register/etcd.go:123 | `%d` of a port: a non-empty string of digits, starting with '0' only for zero |
| Text.ParseDecimalInverts | pkg/register/etcd.go:123 | reading back the decimal text of `n` gives `n` |
| Text.DecimalInjective | pkg/register/etcd.go:123 | distinct ports have distinct decimal texts |
| Text.DecimalHasNoSeparators | pkg/register/etcd.go:123 | the port text contains no '/', ':' or '.' |
| Paths.Split | pkg/register/etcd.go:123 | splitting at '/' gives at least one piece, and no piece holds a '/' |
| Paths.JoinSepSplit | pkg/register/etcd.go:123 | joining the pieces of a split with '/' gives back the string |
| Paths.SplitJoinSep | pkg/register/etcd.go:123 | splitting a '/'-join of slash-free pieces gives back the pieces |
| Paths.Clean | pkg/register/etcd.go:123 | `path.Clean` never returns the empty string ("." stands for an empty result) |
| Paths.Join | pkg/register/etcd.go:123 | `path.Join` returns "" exactly when every element is empty |
| Paths.CleanCanonical | pkg/register/etcd.go:123 | Clean's output is rooted exactly when its input is; it is "/", ".", or ordinary elements joined by single slashes, with ".." only as a leading run of a relative path; it has no trailing '/' except in "/" |
| Paths.CleanIdempotent | pkg/register/etcd.go:123 | cleaning a cleaned path changes nothing |
| Paths.CleanRootedNames | pkg/register/etcd.go:123 | a rooted path of ordinary elements is left unchanged by Clean |
| Paths.CleanKeepsLastName | pkg/register/etcd.go:123 | whatever precedes it, an ordinary last element survives cleaning as the last element |
| Endpoints.IP.Text | pkg/endpoint/endpoint.go:16 | the dotted text of an IPv4 address holds no '/' and no ':' |
| Endpoints.IPTextInjective | pkg/endpoint/endpoint.go:16 | distinct IPv4 addresses have distinct texts |
| Endpoints.NewEndpoint | pkg/endpoint/endpoint.go:14-19 | the endpoint holds the IP's text and the port unchanged; locality, stage and metadata are empty |
| Endpoints.Encode | pkg/endpoint/endpoint.go:6-12 | the encoding is an object whose members are among ip, port, locality, stage and metadata; each is present exactly when its field is non-empty (`omitempty`) and then holds the field's value |
| Endpoints.DecodeEncode | pkg/register/etcd.go:126-139 | decoding the encoding gives back the endpoint: omitting empty fields loses nothing |
| Endpoints.NewEndpointEncoding | pkg/endpoint/endpoint.go:14-19 | a new endpoint encodes to its ip, plus its port when the port is non-zero, and nothing else |
| Keys.Sanitize | pkg/register/etcd.go:122 | same length; each '/' becomes '-' and every other character stays in place; no '/' is left |
| Keys.SanitizeIdempotent | pkg/register/etcd.go:122 | sanitising twice is sanitising once |
| Keys.SanitizeIsName | pkg/register/etcd.go:122-123 | the sanitised name is one ordinary path element exactly when the name is not "", "." or ".." |
| Keys.Address | pkg/register/etcd.go:123 | `fmt.Sprintf("%s:%d", ip, port)`: the IP text, ':' and the decimal port; one ordinary path element whenever the IP text holds no '/' |
| Keys.AddressIsName | pkg/register/etcd.go:123 | `ip:port` is one ordinary path element when the IP text holds no '/' |
| Keys.AddressInjective | pkg/register/etcd.go:123 | equal `ip:port` texts come from the same IP text and port |
| Keys.EndpointPath | pkg/register/etcd.go:121-124 | `endpointPath`: the key is `Join([basePath, Sanitize(serviceName), Address(e)])`, never empty; its properties are the `Keys.EndpointPath*` lemmas below |
| Keys.EndpointPathIsClean | pkg/register/etcd.go:121-124 | every key is already clean: cleaning it again changes nothing |
| Keys.EndpointPathLastPart | pkg/register/etcd.go:121-124 | for any base path and service name, the key's last element is `ip:port` |
| Keys.EndpointPathInjective | pkg/register/etcd.go:121-124 | two keys are equal only if their endpoints have the same IP text and port |
| Keys.NewEndpointPathsDistinct | pkg/register/etcd.go:121-124 | endpoints built from distinct (IP, port) pairs get distinct keys |
| Keys.EndpointPathUnderBase | pkg/register/etcd.go:121-124 | under a rooted clean base path with at least one element, an ordinary service name gives `base/name/ip:port`, one level per part |
| Keys.EndpointPathDotDot | pkg/register/etcd.go:122-123 | under a rooted clean base path with at least one element, such as `/discovery`, the service name ".." replaces the base's last element with `ip:port` |
| Keys.EndpointPathEmptyName | pkg/register/etcd.go:122-123 | under a rooted clean base path with at least one element, such as `/discovery`, the service name "" or "." gives `base/ip:port`, with no service level |
| Keys.EndpointPathDepth | pkg/register/etcd.go:121-124 | under a rooted clean base path with at least one element, such as `/discovery`, the key adds at most 2 levels to the base (service and address), and exactly 2 when the name is not "", "." or ".." |
| Keys.EndpointPathTestCase | pkg/register/etcd_test.go:79-95 | base "/discovery", service "fake" and port 18080 give the key `/discovery/fake/<ip>:18080` |
| Keys.EndpointPathOrdersExample | pkg/register/etcd.go:121-124 | base "/discovery", service "orders" and 10.0.0.5:18080 give `/discovery/orders/10.0.0.5:18080` |
| Lifecycle.TtlSeconds | pkg/register/etcd.go:77 | Grant's TTL is the duration in whole seconds, truncated toward zero |
| Lifecycle.PutKeyWithLeaseEffect | pkg/register/etcd.go:73-102 | the calls are Grant(ttl seconds), then Put(key, encoding, granted id), then KeepAlive(granted id), each only if the one before succeeded; the result is the first failure; on failure the lease state is unchanged; on success it holds the granted id and KeepAlive's channel |
| Lifecycle.RegisterEffect | pkg/register/etcd.go:58-71 | an empty base path, and then a missing endpoint, give their own error with no store call; otherwise exactly what `putKeyWithLease` does; success exactly when the configuration is valid and all three calls succeed; failure leaves the state unchanged; Register never revokes or closes |
| Lifecycle.CloseEffect | pkg/register/etcd.go:112-119 | the calls are Revoke of exactly the stored lease id, followed by the client's Close exactly when Revoke succeeds, and nothing else; the result is Revoke's error, or else Close's result; the lease state is not cleared |
| Lifecycle.ConsistentInitially | pkg/register/etcd.go:47-55 | a new register, with lease 0, no channel and no calls, satisfies the trace invariant |
| Lifecycle.RegisterKeepsConsistent | pkg/register/etcd.go:58-102 | Register keeps the trace invariant: Put follows its Grant, KeepAlive follows its Put, and a held lease was granted, put under and kept alive |
| Lifecycle.CloseKeepsConsistent | pkg/register/etcd.go:112-119 | Close keeps the trace invariant: every revoked lease was fully registered, and the client is closed only after a Revoke |
| Lifecycle.CloseRevokesGrantedLease | pkg/register/etcd.go:96-114 | after a successful Register, Close revokes exactly the lease that Grant returned |
| Lifecycle.FailedRegistrationOrphansLease | pkg/register/etcd.go:77-94 | a lease granted before a failing Put or KeepAlive is revoked neither by Register nor by the Close that follows |
| Lifecycle.ReregistrationOrphansLease | pkg/register/etcd.go:96-118 | a second successful Register replaces the held lease id without revoking it, and the Close that follows does not revoke it either |
| Etcd.EtcdRegister.constructor | pkg/register/etcd.go:30-56 | given the local IP: the endpoint is `NewEndpoint(ip, port)`, the configuration is stored, with lease 0, no channel and an empty call trace |
| Etcd.EtcdRegister.Register | pkg/register/etcd.go:58-71 | returns the error, makes the calls and leaves the state given by `RegisterEffect`, and keeps the trace invariant |
| Etcd.EtcdRegister.PutKeyWithLease | pkg/register/etcd.go:73-102 | returns the error, makes the calls and leaves the state given by `PutKeyWithLeaseEffect` |
| Etcd.EtcdRegister.Listen | pkg/register/etcd.go:105-109 | drains the channel's responses in order, each once; with no channel (nil) it never returns, shown as None |
| Etcd.EtcdRegister.Close | pkg/register/etcd.go:112-119 | returns the error and makes the calls given by `CloseEffect`, changes no field of the register, and keeps the trace invariant |

## Left out

- Endpoints.IP.Text: only IPv4 addresses are modelled. The IPv6 text form of `net.IP.String` (zero compression, IPv4-mapped forms) is not.
- Endpoints.Encode: keeps only the `omitempty` field selection, as a JSON value whose objects are maps. The JSON text is not modelled: member order, string escaping, the trailing newline of `json.Encoder`, and the nil versus empty metadata list. The marshal error that `encode` discards cannot happen for this record.
- Keys.EndpointPathDepth: proved only under a rooted clean base path with at least one element, as are Keys.EndpointPathDotDot and Keys.EndpointPathEmptyName. The base path is a free command-line setting, and for other bases the depth differs: under the base "..", the name ".." adds a level instead of removing one, and the base "/" has no last element to replace. The general laws, Keys.EndpointPathLastPart, Keys.EndpointPathInjective and Keys.EndpointPathIsClean, hold for every base.
- Lifecycle.TtlSeconds: `ttl.Seconds()` is a float64 division. The model divides integers. They can differ only for durations past 2^53 nanoseconds (about 104 days), where the float rounds.
- Contexts and timeouts (`context.WithTimeout`, `defaultTimeout`, `cancel`) are timing, not sequential logic. The KeepAlive context is cancelled when `putKeyWithLease` returns, which stops the channel early. The sequential model does not capture this: the channel's responses are an input.
- `Listen` runs as a goroutine in the service. Only its sequential loop is modelled. Concurrent `Register` and `Close` calls are not.
- Logging through logrus is left out throughout. It has no effect on the state.
- The I/O in `NewEtcdRegister` is left out: `util.LocalIP` and `clientV3.New`, and their error returns. The constructor takes the local IP as a parameter, and the client is a fresh model object.
- The etcd server is not modelled: leases, expiry, key storage. Every store reply is a parameter of the method that makes the call.
- The command-line glue is not part of this model: `cmd/register.go`, `cmd/disco.go` and `internal/logger/logger.go`. The same holds for the `Register` interface declaration in `pkg/register/register.go`.
