/**
 * The registration lifecycle of an etcd-backed register, stated on values:
 * which store calls `Register` and `Close` make, in which order and with
 * which arguments, what they return, and what lease state they leave.
 * The store's answers are inputs; the calls are recorded in a trace.
 */
module Lifecycle {
  import opened Options
  import opened Text
  import opened Endpoints
  import opened Keys

  type int64 = x: int | -0x8000_0000_0000_0000 <= x < 0x8000_0000_0000_0000

  /** etcd's lease identifier (`clientV3.LeaseID`). */
  type LeaseId = int64

  /** `time.Duration`: a count of nanoseconds. */
  type Duration = int64

  const NanosPerSecond: int := 1_000_000_000

  const BasePathMessage := "basePath must be non empty"
  const EndpointMessage := "endpoint must be non nil"

  /** An error value: one the register makes itself, or one the store returned. */
  datatype Error = ConfigError(message: string) | StoreError(message: string)

  /** The store's answer to a call that yields a value. */
  datatype Reply<T> = Ok(value: T) | Fail(error: Error)

  datatype KeepAliveResponse = KeepAliveResponse(id: LeaseId, ttl: int64)

  /** A keep-alive channel: the responses it delivers before it is closed. */
  datatype KeepAliveStream = KeepAliveStream(responses: seq<KeepAliveResponse>)

  /** One call on the store client, with its arguments. */
  datatype Call =
    | Grant(ttlSeconds: int64)
    | Put(key: string, value: Json, lease: LeaseId)
    | KeepAlive(lease: LeaseId)
    | Revoke(lease: LeaseId)
    | CloseClient

  /** The register's configuration, fixed when it is built. */
  datatype Settings = Settings(basePath: string, serviceName: string, endpoint: Option<Endpoint>, ttl: Duration)

  /** The register's mutable state: the lease it holds and that lease's keep-alive channel. */
  datatype Registration = Registration(leaseId: LeaseId, keepAlive: Option<KeepAliveStream>)

  /** What one operation did: its result, the calls it made, the state it left. */
  datatype Effect = Effect(err: Option<Error>, calls: seq<Call>, after: Registration)

  /** `int64(ttl.Seconds())`: the TTL in whole seconds, truncated toward zero. */
  function TtlSeconds(ttl: Duration): (s: int64)
    ensures ttl >= 0 ==> 0 <= s && s * NanosPerSecond <= ttl < (s + 1) * NanosPerSecond
    ensures ttl < 0 ==> s <= 0 && (s - 1) * NanosPerSecond < ttl <= s * NanosPerSecond
  {
    var magnitude: int := if ttl >= 0 then ttl as int else -(ttl as int);
    var q: int := magnitude / NanosPerSecond;
    assert 0 <= q <= magnitude;
    if ttl >= 0 then q else -q
  }

  /** The first failure among Grant, Put and KeepAlive, in that order, if any. */
  function FirstFailure(grant: Reply<LeaseId>, put: Option<Error>, keepAlive: Reply<KeepAliveStream>): Option<Error> {
    if grant.Fail? then Some(grant.error)
    else if put.Some? then put
    else if keepAlive.Fail? then Some(keepAlive.error)
    else None
  }

  /**
   * `putKeyWithLease`: Grant, then Put under the granted lease, then
   * KeepAlive on it, each only if the one before succeeded; the lease and
   * its channel are stored only when all three succeed.
   */
  function PutKeyWithLeaseEffect(s: Settings, e: Endpoint, before: Registration,
                                 grant: Reply<LeaseId>, put: Option<Error>, keepAlive: Reply<KeepAliveStream>): (o: Effect)
    ensures |o.calls| == (if grant.Fail? then 1 else if put.Some? then 2 else 3)
    ensures o.calls[0] == Grant(TtlSeconds(s.ttl))
    ensures |o.calls| > 1 ==> o.calls[1] == Put(EndpointPath(s.basePath, s.serviceName, e), Encode(e), grant.value)
    ensures |o.calls| > 2 ==> o.calls[2] == KeepAlive(grant.value)
    ensures o.err == FirstFailure(grant, put, keepAlive)
    ensures o.err.Some? ==> o.after == before
    ensures o.err.None? ==> o.after == Registration(grant.value, Some(keepAlive.value))
  {
    var calls := [Grant(TtlSeconds(s.ttl))];
    match grant
    case Fail(err) => Effect(Some(err), calls, before)
    case Ok(id) =>
      var calls := calls + [Put(EndpointPath(s.basePath, s.serviceName, e), Encode(e), id)];
      if put.Some? then Effect(put, calls, before)
      else
        var calls := calls + [KeepAlive(id)];
        match keepAlive
        case Fail(err) => Effect(Some(err), calls, before)
        case Ok(ch) => Effect(None, calls, Registration(id, Some(ch)))
  }

  /**
   * `Register`: an empty base path, and then a missing endpoint, are
   * refused before any store call; otherwise `putKeyWithLease`.
   */
  function RegisterEffect(s: Settings, before: Registration,
                          grant: Reply<LeaseId>, put: Option<Error>, keepAlive: Reply<KeepAliveStream>): (o: Effect)
    ensures s.basePath == "" ==> o == Effect(Some(ConfigError(BasePathMessage)), [], before)
    ensures s.basePath != "" && s.endpoint.None? ==> o == Effect(Some(ConfigError(EndpointMessage)), [], before)
    ensures o.err.None? <==> s.basePath != "" && s.endpoint.Some? && FirstFailure(grant, put, keepAlive).None?
    ensures s.basePath != "" && s.endpoint.Some? ==> o == PutKeyWithLeaseEffect(s, s.endpoint.value, before, grant, put, keepAlive)
    ensures o.err.Some? ==> o.after == before
    ensures forall i :: 0 <= i < |o.calls| ==> !o.calls[i].Revoke? && !o.calls[i].CloseClient?
  {
    if s.basePath == "" then Effect(Some(ConfigError(BasePathMessage)), [], before)
    else if s.endpoint.None? then Effect(Some(ConfigError(EndpointMessage)), [], before)
    else PutKeyWithLeaseEffect(s, s.endpoint.value, before, grant, put, keepAlive)
  }

  /**
   * `Close`: Revoke the stored lease; only if that succeeds, close the
   * client and return what closing returns. The stored lease is kept.
   */
  function CloseEffect(before: Registration, revoke: Option<Error>, close: Option<Error>): (o: Effect)
    ensures o.after == before
    ensures |o.calls| == if revoke.Some? then 1 else 2
    ensures o.calls[0] == Revoke(before.leaseId)
    ensures CloseClient in o.calls <==> revoke.None?
    ensures o.err == if revoke.Some? then revoke else close
  {
    if revoke.Some? then Effect(revoke, [Revoke(before.leaseId)], before)
    else Effect(close, [Revoke(before.leaseId), CloseClient], before)
  }

  // ---------------------------------------------------------------------
  // The call trace of a register over its whole life.

  /** Put follows Grant; KeepAlive follows the Put under the same lease; the client is closed only after a Revoke. */
  ghost predicate Ordered(t: seq<Call>) {
    forall i :: 0 <= i < |t| ==> OrderedAt(t, i)
  }

  ghost predicate OrderedAt(t: seq<Call>, i: nat)
    requires i < |t|
  {
    && (t[i].Put? ==> 0 < i && t[i - 1].Grant?)
    && (t[i].KeepAlive? ==> 0 < i && t[i - 1].Put? && t[i - 1].lease == t[i].lease)
    && (t[i].CloseClient? ==> 0 < i && t[i - 1].Revoke?)
  }

  /** Every lease revoked (other than the zero id) was fully registered earlier: granted, put under and kept alive. */
  ghost predicate RevokesRegistered(t: seq<Call>) {
    forall i :: 0 <= i < |t| && t[i].Revoke? && t[i].lease != 0 ==> KeepAlive(t[i].lease) in t[..i]
  }

  /** The trace and the register's state agree: a held lease is one that was kept alive. */
  ghost predicate Consistent(t: seq<Call>, r: Registration) {
    && Ordered(t)
    && RevokesRegistered(t)
    && (r.keepAlive.None? ==> r.leaseId == 0)
    && (r.keepAlive.Some? ==> KeepAlive(r.leaseId) in t)
  }

  /** Appending calls that are ordered among themselves, and do not start with Put, KeepAlive or CloseClient, keeps a trace ordered. */
  lemma OrderedAppend(t: seq<Call>, u: seq<Call>)
    requires Ordered(t) && Ordered(u)
    requires |u| > 0 ==> u[0].Grant? || u[0].Revoke?
    ensures Ordered(t + u)
  {
    var t' := t + u;
    forall i | 0 <= i < |t'|
      ensures OrderedAt(t', i)
    {
      if i < |t| {
        assert OrderedAt(t, i);
        assert t'[i] == t[i];
        if 0 < i { assert t'[i - 1] == t[i - 1]; }
      } else if i > |t| {
        assert OrderedAt(u, i - |t|);
        assert t'[i] == u[i - |t|] && t'[i - 1] == u[i - 1 - |t|];
      } else {
        assert t'[i] == u[0];
      }
    }
  }

  lemma ConsistentInitially()
    ensures Consistent([], Registration(0, None))
  {
  }

  lemma RegisterKeepsConsistent(t: seq<Call>, s: Settings, before: Registration,
                                grant: Reply<LeaseId>, put: Option<Error>, keepAlive: Reply<KeepAliveStream>)
    requires Consistent(t, before)
    ensures var o := RegisterEffect(s, before, grant, put, keepAlive);
      Consistent(t + o.calls, o.after)
  {
    var o := RegisterEffect(s, before, grant, put, keepAlive);
    var t' := t + o.calls;
    OrderedAppend(t, o.calls);
    forall i | 0 <= i < |t'| && t'[i].Revoke? && t'[i].lease != 0
      ensures KeepAlive(t'[i].lease) in t'[..i]
    {
      assert i < |t|;
      assert t'[..i] == t[..i];
    }
    if o.err.None? {
      assert t'[|t'| - 1] == KeepAlive(grant.value);
    } else {
      assert forall c :: c in t ==> c in t';
    }
  }

  lemma CloseKeepsConsistent(t: seq<Call>, before: Registration, revoke: Option<Error>, close: Option<Error>)
    requires Consistent(t, before)
    ensures var o := CloseEffect(before, revoke, close);
      Consistent(t + o.calls, o.after)
  {
    var o := CloseEffect(before, revoke, close);
    var t' := t + o.calls;
    OrderedAppend(t, o.calls);
    forall i | 0 <= i < |t'| && t'[i].Revoke? && t'[i].lease != 0
      ensures KeepAlive(t'[i].lease) in t'[..i]
    {
      if i < |t| {
        assert t'[..i] == t[..i];
      } else {
        assert i == |t| && t'[..i] == t;
      }
    }
    assert forall c :: c in t ==> c in t';
  }

  // ---------------------------------------------------------------------
  // Register followed by Close.

  /** After a successful registration, Close revokes exactly the lease that Grant returned. */
  lemma CloseRevokesGrantedLease(s: Settings, before: Registration,
                                 grant: Reply<LeaseId>, put: Option<Error>, keepAlive: Reply<KeepAliveStream>,
                                 revoke: Option<Error>, close: Option<Error>)
    requires RegisterEffect(s, before, grant, put, keepAlive).err.None?
    ensures grant.Ok?
    ensures CloseEffect(RegisterEffect(s, before, grant, put, keepAlive).after, revoke, close).calls[0] == Revoke(grant.value)
  {
  }

  /**
   * A lease granted by a registration whose Put or KeepAlive then fails is
   * orphaned: neither that registration nor a later Close revokes it; Close
   * revokes the lease held before.
   */
  lemma FailedRegistrationOrphansLease(s: Settings, before: Registration,
                                       grant: Reply<LeaseId>, put: Option<Error>, keepAlive: Reply<KeepAliveStream>,
                                       revoke: Option<Error>, close: Option<Error>)
    requires grant.Ok? && grant.value != before.leaseId
    requires RegisterEffect(s, before, grant, put, keepAlive).err.Some?
    ensures var o := RegisterEffect(s, before, grant, put, keepAlive);
      Revoke(grant.value) !in o.calls + CloseEffect(o.after, revoke, close).calls
  {
    var o := RegisterEffect(s, before, grant, put, keepAlive);
    var c := CloseEffect(o.after, revoke, close);
    assert Revoke(grant.value) !in o.calls;
    assert Revoke(grant.value) !in c.calls;
  }

  /**
   * Registering again while a lease is held replaces the stored lease
   * without revoking it: neither that registration nor the Close that
   * follows revokes the earlier lease, which is left to expire at its TTL.
   */
  lemma ReregistrationOrphansLease(s: Settings, before: Registration,
                                   grant: Reply<LeaseId>, put: Option<Error>, keepAlive: Reply<KeepAliveStream>,
                                   revoke: Option<Error>, close: Option<Error>)
    requires before.keepAlive.Some?
    requires RegisterEffect(s, before, grant, put, keepAlive).err.None?
    requires grant.Ok? && grant.value != before.leaseId
    ensures var o := RegisterEffect(s, before, grant, put, keepAlive);
      && o.after.leaseId == grant.value
      && Revoke(before.leaseId) !in o.calls + CloseEffect(o.after, revoke, close).calls
  {
    var o := RegisterEffect(s, before, grant, put, keepAlive);
    var c := CloseEffect(o.after, revoke, close);
    assert Revoke(before.leaseId) !in o.calls;
    assert Revoke(before.leaseId) !in c.calls;
  }
}
