/**
 * The etcd-backed register as an object: a client whose calls are recorded
 * in a ghost trace (the store's answers are passed in), and a register that
 * holds a lease id and a keep-alive channel it updates in place.
 */
module Etcd {
  import opened Options
  import opened Text
  import opened Endpoints
  import opened Keys
  import opened Lifecycle

  /** The etcd client: each call is recorded; its answer is the one supplied. */
  class Client {
    ghost var calls: seq<Call>

    constructor ()
      ensures calls == []
    {
      calls := [];
    }

    method Grant(ttlSeconds: int64, reply: Reply<LeaseId>) returns (r: Reply<LeaseId>)
      modifies this
      ensures calls == old(calls) + [Call.Grant(ttlSeconds)] && r == reply
    {
      calls := calls + [Call.Grant(ttlSeconds)];
      r := reply;
    }

    method Put(key: string, value: Json, lease: LeaseId, reply: Option<Error>) returns (err: Option<Error>)
      modifies this
      ensures calls == old(calls) + [Call.Put(key, value, lease)] && err == reply
    {
      calls := calls + [Call.Put(key, value, lease)];
      err := reply;
    }

    method KeepAlive(lease: LeaseId, reply: Reply<KeepAliveStream>) returns (r: Reply<KeepAliveStream>)
      modifies this
      ensures calls == old(calls) + [Call.KeepAlive(lease)] && r == reply
    {
      calls := calls + [Call.KeepAlive(lease)];
      r := reply;
    }

    method Revoke(lease: LeaseId, reply: Option<Error>) returns (err: Option<Error>)
      modifies this
      ensures calls == old(calls) + [Call.Revoke(lease)] && err == reply
    {
      calls := calls + [Call.Revoke(lease)];
      err := reply;
    }

    method Close(reply: Option<Error>) returns (err: Option<Error>)
      modifies this
      ensures calls == old(calls) + [CloseClient] && err == reply
    {
      calls := calls + [CloseClient];
      err := reply;
    }
  }

  class EtcdRegister {
    const cli: Client
    var leaseID: LeaseId
    var keepAliveChan: Option<KeepAliveStream>
    const serviceName: string
    const basePath: string
    const endpoint: Option<Endpoint>
    const ttl: Duration
    const defaultTimeout: Duration

    /** The lease state, as a value. */
    function State(): Registration
      reads this
    {
      Registration(leaseID, keepAliveChan)
    }

    function Config(): Settings {
      Settings(basePath, serviceName, endpoint, ttl)
    }

    /** The held lease, if any, is one this register's client granted, put the endpoint under and kept alive. */
    ghost predicate Valid()
      reads this, cli
    {
      Consistent(cli.calls, State())
    }

    /** `NewEtcdRegister`, given the local IP and a fresh client: no lease and no channel yet. */
    constructor (basePath: string, serviceName: string, localIp: IP, servicePort: uint16, ttl: Duration, defaultTimeout: Duration)
      ensures Valid() && fresh(cli) && cli.calls == []
      ensures this.basePath == basePath && this.serviceName == serviceName
      ensures endpoint == Some(NewEndpoint(localIp, servicePort))
      ensures this.ttl == ttl && this.defaultTimeout == defaultTimeout
      ensures leaseID == 0 && keepAliveChan == None
    {
      cli := new Client();
      this.basePath := basePath;
      this.serviceName := serviceName;
      endpoint := Some(NewEndpoint(localIp, servicePort));
      this.ttl := ttl;
      this.defaultTimeout := defaultTimeout;
      leaseID := 0;
      keepAliveChan := None;
    }

    method Register(grant: Reply<LeaseId>, put: Option<Error>, keepAlive: Reply<KeepAliveStream>) returns (err: Option<Error>)
      requires Valid()
      modifies this, cli
      ensures Valid()
      ensures var o := RegisterEffect(Config(), old(State()), grant, put, keepAlive);
        err == o.err && cli.calls == old(cli.calls) + o.calls && State() == o.after
    {
      ghost var trace := cli.calls;
      RegisterKeepsConsistent(trace, Config(), State(), grant, put, keepAlive);
      if basePath == "" {
        return Some(ConfigError(BasePathMessage));
      }
      if endpoint.None? {
        return Some(ConfigError(EndpointMessage));
      }
      err := PutKeyWithLease(grant, put, keepAlive);
    }

    method PutKeyWithLease(grant: Reply<LeaseId>, put: Option<Error>, keepAlive: Reply<KeepAliveStream>) returns (err: Option<Error>)
      requires endpoint.Some?
      modifies this, cli
      ensures var o := PutKeyWithLeaseEffect(Config(), endpoint.value, old(State()), grant, put, keepAlive);
        err == o.err && cli.calls == old(cli.calls) + o.calls && State() == o.after
    {
      var e := endpoint.value;
      var grantResponse := cli.Grant(TtlSeconds(ttl), grant);
      if grantResponse.Fail? {
        return Some(grantResponse.error);
      }
      err := cli.Put(EndpointPath(basePath, serviceName, e), Encode(e), grantResponse.value, put);
      if err.Some? {
        return err;
      }
      var keepAliveResponse := cli.KeepAlive(grantResponse.value, keepAlive);
      if keepAliveResponse.Fail? {
        return Some(keepAliveResponse.error);
      }
      leaseID := grantResponse.value;
      keepAliveChan := Some(keepAliveResponse.value);
      return None;
    }

    /**
     * `Listen`: drains the keep-alive channel until it is closed and
     * returns what it read, each response once and in order. Before a
     * successful registration the channel is nil, and ranging over a nil
     * channel blocks forever: that is the None result.
     */
    method Listen() returns (drained: Option<seq<KeepAliveResponse>>)
      ensures keepAliveChan.None? ==> drained.None?
      ensures keepAliveChan.Some? ==> drained == Some(keepAliveChan.value.responses)
    {
      if keepAliveChan.None? {
        return None;
      }
      var responses := keepAliveChan.value.responses;
      var seen := [];
      for i := 0 to |responses|
        invariant seen == responses[..i]
      {
        seen := seen + [responses[i]];
      }
      assert responses[..|responses|] == responses;
      return Some(seen);
    }

    method Close(revoke: Option<Error>, close: Option<Error>) returns (err: Option<Error>)
      requires Valid()
      modifies cli
      ensures Valid()
      ensures var o := CloseEffect(State(), revoke, close);
        err == o.err && cli.calls == old(cli.calls) + o.calls
    {
      ghost var trace := cli.calls;
      CloseKeepsConsistent(trace, State(), revoke, close);
      err := cli.Revoke(leaseID, revoke);
      if err.Some? {
        assert cli.calls == trace + CloseEffect(State(), revoke, close).calls;
        return err;
      }
      err := cli.Close(close);
      assert cli.calls == trace + CloseEffect(State(), revoke, close).calls;
    }
  }
}
