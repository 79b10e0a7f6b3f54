/**
 * The store key an endpoint is registered under:
 * `path.Join(basePath, sanitised service name, ip + ":" + port)`.
 */
module Keys {
  import opened Text
  import opened Paths
  import opened Endpoints

  /** `strings.Replace(name, "/", "-", -1)`: every path separator becomes a dash. */
  function Sanitize(name: string): (r: string)
    ensures |r| == |name|
    ensures forall i :: 0 <= i < |name| ==> r[i] == if name[i] == '/' then '-' else name[i]
    ensures '/' !in r
    decreases |name|
  {
    if name == "" then ""
    else [if name[0] == '/' then '-' else name[0]] + Sanitize(name[1..])
  }

  lemma {:induction false} SanitizeIdempotent(name: string)
    ensures Sanitize(Sanitize(name)) == Sanitize(name)
    decreases |name|
  {
    if name != "" {
      SanitizeIdempotent(name[1..]);
      assert Sanitize(name)[1..] == Sanitize(name[1..]);
    }
  }

  /** The sanitised name is one ordinary path element exactly when the name is not "", "." or "..". */
  lemma SanitizeIsName(name: string)
    ensures IsName(Sanitize(name)) <==> name != "" && name != "." && name != ".."
  {
    var r := Sanitize(name);
    if |name| == 1 {
      assert r == "." <==> name == ".";
    } else if |name| == 2 {
      assert r == ".." <==> name == "..";
    }
  }

  /** `fmt.Sprintf("%s:%d", endpoint.Ip, endpoint.Port)`: the last element of the key. */
  function Address(e: Endpoint): (a: string)
    ensures '/' !in e.ip ==> IsName(a)
  {
    DecimalHasNoSeparators(e.port);
    assert (e.ip + ":" + Decimal(e.port))[|e.ip|] == ':';
    e.ip + ":" + Decimal(e.port)
  }

  /** An address is an ordinary path element as long as the IP text holds no '/'. */
  lemma AddressIsName(e: Endpoint)
    requires '/' !in e.ip
    ensures IsName(Address(e))
  {
    DecimalHasNoSeparators(e.port);
    var a := Address(e);
    assert a[|e.ip|] == ':';
  }

  /** The port text holds no ':', so an address splits back into its IP and port. */
  lemma AddressInjective(e1: Endpoint, e2: Endpoint)
    requires Address(e1) == Address(e2)
    ensures e1.ip == e2.ip && e1.port == e2.port
  {
    DecimalHasNoSeparators(e1.port);
    DecimalHasNoSeparators(e2.port);
    assert Address(e1) == e1.ip + [':'] + Decimal(e1.port);
    assert Address(e2) == e2.ip + [':'] + Decimal(e2.port);
    SplitAtLast(e1.ip, Decimal(e1.port), e2.ip, Decimal(e2.port), ':');
    DecimalInjective(e1.port, e2.port);
  }

  /** `endpointPath`: the key an endpoint of a service is put under. */
  function EndpointPath(basePath: string, serviceName: string, e: Endpoint): (key: string)
    ensures key != ""
  {
    var elems := [basePath, Sanitize(serviceName), Address(e)];
    assert elems[2] != "" by {
      assert Address(e)[|e.ip|] == ':';
    }
    Join(elems)
  }

  /** Every key is already in canonical form: cleaning it again changes nothing. */
  lemma EndpointPathIsClean(basePath: string, serviceName: string, e: Endpoint)
    ensures Clean(EndpointPath(basePath, serviceName, e)) == EndpointPath(basePath, serviceName, e)
  {
    var elems := [basePath, Sanitize(serviceName), Address(e)];
    assert elems[2] != "";
    CleanIdempotent(Glue("", elems));
  }

  /** What `path.Join` glues together before cleaning, for the three key elements. */
  lemma GlueThree(b: string, n: string, a: string)
    requires a != ""
    ensures Join([b, n, a]) == Clean(Glue("", [b, n, a]))
    ensures Glue("", [b, n, a]) ==
      if b == "" && n == "" then a
      else if b == "" then n + "/" + a
      else b + "/" + n + "/" + a
  {
    var elems := [b, n, a];
    assert elems[2] != "";
    assert elems[1..] == [n, a] && [n, a][1..] == [a] && [a][1..] == [];
    assert Glue("", elems) == Glue(b, [n, a]);
    var x := if b != "" then b + "/" + n else n;
    assert Glue(b, [n, a]) == Glue(x, [a]);
    assert Glue(x, [a]) == Glue(if x != "" then x + "/" + a else a, []);
  }

  /** Appending elements to a base path. */
  lemma BaseAppend(elems: seq<string>, more: seq<string>)
    requires |elems| > 0 && |more| > 0
    ensures Base(elems) + "/" + JoinSep(more) == Base(elems + more)
  {
    JoinSepAppend(elems, more);
    AppendAssoc("/", JoinSep(elems), JoinSep(more));
  }

  lemma AppendAssoc(a: string, x: string, y: string)
    ensures a + x + "/" + y == a + (x + "/" + y)
  {
  }

  /** Whatever the base path and service name, the key's last element is the endpoint's address. */
  lemma EndpointPathLastPart(basePath: string, serviceName: string, e: Endpoint)
    requires '/' !in e.ip
    ensures LastPart(EndpointPath(basePath, serviceName, e)) == Address(e)
  {
    var n := Sanitize(serviceName);
    var a := Address(e);
    AddressIsName(e);
    GlueThree(basePath, n, a);
    if basePath == "" && n == "" {
      CleanName(a);
      SplitName(a);
    } else if basePath == "" {
      CleanKeepsLastName(n, a);
    } else {
      CleanKeepsLastName(basePath + "/" + n, a);
    }
  }

  /** Endpoints with different addresses or ports never share a key, whatever the base paths and services. */
  lemma EndpointPathInjective(b1: string, s1: string, e1: Endpoint, b2: string, s2: string, e2: Endpoint)
    requires '/' !in e1.ip && '/' !in e2.ip
    requires EndpointPath(b1, s1, e1) == EndpointPath(b2, s2, e2)
    ensures e1.ip == e2.ip && e1.port == e2.port
  {
    EndpointPathLastPart(b1, s1, e1);
    EndpointPathLastPart(b2, s2, e2);
    AddressInjective(e1, e2);
  }

  /** Two endpoints built for distinct (IP, port) pairs are registered under distinct keys. */
  lemma NewEndpointPathsDistinct(basePath: string, serviceName: string, ip1: IP, port1: uint16, ip2: IP, port2: uint16)
    requires (ip1, port1) != (ip2, port2)
    ensures EndpointPath(basePath, serviceName, NewEndpoint(ip1, port1)) != EndpointPath(basePath, serviceName, NewEndpoint(ip2, port2))
  {
    if EndpointPath(basePath, serviceName, NewEndpoint(ip1, port1)) == EndpointPath(basePath, serviceName, NewEndpoint(ip2, port2)) {
      EndpointPathInjective(basePath, serviceName, NewEndpoint(ip1, port1), basePath, serviceName, NewEndpoint(ip2, port2));
      IPTextInjective(ip1, ip2);
    }
  }

  // ---------------------------------------------------------------------
  // The key under a clean rooted base path such as "/discovery".

  /** The base path whose elements are `elems`, e.g. "/discovery" for ["discovery"]. */
  function Base(elems: seq<string>): string {
    "/" + JoinSep(elems)
  }

  /**
   * Under a clean base path, a service name other than "", "." or ".."
   * gives the key base/name/address: exactly one level for the service
   * and one for the instance, and nothing for Clean to change.
   */
  lemma EndpointPathUnderBase(elems: seq<string>, serviceName: string, e: Endpoint)
    requires |elems| > 0 && AllNames(elems)
    requires serviceName != "" && serviceName != "." && serviceName != ".."
    requires '/' !in e.ip
    ensures EndpointPath(Base(elems), serviceName, e) == Base(elems) + "/" + Sanitize(serviceName) + "/" + Address(e)
    ensures Split(EndpointPath(Base(elems), serviceName, e)) == [""] + elems + [Sanitize(serviceName), Address(e)]
  {
    var n := Sanitize(serviceName);
    var a := Address(e);
    SanitizeIsName(serviceName);
    AddressIsName(e);
    KeyUnderBase(elems, n, a);
    var all := elems + [n, a];
    assert AllNames(all) by {
      forall i | 0 <= i < |all|
        ensures IsName(all[i])
      {
        if i >= |elems| {
          assert all[i] == [n, a][i - |elems|];
        }
      }
    }
    CleanRootedNames(all);
    BaseAppend(elems, [n, a]);
    assert JoinSep([n, a]) == n + "/" + a by {
      assert [n, a][1..] == [a];
    }
    AppendAssoc(Base(elems) + "/", n, a);
    assert [""] + all == [""] + elems + [n, a];
  }

  /** The key under a clean base, before cleaning: the base's elements followed by the name and the address. */
  lemma KeyUnderBase(elems: seq<string>, n: string, a: string)
    requires |elems| > 0 && AllNames(elems)
    requires '/' !in n && IsName(a)
    ensures Join([Base(elems), n, a]) == Clean(Base(elems + [n, a]))
    ensures Rooted(Base(elems + [n, a]))
    ensures Split(Base(elems + [n, a])) == [""] + elems + [n, a]
  {
    var all := elems + [n, a];
    GlueThree(Base(elems), n, a);
    assert JoinSep([n, a]) == n + "/" + a by {
      assert [n, a][1..] == [a];
    }
    BaseAppend(elems, [n, a]);
    AppendAssoc(Base(elems) + "/", n, a);
    assert forall i :: 0 <= i < |all| ==> '/' !in all[i] by {
      forall i | 0 <= i < |all|
        ensures '/' !in all[i]
      {
        if i >= |elems| {
          assert all[i] == [n, a][i - |elems|];
        }
      }
    }
    SplitBase(all);
  }

  /** A service name of ".." climbs out of the last base element: the key loses two levels. */
  lemma EndpointPathDotDot(elems: seq<string>, e: Endpoint)
    requires |elems| > 0 && AllNames(elems)
    requires '/' !in e.ip
    ensures EndpointPath(Base(elems), "..", e) == Base(elems[..|elems| - 1] + [Address(e)])
  {
    var a := Address(e);
    AddressIsName(e);
    assert Sanitize("..") == "..";
    KeyUnderBase(elems, "..", a);
    var p := Base(elems + ["..", a]);
    var kept := elems[..|elems| - 1] + [a];
    ResolveAppend(true, [], [""] + elems, ["..", a]);
    ResolveBase(elems);
    assert ["..", a][1..] == [a];
    assert Resolve(true, elems, ["..", a]) == Resolve(true, elems[..|elems| - 1], [a]);
    assert Resolve(true, elems[..|elems| - 1], [a]) == kept;
    assert Resolve(true, [], Split(p)) == kept;
    assert Clean(p) == "/" + JoinSep(kept);
  }

  lemma SplitBase(all: seq<string>)
    requires |all| > 0 && forall i :: 0 <= i < |all| ==> '/' !in all[i]
    ensures Split(Base(all)) == [""] + all
  {
    assert Base(all) == "" + "/" + JoinSep(all);
    SplitAtSeparator("", JoinSep(all));
    SplitJoinSep(all);
  }

  lemma ResolveBase(elems: seq<string>)
    requires AllNames(elems)
    ensures Resolve(true, [], [""] + elems) == elems
  {
    ResolveAppend(true, [], [""], elems);
    ResolveNames(true, [], elems);
  }

  /** A service name of "" or "." adds no level of its own: the key is base/address. */
  lemma EndpointPathEmptyName(elems: seq<string>, serviceName: string, e: Endpoint)
    requires |elems| > 0 && AllNames(elems)
    requires serviceName == "" || serviceName == "."
    requires '/' !in e.ip
    ensures EndpointPath(Base(elems), serviceName, e) == Base(elems) + "/" + Address(e)
  {
    var n := Sanitize(serviceName);
    assert n == serviceName;
    var a := Address(e);
    AddressIsName(e);
    KeyUnderBase(elems, n, a);
    var p := Base(elems + [n, a]);
    ResolveAppend(true, [], [""] + elems, [n, a]);
    ResolveBase(elems);
    assert [n, a][1..] == [a];
    assert Step(true, elems, n) == elems;
    assert Resolve(true, elems, [n, a]) == Resolve(true, elems, [a]);
    assert Resolve(true, elems, [a]) == elems + [a];
    assert Resolve(true, [], Split(p)) == elems + [a];
    assert Clean(p) == Base(elems + [a]);
    BaseAppend(elems, [a]);
  }

  /**
   * Under a clean base path the key adds at most two levels to the base
   * (service and address), and exactly two precisely when the service
   * name is not "", "." or "..". The levels of a rooted path are its
   * pieces after the empty one before the leading '/'.
   */
  lemma EndpointPathDepth(elems: seq<string>, serviceName: string, e: Endpoint)
    requires |elems| > 0 && AllNames(elems)
    requires '/' !in e.ip
    ensures |Split(EndpointPath(Base(elems), serviceName, e))[1..]| <= |elems| + 2
    ensures |Split(EndpointPath(Base(elems), serviceName, e))[1..]| == |elems| + 2
            <==> serviceName != "" && serviceName != "." && serviceName != ".."
  {
    var a := Address(e);
    AddressIsName(e);
    if serviceName != "" && serviceName != "." && serviceName != ".." {
      EndpointPathUnderBase(elems, serviceName, e);
    } else if serviceName == ".." {
      EndpointPathDotDot(elems, e);
      SplitBase(elems[..|elems| - 1] + [a]);
    } else {
      EndpointPathEmptyName(elems, serviceName, e);
      BaseAppend(elems, [a]);
      SplitBase(elems + [a]);
    }
  }

  /** Keys under the base path "/discovery". */
  lemma DiscoveryKey(serviceName: string, e: Endpoint)
    requires serviceName != "" && serviceName != "." && serviceName != ".."
    requires '/' !in e.ip
    ensures EndpointPath("/discovery", serviceName, e) == "/discovery/" + Sanitize(serviceName) + "/" + Address(e)
  {
    assert Base(["discovery"]) == "/discovery";
    EndpointPathUnderBase(["discovery"], serviceName, e);
  }

  /** The registration in the repository's own test: base "/discovery", service "fake", port 18080. */
  lemma EndpointPathTestCase(ip: IP)
    ensures EndpointPath("/discovery", "fake", NewEndpoint(ip, 18080)) == "/discovery/fake/" + ip.Text() + ":18080"
  {
    var e := NewEndpoint(ip, 18080);
    assert Address(e) == ip.Text() + ":18080" by {
      assert Decimal(18080) == "18080";
    }
    TestCaseKey("fake", e);
  }

  /** The "fake" key; the name is a parameter fixed by `requires`, so that Clean is not unfolded on literals. */
  lemma TestCaseKey(name: string, e: Endpoint)
    requires name == "fake" && '/' !in e.ip
    ensures EndpointPath("/discovery", name, e) == "/discovery/fake/" + Address(e)
  {
    SanitizeKeepsName(name);
    DiscoveryKey(name, e);
  }

  /**
   * The example registration of service "orders" at 10.0.0.5:18080. The
   * address and the service name are fixed by `requires` rather than
   * written as literals in the call, so that the solver does not unfold
   * Clean on the literal strings.
   */
  lemma EndpointPathOrdersExample(ip: IP)
    requires ip == IPv4(10, 0, 0, 5)
    ensures EndpointPath("/discovery", "orders", NewEndpoint(ip, 18080)) == "/discovery/orders/10.0.0.5:18080"
  {
    var e := NewEndpoint(ip, 18080);
    assert Address(e) == "10.0.0.5:18080" by {
      assert ip.Text() == "10.0.0.5";
      assert Decimal(18080) == "18080";
    }
    OrdersKey("orders", e);
  }

  /** The "orders" key; the name is a parameter fixed by `requires`, for the same reason. */
  lemma OrdersKey(name: string, e: Endpoint)
    requires name == "orders"
    requires Address(e) == "10.0.0.5:18080" && '/' !in e.ip
    ensures EndpointPath("/discovery", name, e) == "/discovery/orders/10.0.0.5:18080"
  {
    SanitizeKeepsName(name);
    DiscoveryKey(name, e);
  }

  /** A name without '/' is left as it is. */
  lemma SanitizeKeepsName(name: string)
    requires '/' !in name
    ensures Sanitize(name) == name
  {
  }
}
