/**
 * The service endpoint record, the IPv4 address it is built from, and the
 * structured record the endpoint is serialised to before it is stored.
 */
module Endpoints {
  import opened Text

  /** An IPv4 address, the four bytes a `net.IP` holds for it. */
  datatype IP = IPv4(a: byte, b: byte, c: byte, d: byte) {
    /** `net.IP.String()` of an IPv4 address: dotted decimal. */
    function Text(): (s: string)
      ensures '/' !in s && ':' !in s
    {
      DottedHasNoSeparators(c, Decimal(d));
      DottedHasNoSeparators(b, Dotted(c, Decimal(d)));
      DottedHasNoSeparators(a, Dotted(b, Dotted(c, Decimal(d))));
      Dotted(a, Dotted(b, Dotted(c, Decimal(d))))
    }
  }

  /** One byte of a dotted-decimal address and the text after its dot. */
  function Dotted(m: nat, rest: string): string {
    Decimal(m) + "." + rest
  }

  lemma DottedHasNoSeparators(m: nat, rest: string)
    requires '/' !in rest && ':' !in rest
    ensures '/' !in Dotted(m, rest) && ':' !in Dotted(m, rest)
  {
    DecimalHasNoSeparators(m);
  }

  /** Different addresses have different text. */
  lemma IPTextInjective(p: IP, q: IP)
    requires p.Text() == q.Text()
    ensures p == q
  {
    DottedInjective(p.a, Dotted(p.b, Dotted(p.c, Decimal(p.d))), q.a, Dotted(q.b, Dotted(q.c, Decimal(q.d))));
    DottedInjective(p.b, Dotted(p.c, Decimal(p.d)), q.b, Dotted(q.c, Decimal(q.d)));
    DottedInjective(p.c, Decimal(p.d), q.c, Decimal(q.d));
    DecimalInjective(p.d, q.d);
  }

  lemma DottedInjective(m: nat, s: string, n: nat, t: string)
    requires Dotted(m, s) == Dotted(n, t)
    ensures m == n && s == t
  {
    DecimalHasNoSeparators(m);
    DecimalHasNoSeparators(n);
    SplitAtFirst(Decimal(m), s, Decimal(n), t, '.');
    DecimalInjective(m, n);
  }

  /** A service endpoint. Every field may be left empty; a nil and an empty metadata list are not told apart. */
  datatype Endpoint = Endpoint(ip: string, port: uint16, locality: string, stage: string, metadata: seq<string>)

  /** Builds the endpoint of a service listening on `port` at address `ip`. */
  function NewEndpoint(ip: IP, port: uint16): (e: Endpoint)
    ensures e.ip == ip.Text() && e.port == port
    ensures e.locality == "" && e.stage == "" && e.metadata == []
  {
    Endpoint(ip.Text(), port, "", "", [])
  }

  // ---------------------------------------------------------------------
  // Serialisation.

  /** A JSON value; an object maps member names to values. */
  datatype Json =
    | JString(str: string)
    | JNumber(num: int)
    | JArray(items: seq<Json>)
    | JObject(members: map<string, Json>)

  function Strings(ss: seq<string>): (js: seq<Json>)
    ensures |js| == |ss| && forall i :: 0 <= i < |ss| ==> js[i] == JString(ss[i])
  {
    seq(|ss|, i requires 0 <= i < |ss| => JString(ss[i]))
  }

  /** Adds a member for a field tagged `omitempty`: nothing at all when the field is empty. */
  function WithField(members: map<string, Json>, name: string, empty: bool, value: Json): map<string, Json> {
    if empty then members else members[name := value]
  }

  /**
   * The record `encode` writes for an endpoint: each field under its JSON
   * name, left out when it is empty.
   */
  function Encode(e: Endpoint): (j: Json)
    ensures j.JObject? && j.members.Keys <= {"ip", "port", "locality", "stage", "metadata"}
    ensures "ip" in j.members <==> e.ip != ""
    ensures "port" in j.members <==> e.port != 0
    ensures "locality" in j.members <==> e.locality != ""
    ensures "stage" in j.members <==> e.stage != ""
    ensures "metadata" in j.members <==> e.metadata != []
    ensures "ip" in j.members ==> j.members["ip"] == JString(e.ip)
    ensures "port" in j.members ==> j.members["port"] == JNumber(e.port)
    ensures "locality" in j.members ==> j.members["locality"] == JString(e.locality)
    ensures "stage" in j.members ==> j.members["stage"] == JString(e.stage)
    ensures "metadata" in j.members ==> j.members["metadata"] == JArray(Strings(e.metadata))
  {
    var members := map[];
    var members := WithField(members, "ip", e.ip == "", JString(e.ip));
    var members := WithField(members, "port", e.port == 0, JNumber(e.port));
    var members := WithField(members, "locality", e.locality == "", JString(e.locality));
    var members := WithField(members, "stage", e.stage == "", JString(e.stage));
    var members := WithField(members, "metadata", e.metadata == [], JArray(Strings(e.metadata)));
    JObject(members)
  }

  // ---------------------------------------------------------------------
  // Reading a record back, as a JSON decoder fills a zero-valued struct.

  function StringField(members: map<string, Json>, name: string): string {
    if name in members && members[name].JString? then members[name].str else ""
  }

  function PortField(members: map<string, Json>): uint16 {
    if "port" in members && members["port"].JNumber? && 0 <= members["port"].num < 0x1_0000
    then members["port"].num else 0
  }

  function MetadataField(members: map<string, Json>): seq<string> {
    if "metadata" in members && members["metadata"].JArray? then
      var items := members["metadata"].items;
      seq(|items|, i requires 0 <= i < |items| => if items[i].JString? then items[i].str else "")
    else []
  }

  function Decode(j: Json): Endpoint {
    var members := if j.JObject? then j.members else map[];
    Endpoint(StringField(members, "ip"), PortField(members), StringField(members, "locality"),
             StringField(members, "stage"), MetadataField(members))
  }

  /** Leaving out the empty fields loses nothing: every omitted field reads back as its zero value. */
  lemma DecodeEncode(e: Endpoint)
    ensures Decode(Encode(e)) == e
  {
    var m := Encode(e).members;
    if e.metadata != [] {
      assert MetadataField(m) == e.metadata;
    }
  }

  /** A fresh endpoint is written as its address and, unless it is zero, its port. */
  lemma NewEndpointEncoding(ip: IP, port: uint16)
    ensures Encode(NewEndpoint(ip, port)) ==
      JObject(if port == 0 then map["ip" := JString(ip.Text())]
              else map["ip" := JString(ip.Text()), "port" := JNumber(port)])
  {
    var e := NewEndpoint(ip, port);
    assert e.ip != "";
  }
}
