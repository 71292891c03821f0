/** The inputs both kopf handlers of pikube-dns.py read before talking to the
    router: the environment (ROUTER, USER, PASSWD, CA_VERIFY), the resource's
    `spec.dns` and `spec.ip_address`, how CA_VERIFY becomes the `verify`
    argument of every request, and the guards that raise PermanentError. */
module Config {
  import opened Wrappers

  /** Python truthiness of what `os.getenv` or `spec.get` returns: a missing
      value and the empty string are both falsy. */
  predicate Truthy(v: Option<string>) {
    v.Some? && v.value != ""
  }

  /** What a handler passes to `requests` as `verify=`: `True`, `False`, or
      the CA_VERIFY string unchanged, which `requests` reads as the path of a
      CA bundle. */
  datatype Verify = VerifyOn | VerifyOff | CaBundle(path: string)

  /** The only two spellings that switch certificate checking off. */
  predicate DisablesVerify(s: string) {
    s == "False" || s == "false"
  }

  /** The CA_VERIFY branch both handlers run on entry. */
  function ParseCaVerify(caVerify: Option<string>): (r: Verify)
    ensures r == VerifyOn <==> !Truthy(caVerify)
    ensures r == VerifyOff <==> Truthy(caVerify) && DisablesVerify(caVerify.value)
    ensures r.CaBundle? <==> Truthy(caVerify) && !DisablesVerify(caVerify.value)
    ensures r.CaBundle? ==> caVerify == Some(r.path)
  {
    if !Truthy(caVerify) then VerifyOn
    else if DisablesVerify(caVerify.value) then VerifyOff
    else CaBundle(caVerify.value)
  }

  /** A CA_VERIFY setting that produces `v`: the inverse of ParseCaVerify on
      the values it can return. */
  function CaVerifySetting(v: Verify): Option<string> {
    match v
    case VerifyOn => None
    case VerifyOff => Some("false")
    case CaBundle(path) => Some(path)
  }

  /** The values ParseCaVerify can return. */
  predicate Parsable(v: Verify) {
    v.CaBundle? ==> v.path != "" && !DisablesVerify(v.path)
  }

  lemma CaVerifyRoundTrip(v: Verify)
    requires Parsable(v)
    ensures ParseCaVerify(CaVerifySetting(v)) == v
  {
  }

  /** Matching is exact and case-sensitive: other spellings of "false", and
      "true" itself, reach `requests` as a CA-bundle path; an empty setting
      is the same as an unset one. */
  lemma CaVerifyExactMatch()
    ensures ParseCaVerify(Some("")) == ParseCaVerify(None) == VerifyOn
    ensures ParseCaVerify(Some("FALSE")) == CaBundle("FALSE")
    ensures ParseCaVerify(Some("true")) == CaBundle("true")
    ensures ParseCaVerify(Some("/etc/ssl/router-ca.pem")) == CaBundle("/etc/ssl/router-ca.pem")
  {
  }

  /** The process environment a handler reads with `os.getenv`. */
  datatype Env = Env(router: Option<string>, user: Option<string>, passwd: Option<string>, caVerify: Option<string>)

  /** The fields of the DNS resource's `spec` the handlers read with `spec.get`. */
  datatype DnsSpec = DnsSpec(dns: Option<string>, ipAddress: Option<string>)

  datatype Handler = OnCreate | OnDelete

  /** Why a guard raised PermanentError. */
  datatype Reason = RouterNotSet | CredentialsNotSet | DnsNameRequired | IpAllocationNotImplemented

  /** Everything a request is sent with: host, basic-auth pair and `verify`. */
  datatype Conn = Conn(router: string, user: string, passwd: string, verify: Verify)

  /** The guards in source order; only the create handler checks the IP address. */
  function Validate(h: Handler, env: Env, spec: DnsSpec): (r: Result<Conn, Reason>)
    ensures r.Ok? <==>
      Truthy(env.router) && Truthy(env.user) && Truthy(env.passwd) && Truthy(spec.dns) &&
      (h == OnCreate ==> Truthy(spec.ipAddress))
    ensures r.Ok? ==> r.value == Conn(env.router.value, env.user.value, env.passwd.value, ParseCaVerify(env.caVerify))
    ensures r.Err? && h == OnDelete ==> r.error != IpAllocationNotImplemented
  {
    if !Truthy(env.router) then Err(RouterNotSet)
    else if !Truthy(env.user) || !Truthy(env.passwd) then Err(CredentialsNotSet)
    else if !Truthy(spec.dns) then Err(DnsNameRequired)
    else if h == OnCreate && !Truthy(spec.ipAddress) then Err(IpAllocationNotImplemented)
    else Ok(Conn(env.router.value, env.user.value, env.passwd.value, ParseCaVerify(env.caVerify)))
  }

  /** A reference reading of the guards: a list of (value present, reason)
      checks, and the reason of the first one that fails. */
  datatype Check = Check(present: bool, reason: Reason)

  function Checks(h: Handler, env: Env, spec: DnsSpec): seq<Check> {
    [ Check(Truthy(env.router), RouterNotSet),
      Check(Truthy(env.user) && Truthy(env.passwd), CredentialsNotSet),
      Check(Truthy(spec.dns), DnsNameRequired) ] +
    (if h == OnCreate then [Check(Truthy(spec.ipAddress), IpAllocationNotImplemented)] else [])
  }

  function FirstMissing(checks: seq<Check>): (r: Option<Reason>)
    ensures r.None? <==> forall i :: 0 <= i < |checks| ==> checks[i].present
    ensures r.Some? ==> exists i :: FailsFirstAt(checks, i) && checks[i].reason == r.value
  {
    if checks == [] then None
    else if !checks[0].present then
      assert FailsFirstAt(checks, 0);
      Some(checks[0].reason)
    else
      var r := FirstMissing(checks[1..]);
      if r.None? then r
      else
        var i :| FailsFirstAt(checks[1..], i) && checks[1..][i].reason == r.value;
        assert FailsFirstAt(checks, i + 1);
        r
  }

  /** Check `i` is the first one in `checks` that fails. */
  predicate FailsFirstAt(checks: seq<Check>, i: int) {
    0 <= i < |checks| && !checks[i].present && forall j :: 0 <= j < i ==> checks[j].present
  }

  /** Validate raises exactly the reason of the first failing check, in the
      fixed order ROUTER, USER/PASSWD, dns, ip_address (create only). */
  lemma ValidationOrder(h: Handler, env: Env, spec: DnsSpec)
    ensures Validate(h, env, spec).Err? <==> FirstMissing(Checks(h, env, spec)).Some?
    ensures Validate(h, env, spec).Err? ==> FirstMissing(Checks(h, env, spec)) == Some(Validate(h, env, spec).error)
  {
    var cs := Checks(h, env, spec);
    var tail := if h == OnCreate then [Check(Truthy(spec.ipAddress), IpAllocationNotImplemented)] else [];
    var dnsOn := [Check(Truthy(spec.dns), DnsNameRequired)] + tail;
    var credsOn := [Check(Truthy(env.user) && Truthy(env.passwd), CredentialsNotSet)] + dnsOn;
    assert cs == [Check(Truthy(env.router), RouterNotSet)] + credsOn;
    assert cs[1..] == credsOn && credsOn[1..] == dnsOn && dnsOn[1..] == tail;
    assert FirstMissing(tail) == if h == OnCreate && !Truthy(spec.ipAddress) then Some(IpAllocationNotImplemented) else None;
    assert FirstMissing(dnsOn) == if !Truthy(spec.dns) then Some(DnsNameRequired) else FirstMissing(tail);
    assert FirstMissing(credsOn) == if !(Truthy(env.user) && Truthy(env.passwd)) then Some(CredentialsNotSet) else FirstMissing(dnsOn);
  }

  /** The delete handler never reads `spec.ip_address`. */
  lemma DeleteValidationIgnoresIp(env: Env, spec: DnsSpec, ip: Option<string>)
    ensures Validate(OnDelete, env, spec) == Validate(OnDelete, env, spec.(ipAddress := ip))
  {
  }

  /** Create checks everything delete checks, and one thing more: the two
      differ exactly when delete passes and the IP address is missing. */
  lemma CreateValidationStricter(env: Env, spec: DnsSpec)
    ensures Validate(OnCreate, env, spec).Ok? ==> Validate(OnDelete, env, spec) == Validate(OnCreate, env, spec)
    ensures Validate(OnDelete, env, spec).Err? ==> Validate(OnCreate, env, spec) == Validate(OnDelete, env, spec)
    ensures Validate(OnCreate, env, spec) != Validate(OnDelete, env, spec) <==>
            Validate(OnDelete, env, spec).Ok? && !Truthy(spec.ipAddress)
  {
  }
}
