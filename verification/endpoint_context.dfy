/**
 * Endpoint and universe-domain resolution for a client: the endpoint
 * template, the mTLS endpoint choice, the decision procedure that picks the
 * endpoint and universe domain from the configured settings, and its
 * memoisation in two nullable fields.
 */
module EndpointContext {
  import opened Wrappers
  import opened Text

  const GoogleDefaultUniverse := "googleapis.com"
  const DefaultPort := "443"

  const Scheme := "https://"
  const ServicePlaceholder := "SERVICE_NAME"
  const UniversePlaceholder := "UNIVERSE_DOMAIN"
  const PortPlaceholder := "PORT"

  /** `https://<service>.<universe>:<port>` */
  function Assemble(service: string, universe: string, port: string): string
  {
    Scheme + (service + ("." + (universe + (":" + port))))
  }

  /** `https://SERVICE_NAME.UNIVERSE_DOMAIN:PORT` */
  const EndpointTemplate := Assemble(ServicePlaceholder, UniversePlaceholder, PortPlaceholder)

  /** What the mTLS provider reports about the environment. */
  datatype MtlsEndpointUsagePolicy = Always | Never | Auto

  /** `getKeyStore()`: a key store, null, or an `IOException`. */
  datatype KeyStore = KeyStoreLoaded | NoKeyStore | KeyStoreUnreadable

  /** The mTLS provider, reduced to the three answers the resolver asks of it. */
  datatype MtlsProvider = MtlsProvider(
    usagePolicy: MtlsEndpointUsagePolicy,
    useMtlsClientCertificate: bool,
    keyStore: KeyStore)

  /** The settings an endpoint context is built from; `None` is Java's null. */
  datatype Settings = Settings(
    hostServiceName: string,
    clientSettingsEndpoint: Option<string>,
    transportChannelEndpoint: Option<string>,
    mtlsEndpoint: Option<string>,
    switchToMtlsEndpointAllowed: bool,
    universeDomain: Option<string>,
    mtlsProvider: Option<MtlsProvider>)

  /** The two memo fields `resolvedEndpoint` and `resolvedUniverseDomain`. */
  datatype Resolved = Resolved(endpoint: Option<string>, universeDomain: Option<string>)

  const Unresolved := Resolved(None, None)

  /** The exceptions resolution can throw. */
  datatype EndpointError =
    | EmptyUniverseDomain          // "Universe Domain cannot be set as an empty string"
    | UnableToResolveEndpoint      // "Unable to resolve the endpoint"
    | MtlsOutsideDefaultUniverse   // "mTLS is not supported in any universe other than googleapis.com"
    | NullEndpoint                 // `contains` called on a null resolved endpoint
    | KeyStoreIOException          // the key store could not be read
    | SubstringOutOfBounds         // a ':' before the first '.' in a custom endpoint

  /** The memo fields after `determineEndpoint`, and what it threw, if anything.
      Fields assigned before a throw stay assigned. */
  datatype Outcome = Outcome(state: Resolved, error: Option<EndpointError>)

  /** The memo fields after an accessor, and what it returned or threw. */
  datatype Answer<T> = Answer(state: Resolved, result: Result<T, EndpointError>)

  /* -------------------------------------------------------------- template */

  /** `buildEndpoint(service, universe, port)`: the template with its three
      placeholders replaced one after the other. */
  function BuildEndpoint(hostServiceName: string, universeDomain: string, port: string): (r: string)
    ensures |r| >= |Scheme| && r[..|Scheme|] == Scheme
  {
    assert EndpointTemplate == Scheme + EndpointTemplate[|Scheme|..];
    KeepsScheme(EndpointTemplate[|Scheme|..], ServicePlaceholder, hostServiceName);
    var withService := ReplaceAll(EndpointTemplate, ServicePlaceholder, hostServiceName);
    assert withService == Scheme + withService[|Scheme|..];
    KeepsScheme(withService[|Scheme|..], UniversePlaceholder, universeDomain);
    var withUniverse := ReplaceAll(withService, UniversePlaceholder, universeDomain);
    assert withUniverse == Scheme + withUniverse[|Scheme|..];
    KeepsScheme(withUniverse[|Scheme|..], PortPlaceholder, port);
    ReplaceAll(withUniverse, PortPlaceholder, port)
  }

  /** No placeholder starts with a character of the scheme, so every
      replacement keeps the scheme in front. */
  lemma {:induction false} KeepsScheme(rest: string, t: string, r: string)
    requires |t| > 0 && 'A' <= t[0] <= 'Z'
    ensures var x := ReplaceAll(Scheme + rest, t, r);
      |x| >= |Scheme| && x[..|Scheme|] == Scheme
  {
    assert t[0] !in Scheme;
    ReplaceAllSkip(Scheme, rest, t, r);
  }

  /** `buildEndpoint(service)`: the default universe and port. */
  function BuildDefaultEndpoint(hostServiceName: string): (r: string)
    ensures |r| >= |Scheme| && r[..|Scheme|] == Scheme
  {
    BuildEndpoint(hostServiceName, GoogleDefaultUniverse, DefaultPort)
  }

  /** The text before the universe domain, and the text before the port. */
  lemma {:induction false} AssembleSplits(service: string, universe: string, port: string)
    ensures Assemble(service, universe, port)
         == (Scheme + (service + ".")) + (universe + (":" + port))
    ensures Assemble(service, universe, port)
         == (Scheme + (service + ("." + (universe + ":")))) + port
  {
    Associate(service, ".", universe + (":" + port));
    Associate(Scheme, service + ".", universe + (":" + port));
    Associate(universe, ":", port);
    Associate(".", universe + ":", port);
    Associate(service, "." + (universe + ":"), port);
    Associate(Scheme, service + ("." + (universe + ":")), port);
  }

  /** The first substitution only touches the service-name placeholder. */
  lemma {:induction false} ReplaceServiceName(service: string)
    ensures ReplaceAll(EndpointTemplate, ServicePlaceholder, service)
         == Assemble(service, UniversePlaceholder, PortPlaceholder)
  {
    var tail := "." + (UniversePlaceholder + (":" + PortPlaceholder));
    assert ServicePlaceholder[0] !in Scheme;
    assert ServicePlaceholder[5] !in tail;
    ReplaceAllOnce(Scheme, ServicePlaceholder, tail, service, 5);
  }

  /** The second substitution, when the service name holds no 'U'. */
  lemma {:induction false} ReplaceUniverse(service: string, universe: string)
    requires 'U' !in service
    ensures ReplaceAll(Assemble(service, UniversePlaceholder, PortPlaceholder), UniversePlaceholder, universe)
         == Assemble(service, universe, PortPlaceholder)
  {
    var head := Scheme + (service + ".");
    assert 'U' !in head;
    AssembleSplits(service, UniversePlaceholder, PortPlaceholder);
    AssembleSplits(service, universe, PortPlaceholder);
    ReplaceAllOnce(head, UniversePlaceholder, ":" + PortPlaceholder, universe, 0);
  }

  /** The third substitution, when nothing before the port placeholder holds a 'P'. */
  lemma {:induction false} ReplacePort(head: string, port: string)
    requires 'P' !in head
    ensures ReplaceAll(head + PortPlaceholder, PortPlaceholder, port) == head + port
  {
    assert PortPlaceholder + "" == PortPlaceholder && port + "" == port;
    ReplaceAllOnce(head, PortPlaceholder, "", port, 0);
  }

  /** The first two substitutions, when the service name holds no 'U'. */
  lemma {:induction false} BuildEndpointUnfolds(service: string, universe: string, port: string)
    requires 'U' !in service
    ensures BuildEndpoint(service, universe, port)
         == ReplaceAll(Assemble(service, universe, PortPlaceholder), PortPlaceholder, port)
  {
    ReplaceServiceName(service);
    ReplaceUniverse(service, universe);
  }

  /** When the service name holds no 'U' and no 'P' and the universe domain
      no 'P' (for instance, when both are lower-case host names), the endpoint
      is the plain concatenation `https://<service>.<universe>:<port>`. */
  lemma {:induction false} BuildEndpointShape(service: string, universe: string, port: string)
    requires 'U' !in service && 'P' !in service && 'P' !in universe
    ensures BuildEndpoint(service, universe, port) == Assemble(service, universe, port)
  {
    BuildEndpointUnfolds(service, universe, port);
    var head := Scheme + (service + ("." + (universe + ":")));
    assert 'P' !in head;
    AssembleSplits(service, universe, PortPlaceholder);
    AssembleSplits(service, universe, port);
    ReplacePort(head, port);
  }

  /** The replacements are successive: a placeholder spelled inside an earlier
      substitution is replaced too. A service name starting "PORT" gets the
      port number spliced into its host label. */
  lemma {:induction false} BuildEndpointRescans(suffix: string, universe: string, port: string)
    requires 'U' !in suffix && 'P' !in suffix && 'P' !in universe
    ensures BuildEndpoint(PortPlaceholder + suffix, universe, port)
         == Assemble(port + suffix, universe, port)
  {
    var service := PortPlaceholder + suffix;
    assert 'U' !in service;
    BuildEndpointUnfolds(service, universe, port);
    var rest := suffix + ("." + (universe + ":"));
    assert 'P' !in rest;
    RescanPort(rest, port);
    AssembleSplits(service, universe, PortPlaceholder);
    AssembleSplits(port + suffix, universe, port);
    Associate(PortPlaceholder, suffix, "." + (universe + ":"));
    Associate(port, suffix, "." + (universe + ":"));
  }

  /** Both port placeholders after the scheme are replaced. */
  lemma {:induction false} RescanPort(rest: string, port: string)
    requires 'P' !in rest
    ensures ReplaceAll((Scheme + (PortPlaceholder + rest)) + PortPlaceholder, PortPlaceholder, port)
         == (Scheme + (port + rest)) + port
  {
    ReplacePort(rest, port);
    assert 'P' !in Scheme;
    Associate(PortPlaceholder, rest, PortPlaceholder);
    Associate(Scheme, PortPlaceholder + rest, PortPlaceholder);
    ReplaceAllSkip(Scheme, PortPlaceholder + (rest + PortPlaceholder), PortPlaceholder, port);
    ReplaceAllHit(rest + PortPlaceholder, PortPlaceholder, port);
    Associate(port, rest, port);
    Associate(Scheme, port + rest, port);
  }

  /** Both overloads produce the same template substitution; the one-argument
      form is the default universe on port 443. */
  lemma {:induction false} DefaultEndpointShape(service: string)
    requires 'U' !in service && 'P' !in service
    ensures BuildDefaultEndpoint(service) == Assemble(service, GoogleDefaultUniverse, DefaultPort)
  {
    assert 'P' !in GoogleDefaultUniverse;
    BuildEndpointShape(service, GoogleDefaultUniverse, DefaultPort);
  }

  /* ---------------------------------------------------------------- mTLS */

  /** Whether the resolver switches to the mTLS endpoint. */
  predicate UsesMtls(provider: MtlsProvider, switchAllowed: bool)
  {
    switchAllowed
    && (provider.usagePolicy == Always
        || (provider.usagePolicy == Auto && provider.useMtlsClientCertificate
            && provider.keyStore == KeyStoreLoaded))
  }

  /** `mtlsEndpointResolver`: the plain endpoint unless switching is allowed;
      then ALWAYS picks the (possibly null) mTLS endpoint, NEVER the plain one,
      and AUTO the mTLS one exactly when the client certificate is used and a
      key store is present. Reading the key store can throw. */
  function MtlsEndpointResolver(provider: MtlsProvider, endpoint: string, mtlsEndpoint: Option<string>, switchAllowed: bool)
    : (r: Result<Option<string>, EndpointError>)
    ensures r.Failure? <==>
      switchAllowed && provider.usagePolicy == Auto && provider.useMtlsClientCertificate
      && provider.keyStore == KeyStoreUnreadable
    ensures r.Failure? ==> r.error == KeyStoreIOException
    ensures r.Success? ==> r.value == (if UsesMtls(provider, switchAllowed) then mtlsEndpoint else Some(endpoint))
  {
    if switchAllowed then
      match provider.usagePolicy
      case Always => Success(mtlsEndpoint)
      case Never => Success(Some(endpoint))
      case Auto =>
        if provider.useMtlsClientCertificate then
          match provider.keyStore
          case KeyStoreUnreadable => Failure(KeyStoreIOException)
          case KeyStoreLoaded => Success(mtlsEndpoint)
          case NoKeyStore => Success(Some(endpoint))
        else
          Success(Some(endpoint))
    else
      Success(Some(endpoint))
  }

  /* -------------------------------------------------------- custom endpoint */

  /** `transportChannelEndpoint` if set, else `clientSettingsEndpoint`. */
  function CustomEndpoint(s: Settings): (r: Option<string>)
    ensures s.transportChannelEndpoint.Some? ==> r == s.transportChannelEndpoint
    ensures s.transportChannelEndpoint.None? ==> r == s.clientSettingsEndpoint
  {
    if s.transportChannelEndpoint.Some? then s.transportChannelEndpoint else s.clientSettingsEndpoint
  }

  /** Drops the first 8 characters when "https://" occurs anywhere in the
      endpoint. */
  function StripScheme(endpoint: string): (r: string)
    ensures Contains(endpoint, "https://") ==> |endpoint| >= 8 && r == endpoint[8..]
    ensures !Contains(endpoint, "https://") ==> r == endpoint
  {
    if Contains(endpoint, "https://") then endpoint[8..] else endpoint
  }

  /** The universe domain named by a custom endpoint: what lies after the
      first '.' (from the start without one) up to the first ':' (or to the
      end without one). A ':' before the first '.' makes `substring` throw. */
  function ParseUniverseDomain(endpoint: string): (r: Result<string, EndpointError>)
    ensures r.Failure? <==> ':' in endpoint && '.' in endpoint && IndexOfChar(endpoint, ':') < IndexOfChar(endpoint, '.')
    ensures r.Success? ==> ':' !in r.value
    ensures r.Success? ==>
      var start := IndexOfChar(endpoint, '.') + 1;
      && start + |r.value| <= |endpoint|
      && endpoint[start..start + |r.value|] == r.value
      && (start + |r.value| == |endpoint| || endpoint[start + |r.value|] == ':')
  {
    var period := IndexOfChar(endpoint, '.');
    var colon := IndexOfChar(endpoint, ':');
    if colon != -1 then
      if period + 1 <= colon then
        var universe := endpoint[period + 1..colon];
        assert universe == endpoint[..colon][period + 1..];
        assert endpoint[colon] == ':';
        Success(universe)
      else
        Failure(SubstringOutOfBounds)
    else
      var universe := endpoint[period + 1..];
      assert period + 1 + |universe| == |endpoint|;
      Success(universe)
  }

  lemma {:induction false} IndexOfCharConcat(a: string, c: char, b: string)
    requires c !in a
    ensures IndexOfChar(a + ([c] + b), c) == |a|
  {
    assert (a + ([c] + b))[|a|] == c;
    assert (a + ([c] + b))[..|a|] == a;
  }

  /** `host.universe:port` names the universe `universe`. */
  lemma {:induction false} ParseHostUniversePort(host: string, universe: string, port: string)
    requires '.' !in host && ':' !in host && ':' !in universe
    ensures ParseUniverseDomain(host + ("." + (universe + (":" + port)))) == Success(universe)
  {
    var e := host + ("." + (universe + (":" + port)));
    var front := host + ("." + universe);
    IndexOfCharConcat(host, '.', universe + (":" + port));
    assert e == front + (":" + port) by {
      Associate(".", universe, ":" + port);
      Associate(host, "." + universe, ":" + port);
    }
    assert ':' !in front;
    IndexOfCharConcat(front, ':', port);
    assert e[..|front|] == front;
    assert front[|host| + 1..] == universe;
  }

  /** `host.universe` without a port names the universe `universe`. */
  lemma {:induction false} ParseHostUniverse(host: string, universe: string)
    requires '.' !in host && ':' !in host && ':' !in universe
    ensures ParseUniverseDomain(host + ("." + universe)) == Success(universe)
  {
    var e := host + ("." + universe);
    IndexOfCharConcat(host, '.', universe);
    assert ':' !in e;
    assert e[|host| + 1..] == universe;
  }

  /** Without a '.', `host:port` names the universe `host`. */
  lemma {:induction false} ParseHostPort(host: string, port: string)
    requires '.' !in host && ':' !in host && '.' !in port
    ensures ParseUniverseDomain(host + ([':'] + port)) == Success(host)
  {
    var e := host + ([':'] + port);
    IndexOfCharConcat(host, ':', port);
    assert '.' !in e;
    assert e[..|host|] == host;
  }

  /** Without a '.' or a ':', the whole endpoint is the universe. */
  lemma {:induction false} ParseHostOnly(host: string)
    requires '.' !in host && ':' !in host
    ensures ParseUniverseDomain(host) == Success(host)
  {
    assert host[0..] == host;
  }

  /* ----------------------------------------------------------- resolution */

  /** Both memo fields are set: `determineEndpoint` returns at once. */
  predicate IsResolved(r: Resolved)
  {
    r.endpoint.Some? && r.universeDomain.Some?
  }

  /** Picks the endpoint for a universe and rejects an mTLS endpoint outside
      the default universe. The endpoint field is assigned before that check,
      so it stays assigned when the check throws. */
  function ResolveInUniverse(s: Settings, provider: MtlsProvider, st: Resolved, universe: string): (o: Outcome)
    ensures o.error == Some(MtlsOutsideDefaultUniverse) <==>
      var chosen := MtlsEndpointResolver(provider, BuildEndpoint(s.hostServiceName, universe, DefaultPort), s.mtlsEndpoint, s.switchToMtlsEndpointAllowed);
      chosen.Success? && chosen.value.Some? && Contains(chosen.value.value, "mtls") && universe != GoogleDefaultUniverse
    ensures o.error.None? ==> o.state.universeDomain == Some(universe) && o.state.endpoint.Some?
    ensures o.error.Some? ==> o.state.universeDomain == st.universeDomain
  {
    match MtlsEndpointResolver(provider, BuildEndpoint(s.hostServiceName, universe, DefaultPort), s.mtlsEndpoint, s.switchToMtlsEndpointAllowed)
    case Failure(err) => Outcome(st, Some(err))
    case Success(endpoint) =>
      var stored := st.(endpoint := endpoint);
      if endpoint.None? then
        Outcome(stored, Some(NullEndpoint))
      else if Contains(endpoint.value, "mtls") && universe != GoogleDefaultUniverse then
        Outcome(stored, Some(MtlsOutsideDefaultUniverse))
      else
        Outcome(Resolved(endpoint, Some(universe)), None)
  }

  /** `determineEndpoint`: does nothing once both fields are set; otherwise
      resolves from the settings, `env` standing for the provider built from
      the environment when none is configured. */
  function Determine(s: Settings, env: MtlsProvider, st: Resolved): (o: Outcome)
    ensures IsResolved(st) ==> o == Outcome(st, None)
    ensures o.error.None? ==> o.state.universeDomain.Some?
    ensures o.error.Some? ==> o.state.universeDomain == st.universeDomain
  {
    if IsResolved(st) then Outcome(st, None)
    else
      var provider := s.mtlsProvider.GetOr(env);
      var custom := CustomEndpoint(s);
      if s.universeDomain.None? && custom.None? then
        match MtlsEndpointResolver(provider, BuildDefaultEndpoint(s.hostServiceName), s.mtlsEndpoint, s.switchToMtlsEndpointAllowed)
        case Failure(err) => Outcome(st, Some(err))
        case Success(endpoint) => Outcome(Resolved(endpoint, Some(GoogleDefaultUniverse)), None)
      else if s.universeDomain == Some("") then
        Outcome(st, Some(EmptyUniverseDomain))
      else if s.universeDomain.Some? && custom.None? then
        ResolveInUniverse(s, provider, st, s.universeDomain.value)
      else if custom.Some? && custom.value != "" then
        var stripped := StripScheme(custom.value);
        if Contains(stripped, "localhost") then
          Outcome(Resolved(Some(stripped), Some(GoogleDefaultUniverse)), None)
        else
          match ParseUniverseDomain(stripped)
          case Failure(err) => Outcome(st, Some(err))
          case Success(universe) => ResolveInUniverse(s, provider, st, universe)
      else
        Outcome(st, Some(UnableToResolveEndpoint))
  }

  /** `resolveEndpoint`: determines only while the endpoint field is null,
      then returns that field (which may still be null). */
  function ResolveEndpoint(s: Settings, env: MtlsProvider, st: Resolved): (a: Answer<Option<string>>)
    ensures st.endpoint.Some? ==> a == Answer(st, Success(st.endpoint))
    ensures a.result.Success? ==> a.result.value == a.state.endpoint
  {
    if st.endpoint.None? then
      var o := Determine(s, env, st);
      if o.error.Some? then Answer(o.state, Failure(o.error.value)) else Answer(o.state, Success(o.state.endpoint))
    else
      Answer(st, Success(st.endpoint))
  }

  /** `resolveUniverseDomain`: determines only while the universe field is
      null, then returns it; it is never null on return. */
  function ResolveUniverseDomain(s: Settings, env: MtlsProvider, st: Resolved): (a: Answer<string>)
    ensures st.universeDomain.Some? ==> a == Answer(st, Success(st.universeDomain.value))
    ensures a.result.Success? ==> a.state.universeDomain == Some(a.result.value)
  {
    if st.universeDomain.None? then
      var o := Determine(s, env, st);
      if o.error.Some? then Answer(o.state, Failure(o.error.value))
      else Answer(o.state, Success(o.state.universeDomain.value))
    else
      Answer(st, Success(st.universeDomain.value))
  }

  /** `isValidUniverseDomain`: resolves if needed, then answers true whatever
      the credentials say (the comparison is disabled in the code). */
  function IsValidUniverseDomain(s: Settings, env: MtlsProvider, st: Resolved): (a: Answer<bool>)
    ensures a.result.Success? ==> a.result.value && a.state.universeDomain.Some?
    ensures st.universeDomain.Some? ==> a == Answer(st, Success(true))
  {
    if st.universeDomain.None? then
      var o := Determine(s, env, st);
      if o.error.Some? then Answer(o.state, Failure(o.error.value)) else Answer(o.state, Success(true))
    else
      Answer(st, Success(true))
  }

  /* ---------------------------------------------------------------- lemmas */

  /** The two configuration errors, each in both directions: an empty
      configured universe domain always fails; otherwise an empty custom
      endpoint always fails. */
  lemma {:induction false} ConfigurationErrors(s: Settings, env: MtlsProvider, st: Resolved)
    requires !IsResolved(st)
    ensures Determine(s, env, st).error == Some(EmptyUniverseDomain) <==> s.universeDomain == Some("")
    ensures Determine(s, env, st).error == Some(UnableToResolveEndpoint)
        <==> s.universeDomain != Some("") && CustomEndpoint(s) == Some("")
  {
    EmptyUniverseError(s, env, st);
    UnresolvableError(s, env, st);
  }

  lemma {:induction false} EmptyUniverseError(s: Settings, env: MtlsProvider, st: Resolved)
    requires !IsResolved(st)
    ensures Determine(s, env, st).error == Some(EmptyUniverseDomain) <==> s.universeDomain == Some("")
  {
  }

  lemma {:induction false} UnresolvableError(s: Settings, env: MtlsProvider, st: Resolved)
    requires !IsResolved(st)
    ensures Determine(s, env, st).error == Some(UnableToResolveEndpoint)
        <==> s.universeDomain != Some("") && CustomEndpoint(s) == Some("")
  {
  }

  /** With neither a universe domain nor a custom endpoint the universe is
      `googleapis.com` and the endpoint is the default template's (or the mTLS
      endpoint when the provider switches); only a key-store read can fail. */
  lemma {:induction false} DefaultResolution(s: Settings, env: MtlsProvider, st: Resolved)
    requires !IsResolved(st)
    requires s.universeDomain.None? && s.transportChannelEndpoint.None? && s.clientSettingsEndpoint.None?
    ensures var provider := s.mtlsProvider.GetOr(env);
      var o := Determine(s, env, st);
      && (o.error.None? <==> MtlsEndpointResolver(provider, "", None, s.switchToMtlsEndpointAllowed).Success?)
      && (o.error.None? ==>
            o.state == Resolved(
              if UsesMtls(provider, s.switchToMtlsEndpointAllowed) then s.mtlsEndpoint
              else Some(BuildDefaultEndpoint(s.hostServiceName)),
              Some(GoogleDefaultUniverse)))
  {
  }

  /** A transport-channel endpoint, when set, hides the client-settings one. */
  lemma {:induction false} TransportEndpointTakesPrecedence(s: Settings, env: MtlsProvider, st: Resolved, other: Option<string>)
    requires s.transportChannelEndpoint.Some?
    ensures Determine(s.(clientSettingsEndpoint := other), env, st) == Determine(s, env, st)
  {
    var s2 := s.(clientSettingsEndpoint := other);
    assert CustomEndpoint(s2) == CustomEndpoint(s);
    forall p, u ensures ResolveInUniverse(s2, p, st, u) == ResolveInUniverse(s, p, st, u) {
    }
  }

  /** A custom endpoint mentioning localhost (after the scheme is stripped) is
      used verbatim in the default universe, with no mTLS switching. */
  lemma {:induction false} LocalhostVerbatim(s: Settings, env: MtlsProvider, st: Resolved, custom: string)
    requires !IsResolved(st)
    requires s.universeDomain != Some("") && CustomEndpoint(s) == Some(custom) && custom != ""
    requires Contains(StripScheme(custom), "localhost")
    ensures Determine(s, env, st) == Outcome(Resolved(Some(StripScheme(custom)), Some(GoogleDefaultUniverse)), None)
  {
  }

  /** A custom endpoint `host.universe:port` (no scheme, not localhost) puts the
      context in universe `universe`, and unless the provider switches to mTLS
      the endpoint is rebuilt from the service name in that universe on port
      443; an mTLS switch outside `googleapis.com` is rejected. */
  lemma {:induction false} CustomEndpointUniverse(s: Settings, env: MtlsProvider, st: Resolved, host: string, universe: string, port: string)
    requires !IsResolved(st)
    requires s.universeDomain != Some("")
    requires CustomEndpoint(s) == Some(host + ("." + (universe + (":" + port))))
    requires '.' !in host && ':' !in host && ':' !in universe
    requires !Contains(host + ("." + (universe + (":" + port))), "https://")
    requires !Contains(host + ("." + (universe + (":" + port))), "localhost")
    ensures var o := Determine(s, env, st);
      var provider := s.mtlsProvider.GetOr(env);
      && (o.error.None? ==> o.state.universeDomain == Some(universe))
      && (!UsesMtls(provider, s.switchToMtlsEndpointAllowed) && provider.keyStore != KeyStoreUnreadable ==>
            o == Outcome(Resolved(Some(BuildEndpoint(s.hostServiceName, universe, DefaultPort)), Some(universe)), None)
            || (o.error == Some(MtlsOutsideDefaultUniverse)
                && Contains(BuildEndpoint(s.hostServiceName, universe, DefaultPort), "mtls") && universe != GoogleDefaultUniverse))
  {
    var e := host + ("." + (universe + (":" + port)));
    assert e != "" by { assert |e| > 0; }
    ParseHostUniversePort(host, universe, port);
  }

  /** A successful determination leaves both fields set, except that the
      default branch may record a null mTLS endpoint; its outcome does not
      depend on the fields it started from. */
  lemma {:induction false} SuccessIndependentOfState(s: Settings, env: MtlsProvider, st1: Resolved, st2: Resolved)
    requires !IsResolved(st1) && !IsResolved(st2)
    requires Determine(s, env, st1).error.None?
    ensures Determine(s, env, st2) == Determine(s, env, st1)
    ensures Determine(s, env, st1).state.endpoint.None? ==>
      s.universeDomain.None? && CustomEndpoint(s).None? && s.mtlsEndpoint.None?
  {
  }

  /** Memoisation: once `resolveEndpoint` has returned, asking again returns
      the same value and changes nothing, whether or not the first call had to
      determine it. */
  lemma {:induction false} ResolveEndpointRepeats(s: Settings, env: MtlsProvider, st: Resolved)
    requires ResolveEndpoint(s, env, st).result.Success?
    ensures var a := ResolveEndpoint(s, env, st);
      ResolveEndpoint(s, env, a.state) == a
  {
    var a := ResolveEndpoint(s, env, st);
    if a.state.endpoint.None? {
      assert st.endpoint.None?;
      assert !IsResolved(st);
      SuccessIndependentOfState(s, env, st, a.state);
    }
  }

  /** After the universe domain is resolved, `isValidUniverseDomain` answers
      true without resolving again. */
  lemma {:induction false} ValidAfterResolve(s: Settings, env: MtlsProvider, st: Resolved)
    requires ResolveUniverseDomain(s, env, st).result.Success?
    ensures var a := ResolveUniverseDomain(s, env, st);
      IsValidUniverseDomain(s, env, a.state) == Answer(a.state, Success(true))
      && ResolveUniverseDomain(s, env, a.state) == a
  {
  }

  /* --------------------------------------- the endpoint kept after a throw */

  /** Retrying after an mTLS rejection: the first `resolveEndpoint` throws,
      but it has already stored the rejected mTLS endpoint, so a second call
      skips resolution and returns that endpoint. */
  lemma {:induction false} RetryReturnsRejectedEndpoint(s: Settings, env: MtlsProvider, st: Resolved)
    requires st.endpoint.None?
    requires ResolveEndpoint(s, env, st).result == Failure(MtlsOutsideDefaultUniverse)
    ensures var a := ResolveEndpoint(s, env, st);
      && a.state.endpoint.Some?
      && Contains(a.state.endpoint.value, "mtls")
      && ResolveEndpoint(s, env, a.state) == Answer(a.state, Success(a.state.endpoint))
  {
  }

  /** The scenario: a non-default universe, no custom endpoint, and a
      provider that always switches to an mTLS endpoint. The first call throws;
      the retry returns the very endpoint that was rejected. */
  lemma {:induction false} RetryAfterRejectionScenario(service: string, universe: string, mtls: string, env: MtlsProvider)
    requires universe != "" && universe != GoogleDefaultUniverse && Contains(mtls, "mtls")
    ensures var s := Settings(service, None, None, Some(mtls), true, Some(universe), Some(MtlsProvider(Always, false, NoKeyStore)));
      var a := ResolveEndpoint(s, env, Unresolved);
      && a.result == Failure(MtlsOutsideDefaultUniverse)
      && ResolveEndpoint(s, env, a.state).result == Success(Some(mtls))
  {
    var s := Settings(service, None, None, Some(mtls), true, Some(universe), Some(MtlsProvider(Always, false, NoKeyStore)));
    assert Determine(s, env, Unresolved) == Outcome(Resolved(Some(mtls), None), Some(MtlsOutsideDefaultUniverse));
  }

  /** A concrete instance: service `pubsub` in universe `example.com`. */
  lemma {:induction false} RetryAfterRejectionExample(env: MtlsProvider)
    ensures var m := "https://pubsub.mtls.googleapis.com:443";
      var s := Settings("pubsub", None, None, Some(m), true, Some("example.com"), Some(MtlsProvider(Always, false, NoKeyStore)));
      var a := ResolveEndpoint(s, env, Unresolved);
      && a.result == Failure(MtlsOutsideDefaultUniverse)
      && ResolveEndpoint(s, env, a.state).result == Success(Some(m))
  {
    ExampleInputs();
    RetryAfterRejectionScenario("pubsub", "example.com", "https://pubsub.mtls.googleapis.com:443", env);
  }

  lemma {:induction false} ExampleInputs()
    ensures Contains("https://pubsub.mtls.googleapis.com:443", "mtls")
    ensures "example.com" != "" && "example.com" != GoogleDefaultUniverse
  {
    ExampleEndpointIsMtls();
    assert "example.com"[0] != GoogleDefaultUniverse[0];
  }

  lemma {:induction false} ExampleEndpointIsMtls()
    ensures Contains("https://pubsub.mtls.googleapis.com:443", "mtls")
  {
    var m := "https://pubsub.mtls.googleapis.com:443";
    assert m[15] == 'm' && m[16] == 't' && m[17] == 'l' && m[18] == 's';
    assert m[15..19] == "mtls";
    assert OccursAt(m, "mtls", 15);
  }

  /** The evidently intended determination: when it throws, no field changes. */
  function DetermineAtomic(s: Settings, env: MtlsProvider, st: Resolved): (o: Outcome)
    ensures o.error.Some? ==> o.state == st
    ensures o.error.None? ==> o == Determine(s, env, st)
    ensures o.error == Determine(s, env, st).error
  {
    var o := Determine(s, env, st);
    if o.error.Some? then Outcome(st, o.error) else o
  }

  /** `resolveEndpoint` over the atomic determination. */
  function ResolveEndpointAtomic(s: Settings, env: MtlsProvider, st: Resolved): (a: Answer<Option<string>>)
    ensures st.endpoint.Some? ==> a == Answer(st, Success(st.endpoint))
    ensures a.result.Failure? ==> a.state == st
  {
    if st.endpoint.None? then
      var o := DetermineAtomic(s, env, st);
      if o.error.Some? then Answer(o.state, Failure(o.error.value)) else Answer(o.state, Success(o.state.endpoint))
    else
      Answer(st, Success(st.endpoint))
  }

  /** With atomic determination a failed resolution fails again, with the same
      error, however often it is retried; a successful one repeats its value. */
  lemma {:induction false} AtomicRetryFailsAgain(s: Settings, env: MtlsProvider, st: Resolved)
    ensures var a := ResolveEndpointAtomic(s, env, st);
      ResolveEndpointAtomic(s, env, a.state) == a
  {
    var a := ResolveEndpointAtomic(s, env, st);
    if a.result.Success? && st.endpoint.None? && a.state.endpoint.None? {
      SuccessIndependentOfState(s, env, st, a.state);
    }
  }
}
