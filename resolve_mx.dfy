/**
  The MX resolver: decides where outbound mail for a delivery goes. A
  literal-IP destination is checked against the policy and used as is;
  a domain is resolved through the cascade MX, then A, then AAAA, each
  query issued only when the previous one found nothing.
 */
module ResolveMx {
  import opened Wrappers
  import opened Dns
  import opened Errors
  import opened Records
  import opened PrioritySort
  import opened AddressFilter

  /** The DNS options a delivery may carry. */
  datatype DnsOptions = DnsOptions(ignoreIPv6: bool, resolve: Resolver)

  /**
    The fields of a delivery the resolver reads: `domain` names it in
    messages, `decodedDomain` is what is queried or used as a literal IP.
   */
  datatype Delivery = Delivery(domain: string, decodedDomain: string, isIp: bool, dnsOptions: Option<DnsOptions>)

  /**
    What the resolver consults but does not define: the system resolver
    used when the delivery carries no DNS options, the admissibility policy
    (for this delivery), the IPv4 and IPv6 literal tests, and the table
    translating DNS error codes into text.
   */
  datatype Collaborators = Collaborators(
    systemResolve: Resolver,
    isInvalid: string -> Verdict,
    isIPv4: string -> bool,
    isIPv6: string -> bool,
    dnsErrors: map<string, string>)

  /** The delivery's DNS options, or the defaults: the system resolver, IPv6 not ignored. */
  function Options(delivery: Delivery, env: Collaborators): DnsOptions {
    if delivery.dnsOptions.Some? then delivery.dnsOptions.value else DnsOptions(false, env.systemResolve)
  }

  function MxAnswer(delivery: Delivery, env: Collaborators): Answer<MxEntry> {
    Options(delivery, env).resolve.mx(delivery.decodedDomain)
  }

  function AAnswer(delivery: Delivery, env: Collaborators): Answer<string> {
    Options(delivery, env).resolve.a(delivery.decodedDomain)
  }

  function AaaaAnswer(delivery: Delivery, env: Collaborators): Answer<string> {
    Options(delivery, env).resolve.aaaa(delivery.decodedDomain)
  }

  /** An A answer sends the cascade on to AAAA when its list is absent, or empty while IPv6 is not ignored. */
  predicate FallsThroughToAAAA(ans: Answer<string>, ignoreIPv6: bool) {
    ans.list.None? || (|ans.list.value| == 0 && !ignoreIPv6)
  }

  /** The A query is issued: a domain whose MX query neither failed hard nor found records. */
  predicate ReachesA(delivery: Delivery, env: Collaborators) {
    !delivery.isIp && !IsHardError(MxAnswer(delivery, env)) && !HasRecords(MxAnswer(delivery, env))
  }

  /** The AAAA query is issued. */
  predicate ReachesAAAA(delivery: Delivery, env: Collaborators) {
    ReachesA(delivery, env) && !IsHardError(AAnswer(delivery, env))
    && FallsThroughToAAAA(AAnswer(delivery, env), Options(delivery, env).ignoreIPv6)
  }

  /**
    The AAAA fallback for `domain`, issued when the A answer found nothing.
    `queried` lists the queries it issues.
   */
  method FallBackToAAAA(domain: string, deliveryDomain: string, options: DnsOptions, env: Collaborators)
    returns (outcome: Outcome, queried: seq<RecordType>)
    ensures queried == [AAAA]
    ensures IsHardError(options.resolve.aaaa(domain)) ==>
              outcome == Failure(DnsFailure(domain, options.resolve.aaaa(domain).err.value, Transient, false, env.dnsErrors))
    ensures !IsHardError(options.resolve.aaaa(domain)) && !HasRecords(options.resolve.aaaa(domain)) ==>
              var err := options.resolve.aaaa(domain).err;
              outcome == Failure(DnsFailure(domain, if err.Some? then err.value else DnsError(None, NoMxServerFound),
                                            Permanent, false, env.dnsErrors))
    ensures !IsHardError(options.resolve.aaaa(domain)) && HasRecords(options.resolve.aaaa(domain)) ==>
              outcome == Fallback(options.resolve.aaaa(domain).list.value, IPv6, env.isInvalid, domain, deliveryDomain)
    ensures outcome.Failure? ==> Reported(outcome.error) && !outcome.error.temporary
  {
    var answer := options.resolve.aaaa(domain);
    queried := [AAAA];
    if IsHardError(answer) {
      outcome := Failure(DnsFailure(domain, answer.err.value, Transient, false, env.dnsErrors));
      return;
    }
    if !HasRecords(answer) {
      // nothing found
      var err := if answer.err.Some? then answer.err.value else DnsError(None, NoMxServerFound);
      outcome := Failure(DnsFailure(domain, err, Permanent, false, env.dnsErrors));
      return;
    }
    var records, st := FilterAddresses(answer.list.value, IPv6, env.isInvalid, domain, deliveryDomain);
    FallbackFailsIff(answer.list.value, IPv6, env.isInvalid, domain, deliveryDomain);
    outcome := if !st.addressFound && st.firstError.Some? then Failure(st.firstError.value) else Success(records);
  }

  /**
    The A fallback for `domain`, issued when the MX answer found nothing,
    and the AAAA fallback it goes on to when its own answer sends it there.
    `queried` lists the queries issued.
   */
  method FallBackToA(domain: string, deliveryDomain: string, options: DnsOptions, env: Collaborators)
    returns (outcome: Outcome, queried: seq<RecordType>)
    ensures |queried| >= 1 && queried[0] == A
    ensures IsHardError(options.resolve.a(domain)) ==>
              queried == [A] &&
              outcome == Failure(DnsFailure(domain, options.resolve.a(domain).err.value, Transient, false, env.dnsErrors))
    ensures !IsHardError(options.resolve.a(domain)) && !FallsThroughToAAAA(options.resolve.a(domain), options.ignoreIPv6) ==>
              queried == [A] &&
              outcome == Fallback(options.resolve.a(domain).list.value, IPv4, env.isInvalid, domain, deliveryDomain)
    ensures !IsHardError(options.resolve.a(domain)) && FallsThroughToAAAA(options.resolve.a(domain), options.ignoreIPv6) <==>
              queried == [A, AAAA]
    ensures queried == [A, AAAA] && IsHardError(options.resolve.aaaa(domain)) ==>
              outcome == Failure(DnsFailure(domain, options.resolve.aaaa(domain).err.value, Transient, false, env.dnsErrors))
    ensures queried == [A, AAAA] && !IsHardError(options.resolve.aaaa(domain)) && !HasRecords(options.resolve.aaaa(domain)) ==>
              var err := options.resolve.aaaa(domain).err;
              outcome == Failure(DnsFailure(domain, if err.Some? then err.value else DnsError(None, NoMxServerFound),
                                            Permanent, false, env.dnsErrors))
    ensures queried == [A, AAAA] && !IsHardError(options.resolve.aaaa(domain)) && HasRecords(options.resolve.aaaa(domain)) ==>
              outcome == Fallback(options.resolve.aaaa(domain).list.value, IPv6, env.isInvalid, domain, deliveryDomain)
    ensures outcome.Failure? ==> Reported(outcome.error) && !outcome.error.temporary
  {
    var answer := options.resolve.a(domain);
    queried := [A];
    if IsHardError(answer) {
      outcome := Failure(DnsFailure(domain, answer.err.value, Transient, false, env.dnsErrors));
      return;
    }
    if FallsThroughToAAAA(answer, options.ignoreIPv6) {
      var more;
      outcome, more := FallBackToAAAA(domain, deliveryDomain, options, env);
      queried := queried + more;
      return;
    }
    var records, st := FilterAddresses(answer.list.value, IPv4, env.isInvalid, domain, deliveryDomain);
    FallbackFailsIff(answer.list.value, IPv4, env.isInvalid, domain, deliveryDomain);
    outcome := if !st.addressFound && st.firstError.Some? then Failure(st.firstError.value) else Success(records);
  }

  /**
    Resolves the exchangers for `delivery`. `queried` lists the DNS queries
    issued, in order.
   */
  method ResolveMX(delivery: Delivery, env: Collaborators) returns (outcome: Outcome, queried: seq<RecordType>)
    // Literal IP: no query; the policy alone decides.
    ensures delivery.isIp ==> queried == []
    ensures delivery.isIp && env.isInvalid(delivery.decodedDomain).Inadmissible? ==>
              outcome == Failure(RejectionError(delivery.decodedDomain, delivery.domain,
                                                env.isInvalid(delivery.decodedDomain).reason))
    ensures delivery.isIp && env.isInvalid(delivery.decodedDomain).Admissible? ==>
              outcome == Success([LiteralRecord(delivery.decodedDomain, Options(delivery, env).ignoreIPv6,
                                                env.isIPv4, env.isIPv6)])
    // MX step.
    ensures !delivery.isIp ==> |queried| >= 1 && queried[0] == MX
    ensures !delivery.isIp && IsHardError(MxAnswer(delivery, env)) ==>
              queried == [MX] &&
              outcome == Failure(DnsFailure(delivery.decodedDomain, MxAnswer(delivery, env).err.value,
                                            Transient, true, env.dnsErrors))
    ensures !delivery.isIp && !IsHardError(MxAnswer(delivery, env)) && HasRecords(MxAnswer(delivery, env)) ==>
              queried == [MX] && outcome == Success(ExchangeRecords(MxAnswer(delivery, env).list.value))
    // A step.
    ensures ReachesA(delivery, env) <==> |queried| >= 2
    ensures ReachesA(delivery, env) ==> queried[..2] == [MX, A]
    ensures ReachesA(delivery, env) && IsHardError(AAnswer(delivery, env)) ==>
              queried == [MX, A] &&
              outcome == Failure(DnsFailure(delivery.decodedDomain, AAnswer(delivery, env).err.value,
                                            Transient, false, env.dnsErrors))
    ensures ReachesA(delivery, env) && !IsHardError(AAnswer(delivery, env)) && !ReachesAAAA(delivery, env) ==>
              queried == [MX, A] &&
              outcome == Fallback(AAnswer(delivery, env).list.value, IPv4, env.isInvalid,
                                  delivery.decodedDomain, delivery.domain)
    ensures ReachesA(delivery, env) && AAnswer(delivery, env) == Answer(None, Some([])) &&
            Options(delivery, env).ignoreIPv6 ==>
              outcome == Success([])
    // AAAA step.
    ensures ReachesAAAA(delivery, env) <==> queried == [MX, A, AAAA]
    ensures ReachesAAAA(delivery, env) && IsHardError(AaaaAnswer(delivery, env)) ==>
              outcome == Failure(DnsFailure(delivery.decodedDomain, AaaaAnswer(delivery, env).err.value,
                                            Transient, false, env.dnsErrors))
    ensures ReachesAAAA(delivery, env) && !IsHardError(AaaaAnswer(delivery, env)) &&
            !HasRecords(AaaaAnswer(delivery, env)) ==>
              var err := AaaaAnswer(delivery, env).err;
              outcome == Failure(DnsFailure(delivery.decodedDomain,
                                            if err.Some? then err.value else DnsError(None, NoMxServerFound),
                                            Permanent, false, env.dnsErrors))
    ensures ReachesAAAA(delivery, env) && !IsHardError(AaaaAnswer(delivery, env)) &&
            HasRecords(AaaaAnswer(delivery, env)) ==>
              outcome == Fallback(AaaaAnswer(delivery, env).list.value, IPv6, env.isInvalid,
                                  delivery.decodedDomain, delivery.domain)
    // Every rejection is reported with category "dns" and a 450 or 550 reply,
    // and is temporary exactly when the MX query failed hard.
    ensures outcome.Failure? ==> Reported(outcome.error)
    ensures outcome.Failure? ==> (outcome.error.temporary <==> queried == [MX])
  {
    var options := Options(delivery, env);
    var domain := delivery.decodedDomain;

    if delivery.isIp {
      queried := [];
      var verdict := env.isInvalid(domain);
      var st := Step(Initial, domain, verdict, delivery.domain);
      if !verdict.Admissible? && st.firstError.Some? {
        outcome := Failure(st.firstError.value);
        return;
      }
      outcome := Success([LiteralRecord(domain, options.ignoreIPv6, env.isIPv4, env.isIPv6)]);
      return;
    }

    var answer := options.resolve.mx(domain);
    queried := [MX];
    if IsHardError(answer) {
      outcome := Failure(DnsFailure(domain, answer.err.value, Transient, true, env.dnsErrors));
      return;
    }
    if !HasRecords(answer) {
      var more;
      outcome, more := FallBackToA(domain, delivery.domain, options, env);
      queried := queried + more;
      return;
    }
    outcome := Success(ExchangeRecords(answer.list.value));
  }
}
