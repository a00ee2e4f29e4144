/** The errors the resolver rejects with, and how their texts are composed. */
module Errors {
  import opened Wrappers
  import opened Dns

  /**
    The observable fields of a rejection. `temporary` is false where the
    resolver leaves it unset; `code` is the DNS error code the error object
    keeps, absent on an address rejection.
   */
  datatype ResolutionError = ResolutionError(
    message: string,
    response: string,
    category: string,
    temporary: bool,
    code: Option<string>)

  /** Reply class: a transient failure (450) may succeed later, a permanent one (550) will not. */
  datatype Reply = Transient | Permanent

  function ReplyCode(reply: Reply): string {
    match reply
    case Transient => "450"
    case Permanent => "550"
  }

  const Category := "dns"
  const NoMxServerFound := "No MX server found"

  /**
    The key a DNS error is looked up under in the translation table: its
    code, or "undefined" for an error without one, as JavaScript converts a
    missing code to a property name.
   */
  function TableKey(err: DnsError): string {
    if err.code.Some? then err.code.value else "undefined"
  }

  /** The text for a DNS error: the translation table's entry for its key, unless missing or empty, else its own message. */
  function Describe(err: DnsError, dnsErrors: map<string, string>): string {
    var key := TableKey(err);
    if key in dnsErrors && dnsErrors[key] != "" then dnsErrors[key] else err.message
  }

  /** A DNS-layer failure while resolving `decodedDomain`. */
  function DnsFailure(decodedDomain: string, err: DnsError, reply: Reply, temporary: bool,
                      dnsErrors: map<string, string>): (e: ResolutionError)
    ensures e.response == ReplyCode(reply) + " " + e.message
    ensures e.category == Category && e.temporary == temporary && e.code == err.code
  {
    var message := "DNS error when resolving MX server for " + decodedDomain + ": " + Describe(err, dnsErrors);
    ResolutionError(message, ReplyCode(reply) + " " + message, Category, temporary, err.code)
  }

  /** The policy refused `ip`; `domain` is the delivery's original domain, `reason` the policy's text if it gave one. */
  function RejectionError(ip: string, domain: string, reason: Option<string>): (e: ResolutionError)
    ensures e.response == ReplyCode(Permanent) + " " + e.message
    ensures e.category == Category && !e.temporary && e.code.None?
  {
    var message := "Can not send mail to the resolved IP address [" + ip + "] of the MX server for " + domain
                   + (if reason.Some? then ". " + reason.value else "");
    ResolutionError(message, ReplyCode(Permanent) + " " + message, Category, false, None)
  }

  /**
    What a reader of a policy rejection sees: the message opens by naming
    the refused address in brackets and the delivery's domain, and ends with
    ". " and the policy's reason when the policy gave one.
   */
  lemma RejectionMessageNamesAddress(ip: string, domain: string, reason: Option<string>)
    ensures ("Can not send mail to the resolved IP address [" + ip + "] of the MX server for " + domain)
            <= RejectionError(ip, domain, reason).message
    ensures reason.Some? ==>
              var m, tail := RejectionError(ip, domain, reason).message, ". " + reason.value;
              |tail| <= |m| && m[|m| - |tail|..] == tail
    ensures reason.None? ==>
              RejectionError(ip, domain, reason).message ==
              "Can not send mail to the resolved IP address [" + ip + "] of the MX server for " + domain
  {
  }

  /** A rejection as the resolver reports it: category "dns", and a 450 or 550 reply carrying the message. */
  predicate Reported(e: ResolutionError) {
    e.category == Category &&
    (e.response == ReplyCode(Transient) + " " + e.message || e.response == ReplyCode(Permanent) + " " + e.message)
  }
}
