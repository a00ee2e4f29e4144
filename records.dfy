/** The exchanger records the resolver produces and the outcome of a resolution. */
module Records {
  import opened Wrappers
  import opened Dns
  import opened Errors

  /**
    One candidate exchanger. `mx` is true for a record taken from an MX
    answer, false for an A/AAAA fallback record, and absent on the
    literal-IP record, which the resolver builds without that field.
   */
  datatype MxRecord = MxRecord(priority: int, exchange: string, mx: Option<bool>, A: seq<string>, AAAA: seq<string>)

  /** The resolver either fulfils with the exchanger list or rejects with an error. */
  datatype Outcome = Success(mx: seq<MxRecord>) | Failure(error: ResolutionError)

  /** The address family of a fallback query: A answers give IPv4, AAAA answers IPv6. */
  datatype Family = IPv4 | IPv6

  /** The single synthetic record for a literal-IP destination. */
  function LiteralRecord(ip: string, ignoreIPv6: bool, isIPv4: string -> bool, isIPv6: string -> bool): (r: MxRecord)
    ensures r.priority == 0 && r.exchange == ip && r.mx.None?
    ensures r.A == [ip] <==> isIPv4(ip)
    ensures r.A == [] <==> !isIPv4(ip)
    ensures r.AAAA == [ip] <==> isIPv6(ip) && !ignoreIPv6
    ensures r.AAAA == [] <==> !isIPv6(ip) || ignoreIPv6
  {
    MxRecord(0, ip, None,
             if isIPv4(ip) then [ip] else [],
             if isIPv6(ip) && !ignoreIPv6 then [ip] else [])
  }

  /** An MX answer entry marked as a true exchanger whose addresses are still unknown. */
  function ExchangeRecord(e: MxEntry): MxRecord {
    MxRecord(e.priority, e.exchange, Some(true), [], [])
  }

  /** The MX answer entry a record stands for. */
  function Entry(r: MxRecord): MxEntry {
    MxEntry(r.priority, r.exchange)
  }

  /** The fallback record for one resolved address; the address is kept only when `admitted`. */
  function AddressRecord(ip: string, family: Family, admitted: bool, exchange: string): MxRecord {
    MxRecord(0, exchange, Some(false),
             if family == IPv4 && admitted then [ip] else [],
             if family == IPv6 && admitted then [ip] else [])
  }
}
