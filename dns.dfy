/**
  The DNS query service the resolver consumes. It is injected through the
  delivery's DNS options, so it is modelled as an oracle: one answer per
  queried name and record type.
 */
module Dns {
  import opened Wrappers

  /** The record types the resolver asks for; a query with no type asks for A. */
  datatype RecordType = MX | A | AAAA

  /**
    An error handed to a query callback. `code` is the resolver's error code;
    an error the resolver builds itself carries none.
   */
  datatype DnsError = DnsError(code: Option<string>, message: string)

  /** One entry of an MX answer. */
  datatype MxEntry = MxEntry(priority: int, exchange: string)

  /** What a query callback receives: an optional error and an optional list. */
  datatype Answer<T> = Answer(err: Option<DnsError>, list: Option<seq<T>>)

  /** The query function: `mx`, `a` and `aaaa` answer one record type each. */
  datatype Resolver = Resolver(
    mx: string -> Answer<MxEntry>,
    a: string -> Answer<string>,
    aaaa: string -> Answer<string>)

  const NoData := "ENODATA"
  const NotFound := "ENOTFOUND"

  /** An error other than "no data" or "not found": it ends the cascade. */
  predicate IsHardError<T>(ans: Answer<T>) {
    ans.err.Some? && ans.err.value.code != Some(NoData) && ans.err.value.code != Some(NotFound)
  }

  /** The answer carries a list with at least one record. */
  predicate HasRecords<T>(ans: Answer<T>) {
    ans.list.Some? && |ans.list.value| > 0
  }
}
