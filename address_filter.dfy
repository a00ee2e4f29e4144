/**
  The per-address admissibility filter of the A and AAAA fallbacks. Each
  resolved address is put to the injected policy in answer order; the
  filter remembers the first rejection and whether any address was
  accepted, and the fallback rejects with that first rejection only when
  nothing was accepted.
 */
module AddressFilter {
  import opened Wrappers
  import opened Errors
  import opened Records

  /** The policy's answer for one address: admissible, or refused with an optional reason text. */
  datatype Verdict = Admissible | Inadmissible(reason: Option<string>)

  /** The filter's accumulator: the first rejection met so far, and whether any address was accepted. */
  datatype FilterState = FilterState(firstError: Option<ResolutionError>, addressFound: bool)

  const Initial := FilterState(None, false)

  /** One use of the filter on `ip`, whose verdict is `verdict`; `domain` names the delivery in the message. */
  function Step(st: FilterState, ip: string, verdict: Verdict, domain: string): FilterState {
    match verdict
    case Admissible => st.(addressFound := true)
    case Inadmissible(reason) =>
      if st.firstError.None? then st.(firstError := Some(RejectionError(ip, domain, reason))) else st
  }

  /** The filter's state after it has seen `addrs` in order, from a fresh start. */
  function Accumulate(addrs: seq<string>, isInvalid: string -> Verdict, domain: string): FilterState
    decreases |addrs|
  {
    if addrs == [] then Initial
    else
      var n := |addrs| - 1;
      Step(Accumulate(addrs[..n], isInvalid, domain), addrs[n], isInvalid(addrs[n]), domain)
  }

  /** One fallback record per resolved address, in answer order; a refused address leaves its record empty. */
  function FallbackRecords(addrs: seq<string>, family: Family, isInvalid: string -> Verdict, exchange: string): (r: seq<MxRecord>)
    ensures |r| == |addrs|
    ensures forall i :: 0 <= i < |r| ==>
              r[i].priority == 0 && r[i].exchange == exchange && r[i].mx == Some(false)
    ensures forall i :: 0 <= i < |r| ==>
              r[i].A == (if family == IPv4 && isInvalid(addrs[i]).Admissible? then [addrs[i]] else [])
    ensures forall i :: 0 <= i < |r| ==>
              r[i].AAAA == (if family == IPv6 && isInvalid(addrs[i]).Admissible? then [addrs[i]] else [])
  {
    seq(|addrs|, i requires 0 <= i < |addrs| => AddressRecord(addrs[i], family, isInvalid(addrs[i]).Admissible?, exchange))
  }

  /** How a fallback ends once its records are built and its addresses filtered. */
  function Fallback(addrs: seq<string>, family: Family, isInvalid: string -> Verdict, exchange: string, domain: string): Outcome {
    var st := Accumulate(addrs, isInvalid, domain);
    if !st.addressFound && st.firstError.Some? then Failure(st.firstError.value)
    else Success(FallbackRecords(addrs, family, isInvalid, exchange))
  }

  /**
    Builds the fallback records for `addrs`, putting each address to the
    policy once, in order, and threading the filter's state through.
   */
  method FilterAddresses(addrs: seq<string>, family: Family, isInvalid: string -> Verdict, exchange: string, domain: string)
    returns (records: seq<MxRecord>, st: FilterState)
    ensures records == FallbackRecords(addrs, family, isInvalid, exchange)
    ensures st == Accumulate(addrs, isInvalid, domain)
  {
    records, st := [], Initial;
    var i := 0;
    while i < |addrs|
      invariant 0 <= i <= |addrs|
      invariant |records| == i
      invariant forall k :: 0 <= k < i ==>
                  records[k] == AddressRecord(addrs[k], family, isInvalid(addrs[k]).Admissible?, exchange)
      invariant st == Accumulate(addrs[..i], isInvalid, domain)
    {
      var ip := addrs[i];
      var verdict := isInvalid(ip);
      st := Step(st, ip, verdict, domain);
      records := records + [AddressRecord(ip, family, verdict.Admissible?, exchange)];
      assert addrs[..i + 1][..i] == addrs[..i];
      i := i + 1;
    }
    assert addrs[..|addrs|] == addrs;
  }

  /** An address was accepted exactly when some address is admissible. */
  lemma {:induction false} AccumulateAddressFound(addrs: seq<string>, isInvalid: string -> Verdict, domain: string)
    ensures Accumulate(addrs, isInvalid, domain).addressFound <==>
            exists i :: 0 <= i < |addrs| && isInvalid(addrs[i]).Admissible?
  {
    if addrs != [] {
      var n := |addrs| - 1;
      AccumulateAddressFound(addrs[..n], isInvalid, domain);
      if exists i :: 0 <= i < n && isInvalid(addrs[..n][i]).Admissible? {
        var i :| 0 <= i < n && isInvalid(addrs[..n][i]).Admissible?;
        assert isInvalid(addrs[i]).Admissible?;
      }
      if exists i :: 0 <= i < |addrs| && isInvalid(addrs[i]).Admissible? {
        var i :| 0 <= i < |addrs| && isInvalid(addrs[i]).Admissible?;
        if i < n {
          assert isInvalid(addrs[..n][i]).Admissible?;
        }
      }
    }
  }

  /** No rejection is recorded exactly when every address is admissible. */
  lemma {:induction false} AccumulateNoRejection(addrs: seq<string>, isInvalid: string -> Verdict, domain: string)
    ensures Accumulate(addrs, isInvalid, domain).firstError.None? <==>
            forall i :: 0 <= i < |addrs| ==> isInvalid(addrs[i]).Admissible?
  {
    if addrs != [] {
      var n := |addrs| - 1;
      AccumulateNoRejection(addrs[..n], isInvalid, domain);
      assert forall i :: 0 <= i < n ==> addrs[..n][i] == addrs[i];
    }
  }

  /** The recorded rejection is the one for the first refused address. */
  lemma {:induction false} AccumulateFirstRejection(addrs: seq<string>, isInvalid: string -> Verdict, domain: string, k: nat)
    requires k < |addrs| && isInvalid(addrs[k]).Inadmissible?
    requires forall j :: 0 <= j < k ==> isInvalid(addrs[j]).Admissible?
    ensures Accumulate(addrs, isInvalid, domain).firstError ==
            Some(RejectionError(addrs[k], domain, isInvalid(addrs[k]).reason))
  {
    var n := |addrs| - 1;
    if k < n {
      assert addrs[..n][k] == addrs[k];
      AccumulateFirstRejection(addrs[..n], isInvalid, domain, k);
    } else {
      AccumulateNoRejection(addrs[..n], isInvalid, domain);
      assert forall i :: 0 <= i < n ==> addrs[..n][i] == addrs[i];
    }
  }

  /** Addresses filtered after a rejection never replace it. */
  lemma {:induction false} RejectionNeverOverwritten(addrs: seq<string>, later: seq<string>, isInvalid: string -> Verdict, domain: string)
    requires Accumulate(addrs, isInvalid, domain).firstError.Some?
    ensures Accumulate(addrs + later, isInvalid, domain).firstError == Accumulate(addrs, isInvalid, domain).firstError
    decreases |later|
  {
    if later == [] {
      assert addrs + later == addrs;
    } else {
      var n := |later| - 1;
      RejectionNeverOverwritten(addrs, later[..n], isInvalid, domain);
      assert (addrs + later)[..|addrs + later| - 1] == addrs + later[..n];
    }
  }

  /**
    A fallback fails exactly when there was an address and none was
    admissible; it then reports the rejection of the first address.
    Otherwise it succeeds with every record, refused ones included.
   */
  lemma FallbackFailsIff(addrs: seq<string>, family: Family, isInvalid: string -> Verdict, exchange: string, domain: string)
    ensures Fallback(addrs, family, isInvalid, exchange, domain).Failure? <==>
            |addrs| > 0 && forall i :: 0 <= i < |addrs| ==> isInvalid(addrs[i]).Inadmissible?
    ensures Fallback(addrs, family, isInvalid, exchange, domain).Failure? ==>
            Fallback(addrs, family, isInvalid, exchange, domain).error ==
            RejectionError(addrs[0], domain, isInvalid(addrs[0]).reason)
    ensures Fallback(addrs, family, isInvalid, exchange, domain).Success? ==>
            Fallback(addrs, family, isInvalid, exchange, domain).mx == FallbackRecords(addrs, family, isInvalid, exchange)
  {
    AccumulateAddressFound(addrs, isInvalid, domain);
    AccumulateNoRejection(addrs, isInvalid, domain);
    if |addrs| > 0 && isInvalid(addrs[0]).Inadmissible? {
      AccumulateFirstRejection(addrs, isInvalid, domain, 0);
    }
  }
}
