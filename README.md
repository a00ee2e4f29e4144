# MX resolution for outbound mail (mx-connect `resolveMX`), modelled in Dafny

This project models `resolveMX`, which decides where outbound mail for a
delivery goes. A delivery to a literal IP address is checked against an
admissibility policy and used as is, with no DNS query. A delivery to a
domain goes through the cascade MX, then A, then AAAA. Each query is issued
only when the previous one found nothing. The outcome is one of two things:

- an ordered list of exchanger records (`priority`, `exchange`, `mx`, `A`, `AAAA`);
- an error with an SMTP-style reply. Hard DNS errors give `450`. Exhaustion
  and policy rejections give `550`.

Modules, one per concept:

- `Dns` (dns.dfy): the DNS query service as an oracle. A `Resolver` gives
  one `Answer` per name and record type. An `Answer` is the pair a query
  callback receives: an optional error and an optional list.
- `Errors` (errors.dfy): the rejection value (`message`, `response`,
  `category`, `temporary`, `code`). Also how DNS failures and policy
  rejections compose their texts.
- `Records` (records.dfy): exchanger records, the outcome, and the literal-IP record.
- `PrioritySort` (priority_sort.dfy): the ordering of an MX answer. It is a
  stable ascending sort by priority. It is proved sorted, a permutation and
  stable, and it is the only arrangement with these properties.
- `AddressFilter` (address_filter.dfy): the filter closure's state
  (`firstError`, `addressFound`), threaded explicitly through a loop over the
  resolved addresses. Also how a fallback ends.
- `ResolveMx` (resolve_mx.dfy): the cascade. `ResolveMX` handles the literal
  IP and the MX query, and calls `FallBackToA`. `FallBackToA` calls
  `FallBackToAAAA`. Each method returns the outcome and the list of DNS
  queries it issued, in order.

The collaborators the resolver does not define are parameters
(`Collaborators`):

- the system resolver, used when the delivery has no DNS options;
- the admissibility policy, for the delivery being resolved;
- the IPv4 and IPv6 literal tests;
- the table that translates DNS error codes into text.

The code has these quirks, and the model keeps them:

- The literal-IP record has no `mx` field (`mx` is `None`). It is not `false`.
- A refused fallback address is not dropped. Its record stays in the list,
  with an empty `A` (or `AAAA`).
- `temporary` is set only for a hard error of the MX query. Hard errors of
  the A and AAAA queries reply `450` but leave `temporary` unset.
- The AAAA query runs when the A list is absent. It also runs when the A list
  is empty and IPv6 is not ignored. An empty A list with IPv6 ignored
  succeeds with an empty exchanger list. It does not fail.
- A DNS error without a code is looked up in the translation table under the
  key `"undefined"`, as JavaScript does with a missing property name. This
  includes the error built locally for an empty AAAA answer.
- When the AAAA answer is empty, the message uses the "no data" or
  "not found" error that came with it, if there was one. Only without such an
  error does it read "No MX server found".

## Model

| member | source | states |
|---|---|---|
| ResolveMx.ResolveMX | lib/resolve-mx.js:8-134 | A literal IP issues no query. If refused, it fails with the policy rejection for that IP. If admitted, it succeeds with exactly the one literal record. A hard MX error issues only the MX query and fails 450 with `temporary`. A non-empty MX answer issues only the MX query and succeeds with the sorted exchanger records. A is queried exactly when MX neither failed hard nor found records. AAAA is queried exactly when the A answer is not a hard error and its list is absent, or empty with IPv6 not ignored. An empty A list with IPv6 ignored succeeds with `[]`. Every failure has category "dns" and a 450/550 reply carrying its message. It is temporary exactly when only the MX query was issued. |
| ResolveMx.FallBackToA | lib/resolve-mx.js:67-119 | A hard A error ends the cascade with a 450 reply, not temporary. A non-falling-through A answer gives the IPv4 fallback outcome. AAAA is queried exactly on fall-through, and its cases are as in FallBackToAAAA. |
| ResolveMx.FallBackToAAAA | lib/resolve-mx.js:77-105 | One AAAA query. A hard error fails 450. An empty or absent list fails 550 with the DNS message built from the accompanying error, or from "No MX server found" when there is none. Otherwise it gives the IPv6 fallback outcome. No failure is temporary. |
| Records.LiteralRecord | lib/resolve-mx.js:43-50 | The literal record has priority 0, the IP as exchange and no `mx` field. `A` is `[ip]` iff the IP is IPv4, else empty. `AAAA` is `[ip]` iff it is IPv6 and IPv6 is not ignored, else empty. |
| Errors.DnsFailure | lib/resolve-mx.js:57-62 | A DNS failure's response is its reply code, a space and its message. Its category is "dns". `temporary` is as the step decides. The error code is kept. |
| Errors.RejectionError | lib/resolve-mx.js:21-29 | A policy rejection replies 550 with its message. Its category is "dns". It is not temporary and has no DNS code. |
| Errors.RejectionMessageNamesAddress | lib/resolve-mx.js:21-27 | A policy rejection's message opens by naming the refused IP in brackets and the delivery's domain. It ends with ". " and the policy's reason when the policy gave one, and has nothing after the domain otherwise. |
| AddressFilter.FilterAddresses | lib/resolve-mx.js:17-35 | The loop puts each address to the policy once, in order. It yields the fallback records, and a final filter state equal to the fold of the closure's step over the addresses. |
| AddressFilter.FallbackRecords | lib/resolve-mx.js:108-114 | There is exactly one record per address, in answer order. Each has priority 0, the queried domain as exchange and `mx` false. The family's list is `[addr]` if the address is admissible and empty otherwise. The other family's list is empty. |
| AddressFilter.AccumulateAddressFound | lib/resolve-mx.js:31-33 | `addressFound` holds exactly when some address is admissible. |
| AddressFilter.AccumulateNoRejection | lib/resolve-mx.js:19-30 | No rejection is recorded exactly when every address is admissible. |
| AddressFilter.AccumulateFirstRejection | lib/resolve-mx.js:20-30 | The recorded rejection is the one for the first refused address in answer order. |
| AddressFilter.RejectionNeverOverwritten | lib/resolve-mx.js:20-21 | Once a rejection is recorded, filtering further addresses leaves it unchanged. |
| AddressFilter.FallbackFailsIff | lib/resolve-mx.js:101-103 | A fallback fails iff it had at least one address and none was admissible. It then reports the rejection of the first address. Otherwise it succeeds with every record, refused ones included. |
| PrioritySort.ExchangeRecords | lib/resolve-mx.js:122-130 | There is one record per MX entry. Each is marked `mx` true, with empty `A` and `AAAA`. |
| PrioritySort.ExchangeRecordsOrdered | lib/resolve-mx.js:122-130 | The MX records are the answer's entries ascending by priority. They are a permutation of the answer, and equal priorities keep answer order. |
| PrioritySort.SortPermutation | lib/resolve-mx.js:124 | Sorting keeps the same entries with the same multiplicities. |
| PrioritySort.SortSorted | lib/resolve-mx.js:124 | The sorted answer is ascending by priority. |
| PrioritySort.SortStable | lib/resolve-mx.js:124 | For every priority, the entries with that priority appear in answer order. |
| PrioritySort.SortUnique | lib/resolve-mx.js:124 | Any ascending arrangement that keeps equal priorities in answer order equals the model's sort. So the sort matches every stable ascending sort by priority. |

## Left out

- Asynchrony: the promise and the query callbacks carry no logic. The resolver is one sequential method over the DNS oracle.
- The system resolver and real network lookups. The resolver is a parameter, `Collaborators.systemResolve` by default.
- The bodies of the admissibility policy, the IPv4/IPv6 literal tests and the DNS error translation table. They are in modules that are not part of this model, so they are parameters. The policy is consulted with the delivery fixed for the call. Its result maps to `Verdict` like this: falsy is `Admissible`; a string is `Inadmissible` with that reason; any other truthy value is `Inadmissible` without a reason. An empty string is falsy, so `Inadmissible(Some(""))` has no counterpart.
- Mutation in place. The source edits the incoming error object, the delivery (`delivery.mx`) and the MX entries of the resolver's answer. The model builds fresh values instead. So it does not capture aliasing with the resolver's own entries, or fields of those entries other than `priority` and `exchange`.
- When a fallback rejects, the source has already assigned `delivery.mx`. The model's `Failure` does not carry that list.
- Only these error fields are modelled: `message`, `response`, `category`, `temporary` and `code`. `temporary` is `false` where the source leaves it unset.
- JavaScript typing edge cases:
  - priorities that are not integers;
  - an answer `list` that is not an array;
  - DNS options without a `resolve` function;
  - a non-boolean `ignoreIPv6`.
  Priorities are `int`, lists are sequences and `ignoreIPv6` is a `bool`.
- `Array.prototype.sort` is taken to be stable, as ECMAScript 2019 requires. The model sorts with its own stable insertion sort. `PrioritySort.SortUnique` shows that any stable ascending sort gives the same result.
