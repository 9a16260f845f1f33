/** Checking whether each listed domain resolves. The DNS-over-HTTPS request
    and the decoding of its JSON body are an oracle `dns` from a domain name
    to the decoded response of an A-record query. */
module Resolver {
  import opened Wrappers
  import opened Records

  /** One entry of the response's `Answer` array; only `data` is read. */
  datatype AnswerRecord = AnswerRecord(data: string)

  /** A decoded resolver response: the DNS status code and the `Answer`
      array, which is absent when the name has no records. */
  datatype DnsResponse = DnsResponse(status: int, answer: Option<seq<AnswerRecord>>)

  /** The `data` strings of the answers, in order; an absent `Answer` counts
      as an empty one. */
  function AnswerData(response: DnsResponse): (ips: seq<string>)
    ensures response.answer.None? ==> ips == []
    ensures response.answer.Some? ==> |ips| == |response.answer.value|
    ensures response.answer.Some? ==>
      forall i :: 0 <= i < |ips| ==> ips[i] == response.answer.value[i].data
  {
    var records := response.answer.GetOr([]);
    seq(|records|, i requires 0 <= i < |records| => records[i].data)
  }

  /** Python's `any(ips)` over strings: some element is non-empty. */
  function AnyNonEmpty(ips: seq<string>): (b: bool)
    ensures b <==> exists i :: 0 <= i < |ips| && ips[i] != []
    decreases |ips|
  {
    if |ips| == 0 then false
    else ips[0] != [] || AnyNonEmpty(ips[1..])
  }

  /** `resolve_domain`: the record for `domain`, which exists exactly when
      some answer carries a non-empty `data` string. The status code is not
      consulted. */
  function ResolveDomain(domain: string, dns: string -> DnsResponse): (d: Domain)
    ensures d.domain == domain
    ensures d.record_exists <==>
      dns(domain).answer.Some? &&
      exists i :: 0 <= i < |dns(domain).answer.value| && dns(domain).answer.value[i].data != []
    ensures dns(domain).answer.None? || dns(domain).answer == Some([]) ==> !d.record_exists
  {
    var ips := AnswerData(dns(domain));
    Domain(domain, AnyNonEmpty(ips))
  }

  /** `resolve_domains`: one record per domain, in input order. */
  function ResolveDomains(domains: seq<string>, dns: string -> DnsResponse): (r: seq<Domain>)
    ensures |r| == |domains|
    ensures forall i :: 0 <= i < |domains| ==> r[i].domain == domains[i]
    ensures forall i :: 0 <= i < |domains| ==> r[i] == ResolveDomain(domains[i], dns)
    decreases |domains|
  {
    if |domains| == 0 then []
    else [ResolveDomain(domains[0], dns)] + ResolveDomains(domains[1..], dns)
  }

  /** Resolving a concatenation is resolving each part and concatenating, so
      the work may be split into consecutive batches without changing the
      result or its order. */
  lemma ResolveDomainsAppend(a: seq<string>, b: seq<string>, dns: string -> DnsResponse)
    ensures ResolveDomains(a + b, dns) == ResolveDomains(a, dns) + ResolveDomains(b, dns)
  {
    var whole := ResolveDomains(a + b, dns);
    var parts := ResolveDomains(a, dns) + ResolveDomains(b, dns);
    forall i | 0 <= i < |whole|
      ensures whole[i] == parts[i]
    {
      if i < |a| {
        assert (a + b)[i] == a[i];
      } else {
        assert (a + b)[i] == b[i - |a|];
      }
    }
  }
}
