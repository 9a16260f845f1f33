/** The whole run (`create_blocked_domains_lists`): every institution is fetched, parsed and
    resolved in registry order. The network is a pair of oracles: `fetch`
    maps a source URL to the payload text and `dns` answers resolver queries;
    `readCsv` stands for `csv.reader(..., delimiter=';')`. The report rows
    of the run are `Report.CsvRows` of its result. */
module Pipeline {
  import opened Wrappers
  import opened Records
  import Parser
  import Resolver

  /** The report entry of one institution, or the parse error its payload raises. */
  function ProcessInstitution(
    institution: Institution,
    fetch: string -> string,
    readCsv: string -> seq<seq<string>>,
    dns: string -> Resolver.DnsResponse
  ): (r: Result<InstitutionWithDomains, Parser.ParseError>)
    ensures r.Success? <==> Parser.FetchInstitutionDomains(institution, fetch(institution.source_url), readCsv).Success?
    ensures r.Success? ==> r.value.institution == institution
    ensures r.Success? ==>
      var domains := Parser.FetchInstitutionDomains(institution, fetch(institution.source_url), readCsv).value;
      |r.value.blocked_domains| == |domains| &&
      forall k :: 0 <= k < |domains| ==> r.value.blocked_domains[k] == Resolver.ResolveDomain(domains[k], dns)
    ensures r.Failure? ==>
      r.error == Parser.FetchInstitutionDomains(institution, fetch(institution.source_url), readCsv).error
  {
    var domains :- Parser.FetchInstitutionDomains(institution, fetch(institution.source_url), readCsv);
    Success(InstitutionWithDomains(institution, Resolver.ResolveDomains(domains, dns)))
  }

  /** Applies `step` to each element in order, stopping at the first failure:
      the shape of a loop whose body may raise. */
  function Sequence<T, U, E>(xs: seq<T>, step: T -> Result<U, E>): (r: Result<seq<U>, E>)
    ensures r.Success? <==> forall i :: 0 <= i < |xs| ==> step(xs[i]).Success?
    ensures r.Success? ==> |r.value| == |xs|
    ensures r.Success? ==> forall i :: 0 <= i < |xs| ==> r.value[i] == step(xs[i]).value
    ensures r.Failure? ==>
      exists i :: 0 <= i < |xs| && step(xs[i]) == Failure(r.error) &&
        forall k :: 0 <= k < i ==> step(xs[k]).Success?
    decreases |xs|
  {
    if |xs| == 0 then Success([])
    else
      var first :- step(xs[0]);
      var rest := Sequence(xs[1..], step);
      assert forall i :: 1 <= i < |xs| ==> xs[i] == xs[1..][i - 1];
      match rest
      case Failure(e) =>
        assert exists i :: 0 <= i < |xs| && step(xs[i]) == Failure(e) &&
          forall k :: 0 <= k < i ==> step(xs[k]).Success? by {
          var j :| 0 <= j < |xs[1..]| && step(xs[1..][j]) == Failure(e) &&
            forall k :: 0 <= k < j ==> step(xs[1..][k]).Success?;
          assert step(xs[j + 1]) == Failure(e);
          assert forall k :: 1 <= k < j + 1 ==> step(xs[k]).Success? by {
            forall k | 1 <= k < j + 1
              ensures step(xs[k]).Success?
            {
              assert xs[k] == xs[1..][k - 1];
            }
          }
        }
        Failure(e)
      case Success(entries) => Success([first] + entries)
  }

  /** `create_blocked_domains_lists` forced into a list: one entry per
      institution in registry order; the first institution whose payload
      fails to parse aborts the run with its error. */
  function CreateBlockedDomainsLists(
    institutions: seq<Institution>,
    fetch: string -> string,
    readCsv: string -> seq<seq<string>>,
    dns: string -> Resolver.DnsResponse
  ): (r: Result<seq<InstitutionWithDomains>, Parser.ParseError>)
    ensures r.Success? <==>
      forall i :: 0 <= i < |institutions| ==> ProcessInstitution(institutions[i], fetch, readCsv, dns).Success?
    ensures r.Success? ==> |r.value| == |institutions|
    ensures r.Success? ==>
      forall i :: 0 <= i < |institutions| ==> r.value[i] == ProcessInstitution(institutions[i], fetch, readCsv, dns).value
    ensures r.Failure? ==>
      exists i :: 0 <= i < |institutions| && ProcessInstitution(institutions[i], fetch, readCsv, dns) == Failure(r.error) &&
        forall k :: 0 <= k < i ==> ProcessInstitution(institutions[k], fetch, readCsv, dns).Success?
  {
    Sequence(institutions, Process(fetch, readCsv, dns))
  }

  /** `ProcessInstitution` with its oracles fixed, as the step of the run. */
  function Process(
    fetch: string -> string,
    readCsv: string -> seq<seq<string>>,
    dns: string -> Resolver.DnsResponse
  ): (step: Institution -> Result<InstitutionWithDomains, Parser.ParseError>)
    ensures forall institution :: step(institution) == ProcessInstitution(institution, fetch, readCsv, dns)
  {
    institution => ProcessInstitution(institution, fetch, readCsv, dns)
  }

  /** `Sequence` over a single element is that element's step. */
  lemma SequenceOne<T, U, E>(x: T, step: T -> Result<U, E>)
    requires step(x).Success?
    ensures Sequence([x], step) == Success([step(x).value])
  {
    var xs := [x];
    assert xs[0] == x && xs[1..] == [];
    assert Sequence(xs[1..], step) == Success([]);
    assert [step(x).value] + [] == [step(x).value];
  }

  /** A plain-line institution never fails: its entry is its payload's
      plain-line domains, resolved in order. */
  lemma PlainLineInstitution(
    institution: Institution,
    fetch: string -> string,
    readCsv: string -> seq<seq<string>>,
    dns: string -> Resolver.DnsResponse
  )
    requires institution.name != Parser.CsvInstitutionName
    ensures ProcessInstitution(institution, fetch, readCsv, dns) == Success(InstitutionWithDomains(
      institution, Resolver.ResolveDomains(Parser.ParsePlainLines(fetch(institution.source_url)), dns)))
  {
    var domains := Parser.ParsePlainLines(fetch(institution.source_url));
    assert Parser.FetchInstitutionDomains(institution, fetch(institution.source_url), readCsv) == Success(domains);
    var r := ProcessInstitution(institution, fetch, readCsv, dns);
    assert r.Success? && r.value.institution == institution;
    assert r.value.blocked_domains == Resolver.ResolveDomains(domains, dns);
  }

  /** A run over a single plain-line institution is that institution's entry. */
  lemma SingleInstitutionRun(
    institution: Institution,
    fetch: string -> string,
    readCsv: string -> seq<seq<string>>,
    dns: string -> Resolver.DnsResponse
  )
    requires institution.name != Parser.CsvInstitutionName
    ensures CreateBlockedDomainsLists([institution], fetch, readCsv, dns) == Success([InstitutionWithDomains(
      institution, Resolver.ResolveDomains(Parser.ParsePlainLines(fetch(institution.source_url)), dns))])
  {
    PlainLineInstitution(institution, fetch, readCsv, dns);
    SequenceOne(institution, Process(fetch, readCsv, dns));
  }
}
