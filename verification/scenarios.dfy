/** Worked examples of the model: a URL column, a newline-separated list, two
    resolver answers, a one-institution report, and the three put together
    through the whole pipeline. */
module Scenarios {
  import opened Wrappers
  import opened Text
  import Url
  import opened Records
  import Parser
  import Resolver
  import Report
  import Pipeline

  /** `http://www.example.com/x` in the URL column gives `example.com`. */
  lemma WwwUrlRow()
    ensures Parser.DomainOfRow(["http://www.example.com/x"], 1) == Success("example.com")
  {
    var host := "www." + "example.com";
    assert "http://www.example.com/x" == "http" + "://" + host + "/x";
    assert Url.IsScheme("http");
    assert forall k :: 0 <= k < |host| ==> host[k] !in {'/', '?', '#'};
    Parser.UrlRowDomain("http", host, "/x", [], 1);
  }

  /** `http://sub.example.com` keeps its host whole: `www.` is not a prefix. */
  lemma SubdomainUrlRow()
    ensures Parser.DomainOfRow(["http://sub.example.com"], 1) == Success("sub.example.com")
  {
    var host, url := SubdomainUrl();
    Parser.UrlRowDomain("http", host, "", [], 1);
    assert [url] + [] == [url];
    assert RemovePrefix(host, "www.") == host by {
      assert host[0] != "www."[0];
    }
  }

  /** The pieces of `http://sub.example.com` meet `UrlRowDomain`'s needs. */
  lemma SubdomainUrl() returns (host: string, url: string)
    ensures host == "sub.example.com"
    ensures url == "http" + "://" + host + "" && url == "http://sub.example.com"
    ensures Url.IsScheme("http") && Trimmed(url)
    ensures forall k :: 0 <= k < |host| ==> host[k] !in {'/', '?', '#'}
    ensures '[' in host <==> ']' in host
  {
    host := "sub.example.com";
    url := "http" + "://" + host + "";
    assert url == "http://sub.example.com";
    assert Url.IsScheme("http");
    assert forall k :: 0 <= k < |host| ==> host[k] !in {'/', '?', '#'};
  }

  /** A payload of two domains separated by a blank line and ending in a
      newline (such as `a.example`, blank, `b.example`) yields the two
      domains in order. */
  lemma TwoLinePayload(a: string, b: string)
    requires a != [] && b != [] && Trimmed(a) && Trimmed(b)
    requires '\n' !in a && '\n' !in b
    ensures Parser.ParsePlainLines(Join([a, "", b, ""], '\n')) == [a, b]
  {
    var lines := [a, "", b, ""];
    SplitJoin(lines, '\n');
    StripTrimmed(a);
    StripTrimmed(b);
    assert Strip("") == "";
    assert lines == [a] + ([""] + ([b] + [""]));
    Parser.KeepNonEmptyCons("", [], Strip);
    Parser.KeepNonEmptyCons(b, [""], Strip);
    Parser.KeepNonEmptyCons("", [b] + [""], Strip);
    Parser.KeepNonEmptyCons(a, [""] + ([b] + [""]), Strip);
  }

  /** A response with one A record resolves to an existing record. */
  lemma OneAnswer()
    ensures Resolver.ResolveDomain("example.com",
      d => Resolver.DnsResponse(0, Some([Resolver.AnswerRecord("1.2.3.4")])))
      == Domain("example.com", true)
  {
    var dns := d => Resolver.DnsResponse(0, Some([Resolver.AnswerRecord("1.2.3.4")]));
    assert dns("example.com").answer.value[0].data != [];
  }

  /** NXDOMAIN without an `Answer` resolves to a missing record. */
  lemma NoAnswer()
    ensures Resolver.ResolveDomain("nonexistent.example", d => Resolver.DnsResponse(3, None))
      == Domain("nonexistent.example", false)
  {
  }

  /** One plain-line institution whose first domain resolves and whose second
      does not: a header and two data rows, in payload order. */
  lemma OneInstitutionReport()
    ensures
      var lpt := Institution("LPT", "https://lpt.example/neleg.txt", ["62.77.154.37"]);
      var entry := InstitutionWithDomains(lpt, [Domain("a.example", true), Domain("b.example", false)]);
      Report.CsvRows([entry]) == [
        Report.Header,
        ["a.example", "1", "LPT"],
        ["b.example", "0", "LPT"]
      ]
  {
    var lpt := Institution("LPT", "https://lpt.example/neleg.txt", ["62.77.154.37"]);
    var entry := InstitutionWithDomains(lpt, [Domain("a.example", true), Domain("b.example", false)]);
    assert [entry][..0] == [];
    assert Report.DataRows([entry]) == Report.InstitutionRows(entry);
  }

  /** End to end: a plain-line institution whose payload is `a`, a blank line,
      `b` and a final newline, where `a` has an A record and `b` is NXDOMAIN,
      gives a report of the header and the rows of `a` (marked `1`) and `b`
      (marked `0`), both naming the institution. */
  lemma PlainLinePipelineReport(
    a: string, b: string, lpt: Institution,
    fetch: string -> string,
    readCsv: string -> seq<seq<string>>,
    dns: string -> Resolver.DnsResponse
  )
    requires a != [] && b != [] && Trimmed(a) && Trimmed(b)
    requires '\n' !in a && '\n' !in b
    requires lpt.name != Parser.CsvInstitutionName
    requires fetch(lpt.source_url) == Join([a, "", b, ""], '\n')
    requires dns(a) == Resolver.DnsResponse(0, Some([Resolver.AnswerRecord("1.2.3.4")]))
    requires dns(b) == Resolver.DnsResponse(3, None)
    ensures
      var r := Pipeline.CreateBlockedDomainsLists([lpt], fetch, readCsv, dns);
      r.Success? && Report.CsvRows(r.value) == [
        Report.Header,
        [a, "1", lpt.name],
        [b, "0", lpt.name]
      ]
  {
    TwoLinePayload(a, b);
    Pipeline.SingleInstitutionRun(lpt, fetch, readCsv, dns);
    TwoDomainReport(a, b, lpt, dns);
  }

  /** The report of one institution with domains `[a, b]`, where `a` resolves
      and `b` does not. */
  lemma TwoDomainReport(a: string, b: string, lpt: Institution, dns: string -> Resolver.DnsResponse)
    requires dns(a) == Resolver.DnsResponse(0, Some([Resolver.AnswerRecord("1.2.3.4")]))
    requires dns(b) == Resolver.DnsResponse(3, None)
    ensures Report.CsvRows([InstitutionWithDomains(lpt, Resolver.ResolveDomains([a, b], dns))]) == [
      Report.Header,
      [a, "1", lpt.name],
      [b, "0", lpt.name]
    ]
  {
    var resolved := ResolveTwo(a, b, dns);
    var entry := InstitutionWithDomains(lpt, resolved);
    SingleInstitutionReport(entry);
    var rows := Report.InstitutionRows(entry);
    assert rows[0] == [a, "1", lpt.name] && rows[1] == [b, "0", lpt.name];
  }

  /** Resolving `[a, b]` where `a` has an A record and `b` has no answer. */
  lemma ResolveTwo(a: string, b: string, dns: string -> Resolver.DnsResponse) returns (resolved: seq<Domain>)
    requires dns(a) == Resolver.DnsResponse(0, Some([Resolver.AnswerRecord("1.2.3.4")]))
    requires dns(b) == Resolver.DnsResponse(3, None)
    ensures resolved == [Domain(a, true), Domain(b, false)]
    ensures Resolver.ResolveDomains([a, b], dns) == resolved
  {
    assert dns(a).answer.value[0].data != [];
    resolved := [Domain(a, true), Domain(b, false)];
  }

  /** The report of one entry is the header and that entry's rows. */
  lemma SingleInstitutionReport(entry: InstitutionWithDomains)
    ensures Report.CsvRows([entry]) == [Report.Header] + Report.InstitutionRows(entry)
  {
    assert [entry][..0] == [];
    assert Report.DataRows([entry]) == Report.InstitutionRows(entry);
  }
}
