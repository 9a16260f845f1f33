# isp-blocked-domains in Dafny

This project models the data-shaping core of `isp-blocked-domains`. The
program collects the domain block lists published by Lithuanian regulators
(Lietuvos bankas, LPT, RTK, VVTAT). It checks each listed domain against a
DNS-over-HTTPS resolver and writes a consolidated report.

The model covers four pure steps of `main.py`:

- **Parsing a block list** (`Parser`). Lietuvos bankas publishes a
  semicolon-separated CSV file. Its header row is skipped, and every later row
  contributes the host of the URL in its first field, less one leading `www.`.
  Every other institution publishes one domain per line. Those lines are
  stripped, and blank ones are dropped.
- **Resolving** (`Resolver`). A domain's record exists when the resolver's
  `Answer` array holds at least one non-empty `data` string. `resolve_domains`
  maps this over the list in order.
- **The CSV report** (`Report`). It is a header row followed by one row per
  resolved domain, ordered by institution and then by domain. Each row holds
  the domain, `0`/`1` for the record, and the institution's name.
- **The run** (`Pipeline`). Each institution is fetched, parsed and resolved,
  in registry order.

The records passed between these steps are in `Records` (main.py:33-49).
An `Institution` has a name, a source URL and its block-page addresses.
A `Domain` is a domain name with its `record_exists` flag.
An `InstitutionWithDomains` pairs an institution with its resolved domains, in list order.

Three external services become oracle parameters:

- `fetch` maps a source URL to the payload text.
- `readCsv` stands for `csv.reader(..., delimiter=';')`.
- `dns` maps a domain to the decoded resolver response.

The Python string operations the parsers rely on are modelled exactly in
`Text`: `str.strip()` with Python's `isspace` character set,
`str.split('\n')` and `str.removeprefix`. `Url` gives a simplified
`urlparse(...).netloc`.

Exceptions are modelled as `Failure` values of `Wrappers.Result`, not as
preconditions. These are `row[0]` on an empty CSV row (`MissingUrlField`) and
the `ValueError` that `urlparse` raises on an unbalanced `[`/`]`
(`InvalidIPv6Url`). Both carry the index of the row. The host extractor is
simplified, so `urlparse` can raise in cases the model does not cover (see
`Url.Netloc` under "## Left out"). `csv.reader` can raise `csv.Error`, and that
is not modelled either (see the `csv.reader` line there).

Behaviours of the code worth noting:

- `record_exists` is `any(ips)`, which is true only for a non-empty `data`
  string. An `Answer` whose entries all have empty `data` gives `false`, even
  though it has entries.
- The CSV policy does not drop empty hosts. A first field without `//`, such
  as a bare `lb.lt`, yields the empty domain (`Parser.BareNameRowDomain`).
- The policy is chosen by comparing the institution's name with
  `"Lietuvos bankas"`. The institution record carries no policy tag.
- The resolved record is the simple `{domain, record_exists}` shape. The DNS
  status code is never consulted.

## Model

| member | source | states |
|---|---|---|
| Text.Strip | main.py:122 | `line.strip()`: the result has no whitespace at either end, is no longer than the input, and is empty exactly when the input is all whitespace |
| Text.StripUnique | main.py:122 | strip is characterised by its margins: if `s[i..j]` is trimmed and all of `s` outside it is whitespace, `Strip(s)` is exactly `s[i..j]` |
| Text.StripIsInfix | main.py:122 | strip removes only whitespace margins: its result is an infix `s[i..j]` with whitespace before `i` and after `j` |
| Text.StripIdempotent | main.py:122 | stripping an already stripped field changes nothing |
| Text.Split | main.py:122 | `text.split('\n')`: at least one piece, no piece contains a newline, and joining the pieces with newlines gives back the text |
| Text.SplitJoin | main.py:122 | the converse round trip: splitting the newline-join of newline-free pieces returns those pieces |
| Text.RemovePrefix | main.py:116 | `removeprefix`: with the prefix present, prefix + result is the input; otherwise the input comes back unchanged |
| Text.RemovePrefixOnce | main.py:116 | the prefix is removed once, not repeatedly: `www.www.x` becomes `www.x` |
| Url.Netloc | main.py:115 | the extracted host never contains `/`, `?` or `#`, and it holds both or neither of `[` and `]` (otherwise the parse fails) |
| Url.NetlocFailsOnlyOnBrackets | main.py:115 | host extraction fails only for a URL that contains a `[` or `]` |
| Url.NetlocOfUrl | main.py:115 | round trip: for a URL built as `scheme://host` plus a path starting with a delimiter, the extracted host is exactly `host` |
| Url.NetlocUnbalanced | main.py:115 | the failure branch: a URL `scheme://host` plus a delimiter-led path whose host holds only one of `[` and `]` makes the host extraction fail (the `ValueError` of `urlparse`) |
| Url.NetlocOfBareName | main.py:115 | a field with no `:` that does not start with `//` has an empty host |
| Parser.PolicyFor | main.py:105 | the CSV policy is chosen exactly when the name equals `Lietuvos bankas`, and the plain-line policy for every other name |
| Parser.KeepNonEmpty | main.py:122 | the comprehension keeps only non-empty images and never yields more elements than lines |
| Parser.KeepNonEmptySelects | main.py:122 | the comprehension's output is an order-preserving selection. A strictly increasing index sequence holds exactly the lines with a non-empty image, and output `k` is the image of line `idx[k]` |
| Parser.ParsePlainLines | main.py:121-122 | every plain-line domain is non-empty and has no surrounding whitespace, and there are at most as many domains as lines |
| Parser.ParsePlainLinesSelects | main.py:122 | the domains are the strips of exactly the lines that are not all whitespace, in line order, with duplicates kept. Their count is the number of such lines |
| Parser.DomainOfRow | main.py:115-118 | with the simplified host extractor, a row fails exactly when it has no field or `Url.Netloc` fails on its stripped first field, which `Url.NetlocUnbalanced` shows happens for unbalanced brackets. The error names that row. It is `MissingUrlField` for an empty row (the `IndexError` of `row[0]`) and `InvalidIPv6Url` otherwise (the `ValueError` of `urlparse`). Otherwise the result is the host, with one leading `www.` removed if present and unchanged if not |
| Parser.UrlRowDomain | main.py:115-116 | a row whose first field is `scheme://host/...` yields `host` less one leading `www.`, whatever the other fields hold |
| Parser.BareNameRowDomain | main.py:115-118 | a scheme-less field yields the empty domain, which is kept and not filtered out |
| Parser.MapRows | main.py:111-118 | the per-row loop succeeds exactly when every row does, giving one domain per row in row order. Otherwise it fails with the error of the first failing row |
| Parser.ParseCsvUrlColumn | main.py:105-120 | the first row is skipped and each later row gives exactly one domain in row order, so there are row count minus one domains. The parse fails exactly when a later row fails, and it reports the first failing row |
| Parser.HeaderIgnored | main.py:108-113 | the content of the header row never influences the result |
| Parser.FetchInstitutionDomains | main.py:101-122 | only the CSV institution's parse can fail. Every other institution gets the plain-line parse of its payload, and Lietuvos bankas gets the CSV parse of the rows |
| Resolver.AnswerData | main.py:88 | the `data` strings of the answers, one per entry, in order. An absent `Answer` gives the empty list |
| Resolver.AnyNonEmpty | main.py:92 | `any(ips)` is true exactly when some string in the list is non-empty |
| Resolver.ResolveDomain | main.py:77-93 | the record keeps the queried domain. It exists exactly when some `Answer` entry has non-empty `data`, so an absent or empty `Answer` gives `false` |
| Resolver.ResolveDomains | main.py:96-98 | one record per input domain, same length and order. Record `i` is for domain `i` |
| Resolver.ResolveDomainsAppend | main.py:96-98 | resolving a concatenation equals concatenating the resolutions, so splitting the work into consecutive batches preserves results and order |
| Report.BoolCell | main.py:147 | `int(record_exists)` is the cell `1` exactly when true and `0` exactly when false |
| Report.DomainRow | main.py:145-149 | a data row has three cells: the domain, then `1` exactly when the record exists and `0` exactly when it does not, then the institution's name |
| Report.InstitutionRows | main.py:144-149 | one row per resolved domain of the institution, in domain order |
| Report.DataRows | main.py:141-149 | the number of data rows is the sum of all `blocked_domains` lengths |
| Report.CsvRows | main.py:139-149 | the report is the header row followed by the data rows, `1 + sum of lengths` rows in all |
| Report.DataRowsLayout | main.py:141-149 | domain `j` of institution `i` is data row `TotalDomains(entries[..i]) + j`. That row holds the domain, its `0`/`1` cell and the owning institution's name, so rows are ordered by institution and then by domain |
| Report.DataRowOrigin | main.py:141-149 | every data row comes from a domain: row `k` is domain `j` of institution `i` at offset `TotalDomains(entries[..i]) + j` |
| Report.CsvRowAt | main.py:139-149 | the row of domain `j` of institution `i` is report row `1 + TotalDomains(entries[..i]) + j` |
| Report.CsvRowsLayout | main.py:139-149 | the whole report has the header first and `1 + TotalDomains` rows. Domain `j` of institution `i` sits at row `1 + TotalDomains(entries[..i]) + j` |
| Report.WriteCsvRows | main.py:136-149 | the nested loop over institutions and domains writes exactly the rows `CsvRows` describes |
| Pipeline.ProcessInstitution | main.py:126-133 | an institution succeeds exactly when its payload parses. It then keeps the institution and has one resolved record per parsed domain, in order. Otherwise it fails with exactly the parse error of its payload, passed on unchanged |
| Pipeline.Sequence | main.py:125-133 | a loop whose body may raise succeeds exactly when every step does, giving the step results in order. Otherwise it fails with the error of the first failing step |
| Pipeline.CreateBlockedDomainsLists | main.py:125-133 | the run succeeds exactly when every institution parses, giving one entry per institution in registry order. Otherwise it fails with the error of the first institution that fails |
| Pipeline.PlainLineInstitution | main.py:101-133 | an institution other than Lietuvos bankas never fails: its entry keeps the institution and holds its payload's plain-line domains, resolved in order |
| Pipeline.SingleInstitutionRun | main.py:125-133 | a run over one plain-line institution succeeds with exactly that institution's entry |
| Scenarios.WwwUrlRow | main.py:115-116 | `http://www.example.com/x` in the URL column gives `example.com` |
| Scenarios.SubdomainUrlRow | main.py:115-116 | `http://sub.example.com` gives `sub.example.com`: `www.` is not stripped because it is not a prefix |
| Scenarios.TwoLinePayload | main.py:122 | a payload of two domains around a blank line with a final newline gives exactly those two domains in order |
| Scenarios.OneAnswer | main.py:88-93 | a response with one `Answer` entry of data `1.2.3.4` gives an existing record for the queried domain |
| Scenarios.NoAnswer | main.py:88-93 | an NXDOMAIN response without `Answer` gives a missing record |
| Scenarios.OneInstitutionReport | main.py:139-149 | one institution with a resolving and a non-resolving domain gives the header plus two rows, in order, marked `1` and `0` |
| Scenarios.PlainLinePipelineReport | main.py:77-149 | end to end: a plain-line institution with payload `a`, blank line, `b`, where only `a` resolves, runs to a report of the header, `a` marked `1` and `b` marked `0`, both naming the institution |

## Left out

- HTTP session, retry policy and backoff (main.py:13-23), `s.get` and `raise_for_status` (main.py:82-84, 102-103): network I/O. `fetch` and `dns` are total oracles, so fetch and resolve failures are not modelled. Only parse failures appear as errors.
- JSON decoding of the resolver response (main.py:86): the `dns` oracle returns the decoded response. A missing `data` key (a `KeyError`) and non-string `data` values are not modelled.
- `EnhancedJSONEncoder` and the JSON output file (main.py:26-30, 152-156): library serialisation and file I/O.
- Opening and writing the CSV file, and `csv.writer` quoting (main.py:137): I/O. Only the sequence of rows is modelled.
- `csv.reader`'s quoting and delimiter rules: foreign library code, taken as the `readCsv` oracle. `readCsv` is total, so `csv.reader`'s own errors (`csv.Error`) are not modelled. Examples are a lone `\r` inside an unquoted field, or a field longer than `csv.field_size_limit()`. The program aborts on these, but the model parses the rows it is given.
- The static `institutions` table (main.py:52-74): configuration data, not logic.
- Generator laziness (main.py:96-98, 125-133): modelled as finite sequences. Laziness only changes how many network calls happen before a failure, and those calls are not modelled.
- Url.Netloc: simplified `urlsplit`. It does not strip leading C0 control characters or remove tab/CR/LF from the URL, which newer Python versions do first. It does not validate bracketed IPv6 hosts beyond the balance check. It also does not model the `ValueError` that `urlsplit` raises for a non-ASCII host whose NFKC normal form introduces `/`, `?`, `#`, `@` or `:`; an example is `http://ex\u2100mple.com/`. Such a row succeeds in the model, where the program raises. Unicode normalisation is out of reach here. Its contract states the host's shape, and `Url.NetlocOfUrl` states the round trip for well-formed URLs, rather than a full URL grammar.
