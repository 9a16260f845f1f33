/** Turning an institution's published payload into its list of candidate
    domains. One institution publishes a semicolon-separated CSV file whose
    first column holds URLs; all others publish one domain per line. */
module Parser {
  import opened Wrappers
  import opened Text
  import Url
  import opened Records

  /** The error a parse raises, with the index of the offending CSV row
      (counting the header as row 0). */
  datatype ParseError =
    | MissingUrlField(row: nat)   // the row has no fields, so `row[0]` raises
    | InvalidIPv6Url(row: nat)    // `urlparse` rejects an unbalanced `[` / `]`

  /** The two parsing policies. */
  datatype Policy = PlainLines | CsvUrlColumn

  /** The one institution whose list is a CSV file of URLs. */
  const CsvInstitutionName: string := "Lietuvos bankas"

  /** The policy applied to an institution, chosen by its name. */
  function PolicyFor(institution: Institution): (p: Policy)
    ensures p == CsvUrlColumn <==> institution.name == CsvInstitutionName
    ensures p == PlainLines <==> institution.name != CsvInstitutionName
  {
    if institution.name == CsvInstitutionName then CsvUrlColumn else PlainLines
  }

  // ---------------------------------------------------------------------
  // Plain-line policy
  // ---------------------------------------------------------------------

  /** Python's `[f(x) for x in lines if f(x)]` for strings: the non-empty
      images of the lines under `f`, in order, duplicates kept. */
  function KeepNonEmpty(lines: seq<string>, f: string -> string): (r: seq<string>)
    ensures |r| <= |lines|
    ensures forall k :: 0 <= k < |r| ==> r[k] != []
    decreases |lines|
  {
    if |lines| == 0 then []
    else (if f(lines[0]) == [] then [] else [f(lines[0])]) + KeepNonEmpty(lines[1..], f)
  }

  /** The indices of the lines whose image under `f` is non-empty, in
      increasing order. */
  function KeptIndices(lines: seq<string>, f: string -> string): (idx: seq<nat>)
    ensures |idx| <= |lines|
    decreases |lines|
  {
    if |lines| == 0 then []
    else
      var later := Shift(KeptIndices(lines[1..], f));
      if f(lines[0]) == [] then later else [0] + later
  }

  /** One step of `KeepNonEmpty`: the first line's image, if non-empty, then
      the images kept from the rest. */
  lemma KeepNonEmptyCons(x: string, rest: seq<string>, f: string -> string)
    ensures KeepNonEmpty([x] + rest, f) == (if f(x) == [] then [] else [f(x)]) + KeepNonEmpty(rest, f)
  {
    assert ([x] + rest)[1..] == rest;
  }

  /** Every index of `idx` moved up by one, as when a line is put in front. */
  function Shift(idx: seq<nat>): (r: seq<nat>)
    ensures |r| == |idx|
    ensures forall k :: 0 <= k < |idx| ==> r[k] == idx[k] + 1
  {
    seq(|idx|, k requires 0 <= k < |idx| => idx[k] + 1)
  }

  /** `KeptIndices` is strictly increasing and within the lines' bounds. */
  lemma {:induction false} KeptIndicesOrdered(lines: seq<string>, f: string -> string)
    ensures forall k :: 0 <= k < |KeptIndices(lines, f)| ==> KeptIndices(lines, f)[k] < |lines|
    ensures forall k, m :: 0 <= k < m < |KeptIndices(lines, f)| ==> KeptIndices(lines, f)[k] < KeptIndices(lines, f)[m]
    decreases |lines|
  {
    if |lines| > 0 {
      KeptIndicesOrdered(lines[1..], f);
      var later := Shift(KeptIndices(lines[1..], f));
      if f(lines[0]) == [] {
        assert KeptIndices(lines, f) == later;
      } else {
        assert KeptIndices(lines, f) == [0] + later;
      }
    }
  }

  /** `KeptIndices` holds exactly the indices of lines with a non-empty image. */
  lemma {:induction false} KeptIndicesExact(lines: seq<string>, f: string -> string)
    ensures forall i :: 0 <= i < |lines| ==> (f(lines[i]) != [] <==> i in KeptIndices(lines, f))
    decreases |lines|
  {
    if |lines| > 0 {
      KeptIndicesExact(lines[1..], f);
      var tail := KeptIndices(lines[1..], f);
      var later := Shift(tail);
      var idx := KeptIndices(lines, f);
      assert forall k :: 0 <= k < |later| ==> later[k] != 0;
      assert 0 in idx <==> f(lines[0]) != [];
      forall i | 1 <= i < |lines| ensures f(lines[i]) != [] <==> i in idx {
        assert lines[i] == lines[1..][i - 1];
        if i - 1 in tail {
          var k :| 0 <= k < |tail| && tail[k] == i - 1;
          assert later[k] == i;
        }
        assert i in idx <==> i in later;
      }
    }
  }

  /** Position by position, `KeepNonEmpty` returns the image of the line at
      the matching index of `KeptIndices`. */
  lemma {:induction false} KeptIndicesValues(lines: seq<string>, f: string -> string)
    ensures |KeptIndices(lines, f)| == |KeepNonEmpty(lines, f)|
    ensures forall k :: 0 <= k < |KeptIndices(lines, f)| ==>
      KeptIndices(lines, f)[k] < |lines| && KeepNonEmpty(lines, f)[k] == f(lines[KeptIndices(lines, f)[k]])
    decreases |lines|
  {
    if |lines| > 0 {
      KeptIndicesValues(lines[1..], f);
      var tail := KeptIndices(lines[1..], f);
      var later := Shift(tail);
      var rest := KeepNonEmpty(lines[1..], f);
      if f(lines[0]) == [] {
        assert KeptIndices(lines, f) == later && KeepNonEmpty(lines, f) == rest;
      } else {
        assert KeptIndices(lines, f) == [0] + later && KeepNonEmpty(lines, f) == [f(lines[0])] + rest;
      }
      forall k | 0 <= k < |tail| ensures lines[later[k]] == lines[1..][tail[k]] {
      }
    }
  }

  /** The output of `KeepNonEmpty` is a selection of the input: a strictly
      increasing sequence of line indices holds exactly the lines with a
      non-empty image, and the k-th output is the image of the line at the
      k-th index. Lines mapping to the empty string are dropped, duplicates
      are kept. */
  lemma KeepNonEmptySelects(lines: seq<string>, f: string -> string) returns (idx: seq<nat>)
    ensures |idx| == |KeepNonEmpty(lines, f)|
    ensures forall k :: 0 <= k < |idx| ==> idx[k] < |lines| && KeepNonEmpty(lines, f)[k] == f(lines[idx[k]])
    ensures forall k, m :: 0 <= k < m < |idx| ==> idx[k] < idx[m]
    ensures forall i :: 0 <= i < |lines| ==> (f(lines[i]) != [] <==> i in idx)
  {
    idx := KeptIndices(lines, f);
    KeptIndicesOrdered(lines, f);
    KeptIndicesExact(lines, f);
    KeptIndicesValues(lines, f);
  }

  /** The plain-line policy: split on newline, strip each line, keep the
      stripped lines that are non-empty. Every domain is non-empty and has no
      surrounding whitespace. */
  function ParsePlainLines(text: string): (domains: seq<string>)
    ensures |domains| <= |Split(text, '\n')|
    ensures forall k :: 0 <= k < |domains| ==> domains[k] != [] && Trimmed(domains[k])
  {
    var lines := Split(text, '\n');
    KeptIndicesValues(lines, Strip);
    KeepNonEmpty(lines, Strip)
  }

  /** The plain-line policy as a selection: with `lines` the newline-split
      payload, the domains are the strips of exactly the non-blank lines, in
      line order, so their number is the number of non-blank lines. */
  lemma ParsePlainLinesSelects(text: string) returns (idx: seq<nat>)
    ensures |idx| == |ParsePlainLines(text)|
    ensures forall k :: 0 <= k < |idx| ==>
      idx[k] < |Split(text, '\n')| && ParsePlainLines(text)[k] == Strip(Split(text, '\n')[idx[k]])
    ensures forall k, m :: 0 <= k < m < |idx| ==> idx[k] < idx[m]
    ensures forall i :: 0 <= i < |Split(text, '\n')| ==> (!AllSpace(Split(text, '\n')[i]) <==> i in idx)
  {
    idx := KeepNonEmptySelects(Split(text, '\n'), Strip);
  }

  // ---------------------------------------------------------------------
  // CSV-URL-column policy
  // ---------------------------------------------------------------------

  /** The domain one CSV row contributes: the host of the URL in its first
      field, stripped, with one leading `www.` removed. `index` is the row's
      position in the file, reported by the errors. */
  function DomainOfRow(row: seq<string>, index: nat): (r: Result<string, ParseError>)
    ensures r.Failure? ==> r.error.row == index
    ensures r.Failure? <==> |row| == 0 || Url.Netloc(Strip(row[0])).None?
    ensures r.Failure? && |row| == 0 ==> r.error.MissingUrlField?
    ensures r.Failure? && |row| > 0 ==> r.error.InvalidIPv6Url?
    ensures r.Success? ==>
      var host := Url.Netloc(Strip(row[0])).value;
      if "www." <= host then "www." + r.value == host else r.value == host
  {
    if |row| == 0 then Failure(MissingUrlField(index))
    else
      match Url.Netloc(Strip(row[0]))
      case None => Failure(InvalidIPv6Url(index))
      case Some(host) => Success(RemovePrefix(host, "www."))
  }

  /** A row whose first field is `scheme://host` followed by a path yields the
      host, less one leading `www.`; the other fields are ignored. */
  lemma UrlRowDomain(scheme: string, host: string, path: string, others: seq<string>, index: nat)
    requires Url.IsScheme(scheme)
    requires forall k :: 0 <= k < |host| ==> host[k] !in {'/', '?', '#'}
    requires '[' in host <==> ']' in host
    requires path == [] || path[0] in {'/', '?', '#'}
    requires Trimmed(scheme + "://" + host + path)
    ensures DomainOfRow([scheme + "://" + host + path] + others, index) == Success(RemovePrefix(host, "www."))
  {
    var url := scheme + "://" + host + path;
    var row := [url] + others;
    assert row[0] == url;
    StripTrimmed(url);
    Url.NetlocOfUrl(scheme, host, path);
    assert Url.Netloc(Strip(row[0])) == Some(host);
  }

  /** A row whose first field has no `:` and does not start with `//`, such
      as a bare host name, contributes the empty domain: the CSV policy does
      not drop it. */
  lemma BareNameRowDomain(field: string, others: seq<string>, index: nat)
    requires Trimmed(field)
    requires ':' !in field && !("//" <= field)
    ensures DomainOfRow([field] + others, index) == Success([])
  {
    StripTrimmed(field);
    Url.NetlocOfBareName(field);
  }

  /** A per-row step that reports failures at the row it was given. */
  ghost predicate ReportsOwnRow(step: (seq<string>, nat) -> Result<string, ParseError>) {
    forall row, index :: step(row, index).Failure? ==> step(row, index).error.row == index
  }

  /** `step` applied to every row of `rows`, the first of which sits at
      position `first` of the file; the first failing row aborts the loop, as
      the exception it raises does in the source. */
  function MapRows(rows: seq<seq<string>>, first: nat, step: (seq<string>, nat) -> Result<string, ParseError>)
    : (r: Result<seq<string>, ParseError>)
    requires ReportsOwnRow(step)
    ensures r.Success? <==> forall k :: 0 <= k < |rows| ==> step(rows[k], first + k).Success?
    ensures r.Success? ==> |r.value| == |rows|
    ensures r.Success? ==> forall k :: 0 <= k < |rows| ==> r.value[k] == step(rows[k], first + k).value
    ensures r.Failure? ==> first <= r.error.row < first + |rows|
    ensures r.Failure? ==> step(rows[r.error.row - first], r.error.row) == Failure(r.error)
    ensures r.Failure? ==> forall k :: 0 <= k < r.error.row - first ==> step(rows[k], first + k).Success?
    decreases |rows|
  {
    if |rows| == 0 then Success([])
    else
      match step(rows[0], first)
      case Failure(e) => Failure(e)
      case Success(d) =>
        var rest := MapRows(rows[1..], first + 1, step);
        assert forall k :: 1 <= k < |rows| ==> rows[k] == rows[1..][k - 1];
        match rest
        case Failure(e) => Failure(e)
        case Success(ds) => Success([d] + ds)
  }

  /** `MapRows` over all rows but the first, restated with the rows' own
      positions in the file. */
  lemma MapRowsAfterHeader(rows: seq<seq<string>>, step: (seq<string>, nat) -> Result<string, ParseError>)
    requires |rows| > 0 && ReportsOwnRow(step)
    ensures var r := MapRows(rows[1..], 1, step);
      && (r.Success? <==> forall k :: 1 <= k < |rows| ==> step(rows[k], k).Success?)
      && (r.Success? ==> |r.value| == |rows| - 1)
      && (r.Success? ==> forall k :: 1 <= k < |rows| ==> r.value[k - 1] == step(rows[k], k).value)
      && (r.Failure? ==> 1 <= r.error.row < |rows| && step(rows[r.error.row], r.error.row) == Failure(r.error))
      && (r.Failure? ==> forall k :: 1 <= k < r.error.row ==> step(rows[k], k).Success?)
  {
    assert forall k :: 1 <= k < |rows| ==> rows[k] == rows[1..][k - 1];
  }

  /** `DomainOfRow` reports its failures at the row it was given. */
  lemma DomainOfRowReportsOwnRow()
    ensures ReportsOwnRow(DomainOfRow)
  {
  }

  /** The CSV-URL-column policy over the rows `csv.reader` produced: the
      first row is skipped whatever it holds, and every later row contributes
      exactly one domain, in row order. Empty hosts are kept. */
  function ParseCsvUrlColumn(rows: seq<seq<string>>): (r: Result<seq<string>, ParseError>)
    ensures |rows| <= 1 ==> r == Success([])
    ensures r.Success? <==> forall k :: 1 <= k < |rows| ==> DomainOfRow(rows[k], k).Success?
    ensures r.Success? && |rows| > 0 ==> |r.value| == |rows| - 1
    ensures r.Success? ==> forall k :: 1 <= k < |rows| ==> r.value[k - 1] == DomainOfRow(rows[k], k).value
    ensures r.Failure? ==> 1 <= r.error.row < |rows| && DomainOfRow(rows[r.error.row], r.error.row) == Failure(r.error)
    ensures r.Failure? ==> forall k :: 1 <= k < r.error.row ==> DomainOfRow(rows[k], k).Success?
  {
    if |rows| == 0 then Success([])
    else
      DomainOfRowReportsOwnRow();
      MapRowsAfterHeader(rows, DomainOfRow);
      MapRows(rows[1..], 1, DomainOfRow)
  }

  /** The header row never influences the result. */
  lemma HeaderIgnored(h1: seq<string>, h2: seq<string>, body: seq<seq<string>>)
    ensures ParseCsvUrlColumn([h1] + body) == ParseCsvUrlColumn([h2] + body)
  {
    assert ([h1] + body)[1..] == body == ([h2] + body)[1..];
  }

  // ---------------------------------------------------------------------
  // Dispatch
  // ---------------------------------------------------------------------

  /** The parsing step of `fetch_institution_domains`: `text` is the fetched
      payload and `readCsv` stands for `csv.reader(..., delimiter=';')`. Only
      the CSV policy can fail. */
  function FetchInstitutionDomains(institution: Institution, text: string, readCsv: string -> seq<seq<string>>)
    : (r: Result<seq<string>, ParseError>)
    ensures r.Failure? ==> institution.name == CsvInstitutionName
    ensures institution.name != CsvInstitutionName ==> r == Success(ParsePlainLines(text))
    ensures institution.name == CsvInstitutionName ==> r == ParseCsvUrlColumn(readCsv(text))
  {
    match PolicyFor(institution)
    case CsvUrlColumn => ParseCsvUrlColumn(readCsv(text))
    case PlainLines => Success(ParsePlainLines(text))
  }
}
