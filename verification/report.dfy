/** The rows of the CSV report (`write_csv_file`): a header, then one row per
    resolved domain, institution by institution. Quoting and the writing of
    the file are not modelled; a row is its sequence of cells. */
module Report {
  import opened Records

  /** The header row. */
  const Header: seq<string> := ["domain", "record_exists", "institution"]

  /** `int(b)` written as a CSV cell. */
  function BoolCell(b: bool): (cell: string)
    ensures cell == "1" <==> b
    ensures cell == "0" <==> !b
  {
    if b then "1" else "0"
  }

  /** The row of one resolved domain of `institution`. */
  function DomainRow(d: Domain, institution: Institution): (row: seq<string>)
    ensures |row| == |Header|
    ensures row[0] == d.domain && row[2] == institution.name
    ensures row[1] == "1" <==> d.record_exists
    ensures row[1] == "0" <==> !d.record_exists
  {
    [d.domain, BoolCell(d.record_exists), institution.name]
  }

  /** The rows of one institution's resolved domains, in order. */
  function InstitutionRows(entry: InstitutionWithDomains): (rows: seq<seq<string>>)
    ensures |rows| == |entry.blocked_domains|
    ensures forall j :: 0 <= j < |rows| ==> rows[j] == DomainRow(entry.blocked_domains[j], entry.institution)
  {
    seq(|entry.blocked_domains|, j requires 0 <= j < |entry.blocked_domains| =>
      DomainRow(entry.blocked_domains[j], entry.institution))
  }

  /** The number of resolved domains across `entries`. */
  function TotalDomains(entries: seq<InstitutionWithDomains>): nat
    decreases |entries|
  {
    if |entries| == 0 then 0
    else TotalDomains(entries[..|entries| - 1]) + |entries[|entries| - 1].blocked_domains|
  }

  /** The data rows: each institution's rows, institutions in order. */
  function DataRows(entries: seq<InstitutionWithDomains>): (rows: seq<seq<string>>)
    ensures |rows| == TotalDomains(entries)
    decreases |entries|
  {
    if |entries| == 0 then []
    else DataRows(entries[..|entries| - 1]) + InstitutionRows(entries[|entries| - 1])
  }

  /** The whole CSV report: the header followed by the data rows. */
  function CsvRows(entries: seq<InstitutionWithDomains>): (rows: seq<seq<string>>)
    ensures |rows| == 1 + TotalDomains(entries)
    ensures rows[0] == Header
  {
    [Header] + DataRows(entries)
  }

  /** Where one domain lands: the j-th domain of the i-th institution is
      data row `TotalDomains(entries[..i]) + j`. */
  lemma {:induction false} DataRowAt(entries: seq<InstitutionWithDomains>, i: nat, j: nat)
    requires i < |entries| && j < |entries[i].blocked_domains|
    ensures TotalDomains(entries[..i]) + j < |DataRows(entries)|
    ensures DataRows(entries)[TotalDomains(entries[..i]) + j] == DomainRow(entries[i].blocked_domains[j], entries[i].institution)
    decreases |entries|
  {
    var n := |entries| - 1;
    var init := entries[..n];
    var rows := DataRows(entries);
    assert rows == DataRows(init) + InstitutionRows(entries[n]);
    var k := TotalDomains(entries[..i]) + j;
    if i < n {
      assert entries[..i] == init[..i];
      assert init[i] == entries[i];
      DataRowAt(init, i, j);
      assert rows[k] == DataRows(init)[k];
    } else {
      assert entries[..i] == init;
      assert rows[k] == InstitutionRows(entries[n])[j];
    }
  }

  /** Each institution's rows fit inside the data rows: its block starts at
      `TotalDomains(entries[..i])` and ends within the total. */
  lemma DataRowsBounds(entries: seq<InstitutionWithDomains>)
    ensures forall i :: 0 <= i < |entries| ==>
      TotalDomains(entries[..i]) + |entries[i].blocked_domains| <= |DataRows(entries)|
  {
    forall i | 0 <= i < |entries|
      ensures TotalDomains(entries[..i]) + |entries[i].blocked_domains| <= |DataRows(entries)|
    {
      TotalDomainsPrefix(entries, i);
    }
  }

  /** Where each domain lands: the j-th domain of the i-th institution is data
      row `TotalDomains(entries[..i]) + j`, carrying that domain, `1` exactly
      when its record exists, and the institution's name. */
  lemma DataRowsLayout(entries: seq<InstitutionWithDomains>)
    ensures forall i :: 0 <= i < |entries| ==>
      TotalDomains(entries[..i]) + |entries[i].blocked_domains| <= |DataRows(entries)|
    ensures forall i, j :: 0 <= i < |entries| && 0 <= j < |entries[i].blocked_domains| ==>
      DataRows(entries)[TotalDomains(entries[..i]) + j] == DomainRow(entries[i].blocked_domains[j], entries[i].institution)
  {
    DataRowsBounds(entries);
    forall i, j | 0 <= i < |entries| && 0 <= j < |entries[i].blocked_domains|
      ensures DataRows(entries)[TotalDomains(entries[..i]) + j] == DomainRow(entries[i].blocked_domains[j], entries[i].institution)
    {
      DataRowAt(entries, i, j);
    }
  }

  /** A prefix holds no more domains than the whole, and the domains of
      entry `i` all come before the end. */
  lemma {:induction false} TotalDomainsPrefix(entries: seq<InstitutionWithDomains>, i: nat)
    requires i < |entries|
    ensures TotalDomains(entries[..i]) + |entries[i].blocked_domains| <= TotalDomains(entries)
    decreases |entries|
  {
    var n := |entries| - 1;
    if i < n {
      assert entries[..n][..i] == entries[..i];
      assert entries[..n][i] == entries[i];
      TotalDomainsPrefix(entries[..n], i);
    } else {
      assert entries[..i] == entries[..n];
    }
  }

  /** Every data row comes from some domain: row `k` is the `j`-th domain of
      the `i`-th institution for the `i`, `j` returned here. */
  lemma {:induction false} DataRowOrigin(entries: seq<InstitutionWithDomains>, k: nat) returns (i: nat, j: nat)
    requires k < TotalDomains(entries)
    ensures i < |entries| && j < |entries[i].blocked_domains|
    ensures k == TotalDomains(entries[..i]) + j
    decreases |entries|
  {
    var n := |entries| - 1;
    var init := entries[..n];
    if k < TotalDomains(init) {
      i, j := DataRowOrigin(init, k);
      assert init[..i] == entries[..i];
    } else {
      i, j := n, k - TotalDomains(init);
    }
  }

  /** The report as a whole: header first, one data row per resolved domain,
      institutions in order and domains in order within each. */
  lemma CsvRowsLayout(entries: seq<InstitutionWithDomains>)
    ensures CsvRows(entries)[0] == Header
    ensures |CsvRows(entries)| == 1 + TotalDomains(entries)
    ensures forall i :: 0 <= i < |entries| ==>
      1 + TotalDomains(entries[..i]) + |entries[i].blocked_domains| <= |CsvRows(entries)|
    ensures forall i, j :: 0 <= i < |entries| && 0 <= j < |entries[i].blocked_domains| ==>
      CsvRows(entries)[1 + TotalDomains(entries[..i]) + j] == DomainRow(entries[i].blocked_domains[j], entries[i].institution)
  {
    DataRowsBounds(entries);
    forall i, j | 0 <= i < |entries| && 0 <= j < |entries[i].blocked_domains|
      ensures CsvRows(entries)[1 + TotalDomains(entries[..i]) + j] == DomainRow(entries[i].blocked_domains[j], entries[i].institution)
    {
      CsvRowAt(entries, i, j);
    }
  }

  /** The report row of the j-th domain of the i-th institution. */
  lemma CsvRowAt(entries: seq<InstitutionWithDomains>, i: nat, j: nat)
    requires i < |entries| && j < |entries[i].blocked_domains|
    ensures 1 + TotalDomains(entries[..i]) + j < |CsvRows(entries)|
    ensures CsvRows(entries)[1 + TotalDomains(entries[..i]) + j] == DomainRow(entries[i].blocked_domains[j], entries[i].institution)
  {
    DataRowAt(entries, i, j);
    var rows := DataRows(entries);
    var k := TotalDomains(entries[..i]) + j;
    assert CsvRows(entries) == [Header] + rows;
    assert ([Header] + rows)[1 + k] == rows[k];
  }

  /** `write_csv_file` as the source writes it: the header, then a nested
      loop over institutions and their domains, one row per step. The rows
      written are exactly `CsvRows`. */
  method WriteCsvRows(entries: seq<InstitutionWithDomains>) returns (rows: seq<seq<string>>)
    ensures rows == CsvRows(entries)
  {
    rows := [Header];
    var i := 0;
    while i < |entries|
      invariant i <= |entries|
      invariant rows == [Header] + DataRows(entries[..i])
    {
      var entry := entries[i];
      var j := 0;
      while j < |entry.blocked_domains|
        invariant j <= |entry.blocked_domains|
        invariant rows == [Header] + DataRows(entries[..i]) + InstitutionRows(entry)[..j]
      {
        rows := rows + [DomainRow(entry.blocked_domains[j], entry.institution)];
        assert InstitutionRows(entry)[..j + 1] == InstitutionRows(entry)[..j] + [InstitutionRows(entry)[j]];
        j := j + 1;
      }
      assert InstitutionRows(entry)[..j] == InstitutionRows(entry);
      assert entries[..i + 1][..i] == entries[..i];
      assert DataRows(entries[..i + 1]) == DataRows(entries[..i]) + InstitutionRows(entry);
      i := i + 1;
    }
    assert entries[..i] == entries;
  }
}
