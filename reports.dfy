/** The reporting endpoints of the cell-cycle data controller: the gene-name
    listing and the three flat-file readers (KEGG pathway table, hallmark
    annotations, miRNA word-cloud counts). A resource is the sequence of
    lines its reader hands out; the first line is the header, every later
    line is a record split on tabs the way Java's `String.split` does. */
module CellCycleReports {
  import opened TextUtil
  import opened Seqs
  import opened JavaText

  /** A text resource as its reader delivers it: the lines read, and whether
      the next read then throws an `IOException`. A resource that cannot be
      opened is `Stream([], true)`. */
  datatype Stream = Stream(lines: seq<string>, fails: bool)

  /** What an endpoint sends back: status 200 with a body, or status 500
      with a fixed message. */
  datatype Response<T> = Ok(body: T) | ServerError(message: string) {
    function Status(): int {
      if Ok? then 200 else 500
    }
  }

  const KeggErrorMessage: string := "Error reading KEGG pathway data"
  const HallmarkErrorMessage: string := "Error reading hallmark cell data"
  const WordcloudErrorMessage: string := "Error reading miRNA-gene wordcloud data"

  /** One row of the cell-cycle gene table as the data-access layer returns it. */
  datatype CellCycleGene = CellCycleGene(
    geneSymbol: string, description: string, category: string, species: string,
    geneId: string, relatedGeneSymbol: string, uniProtId: string,
    articleTitle: string, pmid: string, yearOfPublication: string,
    studyMethod: string, stage: string)

  // ================================================================ gene names

  /** The gene-symbol column of the rows, index for index, in a new array. */
  method GetAllGeneName(rows: seq<CellCycleGene>) returns (gene: array<string>)
    ensures fresh(gene)
    ensures gene.Length == |rows|
    ensures forall i | 0 <= i < |rows| :: gene[i] == rows[i].geneSymbol
  {
    gene := new string[|rows|];
    var i := 0;
    while i < |rows|
      invariant 0 <= i <= |rows|
      invariant forall k | 0 <= k < i :: gene[k] == rows[k].geneSymbol
    {
      gene[i] := rows[i].geneSymbol;
      i := i + 1;
    }
  }

  // ================================================================ common

  function Min(a: int, b: int): int {
    if a <= b then a else b
  }

  /** The record lines: every line after the header. */
  function DataLines(lines: seq<string>): seq<string> {
    if |lines| == 0 then [] else lines[1..]
  }

  /** The two-column readers skip a record line with fewer than two fields. */
  predicate HasTwoFields(line: string) {
    |Split(line)| >= 2
  }

  /** The record lines the two-column readers use, in file order. */
  function TwoFieldLines(lines: seq<string>): seq<string> {
    Filter(DataLines(lines), HasTwoFields)
  }

  /** Taking one more line adds its entry, if any, at the end. */
  lemma TwoFieldLinesStep(lines: seq<string>, i: nat)
    requires 1 <= i < |lines|
    ensures TwoFieldLines(lines[..i + 1])
         == TwoFieldLines(lines[..i]) + (if HasTwoFields(lines[i]) then [lines[i]] else [])
  {
    assert DataLines(lines[..i + 1]) == DataLines(lines[..i]) + [lines[i]];
    assert DataLines(lines[..i + 1])[..|DataLines(lines[..i + 1])| - 1] == DataLines(lines[..i]);
  }

  // ================================================================ KEGG pathway

  /** The map `HashMap.put` builds from the first `n` header/value pairs:
      a later column overwrites an earlier one with the same header. */
  function RowMap(headers: seq<string>, values: seq<string>, n: nat): map<string, string>
    requires n <= |headers| && n <= |values|
  {
    if n == 0 then map[] else RowMap(headers, values, n - 1)[headers[n - 1] := values[n - 1]]
  }

  /** One pathway row: header i paired with value i for every i below both
      lengths. */
  function PathwayRow(headers: seq<string>, values: seq<string>): map<string, string> {
    RowMap(headers, values, Min(|headers|, |values|))
  }

  /** The KEGG listing: one row per line after the header, in file order. */
  function KeggRows(lines: seq<string>): (rows: seq<map<string, string>>)
    ensures |rows| == |DataLines(lines)|
  {
    var data := DataLines(lines);
    seq(|data|, k requires 0 <= k < |data| => PathwayRow(Split(lines[0]), Split(data[k])))
  }

  lemma KeggRowsStep(lines: seq<string>, i: nat)
    requires 1 <= i < |lines|
    ensures KeggRows(lines[..i + 1]) == KeggRows(lines[..i]) + [PathwayRow(Split(lines[0]), Split(lines[i]))]
  {
    assert lines[..i + 1][0] == lines[0] && lines[..i][0] == lines[0];
    assert DataLines(lines[..i + 1]) == DataLines(lines[..i]) + [lines[i]];
  }

  /** The inner loop of `getKEGGPathway`: `row.put(headers[j], values[j])`
      while both lines have a column `j`. */
  method BuildPathwayRow(headers: seq<string>, values: seq<string>) returns (row: map<string, string>)
    ensures row == PathwayRow(headers, values)
  {
    row := map[];
    var j := 0;
    while j < |headers| && j < |values|
      invariant 0 <= j <= Min(|headers|, |values|)
      invariant row == RowMap(headers, values, j)
    {
      row := row[headers[j] := values[j]];
      j := j + 1;
    }
  }

  /** `getKEGGPathway`: the first line read becomes the header; each later
      line becomes a header-to-value map. An I/O failure gives status 500 and
      no rows. */
  method GetKeggPathway(resource: Stream) returns (response: Response<seq<map<string, string>>>)
    ensures response == if resource.fails then ServerError(KeggErrorMessage)
                        else Ok(KeggRows(resource.lines))
  {
    var lines := resource.lines;
    var results: seq<map<string, string>> := [];
    var headers: Option<seq<string>> := None;
    var i := 0;
    while i < |lines|
      invariant 0 <= i <= |lines|
      invariant headers.None? <==> i == 0
      invariant i > 0 ==> headers == Some(Split(lines[0]))
      invariant results == KeggRows(lines[..i])
    {
      var values := Split(lines[i]);
      if headers.None? {
        headers := Some(values);
        assert KeggRows(lines[..1]) == [];
      } else {
        var row := BuildPathwayRow(headers.value, values);
        KeggRowsStep(lines, i);
        results := results + [row];
      }
      i := i + 1;
    }
    assert lines[..|lines|] == lines;
    if resource.fails {
      response := ServerError(KeggErrorMessage);
    } else {
      response := Ok(results);
    }
  }

  /** A pathway row has exactly the headers of the columns both lines have,
      and each maps to the value of the LAST such column with that header. */
  lemma {:induction false} RowMapMeaning(headers: seq<string>, values: seq<string>, n: nat)
    requires n <= |headers| && n <= |values|
    ensures forall key :: key in RowMap(headers, values, n) <==>
              exists i | 0 <= i < n :: headers[i] == key
    ensures forall i | 0 <= i < n ::
              (forall j | i < j < n :: headers[j] != headers[i]) ==>
                RowMap(headers, values, n)[headers[i]] == values[i]
  {
    if n > 0 {
      RowMapMeaning(headers, values, n - 1);
    }
  }

  /** Short rows lose keys, long rows lose values: a row's keys are headers of
      columns it has, and with distinct headers it has one key per such
      column. */
  lemma PathwayRowKeys(headers: seq<string>, values: seq<string>)
    ensures PathwayRow(headers, values).Keys <= set h | h in headers
    ensures (forall i, j | 0 <= i < j < |headers| :: headers[i] != headers[j]) ==>
              |PathwayRow(headers, values)| == Min(|headers|, |values|)
  {
    var n := Min(|headers|, |values|);
    RowMapMeaning(headers, values, n);
    if forall i, j | 0 <= i < j < |headers| :: headers[i] != headers[j] {
      DistinctRowMapSize(headers, values, n);
    }
  }

  lemma {:induction false} DistinctRowMapSize(headers: seq<string>, values: seq<string>, n: nat)
    requires n <= |headers| && n <= |values|
    requires forall i, j | 0 <= i < j < |headers| :: headers[i] != headers[j]
    ensures |RowMap(headers, values, n)| == n
  {
    if n > 0 {
      DistinctRowMapSize(headers, values, n - 1);
      RowMapMeaning(headers, values, n - 1);
      assert headers[n - 1] !in RowMap(headers, values, n - 1);
    }
  }

  /** A header `a b c` over a record `x y`: one row {a: x, b: y}, nothing
      for `c`; when `a == b` the second column's value wins. */
  lemma KeggShortRow(a: string, b: string, c: string, x: string, y: string)
    requires Tab !in a && Tab !in b && Tab !in c && Tab !in x && Tab !in y
    requires |c| > 0 && |y| > 0
    ensures KeggRows([a + [Tab] + b + [Tab] + c, x + [Tab] + y]) == [map[a := x, b := y]]
  {
    var header := a + [Tab] + b + [Tab] + c;
    assert header == a + [Tab] + (b + [Tab] + c);
    FieldsCons(a, b + [Tab] + c);
    FieldsCons(b, c);
    FieldsNoTab(c);
    assert Tab in header by { assert header[|a|] == Tab; }
    assert Split(header) == [a, b, c];
    SplitTwo(x, y);
    assert RowMap([a, b, c], [x, y], 1) == map[a := x];
    assert PathwayRow([a, b, c], [x, y]) == map[a := x, b := y];
    var lines := [header, x + [Tab] + y];
    assert DataLines(lines) == [x + [Tab] + y];
    assert KeggRows(lines)[0] == PathwayRow(Split(header), Split(x + [Tab] + y));
  }

  // ================================================================ hallmarks

  datatype GeneHallmark = GeneHallmark(gene: string, hallmark: string)

  /** One result of the hallmark endpoint. */
  datatype HallmarkSummary = HallmarkSummary(gene: string, hallmarks: seq<string>, count: int)

  /** Columns 0 and 1 of a record line; later columns are not read. */
  function RecordOf(line: string): GeneHallmark
    requires HasTwoFields(line)
  {
    var fields := Split(line);
    GeneHallmark(fields[0], fields[1])
  }

  /** The (gene, hallmark) records of the given record lines, one per line
      with two fields or more, in file order. */
  function RecordsOf(data: seq<string>): seq<GeneHallmark> {
    if |data| == 0 then []
    else
      var last := data[|data| - 1];
      RecordsOf(data[..|data| - 1]) + (if HasTwoFields(last) then [RecordOf(last)] else [])
  }

  /** The records of a hallmark file: those of the lines after the header. */
  function HallmarkRecords(lines: seq<string>): seq<GeneHallmark> {
    RecordsOf(DataLines(lines))
  }

  /** The records are the two-field record lines, each read as a record. */
  lemma {:induction false} RecordsOfFiltered(data: seq<string>)
    ensures var t := Filter(data, HasTwoFields);
            RecordsOf(data) == seq(|t|, k requires 0 <= k < |t| => RecordOf(t[k]))
  {
    if |data| > 0 {
      RecordsOfFiltered(data[..|data| - 1]);
    }
  }

  /** The hallmark column of `gene`'s records, in file order, duplicates kept. */
  function HallmarksOf(records: seq<GeneHallmark>, gene: string): seq<string> {
    if |records| == 0 then []
    else
      var last := records[|records| - 1];
      HallmarksOf(records[..|records| - 1], gene) + (if last.gene == gene then [last.hallmark] else [])
  }

  /** How many records belong to `gene`. */
  function CountOf(records: seq<GeneHallmark>, gene: string): nat {
    if |records| == 0 then 0
    else CountOf(records[..|records| - 1], gene) + (if records[|records| - 1].gene == gene then 1 else 0)
  }

  function GenesOf(records: seq<GeneHallmark>): set<string> {
    set r | r in records :: r.gene
  }

  function SummaryFor(records: seq<GeneHallmark>, gene: string): HallmarkSummary {
    HallmarkSummary(gene, HallmarksOf(records, gene), CountOf(records, gene))
  }

  function SummariesOf(records: seq<GeneHallmark>): set<HallmarkSummary> {
    set g | g in GenesOf(records) :: SummaryFor(records, g)
  }

  /** The hallmark report: one summary per gene, in no particular order. */
  function HallmarkSummaries(lines: seq<string>): set<HallmarkSummary> {
    SummariesOf(HallmarkRecords(lines))
  }

  lemma SummariesMembership(records: seq<GeneHallmark>)
    ensures forall s: HallmarkSummary :: s in SummariesOf(records) <==>
              s.gene in GenesOf(records) && s == SummaryFor(records, s.gene)
  {
    forall s: HallmarkSummary | s.gene in GenesOf(records) && s == SummaryFor(records, s.gene)
      ensures s in SummariesOf(records)
    {
    }
  }

  lemma HallmarkRecordsStep(lines: seq<string>, i: nat)
    requires 1 <= i < |lines|
    ensures HallmarkRecords(lines[..i + 1])
         == HallmarkRecords(lines[..i]) + (if HasTwoFields(lines[i]) then [RecordOf(lines[i])] else [])
  {
    var data := DataLines(lines[..i + 1]);
    assert data[..|data| - 1] == DataLines(lines[..i]);
    assert data[|data| - 1] == lines[i];
  }

  /** The two maps the reader keeps agree with the records read so far. */
  predicate Tracks(hallmarkMap: map<string, seq<string>>, countMap: map<string, int>, records: seq<GeneHallmark>) {
    && hallmarkMap.Keys == GenesOf(records)
    && countMap.Keys == hallmarkMap.Keys
    && forall g | g in hallmarkMap ::
         hallmarkMap[g] == HallmarksOf(records, g) && countMap[g] == CountOf(records, g)
  }

  /** One record added to both maps, the way the reader adds it. */
  lemma TracksStep(hallmarkMap: map<string, seq<string>>, countMap: map<string, int>,
                   records: seq<GeneHallmark>, gene: string, hallmark: string)
    requires Tracks(hallmarkMap, countMap, records)
    ensures var counts := countMap[gene := (if gene in countMap then countMap[gene] else 0) + 1];
            var lists := if gene !in hallmarkMap then hallmarkMap[gene := []] else hallmarkMap;
            Tracks(lists[gene := lists[gene] + [hallmark]], counts, records + [GeneHallmark(gene, hallmark)])
  {
    var r := GeneHallmark(gene, hallmark);
    RecordStep(records, r, gene);
    if gene !in GenesOf(records) {
      AbsentGene(records, gene);
    }
    var counts := countMap[gene := (if gene in countMap then countMap[gene] else 0) + 1];
    var lists := if gene !in hallmarkMap then hallmarkMap[gene := []] else hallmarkMap;
    var final := lists[gene := lists[gene] + [hallmark]];
    assert final.Keys == hallmarkMap.Keys + {gene};
    assert counts.Keys == countMap.Keys + {gene};
    forall g | g in final
      ensures final[g] == HallmarksOf(records + [r], g) && counts[g] == CountOf(records + [r], g)
    {
      RecordStep(records, r, g);
    }
  }

  /** One more record: it adds to its own gene's list and count only. */
  lemma RecordStep(records: seq<GeneHallmark>, r: GeneHallmark, g: string)
    ensures HallmarksOf(records + [r], g) == HallmarksOf(records, g) + (if r.gene == g then [r.hallmark] else [])
    ensures CountOf(records + [r], g) == CountOf(records, g) + (if r.gene == g then 1 else 0)
    ensures GenesOf(records + [r]) == GenesOf(records) + {r.gene}
  {
    var after := records + [r];
    assert after[..|after| - 1] == records;
    assert after[|after| - 1] == r;
  }

  /** Emitting one summary per key of agreeing maps gives the report. */
  lemma TracksSummaries(hallmarkMap: map<string, seq<string>>, countMap: map<string, int>, records: seq<GeneHallmark>)
    requires Tracks(hallmarkMap, countMap, records)
    ensures (set g | g in hallmarkMap.Keys :: HallmarkSummary(g, hallmarkMap[g], countMap[g])) == SummariesOf(records)
  {
  }

  /** `getHallmarkCellData`: count and collect each gene's hallmarks in two
      maps while reading, then emit one summary per key of the hallmark map.
      An I/O failure gives status 500 and no summaries. */
  method GetHallmarkCellData(resource: Stream) returns (response: Response<set<HallmarkSummary>>)
    ensures response == if resource.fails then ServerError(HallmarkErrorMessage)
                        else Ok(HallmarkSummaries(resource.lines))
  {
    var lines := resource.lines;
    var geneHallmarkMap: map<string, seq<string>> := map[];
    var geneCountMap: map<string, int> := map[];
    var headers: Option<seq<string>> := None;
    ghost var records: seq<GeneHallmark> := [];
    var i := 0;
    while i < |lines|
      invariant 0 <= i <= |lines|
      invariant headers.None? <==> i == 0
      invariant records == HallmarkRecords(lines[..i])
      invariant Tracks(geneHallmarkMap, geneCountMap, records)
    {
      var values := Split(lines[i]);
      if headers.None? {
        headers := Some(values);
        assert HallmarkRecords(lines[..1]) == [];
      } else {
        HallmarkRecordsStep(lines, i);
        if |values| >= 2 {
          var gene := values[0];
          var hallmark := values[1];
          assert RecordOf(lines[i]) == GeneHallmark(gene, hallmark);
          assert HallmarkRecords(lines[..i + 1]) == records + [GeneHallmark(gene, hallmark)];
          TracksStep(geneHallmarkMap, geneCountMap, records, gene, hallmark);
          geneCountMap := geneCountMap[gene := (if gene in geneCountMap then geneCountMap[gene] else 0) + 1];
          if gene !in geneHallmarkMap {
            geneHallmarkMap := geneHallmarkMap[gene := []];
          }
          geneHallmarkMap := geneHallmarkMap[gene := geneHallmarkMap[gene] + [hallmark]];
          records := records + [GeneHallmark(gene, hallmark)];
        } else {
          assert HallmarkRecords(lines[..i + 1]) == records;
        }
      }
      i := i + 1;
    }
    assert lines[..|lines|] == lines;
    if resource.fails {
      response := ServerError(HallmarkErrorMessage);
      return;
    }
    TracksSummaries(geneHallmarkMap, geneCountMap, records);
    var results: set<HallmarkSummary> := {};
    var remaining := geneHallmarkMap.Keys;
    while remaining != {}
      invariant remaining <= geneHallmarkMap.Keys
      invariant results == set g | g in geneHallmarkMap.Keys - remaining ::
                  HallmarkSummary(g, geneHallmarkMap[g], geneCountMap[g])
      decreases remaining
    {
      var gene :| gene in remaining;
      results := results + {HallmarkSummary(gene, geneHallmarkMap[gene], geneCountMap[gene])};
      remaining := remaining - {gene};
    }
    assert geneHallmarkMap.Keys - remaining == geneHallmarkMap.Keys;
    response := Ok(results);
  }

  lemma {:induction false} AbsentGene(records: seq<GeneHallmark>, gene: string)
    requires gene !in GenesOf(records)
    ensures HallmarksOf(records, gene) == [] && CountOf(records, gene) == 0
  {
    if |records| > 0 {
      AbsentGene(records[..|records| - 1], gene);
    }
  }

  /** A gene's count is the length of its hallmark list: duplicates are
      counted, not merged. */
  lemma {:induction false} CountIsLength(records: seq<GeneHallmark>, gene: string)
    ensures CountOf(records, gene) == |HallmarksOf(records, gene)|
  {
    if |records| > 0 {
      CountIsLength(records[..|records| - 1], gene);
    }
  }

  /** Every summary's count equals the length of its hallmark list, and each
      gene has exactly one summary. */
  lemma SummaryShape(lines: seq<string>)
    ensures forall s | s in HallmarkSummaries(lines) :: s.count == |s.hallmarks|
    ensures forall s, t | s in HallmarkSummaries(lines) && t in HallmarkSummaries(lines) ::
              s.gene == t.gene ==> s == t
    ensures forall g :: g in GenesOf(HallmarkRecords(lines)) <==>
              exists s | s in HallmarkSummaries(lines) :: s.gene == g
  {
    var records := HallmarkRecords(lines);
    SummariesMembership(records);
    forall s | s in HallmarkSummaries(lines) ensures s.count == |s.hallmarks| {
      CountIsLength(records, s.gene);
    }
    forall g | g in GenesOf(records) ensures exists s | s in HallmarkSummaries(lines) :: s.gene == g {
      assert SummaryFor(records, g) in HallmarkSummaries(lines);
    }
  }

  /** The sum of the counts over a set of summaries. */
  ghost function TotalCount(s: set<HallmarkSummary>): int
    decreases s
  {
    if s == {} then 0 else var x :| x in s; x.count + TotalCount(s - {x})
  }

  /** The sum does not depend on which summary is taken first. */
  lemma {:induction false} TotalCountRemove(s: set<HallmarkSummary>, x: HallmarkSummary)
    requires x in s
    ensures TotalCount(s) == x.count + TotalCount(s - {x})
    decreases s
  {
    var y :| y in s && TotalCount(s) == y.count + TotalCount(s - {y});
    if y != x {
      TotalCountRemove(s - {y}, x);
      TotalCountRemove(s - {x}, y);
      assert s - {y} - {x} == s - {x} - {y};
    }
  }

  /** Across all summaries the counts add up to the number of records, that
      is, to the number of record lines with two fields or more. */
  lemma HallmarkTotal(lines: seq<string>)
    ensures TotalCount(HallmarkSummaries(lines)) == |TwoFieldLines(lines)|
  {
    SummariesTotal(HallmarkRecords(lines));
    RecordsOfFiltered(DataLines(lines));
  }

  lemma {:induction false} SummariesTotal(records: seq<GeneHallmark>)
    ensures TotalCount(SummariesOf(records)) == |records|
  {
    if |records| == 0 {
      assert SummariesOf(records) == {};
    } else {
      var before := records[..|records| - 1];
      var g := records[|records| - 1].gene;
      SummariesTotal(before);
      var current := SummaryFor(records, g);
      SummariesOtherGenes(records);
      TotalCountRemove(SummariesOf(records), current);
      if g in GenesOf(before) {
        TotalCountRemove(SummariesOf(before), SummaryFor(before, g));
      } else {
        AbsentGene(before, g);
        assert SummariesOf(before) - {SummaryFor(before, g)} == SummariesOf(before);
      }
    }
  }

  /** Adding a record for gene g replaces g's summary (or adds one) and keeps
      every other gene's summary. */
  lemma SummariesOtherGenes(records: seq<GeneHallmark>)
    requires |records| > 0
    ensures var before := records[..|records| - 1];
            var g := records[|records| - 1].gene;
            && SummaryFor(records, g) in SummariesOf(records)
            && (g in GenesOf(before) <==> SummaryFor(before, g) in SummariesOf(before))
            && SummariesOf(records) - {SummaryFor(records, g)}
               == SummariesOf(before) - {SummaryFor(before, g)}
  {
    var before := records[..|records| - 1];
    var g := records[|records| - 1].gene;
    SummariesMembership(records);
    SummariesMembership(before);
    assert GenesOf(records) == GenesOf(before) + {g};
    if g !in GenesOf(before) {
      assert SummaryFor(before, g) !in SummariesOf(before);
    }
  }

  /** A gene listed twice with the same hallmark keeps both copies and a
      count of 2; another gene listed once has its own summary. */
  lemma HallmarkRepeated(header: string, g1: string, h1: string, g2: string, h2: string)
    requires Tab !in g1 && Tab !in h1 && Tab !in g2 && Tab !in h2
    requires |h1| > 0 && |h2| > 0 && g1 != g2
    ensures HallmarkSummaries([header, g1 + [Tab] + h1, g1 + [Tab] + h1, g2 + [Tab] + h2])
         == {HallmarkSummary(g1, [h1, h1], 2), HallmarkSummary(g2, [h2], 1)}
  {
    var l1 := g1 + [Tab] + h1;
    var l2 := g2 + [Tab] + h2;
    SplitTwo(g1, h1);
    SplitTwo(g2, h2);
    var r1 := GeneHallmark(g1, h1);
    var r2 := GeneHallmark(g2, h2);
    var data := DataLines([header, l1, l1, l2]);
    assert data == [l1, l1, l2];
    assert data[..2] == [l1, l1] && data[..2][..1] == [l1] && data[..2][..1][..0] == [];
    assert RecordOf(l1) == r1 && RecordOf(l2) == r2;
    assert RecordsOf([l1]) == [r1];
    assert RecordsOf([l1, l1]) == [r1, r1] by { assert [l1, l1][..1] == [l1]; }
    assert RecordsOf(data) == [r1, r1, r2];
    RepeatedSummaries(r1, r2);
  }

  lemma RepeatedSummaries(r1: GeneHallmark, r2: GeneHallmark)
    requires r1.gene != r2.gene
    ensures SummariesOf([r1, r1, r2])
         == {HallmarkSummary(r1.gene, [r1.hallmark, r1.hallmark], 2), HallmarkSummary(r2.gene, [r2.hallmark], 1)}
  {
    var records := [r1, r1, r2];
    var (g1, g2) := (r1.gene, r2.gene);
    assert records[..2] == [r1, r1] && [r1, r1][..1] == [r1] && [r1][..0] == [];
    assert GenesOf(records) == {g1, g2};
    assert HallmarksOf([r1], g1) == [r1.hallmark] && CountOf([r1], g1) == 1 by {
      assert HallmarksOf([], g1) == [] && CountOf([], g1) == 0;
    }
    assert HallmarksOf([r1, r1], g1) == [r1.hallmark, r1.hallmark] && CountOf([r1, r1], g1) == 2;
    assert GenesOf([r1, r1]) == {g1};
    AbsentGene([r1, r1], g2);
    SummariesMembership(records);
  }

  // ================================================================ word cloud

  datatype FrequencyEntry = FrequencyEntry(name: string, value: int)

  /** `Integer.parseInt` of the count column, or 0 when it throws. */
  function CountValue(text: string): (v: int)
    ensures InInt32(v)
  {
    match ParseInt(text)
    case Some(n) => n
    case None => 0
  }

  function EntryOf(line: string): FrequencyEntry
    requires HasTwoFields(line)
  {
    var fields := Split(line);
    FrequencyEntry(fields[0], CountValue(fields[1]))
  }

  /** The word-cloud entries of the given record lines: one per line with two
      fields or more, in file order. */
  function EntriesOf(data: seq<string>): seq<FrequencyEntry> {
    if |data| == 0 then []
    else
      var last := data[|data| - 1];
      EntriesOf(data[..|data| - 1]) + (if HasTwoFields(last) then [EntryOf(last)] else [])
  }

  /** The word-cloud list of a file: the entries of the lines after the header. */
  function Frequencies(lines: seq<string>): seq<FrequencyEntry> {
    EntriesOf(DataLines(lines))
  }

  /** The entries are the two-field record lines, each read as an entry. */
  lemma {:induction false} EntriesOfFiltered(data: seq<string>)
    ensures var t := Filter(data, HasTwoFields);
            EntriesOf(data) == seq(|t|, k requires 0 <= k < |t| => EntryOf(t[k]))
  {
    if |data| > 0 {
      EntriesOfFiltered(data[..|data| - 1]);
    }
  }

  lemma FrequenciesStep(lines: seq<string>, i: nat)
    requires 1 <= i < |lines|
    ensures Frequencies(lines[..i + 1])
         == Frequencies(lines[..i]) + (if HasTwoFields(lines[i]) then [EntryOf(lines[i])] else [])
  {
    var data := DataLines(lines[..i + 1]);
    assert data[..|data| - 1] == DataLines(lines[..i]);
    assert data[|data| - 1] == lines[i];
  }

  /** `getMirnaGeneWordcloud`: a name and a parsed count per line; a count
      that does not parse becomes 0 and reading goes on. An I/O failure gives
      status 500 and no entries. */
  method GetMirnaGeneWordcloud(resource: Stream) returns (response: Response<seq<FrequencyEntry>>)
    ensures response == if resource.fails then ServerError(WordcloudErrorMessage)
                        else Ok(Frequencies(resource.lines))
  {
    var lines := resource.lines;
    var results: seq<FrequencyEntry> := [];
    var headers: Option<seq<string>> := None;
    var i := 0;
    while i < |lines|
      invariant 0 <= i <= |lines|
      invariant headers.None? <==> i == 0
      invariant results == Frequencies(lines[..i])
    {
      var values := Split(lines[i]);
      if headers.None? {
        headers := Some(values);
        assert Frequencies(lines[..1]) == [];
      } else {
        FrequenciesStep(lines, i);
        if |values| >= 2 {
          var value: int;
          match ParseInt(values[1]) {
            case Some(n) => value := n;
            case None => value := 0;
          }
          assert EntryOf(lines[i]) == FrequencyEntry(values[0], value);
          results := results + [FrequencyEntry(values[0], value)];
        }
      }
      i := i + 1;
    }
    assert lines[..|lines|] == lines;
    if resource.fails {
      response := ServerError(WordcloudErrorMessage);
    } else {
      response := Ok(results);
    }
  }

  /** A count written as a 32-bit decimal is read as that number; a decimal
      outside the 32-bit range reads as 0. */
  lemma CountValueDecimal(n: int)
    ensures CountValue(IntDecimal(n)) == if InInt32(n) then n else 0
  {
    ParseIntDecimal(n);
  }

  /** A count column written as a 32-bit decimal is read as that number, one
      that does not parse (a word, say) as 0, and the entry is kept. */
  lemma WordcloudCounts(header: string, a: string, n: int, b: string, w: string)
    requires Tab !in a && Tab !in b && Tab !in w && |w| > 0
    requires InInt32(n) && ParseInt(w).None?
    ensures Frequencies([header, a + [Tab] + IntDecimal(n), b + [Tab] + w])
         == [FrequencyEntry(a, n), FrequencyEntry(b, 0)]
  {
    var d := IntDecimal(n);
    assert Tab !in d by {
      if n < 0 { assert d == "-" + NatDecimal(-n); }
      assert forall k | 0 <= k < |d| :: d[k] == '-' || IsDigit(d[k]);
    }
    assert |d| > 0;
    SplitTwo(a, d);
    SplitTwo(b, w);
    ParseIntDecimal(n);
    var l1 := a + [Tab] + d;
    var l2 := b + [Tab] + w;
    var data := DataLines([header, l1, l2]);
    assert data == [l1, l2];
    assert EntryOf(l1) == FrequencyEntry(a, n) && EntryOf(l2) == FrequencyEntry(b, 0);
    assert EntriesOf([l1]) == [FrequencyEntry(a, n)];
    assert data[..1] == [l1];
  }
}
