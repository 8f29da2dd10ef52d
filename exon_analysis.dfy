/** The consistency checks the data analyser runs over the exon table: the
    rows that repeat an earlier row, and, gene by gene, the neighbouring
    exons (in order of start coordinate) whose ranges overlap. */
module ExonAnalysis {
  import opened Seqs

  /** One row of the exon table: the gene name (`None` for a missing cell),
      the exon's identifier, its chromosome coordinates, and the remaining
      columns, which only the duplicate check looks at. */
  datatype ExonRow = ExonRow(gene: Option<string>, exonId: string, start: int, end: int, other: seq<string>)

  function GeneColumn(rows: seq<ExonRow>): (r: seq<Option<string>>)
    ensures |r| == |rows|
    ensures forall i | 0 <= i < |rows| :: r[i] == rows[i].gene
  {
    seq(|rows|, i requires 0 <= i < |rows| => rows[i].gene)
  }

  /** The number of genes the analyser reports: the distinct values of the
      gene column, a missing name counting as one value. */
  function GeneCount(rows: seq<ExonRow>): nat {
    |Unique(GeneColumn(rows))|
  }

  /** A sequence without repeats has as many elements as its set. */
  lemma {:induction false} DistinctCard(s: seq<Option<string>>)
    requires forall i, j | 0 <= i < j < |s| :: s[i] != s[j]
    ensures |set x | x in s| == |s|
  {
    if |s| > 0 {
      var init := s[..|s| - 1];
      DistinctCard(init);
      assert s == init + [s[|s| - 1]];
      assert s[|s| - 1] !in init by {
        forall k | 0 <= k < |init| ensures init[k] != s[|s| - 1] {
          assert init[k] == s[k];
        }
      }
      assert (set x | x in s) == (set x | x in init) + {s[|s| - 1]};
    }
  }

  /** The gene count is the number of distinct gene cells, and at most the
      number of rows. */
  lemma GeneCountMeaning(rows: seq<ExonRow>)
    ensures GeneCount(rows) == |set x | x in GeneColumn(rows)|
    ensures GeneCount(rows) <= |rows|
  {
    var u := Unique(GeneColumn(rows));
    DistinctCard(u);
    assert (set x | x in u) == (set x | x in GeneColumn(rows));
    SetOfSeqBound(GeneColumn(rows));
  }

  /** A set built from a sequence is no larger than it. */
  lemma {:induction false} SetOfSeqBound(s: seq<Option<string>>)
    ensures |set x | x in s| <= |s|
  {
    if |s| > 0 {
      var init := s[..|s| - 1];
      SetOfSeqBound(init);
      assert s == init + [s[|s| - 1]];
      assert (set x | x in s) == (set x | x in init) + {s[|s| - 1]};
    }
  }

  // ---------------------------------------------------------------- duplicated()

  /** `df[df.duplicated()]` with the default `keep='first'`: every row that
      is equal, in every column, to some earlier row, in table order. */
  function Duplicates(rows: seq<ExonRow>): (r: seq<ExonRow>)
    ensures |r| <= |rows|
  {
    if |rows| == 0 then []
    else
      var init := rows[..|rows| - 1];
      Duplicates(init) + (if rows[|rows| - 1] in init then [rows[|rows| - 1]] else [])
  }

  /** Each row value is reported once for every copy after its first: the
      first occurrence is never reported. */
  lemma {:induction false} DuplicatesCount(rows: seq<ExonRow>)
    ensures forall x :: multiset(Duplicates(rows))[x] == if x in rows then multiset(rows)[x] - 1 else 0
  {
    if |rows| > 0 {
      var init := rows[..|rows| - 1];
      var last := rows[|rows| - 1];
      DuplicatesCount(init);
      assert rows == init + [last];
      assert multiset(rows) == multiset(init) + multiset{last};
      forall x
        ensures multiset(Duplicates(rows))[x] == if x in rows then multiset(rows)[x] - 1 else 0
      {
        if x == last && last !in init {
          assert multiset(init)[x] == 0;
        }
      }
    }
  }

  /** `idx` lists, in increasing order, exactly the positions whose row
      repeats an earlier row, and picks the reported rows out of the table. */
  ghost predicate RepeatPositions(rows: seq<ExonRow>, idx: seq<int>) {
    && SubsequenceBy(Duplicates(rows), rows, idx)
    && (forall i | 0 <= i < |rows| :: i in idx <==> rows[i] in rows[..i])
  }

  /** The report is the table's repeating rows in table order: a row is
      reported exactly at the positions where it repeats an earlier row. */
  lemma {:induction false} DuplicatesInOrder(rows: seq<ExonRow>)
    ensures exists idx :: RepeatPositions(rows, idx)
    ensures IsSubsequence(Duplicates(rows), rows)
  {
    if |rows| == 0 {
      assert RepeatPositions(rows, []);
    } else {
      var init := rows[..|rows| - 1];
      DuplicatesInOrder(init);
      var idx0 :| RepeatPositions(init, idx0);
      var idx := RepeatPositionsStep(rows, idx0);
      assert SubsequenceBy(Duplicates(rows), rows, idx);
    }
  }

  /** One more row: its position joins the list exactly when it repeats. */
  lemma RepeatPositionsStep(rows: seq<ExonRow>, idx0: seq<int>) returns (idx: seq<int>)
    requires |rows| > 0 && RepeatPositions(rows[..|rows| - 1], idx0)
    ensures RepeatPositions(rows, idx)
  {
    var init, last := rows[..|rows| - 1], rows[|rows| - 1];
    assert rows == init + [last];
    SubsequenceExtend(Duplicates(init), init, idx0, last);
    var tail := if last in init then [|init|] else [];
    idx := idx0 + tail;
    assert forall k | 0 <= k < |idx0| :: idx0[k] < |init|;
    forall i | 0 <= i < |rows|
      ensures i in idx <==> rows[i] in rows[..i]
    {
      if i < |init| {
        assert rows[..i] == init[..i] && rows[i] == init[i];
        assert i in idx <==> i in idx0;
      } else {
        assert rows[..i] == init;
        assert i in idx <==> i in tail;
      }
    }
  }

  predicate Distinct(rows: seq<ExonRow>) {
    forall i, j | 0 <= i < j < |rows| :: rows[i] != rows[j]
  }

  /** Nothing is reported exactly when no two rows are equal. */
  lemma {:induction false} NoDuplicates(rows: seq<ExonRow>)
    ensures Duplicates(rows) == [] <==> Distinct(rows)
  {
    if |rows| > 0 {
      var init := rows[..|rows| - 1];
      var last := rows[|rows| - 1];
      NoDuplicates(init);
      if Distinct(rows) {
        assert Distinct(init) by {
          forall i, j | 0 <= i < j < |init| ensures init[i] != init[j] {
            assert init[i] == rows[i] && init[j] == rows[j];
          }
        }
        assert last !in init by {
          forall k | 0 <= k < |init| ensures init[k] != last {
            assert init[k] == rows[k];
          }
        }
      }
      if Duplicates(rows) == [] {
        assert |Duplicates(init)| == 0;
        assert last !in init;
        forall i, j | 0 <= i < j < |rows| ensures rows[i] != rows[j] {
          assert rows[i] == init[i];
          if j < |rows| - 1 {
            assert rows[j] == init[j];
          }
        }
      }
    }
  }

  // ---------------------------------------------------------------- sort_values

  predicate SortedByStart(s: seq<ExonRow>) {
    forall i, j | 0 <= i < j < |s| :: s[i].start <= s[j].start
  }

  /** `x` placed after every element whose start does not exceed its own. */
  function InsertByStart(x: ExonRow, s: seq<ExonRow>): (r: seq<ExonRow>)
    ensures |r| == |s| + 1
    ensures multiset(r) == multiset(s) + multiset{x}
  {
    if |s| == 0 then [x]
    else if x.start < s[0].start then [x] + s
    else
      assert s == [s[0]] + s[1..];
      [s[0]] + InsertByStart(x, s[1..])
  }

  /** Inserting into a sorted sequence keeps it sorted. */
  lemma {:induction false} InsertSorted(x: ExonRow, s: seq<ExonRow>)
    requires SortedByStart(s)
    ensures SortedByStart(InsertByStart(x, s))
  {
    if |s| > 0 && x.start >= s[0].start {
      var rest := InsertByStart(x, s[1..]);
      InsertSorted(x, s[1..]);
      forall y | y in rest ensures s[0].start <= y.start {
        assert multiset(rest)[y] > 0;
        if y != x {
          assert y in s[1..];
        }
      }
      SortedCons(s[0], rest);
    }
  }

  lemma SortedCons(a: ExonRow, rest: seq<ExonRow>)
    requires SortedByStart(rest)
    requires forall y | y in rest :: a.start <= y.start
    ensures SortedByStart([a] + rest)
  {
    var r := [a] + rest;
    forall i, j | 0 <= i < j < |r| ensures r[i].start <= r[j].start {
      assert r[j] == rest[j - 1];
      if i > 0 {
        assert r[i] == rest[i - 1];
      }
    }
  }

  /** `sort_values('exon_chrom_start')`: the same rows, ordered by start. */
  function SortByStart(s: seq<ExonRow>): (r: seq<ExonRow>)
    ensures |r| == |s|
    ensures multiset(r) == multiset(s)
    ensures SortedByStart(r)
  {
    if |s| == 0 then []
    else
      assert s == s[..|s| - 1] + [s[|s| - 1]];
      InsertSorted(s[|s| - 1], SortByStart(s[..|s| - 1]));
      InsertByStart(s[|s| - 1], SortByStart(s[..|s| - 1]))
  }

  // ---------------------------------------------------------------- overlaps

  /** One entry of the overlap report. */
  datatype Overlap = Overlap(gene: string, exon1Id: string, exon2Id: string, size: int)

  /** The report entry for the neighbours `current` and `next`: the part of
      `current` that reaches past the start of `next`. */
  function OverlapOf(gene: string, current: ExonRow, next: ExonRow): Overlap {
    Overlap(gene, current.exonId, next.exonId, current.end - next.start)
  }

  /** The exons of one gene, in table order. The mask compares names, so a
      missing name selects nothing. */
  function GeneExons(rows: seq<ExonRow>, gene: Option<string>): (r: seq<ExonRow>)
    ensures |r| > 0 ==> gene.Some?
    ensures forall x | x in r :: x in rows && SameGene(x.gene, gene)
    ensures forall x | x in rows && SameGene(x.gene, gene) :: x in r
  {
    var r := Filter(rows, (x: ExonRow) => SameGene(x.gene, gene));
    assert |r| > 0 ==> r[0] in r;
    r
  }

  /** The entries for the first `n` neighbouring pairs of `exons`, in order:
      a pair is reported when the first exon ends after the second starts. */
  function PairOverlaps(gene: string, exons: seq<ExonRow>, n: nat): (r: seq<Overlap>)
    requires n == 0 || n < |exons|
  {
    if n == 0 then []
    else
      PairOverlaps(gene, exons, n - 1)
      + (if exons[n - 1].end > exons[n].start then [OverlapOf(gene, exons[n - 1], exons[n])] else [])
  }

  /** The table `gene_exons` for one gene: its exons sorted by start. */
  function SortedGeneExons(rows: seq<ExonRow>, gene: Option<string>): (r: seq<ExonRow>)
    ensures |r| > 0 ==> gene.Some?
  {
    SortByStart(GeneExons(rows, gene))
  }

  /** The overlap entries of one gene: every neighbouring pair of its sorted
      exons checked, when it has more than one exon. */
  function GeneOverlaps(rows: seq<ExonRow>, gene: Option<string>): seq<Overlap> {
    var exons := SortedGeneExons(rows, gene);
    if |exons| > 1 then PairOverlaps(gene.value, exons, |exons| - 1) else []
  }

  /** The entries of the genes `genes`, gene after gene. */
  function OverlapsOf(rows: seq<ExonRow>, genes: seq<Option<string>>): seq<Overlap> {
    if |genes| == 0 then []
    else OverlapsOf(rows, genes[..|genes| - 1]) + GeneOverlaps(rows, genes[|genes| - 1])
  }

  /** The whole overlap report: the genes in order of first appearance. */
  function ExonOverlaps(rows: seq<ExonRow>): seq<Overlap> {
    OverlapsOf(rows, Unique(GeneColumn(rows)))
  }

  /** The overlap check of the analyser: for every distinct gene name, sort
      its exons by start and compare each exon with the next one. */
  method FindExonOverlaps(rows: seq<ExonRow>) returns (overlaps: seq<Overlap>)
    ensures overlaps == ExonOverlaps(rows)
  {
    var genes := Unique(GeneColumn(rows));
    overlaps := [];
    var g := 0;
    while g < |genes|
      invariant g <= |genes|
      invariant overlaps == OverlapsOf(rows, genes[..g])
    {
      overlaps := AppendGeneOverlaps(overlaps, rows, genes[g]);
      OverlapsOfStep(rows, genes, g);
      g := g + 1;
    }
    assert genes[..g] == genes;
  }

  lemma OverlapsOfStep(rows: seq<ExonRow>, genes: seq<Option<string>>, g: nat)
    requires g < |genes|
    ensures OverlapsOf(rows, genes[..g + 1]) == OverlapsOf(rows, genes[..g]) + GeneOverlaps(rows, genes[g])
  {
    assert genes[..g + 1][..g] == genes[..g];
  }

  /** The body of the gene loop: the entries of `gene` appended to `start`. */
  method AppendGeneOverlaps(start: seq<Overlap>, rows: seq<ExonRow>, gene: Option<string>) returns (overlaps: seq<Overlap>)
    ensures overlaps == start + GeneOverlaps(rows, gene)
  {
    var geneExons := SortedGeneExons(rows, gene);
    if |geneExons| > 1 {
      overlaps := CompareNeighbours(start, gene.value, geneExons);
    } else {
      overlaps := start;
    }
  }

  /** The inner loop: every exon against the next one, appending an entry to
      `start` for each overlapping pair. */
  method CompareNeighbours(start: seq<Overlap>, gene: string, exons: seq<ExonRow>) returns (overlaps: seq<Overlap>)
    requires |exons| > 1
    ensures overlaps == start + PairOverlaps(gene, exons, |exons| - 1)
  {
    overlaps := start;
    var i := 0;
    while i < |exons| - 1
      invariant i <= |exons| - 1
      invariant overlaps == start + PairOverlaps(gene, exons, i)
    {
      var current := exons[i];
      var next := exons[i + 1];
      if current.end > next.start {
        overlaps := overlaps + [Overlap(gene, current.exonId, next.exonId, current.end - next.start)];
      }
      i := i + 1;
    }
  }

  /** Exon `i` ends after exon `i + 1` starts. */
  predicate OverlapsNext(exons: seq<ExonRow>, i: int) {
    0 <= i && i + 1 < |exons| && exons[i].end > exons[i + 1].start
  }

  /** `o` is the entry for the overlapping pair `i`, `i + 1`. */
  predicate ReportsPair(o: Overlap, gene: string, exons: seq<ExonRow>, i: int) {
    OverlapsNext(exons, i) && o == OverlapOf(gene, exons[i], exons[i + 1])
  }

  /** At most one entry per pair checked. */
  lemma {:induction false} PairOverlapsCount(gene: string, exons: seq<ExonRow>, n: nat)
    requires n == 0 || n < |exons|
    ensures |PairOverlaps(gene, exons, n)| <= n
  {
    if n > 0 {
      PairOverlapsCount(gene, exons, n - 1);
    }
  }

  /** Every entry is that of an overlapping pair among the first `n`. */
  lemma {:induction false} PairOverlapsSound(gene: string, exons: seq<ExonRow>, n: nat)
    requires n == 0 || n < |exons|
    ensures forall o | o in PairOverlaps(gene, exons, n) :: exists i | 0 <= i < n :: ReportsPair(o, gene, exons, i)
  {
    if n > 0 {
      PairOverlapsSound(gene, exons, n - 1);
      var prev := PairOverlaps(gene, exons, n - 1);
      forall o | o in PairOverlaps(gene, exons, n)
        ensures exists i | 0 <= i < n :: ReportsPair(o, gene, exons, i)
      {
        if o in prev {
          var i :| 0 <= i < n - 1 && ReportsPair(o, gene, exons, i);
          assert ReportsPair(o, gene, exons, i);
        } else {
          assert ReportsPair(o, gene, exons, n - 1);
        }
      }
    }
  }

  /** Every overlapping pair among the first `n` has its entry. */
  lemma {:induction false} PairOverlapsComplete(gene: string, exons: seq<ExonRow>, n: nat)
    requires n == 0 || n < |exons|
    ensures forall i | 0 <= i < n && OverlapsNext(exons, i) :: OverlapOf(gene, exons[i], exons[i + 1]) in PairOverlaps(gene, exons, n)
  {
    if n > 0 {
      PairOverlapsComplete(gene, exons, n - 1);
      var prev := PairOverlaps(gene, exons, n - 1);
      forall i | 0 <= i < n && OverlapsNext(exons, i)
        ensures OverlapOf(gene, exons[i], exons[i + 1]) in PairOverlaps(gene, exons, n)
      {
        if i < n - 1 {
          assert OverlapOf(gene, exons[i], exons[i + 1]) in prev;
        }
      }
    }
  }

  /** A gene with fewer than two exons has no entries, one with more has at
      most one fewer entries than exons. */
  lemma GeneOverlapsCount(rows: seq<ExonRow>, gene: Option<string>)
    ensures |GeneExons(rows, gene)| <= 1 ==> GeneOverlaps(rows, gene) == []
    ensures |GeneExons(rows, gene)| > 1 ==> |GeneOverlaps(rows, gene)| <= |GeneExons(rows, gene)| - 1
  {
    var exons := SortedGeneExons(rows, gene);
    if |exons| > 1 {
      PairOverlapsCount(gene.value, exons, |exons| - 1);
    }
  }

  /** Every entry of a gene names it, has a positive size, and comes from two
      exons that are neighbours in start order, the first starting no later
      than the second and ending after the second starts. */
  lemma GeneOverlapsSound(rows: seq<ExonRow>, gene: Option<string>)
    ensures forall o | o in GeneOverlaps(rows, gene) ::
      && gene == Some(o.gene) && o.size > 0
      && exists i | 0 <= i :: ReportsPair(o, o.gene, SortedGeneExons(rows, gene), i)
           && SortedGeneExons(rows, gene)[i].start <= SortedGeneExons(rows, gene)[i + 1].start
  {
    var exons := SortedGeneExons(rows, gene);
    if |exons| > 1 {
      PairOverlapsSound(gene.value, exons, |exons| - 1);
      forall o | o in GeneOverlaps(rows, gene)
        ensures gene == Some(o.gene) && o.size > 0
        ensures exists i | 0 <= i :: ReportsPair(o, o.gene, exons, i) && exons[i].start <= exons[i + 1].start
      {
        var i :| 0 <= i < |exons| - 1 && ReportsPair(o, gene.value, exons, i);
        assert exons[i].start <= exons[i + 1].start;
      }
    }
  }

  /** Every overlapping neighbouring pair of a gene's sorted exons has its
      entry. */
  lemma GeneOverlapsComplete(rows: seq<ExonRow>, gene: Option<string>)
    ensures forall i | OverlapsNext(SortedGeneExons(rows, gene), i) ::
      OverlapOf(gene.value, SortedGeneExons(rows, gene)[i], SortedGeneExons(rows, gene)[i + 1]) in GeneOverlaps(rows, gene)
  {
    var exons := SortedGeneExons(rows, gene);
    if |exons| > 1 {
      PairOverlapsComplete(gene.value, exons, |exons| - 1);
    }
  }

  /** The sorted exons of a gene are exactly its rows, each as often as in
      the table's selection, all carrying that name. */
  lemma SortedExonsOfGene(rows: seq<ExonRow>, gene: Option<string>)
    ensures multiset(SortedGeneExons(rows, gene)) == multiset(GeneExons(rows, gene))
    ensures forall x | x in SortedGeneExons(rows, gene) :: x in rows && SameGene(x.gene, gene)
  {
    var exons := GeneExons(rows, gene);
    forall x | x in SortByStart(exons) ensures x in exons {
      assert multiset(SortByStart(exons))[x] > 0;
    }
  }

  /** An entry is in the report exactly when it is an entry of one of the
      genes listed. */
  lemma {:induction false} OverlapsOfMembers(rows: seq<ExonRow>, genes: seq<Option<string>>)
    ensures forall o :: o in OverlapsOf(rows, genes) <==> exists g | g in genes :: o in GeneOverlaps(rows, g)
  {
    if |genes| > 0 {
      var init := genes[..|genes| - 1];
      var last := genes[|genes| - 1];
      OverlapsOfMembers(rows, init);
      assert genes == init + [last];
      var prev := OverlapsOf(rows, init);
      var here := GeneOverlaps(rows, last);
      assert OverlapsOf(rows, genes) == prev + here;
      forall o | o in prev + here
        ensures exists g | g in genes :: o in GeneOverlaps(rows, g)
      {
        if o in here {
          assert last in genes;
        } else {
          var g :| g in init && o in GeneOverlaps(rows, g);
          assert g in genes;
        }
      }
      forall o | exists g | g in genes :: o in GeneOverlaps(rows, g)
        ensures o in prev + here
      {
        var g :| g in genes && o in GeneOverlaps(rows, g);
        if g != last {
          assert g in init;
        }
      }
    }
  }

  /** The report holds the entries of every gene in the table and nothing
      else. */
  lemma ExonOverlapsMembers(rows: seq<ExonRow>)
    ensures forall o :: o in ExonOverlaps(rows) <==> exists g | g in GeneColumn(rows) :: o in GeneOverlaps(rows, g)
  {
    OverlapsOfMembers(rows, Unique(GeneColumn(rows)));
  }

  /** Each entry of the report names a gene of the table and has a positive
      size. */
  lemma ExonOverlapsSound(rows: seq<ExonRow>)
    ensures forall o | o in ExonOverlaps(rows) :: Some(o.gene) in GeneColumn(rows) && o.size > 0
  {
    var genes := Unique(GeneColumn(rows));
    OverlapsOfMembers(rows, genes);
    forall o | o in ExonOverlaps(rows)
      ensures Some(o.gene) in GeneColumn(rows) && o.size > 0
    {
      var g :| g in genes && o in GeneOverlaps(rows, g);
      GeneOverlapsSound(rows, g);
    }
  }

  /** Three exons of gene `A`: one spanning the other two, listed out of
      start order. */
  function SpanningExample(): seq<ExonRow> {
    [ExonRow(Some("A"), "e3", 30, 40, []), ExonRow(Some("A"), "e1", 0, 1000, []), ExonRow(Some("A"), "e2", 10, 20, [])]
  }

  lemma SpanningExampleGenes()
    ensures Unique(GeneColumn(SpanningExample())) == [Some("A")]
  {
    var column := GeneColumn(SpanningExample());
    assert column == [Some("A"), Some("A"), Some("A")];
    assert column[..1][..0] == [] && column[..2][..1] == column[..1] && column[..3][..2] == column[..2];
    assert Unique(column[..1]) == [Some("A")];
    assert Unique(column[..2]) == [Some("A")];
    assert column[..3] == column;
  }

  lemma SpanningExampleSelected()
    ensures GeneExons(SpanningExample(), Some("A")) == SpanningExample()
  {
    FilterKeepsAll(SpanningExample(), (x: ExonRow) => SameGene(x.gene, Some("A")));
  }

  lemma SortTwo(a: ExonRow, b: ExonRow)
    requires b.start < a.start
    ensures SortByStart([a, b]) == [b, a]
  {
    assert [a, b][..1] == [a];
    assert [a][..0] == [];
  }

  lemma InsertBetween(x: ExonRow, a: ExonRow, b: ExonRow)
    requires a.start <= x.start < b.start
    ensures InsertByStart(x, [a, b]) == [a, x, b]
  {
    assert [a, b][1..] == [b];
  }

  lemma SpanningExampleSorted()
    ensures SortByStart(SpanningExample()) == [SpanningExample()[1], SpanningExample()[2], SpanningExample()[0]]
  {
    var rows := SpanningExample();
    SortTwo(rows[0], rows[1]);
    InsertBetween(rows[2], rows[1], rows[0]);
    assert rows[..2] == [rows[0], rows[1]];
  }

  /** Of three sorted exons, only the first pair overlaps. */
  lemma FirstPairOnly(gene: string, a: ExonRow, b: ExonRow, c: ExonRow)
    requires a.end > b.start && b.end <= c.start
    ensures PairOverlaps(gene, [a, b, c], 2) == [OverlapOf(gene, a, b)]
  {
    assert PairOverlaps(gene, [a, b, c], 1) == [OverlapOf(gene, a, b)];
  }

  /** Only neighbours are compared: an exon that spans two later ones is
      reported against the first of them only, and rows listed out of order
      are compared in start order. */
  lemma NeighboursOnly()
    ensures ExonOverlaps(SpanningExample()) == [Overlap("A", "e1", "e2", 990)]
  {
    var rows := SpanningExample();
    SpanningExampleGenes();
    SpanningExampleSelected();
    SpanningExampleSorted();
    FirstPairOnly("A", rows[1], rows[2], rows[0]);
    assert GeneOverlaps(rows, Some("A")) == [Overlap("A", "e1", "e2", 990)];
    assert [Some("A")][..0] == [];
  }
}
