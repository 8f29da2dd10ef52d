# CellCycPD core, modelled in Dafny

CellCycPD is a cell-cycle gene database. It has a Spring back end and a
handful of Python scripts for analysis and drawing. This project models
the parts of it that compute something:

- **The reporting endpoints of the cell-cycle data controller.**
  - The gene-symbol listing.
  - The KEGG pathway pass-through: the header line, then one header-to-value
    map per line.
  - The hallmark aggregator: per gene, its hallmarks and a row count.
  - The miRNA word-cloud list: a name and a parsed count per line.

  Each endpoint reads a tab-separated text resource line by line. The model
  splits lines the way Java's `String.split("\t")` does, which drops trailing
  empty fields. It reads counts the way `Integer.parseInt` does. When the
  resource cannot be read, the endpoint answers with status 500.
- **The gene-set analyser** (`GeneAnalyzer`).
  - Loading one gene set per database file.
  - The all-set intersection.
  - The "exactly in this trio" intersections over every three-combination of
    databases.
  - The high-confidence table: count 4 for all-set genes, count 3 for trio
    genes, ranked by count descending, then by gene symbol.
- **The protein visualiser's legend.**
  - The case-insensitive, first-match modification classifier.
  - The order of the legend entries: Domain, Region, the structure types in
    fixed order, then the modification classes sorted.
- **The integer rules inside the two gene-structure plotting scripts.**
  - The intron filter and `chr` stripping.
  - The enhancer window.
  - The strand-dependent promoter window.
  - The length label units.
  - The gene extent.
  - The tick scale, step and positions.
  - The greedy tick thinning.
  - Which genes the plain script draws, and where it stops.
- **The exon table checks of the data analyser.**
  - The rows that repeat an earlier row.
  - Gene by gene, the overlapping neighbouring exons in start order.

Files and modules:

| file | module | models |
|---|---|---|
| text.dfy | `TextUtil` | substring search, ASCII case mapping, code-point order of strings, Python `strip`, decimal text |
| seqs.dfy | `Seqs` | `Option`/`Result`, boolean-mask selection (`Filter`), pandas' NaN-aware cell comparison and `unique()` |
| java_text.dfy | `JavaText` | `String.split("\t")` and `Integer.parseInt` |
| reports.dfy | `CellCycleReports` | the four controller endpoints |
| gene_analysis.dfy | `GeneAnalysis` | the `GeneAnalyzer` class and the set algebra behind it |
| protein_legend.dfy | `ProteinLegend` | modification classification and the legend |
| gene_structure.dfy | `GeneStructure` | the coordinate rules shared by both gene-structure scripts, and the enhancer ones |
| gene_visualizer.dfy | `GeneVisualizer` | the gene loop of the plain gene-structure script |
| exon_analysis.dfy | `ExonAnalysis` | the duplicate and overlap checks of the exon table |

Modelling choices:

- **Inputs.** A text resource is the list of its lines plus a flag saying
  whether reading it fails. A pandas table is a sequence of row records. A
  missing cell (NaN) is `None`: it equals nothing, itself included, and
  `unique()` lists it once.
- **Gene-analysis datasets.** A database file is (1) the cells of its first
  column read as text, (2) `NotText`, a first column that `read_csv` types as
  numbers or booleans, or (3) a failed read. The `.str` accessor works only on
  a text column that is empty or has a present value. A column with rows but
  no present value is read as NaNs, so `.str` fails and the dataset is
  skipped like a failed read (`Loads`).
- **Loops.**
  - `while`/`for` loops that append to a list or update a map are `method`s
    with loop invariants. Each is proved equal to a specification function,
    and the properties are lemmas about that function.
  - The controller's `HashMap` results are maps. The hallmark endpoint's
    list is a set, because the source emits it in `HashMap` order.
- **Drawing.** `matplotlib` drawing is left out. The plain gene-structure
  loop is modelled by what each gene's picture is laid out from (extent,
  tick step, tick positions), together with how the loop ends.

## Model

| member | source | states |
|---|---|---|
| CellCycleReports.GetAllGeneName | backend/main/java/com/cellcycle/cellcycledata/Controller/cellcycledataController.java:33-40 | a new array as long as the row list, element i being row i's gene symbol |
| JavaText.SplitShape | backend/main/java/com/cellcycle/cellcycledata/Controller/cellcycledataController.java:51 | `split("\t")` returns the tab-separated fields with only empty ones cut from the end; a line without a tab comes back whole |
| JavaText.FieldsJoin | backend/main/java/com/cellcycle/cellcycledata/Controller/cellcycledataController.java:51 | the fields, joined with tabs again, give back the line |
| JavaText.SplitExamples | backend/main/java/com/cellcycle/cellcycledata/Controller/cellcycledataController.java:81-84 | `"g\t"` splits into one field, so the two-column readers skip it; an empty line is one empty field; a lone tab gives none |
| JavaText.SplitTwo | backend/main/java/com/cellcycle/cellcycledata/Controller/cellcycledataController.java:81-86 | `a<TAB>b` with non-empty `b` splits into exactly `[a, b]` |
| JavaText.ParseInt | backend/main/java/com/cellcycle/cellcycledata/Controller/cellcycledataController.java:131 | `Integer.parseInt`: a result, when there is one, lies in the 32-bit range |
| JavaText.ParseIntDecimal | backend/main/java/com/cellcycle/cellcycledata/Controller/cellcycledataController.java:130-134 | the decimal text of an integer parses back to it exactly when it fits in 32 bits, and fails otherwise |
| JavaText.ParseIntAccepted | backend/main/java/com/cellcycle/cellcycledata/Controller/cellcycledataController.java:131 | anything accepted is an optional sign followed by digits |
| JavaText.ParseIntExamples | backend/main/java/com/cellcycle/cellcycledata/Controller/cellcycledataController.java:131-133 | `"+007"` reads 7; a word, a lone sign, the empty text and a leading blank are rejected |
| CellCycleReports.GetKeggPathway | backend/main/java/com/cellcycle/cellcycledata/Controller/cellcycledataController.java:43-67 | a failing read gives status 500 with its fixed message; otherwise status 200 with one map per line after the first, in file order, each built from the first line's headers |
| CellCycleReports.KeggRows | backend/main/java/com/cellcycle/cellcycledata/Controller/cellcycledataController.java:50-61 | exactly one row per line after the header line, so header-only or empty input gives none |
| CellCycleReports.BuildPathwayRow | backend/main/java/com/cellcycle/cellcycledata/Controller/cellcycledataController.java:55-58 | the map filled column by column, while both lines have a column, is the pathway row of the two lines |
| CellCycleReports.RowMapMeaning | backend/main/java/com/cellcycle/cellcycledata/Controller/cellcycledataController.java:55-58 | a key is present iff it is the header of a column both lines have, and it maps to the value of the last such column |
| CellCycleReports.PathwayRowKeys | backend/main/java/com/cellcycle/cellcycledata/Controller/cellcycledataController.java:56-57 | a row's keys are among the headers, and with distinct headers there are exactly min(headers, values) of them |
| CellCycleReports.DistinctRowMapSize | backend/main/java/com/cellcycle/cellcycledata/Controller/cellcycledataController.java:56-57 | with distinct headers, the first n columns give a map of n keys |
| CellCycleReports.KeggShortRow | backend/main/java/com/cellcycle/cellcycledata/Controller/cellcycledataController.java:52-59 | a three-header file with a two-value record gives one row of two keys; when two headers are equal, the later column's value wins |
| CellCycleReports.GetHallmarkCellData | backend/main/java/com/cellcycle/cellcycledata/Controller/cellcycledataController.java:70-113 | a failing read gives status 500 with its fixed message; otherwise status 200 with the hallmark summaries of the file |
| CellCycleReports.TracksStep | backend/main/java/com/cellcycle/cellcycledata/Controller/cellcycledataController.java:89-95 | the count-map and list-map updates for one record keep both maps in step with the records read so far |
| CellCycleReports.TracksSummaries | backend/main/java/com/cellcycle/cellcycledata/Controller/cellcycledataController.java:101-107 | one summary per key of the maps is exactly the set of per-gene summaries |
| CellCycleReports.RecordsOfFiltered | backend/main/java/com/cellcycle/cellcycledata/Controller/cellcycledataController.java:84-86 | the records are the lines with at least two fields, each read as its first two columns |
| CellCycleReports.CountIsLength | backend/main/java/com/cellcycle/cellcycledata/Controller/cellcycledataController.java:89-95 | a gene's count equals the length of its hallmark list |
| CellCycleReports.SummaryShape | backend/main/java/com/cellcycle/cellcycledata/Controller/cellcycledataController.java:101-107 | every summary's count is the length of its hallmark list, each gene has exactly one summary, and the genes summarised are exactly those of the records |
| CellCycleReports.HallmarkTotal | backend/main/java/com/cellcycle/cellcycledata/Controller/cellcycledataController.java:84-107 | the counts add up to the number of lines after the header that have two fields or more |
| CellCycleReports.SummariesTotal | backend/main/java/com/cellcycle/cellcycledata/Controller/cellcycledataController.java:89-107 | the counts add up to the number of records |
| CellCycleReports.TotalCountRemove | backend/main/java/com/cellcycle/cellcycledata/Controller/cellcycledataController.java:101-107 | the sum of counts over a set of summaries does not depend on which one is taken first |
| CellCycleReports.SummariesOtherGenes | backend/main/java/com/cellcycle/cellcycledata/Controller/cellcycledataController.java:89-95 | a record for gene g changes only g's summary |
| CellCycleReports.AbsentGene | backend/main/java/com/cellcycle/cellcycledata/Controller/cellcycledataController.java:89-95 | a gene without records has no hallmarks and count 0 |
| CellCycleReports.HallmarkRepeated | backend/main/java/com/cellcycle/cellcycledata/Controller/cellcycledataController.java:85-95 | a gene listed twice with the same hallmark keeps both copies and gets count 2 |
| CellCycleReports.RepeatedSummaries | backend/main/java/com/cellcycle/cellcycledata/Controller/cellcycledataController.java:89-95 | records r1, r1, r2 give r1's gene a two-item list and count 2, and r2's gene its own summary |
| CellCycleReports.GetMirnaGeneWordcloud | backend/main/java/com/cellcycle/cellcycledata/Controller/cellcycledataController.java:116-143 | a failing read gives status 500 with its fixed message; otherwise status 200 with one entry per line after the header that has two fields or more, in file order |
| CellCycleReports.CountValue | backend/main/java/com/cellcycle/cellcycledata/Controller/cellcycledataController.java:130-134 | the value is always a 32-bit integer: the parsed count, or 0 when parsing throws |
| CellCycleReports.EntriesOfFiltered | backend/main/java/com/cellcycle/cellcycledata/Controller/cellcycledataController.java:127-135 | the entries are the lines with two fields or more, each read as name and count |
| CellCycleReports.CountValueDecimal | backend/main/java/com/cellcycle/cellcycledata/Controller/cellcycledataController.java:130-134 | a decimal count is read as itself inside the 32-bit range, and as 0 outside it |
| CellCycleReports.WordcloudCounts | backend/main/java/com/cellcycle/cellcycledata/Controller/cellcycledataController.java:127-135 | a line whose count does not parse still gives an entry, with value 0, and the loop goes on to the next line |
| GeneAnalysis.GeneSetOfMeaning | gene_analysis.py:25 | a loaded gene is exactly the stripped text of a present cell; no gene starts or ends with whitespace |
| GeneAnalysis.PutKey | gene_analysis.py:26 | storing under a name adds it to the keys once, keeping them distinct |
| GeneAnalysis.LoadAllWellFormed | gene_analysis.py:19-29 | loading keeps the names distinct and exactly the keys of the stored sets |
| GeneAnalysis.LoadAllKeys | gene_analysis.py:21-29 | after loading, a name has a set iff it had one before or the first column of one of its datasets loads (read as text, and empty or with a present value), so a dataset whose read or `.str` access fails is simply absent |
| GeneAnalysis.EmptyColumnSkipped | gene_analysis.py:21-29 | a dataset whose first column has rows but no present value is skipped rather than stored as an empty set |
| GeneAnalysis.LoadAllValues | gene_analysis.py:25-26 | a loading dataset's set is stored under its name unless a later loading entry has the same name; names with no entry keep their sets |
| GeneAnalysis.GeneAnalyzer.constructor | gene_analysis.py:14-17 | the analyser starts empty and then holds what loading the given files in order gives |
| GeneAnalysis.GeneAnalyzer.LoadData | gene_analysis.py:19-29 | the new gene sets are those of loading every file, in order, over the old ones |
| GeneAnalysis.AllIntersection | gene_analysis.py:38-42 | for no names, the empty set; otherwise a gene is in it iff it is in every named set |
| GeneAnalysis.IntersectionOrderFree | gene_analysis.py:42 | the intersection does not depend on the order of the names |
| GeneAnalysis.GeneAnalyzer.FindIntersections | gene_analysis.py:31-43 | empty when no set is loaded; otherwise exactly the genes in every loaded set |
| GeneAnalysis.CombosCount | gene_analysis.py:54 | there are n-choose-k combinations |
| GeneAnalysis.CombosShape | gene_analysis.py:54 | each combination has k names taken from the keys in their order |
| GeneAnalysis.ComboMembers | gene_analysis.py:54-56 | a combination's names are loaded names |
| GeneAnalysis.OrderedPut | gene_analysis.py:61 | dict assignment: an existing key keeps its place and takes the new value; a new key goes last |
| GeneAnalysis.GeneAnalyzer.FindThreeDatasetIntersections | gene_analysis.py:45-62 | the dict built by the loop equals the trio table over the three-combinations of the loaded names |
| GeneAnalysis.TrioLoop | gene_analysis.py:54-61 | the loop over the combinations, given the all-set intersection, ends with the trio table of those combinations |
| GeneAnalysis.TrioTableSound | gene_analysis.py:54-61 | the keys are distinct; every entry is a combination's `' & '` label with a non-empty set of genes in all three sets and not in every set |
| GeneAnalysis.TrioTableComplete | gene_analysis.py:56-61 | every combination with such genes has an entry under its label |
| GeneAnalysis.TrioTableInOrder | gene_analysis.py:54-61 | when labels do not collide, the entries are the non-empty combinations in combination order |
| GeneAnalysis.RankedBeforeTotal | gene_analysis.py:98 | any two rows are ordered one way or the other |
| GeneAnalysis.RankedBeforeTransitive | gene_analysis.py:98 | the ranking is transitive |
| GeneAnalysis.InsertRowRanked | gene_analysis.py:98 | inserting a row into a ranked table keeps it ranked |
| GeneAnalysis.SortRows | gene_analysis.py:98 | sorting keeps the same rows |
| GeneAnalysis.SortRowsRanked | gene_analysis.py:98 | the sorted table is ordered by count descending, then gene symbol ascending |
| GeneAnalysis.TrioRowFresh | gene_analysis.py:88-94 | with distinct keys, an entry's rows are not among those of earlier entries |
| GeneAnalysis.CountsExclusive | gene_analysis.py:57-94 | no gene gets both count 4 and count 3 |
| GeneAnalysis.GeneAnalyzer.CollectRows | gene_analysis.py:77-94 | the rows are exactly the all-set genes with count 4 and `'All Databases'`, and each trio entry's genes with its label and count 3, with no duplicates |
| GeneAnalysis.AllRows | gene_analysis.py:80-85 | the first loop gives duplicate-free rows: exactly one count-4 `All Databases` row per all-set gene |
| GeneAnalysis.AppendTrioRows | gene_analysis.py:88-94 | one pass of the trio loop adds exactly entry k's genes, with its label and count 3, and keeps the rows duplicate-free |
| GeneAnalysis.GatherRows | gene_analysis.py:77-94 | both loops together give duplicate-free rows that are exactly the count-4 and count-3 rows |
| GeneAnalysis.AppendFresh | gene_analysis.py:80-94 | appending a new row keeps the rows free of duplicates |
| GeneAnalysis.NoRowsIff | gene_analysis.py:77-94 | there are no rows exactly when the intersection and the trio table are both empty |
| GeneAnalysis.Rank | gene_analysis.py:97-98 | the intended table: ranked, the same rows, and empty for no rows |
| GeneAnalysis.RankAsWrittenDiffers | gene_analysis.py:97-98 | with rows, the code's outcome is the ranked table; with none, it fails where an empty table is meant |
| GeneAnalysis.TwoDisjointDatabasesHaveNoRows | gene_analysis.py:38-98 | two databases sharing no gene give no rows, so the code as written fails on them |
| GeneAnalysis.GeneAnalyzer.GetHighConfidenceGenesAsWritten | gene_analysis.py:64-98 | fails iff there are no rows; otherwise ranked, duplicate-free, and exactly the collected rows |
| GeneAnalysis.GeneAnalyzer.GetHighConfidenceGenes | gene_analysis.py:64-98 | ranked, duplicate-free, and exactly the count-4 and count-3 rows, empty when there are none |
| ProteinLegend.ModificationType | structure/protein_visualizer.py:37-77 | the class is always one of the seven keys of the modification colours |
| ProteinLegend.FirstMatchMeaning | structure/protein_visualizer.py:64-77 | the first rule whose keyword occurs decides; `Others` when none occurs |
| ProteinLegend.ModificationTypeIsFirstMatch | structure/protein_visualizer.py:63-77 | the chain is the first match over acetyl, glyco, methyl, phospho, sumo, ubiquit on the lower-cased text |
| ProteinLegend.PhosphoAlternatives | structure/protein_visualizer.py:70 | the three long phospho alternatives add nothing to `'phospho' in d` |
| ProteinLegend.CaseInsensitive | structure/protein_visualizer.py:63 | descriptions equal up to case get the same class |
| ProteinLegend.UpperCaseAlike | structure/protein_visualizer.py:63 | an upper-cased description gets the same class |
| ProteinLegend.MethylBeforePhospho | structure/protein_visualizer.py:68-71 | a description naming both methyl and phospho (and not acetyl or glyco) is Methylation |
| ProteinLegend.SortedClassesIncreasing | structure/protein_visualizer.py:37-45 | the seven classes in sorted order are strictly increasing |
| ProteinLegend.SortedSet | structure/protein_visualizer.py:109 | `sorted` of a set of class names: strictly increasing, with exactly its elements |
| ProteinLegend.ModificationKinds | structure/protein_visualizer.py:107-108 | the set of classes of the modifications holds only class names |
| ProteinLegend.CreateLegendElements | structure/protein_visualizer.py:79-114 | the entries appended by the loops are the legend: domain, region, structure and modification entries in that order |
| ProteinLegend.AddStructureEntries | structure/protein_visualizer.py:100-104 | the fixed-order loop appends exactly the structure entries of the types present |
| ProteinLegend.AddMarkers | structure/protein_visualizer.py:109-112 | the loop appends one marker per sorted class, in order |
| ProteinLegend.StructureEntriesMeaning | structure/protein_visualizer.py:96-104 | entries follow Helix, Beta strand, Turn, and appear exactly for the types present, with their colours and labels |
| ProteinLegend.ModificationEntriesMeaning | structure/protein_visualizer.py:107-112 | the modification labels are distinct, sorted, exactly the classes present, each with its colour |
| ProteinLegend.LegendOrder | structure/protein_visualizer.py:84-112 | Domain comes first when there are domains, then Region when there are regions; all patches precede all markers |
| ProteinLegend.StructurePatches | structure/protein_visualizer.py:102-104 | structure entries are patches |
| GeneStructure.IntronFilterMeaning | structure/gene_enhancer_visualizer.py:39-42 | an intron is kept iff its end exceeds its start, in input order; the filter is idempotent |
| GeneStructure.StripChr | structure/gene_enhancer_visualizer.py:59-60 | removing `chr` never lengthens a name |
| GeneStructure.StripChrFixedPoints | structure/gene_enhancer_visualizer.py:59-60 | a name is unchanged iff it does not contain `chr` |
| GeneStructure.StripChrShortens | structure/gene_enhancer_visualizer.py:59-60 | a name containing `chr` gets shorter |
| GeneStructure.StripChrPrefix | structure/gene_enhancer_visualizer.py:59-60 | `chr` + a name free of `chr` gives that name |
| GeneStructure.StripChrSplit | structure/gene_enhancer_visualizer.py:59-60 | text holding no `chr` (even with `ch` appended) is kept and the first `chr` after it is dropped, the rest treated the same way |
| GeneStructure.StripChrSinglePass | structure/gene_enhancer_visualizer.py:59-60 | the replacement is one left-to-right pass: `cchrhr` becomes `chr`, not the empty name |
| GeneStructure.FindGeneEnhancersMeaning | structure/gene_enhancer_visualizer.py:87-121 | an enhancer is selected iff it is on the gene's chromosome and lies inside [max(0, start - w), end + w]; each table keeps its order |
| GeneStructure.FindGeneEnhancersWidening | structure/gene_enhancer_visualizer.py:104-119 | an enhancer inside the gene itself is always found, and a wider window finds everything a narrower one does |
| GeneStructure.PromoterWindowShape | structure/gene_enhancer_visualizer.py:201-208 | the window is 240 bases and contains the TSS, which is the start on `+` and the end otherwise, 200 bases upstream and 40 downstream |
| GeneStructure.FormatBpMonotone | structure/gene_enhancer_visualizer.py:65-71 | the unit never shrinks as the length grows; it switches at exactly 1000 and 1000000 |
| GeneStructure.FormatBpBases | structure/gene_visualizer.py:23-29 | below 1000 the label is the length's digits followed by `bp`, and reads back as the length |
| GeneStructure.MinOf | structure/gene_enhancer_visualizer.py:164-167 | the minimum is an element and at most every element |
| GeneStructure.MaxOf | structure/gene_enhancer_visualizer.py:164-167 | the maximum is an element and at least every element |
| GeneStructure.GeneExtentCovers | structure/gene_enhancer_visualizer.py:164-167 | the extent covers every exon and promoter, and each end is attained by one of them; without promoters the exons alone decide |
| GeneStructure.TickScaleFor | structure/gene_enhancer_visualizer.py:293-304 | the base step and the divider are positive |
| GeneStructure.TickScaleMonotone | structure/gene_visualizer.py:166-177 | a longer span never gets a finer base step or a smaller divider; Mb goes with divider 1000000, kb with 1000 |
| GeneStructure.RoundDiv | structure/gene_visualizer.py:180 | Python `round(q / b)`: within half a step of the quotient, ties to even, at least 1 when q >= b |
| GeneStructure.TickStep | structure/gene_enhancer_visualizer.py:306-307 | the step is a positive multiple of the base step, never below it |
| GeneStructure.TickStepNearest | structure/gene_visualizer.py:179-180 | the step is the base step when an eighth of the span is at most that, and otherwise the base-step multiple nearest an eighth of the span |
| GeneStructure.ArangeMeaning | structure/gene_visualizer.py:186 | `np.arange`: `start + k*step` for each k while below `stop`, and no further |
| GeneStructure.IncreasingFilter | structure/gene_visualizer.py:187-188 | masking keeps increasing ticks increasing |
| GeneStructure.TickRangeMultiples | structure/gene_enhancer_visualizer.py:310-313 | the range ticks are increasing multiples of the step |
| GeneStructure.TickRangeHits | structure/gene_enhancer_visualizer.py:310-313 | every multiple of the step in the extent is a range tick |
| GeneStructure.TickPositionsMeaning | structure/gene_enhancer_visualizer.py:310-315 | the ticks are exactly the multiples of the step within [gene_start, gene_end], increasing |
| GeneStructure.Kept | structure/gene_visualizer.py:195-204 | the kept indices are indices of ticks, and the first tick is kept |
| GeneStructure.KeptIncreasing | structure/gene_visualizer.py:200-204 | the kept indices increase, so the kept ticks are a subsequence |
| GeneStructure.KeptSpaced | structure/gene_enhancer_visualizer.py:327-331 | consecutive kept ticks are at least 0.1 apart |
| GeneStructure.KeptMaximal | structure/gene_enhancer_visualizer.py:327-331 | every dropped tick lies less than 0.1 beyond the last tick kept before it |
| GeneStructure.ThinTicks | structure/gene_enhancer_visualizer.py:322-331 | the kept positions and labels are those at the indices kept from the zipped ticks, so labels stay aligned |
| GeneVisualizer.GeneSpansMeaning | structure/gene_visualizer.py:62-64 | a gene's rows are exactly those whose name equals it; a missing name selects none |
| GeneVisualizer.GeneSpansPresent | structure/gene_visualizer.py:58-62 | a present name from the exon table selects at least one exon |
| GeneVisualizer.ExtentAsWritten | structure/gene_visualizer.py:75-76 | the extent is NaN iff the gene has no promoter row, and otherwise the min/max over promoters and exons |
| GeneVisualizer.StepAsWritten | structure/gene_visualizer.py:62-76 | a drawn step belongs to the gene's name |
| GeneVisualizer.StepCorrected | structure/gene_enhancer_visualizer.py:164-167 | the corrected step never stops the loop, and a drawn step belongs to the gene's name |
| GeneVisualizer.StepsAgree | structure/gene_visualizer.py:66-188 | the loop stops at a name iff it has exon rows and no promoter row; otherwise both steps agree |
| GeneVisualizer.PlotGeneStructure | structure/gene_visualizer.py:58-245 | the loop's outcome is the modelled run: pictures saved in order, and the error that ended the loop, if any |
| GeneVisualizer.LayOutGene | structure/gene_visualizer.py:62-188 | one gene's outcome: skipped without exons, stopped on a NaN extent, otherwise laid out |
| GeneVisualizer.RunFromStops | structure/gene_visualizer.py:60-76 | the run completes iff every gene with exons has a promoter row |
| GeneVisualizer.RunFromPrefix | structure/gene_visualizer.py:60-245 | the pictures saved before a stop are a prefix of the corrected run's; without a stop they are all of them |
| GeneVisualizer.RunFromError | structure/gene_visualizer.py:186 | a stop is always numpy's arange ValueError |
| GeneVisualizer.RunAsWrittenMeaning | structure/gene_visualizer.py:58-245 | the whole run completes iff every gene has promoters, stops only with the arange error, and saves a prefix of the corrected pictures |
| GeneVisualizer.PromoterlessGeneAborts | structure/gene_visualizer.py:75-188 | a single exon with no promoter ends the run before anything is saved; the corrected run draws it over its exon |
| GeneVisualizer.PlansFromGenes | structure/gene_visualizer.py:58-67 | the corrected run draws each present name once, in order of first appearance, and a missing name never |
| GeneVisualizer.PlottedGenes | structure/gene_visualizer.py:58-67 | the corrected run draws exactly the present gene names of the exon table, in first-appearance order |
| Seqs.Unique | data_analyzer.py:13 | `unique()` lists each value once, exactly the values in the column |
| Seqs.UniqueOrder | data_analyzer.py:13 | `unique()` lists the values in the order of their first appearance in the column, as a subsequence of it |
| ExonAnalysis.GeneCountMeaning | data_analyzer.py:13 | the gene count is the number of distinct gene cells, at most the number of rows |
| ExonAnalysis.DuplicatesCount | data_analyzer.py:17 | each row value is reported once per copy after its first, so a first occurrence is never reported |
| ExonAnalysis.DuplicatesInOrder | data_analyzer.py:17 | the report is the rows that repeat an earlier row, taken in table order exactly at the positions where they repeat; it is a subsequence of the table |
| ExonAnalysis.NoDuplicates | data_analyzer.py:17-22 | nothing is reported iff no two rows are equal |
| ExonAnalysis.SortByStart | data_analyzer.py:28 | the sorted exons are the same rows, ordered by start |
| ExonAnalysis.InsertSorted | data_analyzer.py:28 | inserting into a sorted list keeps it sorted |
| ExonAnalysis.GeneExons | data_analyzer.py:28 | a gene's exons are exactly the rows with its name; a missing name selects none |
| ExonAnalysis.FindExonOverlaps | data_analyzer.py:26-41 | the nested loop's list is the overlap report: each gene in first-appearance order, its sorted neighbours checked in order |
| ExonAnalysis.CompareNeighbours | data_analyzer.py:31-41 | the inner loop appends the entries of the overlapping neighbouring pairs, in order |
| ExonAnalysis.AppendGeneOverlaps | data_analyzer.py:28-41 | one pass of the gene loop appends that gene's entries |
| ExonAnalysis.PairOverlapsCount | data_analyzer.py:31 | at most one entry per pair compared |
| ExonAnalysis.PairOverlapsSound | data_analyzer.py:32-41 | every entry is that of a neighbouring pair whose first exon ends after the second starts |
| ExonAnalysis.PairOverlapsComplete | data_analyzer.py:35-41 | every such pair has its entry |
| ExonAnalysis.GeneOverlapsCount | data_analyzer.py:30-31 | a gene with one exon or none contributes nothing, and one with n exons at most n - 1 entries |
| ExonAnalysis.GeneOverlapsSound | data_analyzer.py:28-40 | every entry of a gene names it, has size `end - next start` > 0, and comes from neighbours in start order, the first starting no later than the second |
| ExonAnalysis.GeneOverlapsComplete | data_analyzer.py:31-35 | every overlapping neighbouring pair of the sorted exons is reported |
| ExonAnalysis.SortedExonsOfGene | data_analyzer.py:28 | the sorted exons of a gene are its rows, each as often, all carrying its name |
| ExonAnalysis.OverlapsOfMembers | data_analyzer.py:27-41 | an entry is in the report iff it is an entry of one of the genes |
| ExonAnalysis.ExonOverlapsMembers | data_analyzer.py:27-41 | the report holds exactly the entries of the table's genes |
| ExonAnalysis.ExonOverlapsSound | data_analyzer.py:35-40 | each entry names a gene of the table and has a positive size |
| ExonAnalysis.NeighboursOnly | data_analyzer.py:28-35 | an exon spanning two later ones is reported against the first of them only, after rows listed out of order are sorted |

## Left out

- I/O is not modelled: `ClassPathResource`, `BufferedReader`, `pd.read_csv`, JSON loading, `os.makedirs`, `savefig` and logging. Inputs are the lines or rows already read. A read failure is a flag on the resource. A failing dataset read is an `Unreadable` dataset, and a first column that `read_csv` types as numbers or booleans is a `NotText` dataset; the type inference itself is not modelled.
- All `matplotlib` drawing is left out, and so is `compress_position`. Its floating-point ratios turn tick positions into axis coordinates. Tick thinning is modelled on exact reals, with 0.1 exact; the source uses binary floats, NaN and infinities.
- The rest of the back end (the other controllers, services, DAOs, entities and CORS configuration) is thin delegation to SQL and framework code.
- `gene_comparison.py` repeats one intersection and one difference that the gene-set model already covers.
- The data analyser's intron statistics (min, max, median, mean, quantiles, suggested threshold) and its printing are floating-point output.
- JavaText.ParseInt: reads only ASCII digits. `Integer.parseInt` also accepts other Unicode decimal digits.
- TextUtil.Lower: maps only ASCII letters. Python's `str.lower` maps all of Unicode. The only non-ASCII characters that lower into ASCII (U+0130, U+212A) cannot complete any keyword of the classifier, but other languages' letters are not lowered.
- The `HashMap` order of the hallmark list is unspecified in the source, so the model gives a set.
- GeneAnalysis.SortRows: a stable insertion sort. pandas' multi-key sort is also stable, but the order of the rows before sorting comes from set iteration, which the model fixes arbitrarily.
- GeneAnalysis.GeneAnalyzer.constructor: requires at least one file. The source takes the first path's directory as output directory and raises `IndexError` for an empty dict; that error and `save_results` are not modelled.
- ExonAnalysis.SortByStart: stable. pandas' default `sort_values` uses quicksort, which is not stable, so exons with equal starts may be compared in another order than the model's.
- GeneStructure.FormatBp: the one-decimal text of the Mb and kb labels, and tick label text, are float formatting and are not modelled beyond the unit.
- GeneStructure.RoundDiv: rounds the exact quotient. The source rounds a float quotient, which differs only above 2^53.
- The strand column and the chromosome of `iloc[0]` are taken as given: the promoter window takes the strand as a parameter, and the enhancer search takes the chromosome. The remaining columns of the drawing are not modelled.
- The structure type of each secondary-structure entry is assumed present. A missing `type` key raises `KeyError` in the source.
- The enhancer script's per-gene `try` block around drawing is not modelled. Its gene extent with the ±inf defaults is `GeneStructure.GeneExtent`, and its enhancer, tick and promoter rules are in `GeneStructure`.

## Findings

| source | as written | input that shows it | evidently intended | confidence | as-written member | corrected member |
|---|---|---|---|---|---|---|
| gene_analysis.py:97-98 | with no row at all, `pd.DataFrame([])` has no columns, so sorting it by `intersection_count` raises `KeyError` | two databases `A = {x}` and `B = {y}`: no common gene, and no three-combination | an empty table, as for any other result with fewer rows | not executed | GeneAnalysis.GeneAnalyzer.GetHighConfidenceGenesAsWritten, GeneAnalysis.RankAsWrittenDiffers, GeneAnalysis.TwoDisjointDatabasesHaveNoRows | GeneAnalysis.GeneAnalyzer.GetHighConfidenceGenes, GeneAnalysis.Rank |
| structure/gene_visualizer.py:75-188 | a gene with exons but no promoter row gets a NaN extent (`min(NaN, x)` is NaN). The tick start is then NaN, `np.arange` raises `ValueError`, and no later gene is drawn | one gene `g` with one exon and an empty promoter table | the extent of the exons alone, as the enhancer script computes with its ±inf defaults (structure/gene_enhancer_visualizer.py:164-167) | not executed | GeneVisualizer.PlotGeneStructure, GeneVisualizer.RunAsWrittenMeaning, GeneVisualizer.PromoterlessGeneAborts | GeneVisualizer.StepCorrected, GeneVisualizer.PlottedGenes |
