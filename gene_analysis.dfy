/** Gene-set intersection analysis over named pathway databases: the genes
    every database lists, the genes exactly three of them share, and a
    ranked table of both. A database's gene set is the whitespace-stripped,
    non-missing values of the first column of its table. */
module GeneAnalysis {
  import opened TextUtil
  import opened Seqs

  // ================================================================ loading

  /** What reading one database file gives: the cells of a first column read
      as text (`None` for a missing value), a first column that `read_csv`
      types as numbers or booleans, or a failure of the read. */
  datatype Dataset = Loaded(cells: seq<Option<string>>) | NotText | Unreadable

  /** The `.str` accessor works on the first column: it is a text column
      that is empty or has at least one present value. A column with rows
      but no present value is read as floating-point NaNs, and `.str` fails
      on it just as on a numeric or boolean column. */
  predicate Loads(d: Dataset) {
    d.Loaded? && (|d.cells| == 0 || exists k | 0 <= k < |d.cells| :: d.cells[k].Some?)
  }

  /** `set(column.dropna().str.strip().unique())`. */
  function GeneSetOf(cells: seq<Option<string>>): set<string> {
    set k | 0 <= k < |cells| && cells[k].Some? :: Strip(cells[k].value)
  }

  /** Every gene in a loaded set is the stripped form of a present cell, and
      no gene starts or ends with whitespace. */
  lemma GeneSetOfMeaning(cells: seq<Option<string>>)
    ensures forall g :: g in GeneSetOf(cells) <==>
              exists k | 0 <= k < |cells| :: cells[k].Some? && Strip(cells[k].value) == g
    ensures forall g | g in GeneSetOf(cells) :: |g| == 0 || (!IsSpace(g[0]) && !IsSpace(g[|g| - 1]))
  {
    forall g | g in GeneSetOf(cells) ensures |g| == 0 || (!IsSpace(g[0]) && !IsSpace(g[|g| - 1])) {
      var k :| 0 <= k < |cells| && cells[k].Some? && Strip(cells[k].value) == g;
      StripShape(cells[k].value);
    }
  }

  predicate Distinct<T(==)>(s: seq<T>) {
    forall i, j | 0 <= i < j < |s| :: s[i] != s[j]
  }

  /** The elements of a sequence of names. */
  function SetOf(s: seq<string>): set<string> {
    set x | x in s
  }

  /** The key order of a Python dict after `d[key] = …`: a new key goes last,
      an existing key keeps its place. */
  function PutKey(keys: seq<string>, key: string): (r: seq<string>)
    ensures Distinct(keys) ==> Distinct(r)
    ensures SetOf(r) == SetOf(keys) + {key}
  {
    if key in keys then keys else keys + [key]
  }

  /** Dict keys in insertion order, and the sets stored under them. */
  datatype GeneSets = GeneSets(names: seq<string>, sets: map<string, set<string>>)

  ghost predicate WellFormed(g: GeneSets) {
    Distinct(g.names) && SetOf(g.names) == g.sets.Keys
  }

  /** One iteration of the loading loop: a dataset whose column loads is
      stored under its name; any other dataset raises inside the `try` and
      is skipped. */
  function LoadStep(g: GeneSets, entry: (string, Dataset)): GeneSets {
    if Loads(entry.1) then GeneSets(PutKey(g.names, entry.0), g.sets[entry.0 := GeneSetOf(entry.1.cells)])
    else g
  }

  /** The gene sets after loading the given (name, dataset) entries in order. */
  function LoadAll(g: GeneSets, entries: seq<(string, Dataset)>): GeneSets {
    if |entries| == 0 then g else LoadStep(LoadAll(g, entries[..|entries| - 1]), entries[|entries| - 1])
  }

  /** Loading keeps the dict well formed: its keys are its names, once each. */
  lemma {:induction false} LoadAllWellFormed(g: GeneSets, entries: seq<(string, Dataset)>)
    requires WellFormed(g)
    ensures WellFormed(LoadAll(g, entries))
  {
    if |entries| > 0 {
      LoadAllWellFormed(g, entries[..|entries| - 1]);
    }
  }

  /** After loading, a name has a set exactly when it had one before or the
      column of one of its entries loads. */
  lemma {:induction false} LoadAllKeys(g: GeneSets, entries: seq<(string, Dataset)>)
    ensures forall n :: n in LoadAll(g, entries).sets <==>
              n in g.sets || exists k | 0 <= k < |entries| :: entries[k].0 == n && Loads(entries[k].1)
  {
    if |entries| > 0 {
      var init := entries[..|entries| - 1];
      LoadAllKeys(g, init);
      assert forall k | 0 <= k < |init| :: init[k] == entries[k];
    }
  }

  /** A loading dataset's set is stored under its name, unless a later entry
      with the same name was loaded over it; names without entries keep their
      sets. */
  lemma {:induction false} LoadAllValues(g: GeneSets, entries: seq<(string, Dataset)>)
    ensures forall k | 0 <= k < |entries| && Loads(entries[k].1) &&
                       (forall j | k < j < |entries| :: entries[j].0 != entries[k].0) ::
              entries[k].0 in LoadAll(g, entries).sets &&
              LoadAll(g, entries).sets[entries[k].0] == GeneSetOf(entries[k].1.cells)
    ensures forall n | n in g.sets && (forall k | 0 <= k < |entries| :: entries[k].0 != n) ::
              n in LoadAll(g, entries).sets && LoadAll(g, entries).sets[n] == g.sets[n]
  {
    if |entries| > 0 {
      var init := entries[..|entries| - 1];
      LoadAllValues(g, init);
      assert forall k | 0 <= k < |init| :: init[k] == entries[k];
    }
  }

  /** A column with rows but no present value is not loaded, so it cannot
      empty the intersection of the sets that are. */
  lemma EmptyColumnSkipped()
    ensures LoadAll(GeneSets([], map[]), [("A", Loaded([Some("x")])), ("B", Loaded([None]))]).sets
            == map["A" := {"x"}]
  {
    var e := [("A", Loaded([Some("x")])), ("B", Loaded([None]))];
    var g0 := GeneSets([], map[]);
    assert e[..1][..0] == [];
    assert !IsSpace('x');
    assert StripLeft("x") == "x";
    assert StripRight("x") == "x";
    var cells: seq<Option<string>> := [Some("x")];
    assert Strip(cells[0].value) == "x";
    assert GeneSetOf(cells) == {"x"};
    assert LoadAll(g0, e[..1]) == LoadStep(g0, e[0]);
    assert Loads(e[0].1);
    assert LoadAll(g0, e[..1]).sets == map["A" := {"x"}];
    assert !Loads(e[1].1);
    assert LoadAll(g0, e) == LoadStep(LoadAll(g0, e[..1]), e[1]);
  }

  // ================================================================ intersections

  /** `set.intersection(*(sets[n] for n in names))`, and the empty set for no
      names at all. */
  function AllIntersection(names: seq<string>, sets: map<string, set<string>>): (r: set<string>)
    requires forall n | n in names :: n in sets
    ensures |names| == 0 ==> r == {}
    ensures |names| > 0 ==> forall g :: g in r <==> forall k | 0 <= k < |names| :: g in sets[names[k]]
  {
    if |names| <= 1 then (if |names| == 0 then {} else sets[names[0]])
    else sets[names[0]] * AllIntersection(names[1..], sets)
  }

  /** The order of the names does not matter. */
  lemma IntersectionOrderFree(names: seq<string>, others: seq<string>, sets: map<string, set<string>>)
    requires forall n | n in names :: n in sets
    requires SetOf(names) == SetOf(others)
    ensures forall n | n in others :: n in sets
    ensures AllIntersection(names, sets) == AllIntersection(others, sets)
  {
    assert forall n | n in others :: n in names by {
      forall n | n in others ensures n in names { assert n in SetOf(others); }
    }
    assert forall n | n in names :: n in others by {
      forall n | n in names ensures n in others { assert n in SetOf(names); }
    }
    assert |names| == 0 <==> |others| == 0 by {
      if |names| > 0 { assert names[0] in names; }
      if |others| > 0 { assert others[0] in others; }
    }
  }

  // ================================================================ combinations

  function PrependAll<T>(x: T, cs: seq<seq<T>>): (r: seq<seq<T>>)
    ensures |r| == |cs| && forall i | 0 <= i < |cs| :: r[i] == [x] + cs[i]
  {
    seq(|cs|, i requires 0 <= i < |cs| => [x] + cs[i])
  }

  /** `itertools.combinations(s, k)`: every choice of k elements in their
      order in `s`, those with `s[0]` first. */
  function Combos<T>(s: seq<T>, k: nat): seq<seq<T>>
    decreases |s|
  {
    if k == 0 then [[]]
    else if |s| == 0 then []
    else PrependAll(s[0], Combos(s[1..], k - 1)) + Combos(s[1..], k)
  }

  function Binomial(n: nat, k: nat): nat {
    if k == 0 then 1 else if n == 0 then 0 else Binomial(n - 1, k - 1) + Binomial(n - 1, k)
  }

  /** There are n-choose-k combinations. */
  lemma {:induction false} CombosCount<T>(s: seq<T>, k: nat)
    ensures |Combos(s, k)| == Binomial(|s|, k)
    decreases |s|
  {
    if k > 0 && |s| > 0 {
      CombosCount(s[1..], k - 1);
      CombosCount(s[1..], k);
      var withHead := PrependAll(s[0], Combos(s[1..], k - 1));
      assert |withHead| == Binomial(|s| - 1, k - 1);
      assert Combos(s, k) == withHead + Combos(s[1..], k);
    }
  }

  /** Each combination has k elements taken from `s` in order. */
  lemma CombosShape<T>(s: seq<T>, k: nat)
    ensures forall c | c in Combos(s, k) :: |c| == k && IsSubsequence(c, s)
  {
    forall c | c in Combos(s, k) ensures |c| == k && IsSubsequence(c, s) {
      var i :| 0 <= i < |Combos(s, k)| && Combos(s, k)[i] == c;
      ComboAt(s, k, i);
    }
  }

  lemma {:induction false} ComboAt<T>(s: seq<T>, k: nat, i: nat)
    requires i < |Combos(s, k)|
    ensures |Combos(s, k)[i]| == k && IsSubsequence(Combos(s, k)[i], s)
    decreases |s|
  {
    if k == 0 {
      assert SubsequenceBy<T>([], s, []);
    } else {
      var tails := Combos(s[1..], k - 1);
      if i < |tails| {
        ComboAt(s[1..], k - 1, i);
        assert Combos(s, k)[i] == [s[0]] + tails[i];
        ShiftedSubsequence(s, tails[i], true);
      } else {
        ComboAt(s[1..], k, i - |tails|);
        assert Combos(s, k)[i] == Combos(s[1..], k)[i - |tails|];
        ShiftedSubsequence(s, Combos(s[1..], k)[i - |tails|], false);
      }
    }
  }

  /** A subsequence of `s[1..]` is one of `s`, and with `s[0]` in front it
      still is. */
  lemma ShiftedSubsequence<T>(s: seq<T>, c: seq<T>, withHead: bool)
    requires |s| > 0 && IsSubsequence(c, s[1..])
    ensures IsSubsequence(if withHead then [s[0]] + c else c, s)
  {
    var idx :| SubsequenceBy(c, s[1..], idx);
    var shifted := seq(|idx|, i requires 0 <= i < |idx| => idx[i] + 1);
    if withHead {
      assert SubsequenceBy([s[0]] + c, s, [0] + shifted);
    } else {
      assert SubsequenceBy(c, s, shifted);
    }
  }

  /** The elements of a combination are elements of `s`. */
  lemma ComboMembers<T>(s: seq<T>, k: nat, c: seq<T>)
    requires c in Combos(s, k)
    ensures |c| == k && forall x | x in c :: x in s
  {
    CombosShape(s, k);
    var idx :| SubsequenceBy(c, s, idx);
    forall x | x in c ensures x in s {
      var i :| 0 <= i < |c| && c[i] == x;
      assert s[idx[i]] == x;
    }
  }

  // ================================================================ trio table

  /** A combination's dict key: its names joined with `" & "`. */
  function Label(combo: seq<string>): string {
    Join(combo, " & ")
  }

  /** A Python dict of string keys in insertion order. */
  type Table = seq<(string, set<string>)>

  function Keys(t: Table): seq<string> {
    seq(|t|, i requires 0 <= i < |t| => t[i].0)
  }

  /** Where `key` first sits in `t`. */
  function KeyIndex(t: Table, key: string): (i: nat)
    requires key in Keys(t)
    ensures i < |t| && t[i].0 == key
  {
    if t[0].0 == key then 0
    else
      assert Keys(t) == [t[0].0] + Keys(t[1..]);
      1 + KeyIndex(t[1..], key)
  }

  /** `t[key] = value`: an existing key keeps its place and takes the new
      value; a new key goes last. */
  function OrderedPut(t: Table, key: string, value: set<string>): (r: Table)
    ensures forall i | 0 <= i < |r| :: r[i].0 == key || r[i] in t
    ensures (key, value) in r && key in Keys(r)
    ensures forall n | n in Keys(t) :: n in Keys(r)
    ensures forall n | n in Keys(r) :: n in Keys(t) || n == key
    ensures Distinct(Keys(t)) ==> Distinct(Keys(r)) && forall e | e in t && e.0 != key :: e in r
    ensures key !in Keys(t) ==> r == t + [(key, value)]
  {
    if key in Keys(t) then
      var i := KeyIndex(t, key);
      var r := t[i := (key, value)];
      assert Keys(r) == Keys(t);
      assert r[i] == (key, value);
      assert Distinct(Keys(t)) ==> forall e | e in t && e.0 != key :: e in r by {
        if Distinct(Keys(t)) {
          forall e | e in t && e.0 != key ensures e in r {
            var j :| 0 <= j < |t| && t[j] == e;
            assert Keys(t)[j] != Keys(t)[i];
            assert r[j] == e;
          }
        }
      }
      r
    else
      var r := t + [(key, value)];
      assert Keys(r) == Keys(t) + [key];
      assert r[|t|] == (key, value);
      r
  }

  /** The genes the three named sets share that are not in every set. */
  function TrioGenes(combo: seq<string>, sets: map<string, set<string>>, all: set<string>): set<string>
    requires forall n | n in combo :: n in sets
  {
    AllIntersection(combo, sets) - all
  }

  predicate CombosIn(cs: seq<seq<string>>, sets: map<string, set<string>>) {
    forall i | 0 <= i < |cs| :: forall n | n in cs[i] :: n in sets
  }

  /** The trio dict after processing the given combinations in order: a
      combination with a non-empty set of trio genes is stored under its
      label. */
  function TrioTable(cs: seq<seq<string>>, sets: map<string, set<string>>, all: set<string>): Table
    requires CombosIn(cs, sets)
  {
    if |cs| == 0 then []
    else
      var prev := TrioTable(cs[..|cs| - 1], sets, all);
      var c := cs[|cs| - 1];
      var genes := TrioGenes(c, sets, all);
      if genes != {} then OrderedPut(prev, Label(c), genes) else prev
  }

  /** One more combination processed. */
  lemma TrioTableStep(cs: seq<seq<string>>, i: nat, sets: map<string, set<string>>, all: set<string>)
    requires CombosIn(cs, sets) && i < |cs|
    ensures CombosIn(cs[..i], sets) && CombosIn(cs[..i + 1], sets)
    ensures var prev := TrioTable(cs[..i], sets, all);
            var genes := TrioGenes(cs[i], sets, all);
            TrioTable(cs[..i + 1], sets, all) == if genes != {} then OrderedPut(prev, Label(cs[i]), genes) else prev
  {
    assert cs[..i + 1][..i] == cs[..i];
  }

  /** The dict the analysis reports: one pass over the 3-combinations of the
      loaded names. */
  function TrioIntersections(g: GeneSets): Table
    requires WellFormed(g)
  {
    CombosInNames(g);
    TrioTable(Combos(g.names, 3), g.sets, AllIntersection(g.names, g.sets))
  }

  lemma CombosInNames(g: GeneSets)
    requires WellFormed(g)
    ensures CombosIn(Combos(g.names, 3), g.sets)
    ensures forall n | n in g.names :: n in g.sets
  {
    var cs := Combos(g.names, 3);
    forall i | 0 <= i < |cs| ensures forall n | n in cs[i] :: n in g.sets {
      var c := cs[i];
      ComboMembers(g.names, 3, c);
      forall n | n in c ensures n in g.sets { assert n in SetOf(g.names); }
    }
    forall n | n in g.names ensures n in g.sets { assert n in SetOf(g.names); }
  }

  /** Every entry comes from a combination: its key is that combination's
      label, its genes are in all three of its sets and not in the all-set
      intersection, and there is at least one. The keys are distinct. */
  lemma {:induction false} TrioTableSound(cs: seq<seq<string>>, sets: map<string, set<string>>, all: set<string>)
    requires CombosIn(cs, sets)
    ensures Distinct(Keys(TrioTable(cs, sets, all)))
    ensures forall e | e in TrioTable(cs, sets, all) ::
              e.1 != {} && exists c | c in cs :: Label(c) == e.0 && e.1 == TrioGenes(c, sets, all)
  {
    if |cs| > 0 {
      var init := cs[..|cs| - 1];
      TrioTableSound(init, sets, all);
      assert forall c | c in init :: c in cs;
    }
  }

  /** Every combination whose trio genes are not empty has an entry under its
      label. */
  lemma {:induction false} TrioTableComplete(cs: seq<seq<string>>, sets: map<string, set<string>>, all: set<string>)
    requires CombosIn(cs, sets)
    ensures forall i | 0 <= i < |cs| && TrioGenes(cs[i], sets, all) != {} ::
              Label(cs[i]) in Keys(TrioTable(cs, sets, all))
  {
    if |cs| > 0 {
      var init := cs[..|cs| - 1];
      TrioTableComplete(init, sets, all);
      assert forall i | 0 <= i < |init| :: init[i] == cs[i];
    }
  }

  /** The kept combinations with their trio genes, in combination order. */
  function NonEmptyTrios(cs: seq<seq<string>>, sets: map<string, set<string>>, all: set<string>): Table
    requires CombosIn(cs, sets)
  {
    if |cs| == 0 then []
    else
      var c := cs[|cs| - 1];
      var genes := TrioGenes(c, sets, all);
      NonEmptyTrios(cs[..|cs| - 1], sets, all) + (if genes != {} then [(Label(c), genes)] else [])
  }

  /** When no two combinations share a label (no name contains `" & "`, for
      instance), the dict holds one entry per combination with trio genes,
      in combination order. */
  lemma {:induction false} TrioTableInOrder(cs: seq<seq<string>>, sets: map<string, set<string>>, all: set<string>)
    requires CombosIn(cs, sets)
    requires forall i, j | 0 <= i < j < |cs| :: Label(cs[i]) != Label(cs[j])
    ensures TrioTable(cs, sets, all) == NonEmptyTrios(cs, sets, all)
  {
    if |cs| > 0 {
      var init := cs[..|cs| - 1];
      TrioTableInOrder(init, sets, all);
      var c := cs[|cs| - 1];
      if TrioGenes(c, sets, all) != {} {
        TrioTableSound(init, sets, all);
      }
    }
  }

  // ================================================================ ranking

  /** One row of the high-confidence table. */
  datatype ConfidenceRow = ConfidenceRow(geneSymbol: string, databases: string, intersectionCount: int)

  const AllDatabases: string := "All Databases"

  /** The table's order: count descending, then gene symbol ascending. */
  predicate RankedBefore(a: ConfidenceRow, b: ConfidenceRow) {
    a.intersectionCount > b.intersectionCount
    || (a.intersectionCount == b.intersectionCount && StrLe(a.geneSymbol, b.geneSymbol))
  }

  predicate Ranked(rows: seq<ConfidenceRow>) {
    forall i, j | 0 <= i < j < |rows| :: RankedBefore(rows[i], rows[j])
  }

  lemma RankedBeforeTotal(a: ConfidenceRow, b: ConfidenceRow)
    ensures RankedBefore(a, b) || RankedBefore(b, a)
  {
    StrLeTotal(a.geneSymbol, b.geneSymbol);
  }

  lemma RankedBeforeTransitive(a: ConfidenceRow, b: ConfidenceRow, c: ConfidenceRow)
    requires RankedBefore(a, b) && RankedBefore(b, c)
    ensures RankedBefore(a, c)
  {
    if a.intersectionCount == b.intersectionCount == c.intersectionCount {
      StrLeTransitive(a.geneSymbol, b.geneSymbol, c.geneSymbol);
    }
  }

  /** `row` placed into ranked `rows` before the first row it ranks before. */
  function InsertRow(row: ConfidenceRow, rows: seq<ConfidenceRow>): (r: seq<ConfidenceRow>)
    ensures multiset(r) == multiset(rows) + multiset{row}
  {
    if |rows| == 0 then [row]
    else if RankedBefore(row, rows[0]) then [row] + rows
    else
      assert rows == [rows[0]] + rows[1..];
      [rows[0]] + InsertRow(row, rows[1..])
  }

  lemma {:induction false} InsertRowRanked(row: ConfidenceRow, rows: seq<ConfidenceRow>)
    requires Ranked(rows)
    ensures Ranked(InsertRow(row, rows))
  {
    if |rows| > 0 {
      if RankedBefore(row, rows[0]) {
        forall j | 0 < j <= |rows| ensures RankedBefore(([row] + rows)[0], ([row] + rows)[j]) {
          if j > 1 { RankedBeforeTransitive(row, rows[0], rows[j - 1]); }
        }
      } else {
        RankedBeforeTotal(row, rows[0]);
        InsertRowRanked(row, rows[1..]);
        var rest := InsertRow(row, rows[1..]);
        assert forall x | x in multiset(rest) :: x == row || x in rows[1..] by {
          forall x | x in multiset(rest) ensures x == row || x in rows[1..] {
            assert x in multiset(rows[1..]) + multiset{row};
          }
        }
        forall j | 0 <= j < |rest| ensures RankedBefore(rows[0], rest[j]) {
          assert rest[j] in multiset(rest);
          if rest[j] != row {
            var k :| 1 <= k < |rows| && rows[k] == rest[j];
            assert RankedBefore(rows[0], rows[k]);
          }
        }
      }
    }
  }

  /** The table sorted by `sort_values(['intersection_count', 'gene_symbol'],
      ascending=[False, True])`. */
  function SortRows(rows: seq<ConfidenceRow>): (r: seq<ConfidenceRow>)
    ensures multiset(r) == multiset(rows)
  {
    if |rows| == 0 then []
    else
      assert rows == [rows[0]] + rows[1..];
      InsertRow(rows[0], SortRows(rows[1..]))
  }

  /** The sorted table is ranked. */
  lemma {:induction false} SortRowsRanked(rows: seq<ConfidenceRow>)
    ensures Ranked(SortRows(rows))
  {
    if |rows| > 0 {
      SortRowsRanked(rows[1..]);
      InsertRowRanked(rows[0], SortRows(rows[1..]));
    }
  }

  /** An all-set gene's row: count 4 under `"All Databases"`. */
  ghost predicate AllRow(row: ConfidenceRow, all: set<string>) {
    row.intersectionCount == 4 && row.databases == AllDatabases && row.geneSymbol in all
  }

  /** A row for a gene of one of the first `k` trio entries: count 3 under
      that entry's label. */
  ghost predicate TrioRow(row: ConfidenceRow, trios: Table, k: nat) {
    row.intersectionCount == 3 && exists m | 0 <= m < k && m < |trios| ::
      trios[m].0 == row.databases && row.geneSymbol in trios[m].1
  }

  /** The rows the table is built from: every all-set gene with count 4, and
      every gene of a trio entry with that entry's label and count 3. */
  ghost predicate IsConfidenceRow(row: ConfidenceRow, all: set<string>, trios: Table) {
    AllRow(row, all) || TrioRow(row, trios, |trios|)
  }

  lemma TrioRowStep(trios: Table, k: nat, row: ConfidenceRow)
    requires k < |trios|
    ensures TrioRow(row, trios, k + 1) <==>
              TrioRow(row, trios, k) ||
              (row.intersectionCount == 3 && row.databases == trios[k].0 && row.geneSymbol in trios[k].1)
  {
  }

  /** With distinct keys, entry k's rows are not among the earlier entries'. */
  lemma TrioRowFresh(trios: Table, k: nat, gene: string)
    requires Distinct(Keys(trios)) && k < |trios|
    ensures !TrioRow(ConfidenceRow(gene, trios[k].0, 3), trios, k)
  {
    forall m | 0 <= m < k ensures trios[m].0 != trios[k].0 {
      assert Keys(trios)[m] != Keys(trios)[k];
    }
  }

  predicate NoDuplicates<T(==)>(s: seq<T>) {
    forall x | x in multiset(s) :: multiset(s)[x] == 1
  }

  /** A gene never gets both counts: trio genes exclude the all-set ones. */
  lemma CountsExclusive(g: GeneSets, a: ConfidenceRow, b: ConfidenceRow)
    requires WellFormed(g)
    requires CombosIn(Combos(g.names, 3), g.sets) && forall n | n in g.names :: n in g.sets
    requires IsConfidenceRow(a, AllIntersection(g.names, g.sets), TrioIntersections(g))
    requires IsConfidenceRow(b, AllIntersection(g.names, g.sets), TrioIntersections(g))
    requires a.intersectionCount == 4 && b.intersectionCount == 3
    ensures a.geneSymbol != b.geneSymbol
  {
    var all := AllIntersection(g.names, g.sets);
    var cs := Combos(g.names, 3);
    TrioTableSound(cs, g.sets, all);
    var t := TrioIntersections(g);
    var k :| 0 <= k < |t| && t[k].0 == b.databases && b.geneSymbol in t[k].1;
    assert t[k] in t;
  }

  /** The outcome of the table step as the code stands: with no rows at all,
      sorting a column-less frame by `intersection_count` raises KeyError. */
  function RankAsWritten(rows: seq<ConfidenceRow>): Result<seq<ConfidenceRow>> {
    if |rows| == 0 then Failure("KeyError: 'intersection_count'") else Success(SortRows(rows))
  }

  /** The intended outcome: the ranked table, empty for no rows, with the
      same rows. */
  function Rank(rows: seq<ConfidenceRow>): (r: seq<ConfidenceRow>)
    ensures Ranked(r) && multiset(r) == multiset(rows)
    ensures |rows| == 0 ==> r == []
  {
    SortRowsRanked(rows);
    SortRows(rows)
  }

  /** Both agree whenever there is a row; with none, the code fails where an
      empty table is meant. */
  lemma RankAsWrittenDiffers(rows: seq<ConfidenceRow>)
    ensures |rows| > 0 ==> RankAsWritten(rows) == Success(Rank(rows))
    ensures |rows| == 0 ==> RankAsWritten(rows).Failure? && Rank(rows) == []
  {
  }

  /** Two databases sharing no gene have an empty all-set intersection and no
      trios, so the ranked table of such an analysis has no rows. */
  lemma TwoDisjointDatabasesHaveNoRows()
    ensures var g := GeneSets(["A", "B"], map["A" := {"x"}, "B" := {"y"}]);
            WellFormed(g) && AllIntersection(g.names, g.sets) == {} && TrioIntersections(g) == []
  {
    var g := GeneSets(["A", "B"], map["A" := {"x"}, "B" := {"y"}]);
    assert SetOf(g.names) == {"A", "B"};
    assert Combos(["B"], 2) == [] by { assert Combos<string>([], 1) == []; assert Combos<string>([], 2) == []; }
    assert Combos(["A", "B"], 3) == [] by {
      assert ["A", "B"][1..] == ["B"];
      assert Combos(["B"], 3) == [] by { assert ["B"][1..] == []; }
    }
    assert "x" !in AllIntersection(g.names, g.sets);
  }

  // ================================================================ analyzer

  /** The analyzer: the database files it was given, in order, and the gene
      sets loaded from them. */
  class GeneAnalyzer {
    const filePaths: seq<(string, Dataset)>
    var names: seq<string>
    var geneSets: map<string, set<string>>

    ghost predicate Valid()
      reads this
    {
      WellFormed(GeneSets(names, geneSets))
    }

    function State(): GeneSets
      reads this
    {
      GeneSets(names, geneSets)
    }

    /** Takes the directory of the first file as output directory, so at
        least one file is needed, then loads every dataset. */
    constructor (filePaths: seq<(string, Dataset)>)
      requires |filePaths| > 0
      ensures Valid() && this.filePaths == filePaths
      ensures State() == LoadAll(GeneSets([], map[]), filePaths)
    {
      this.filePaths := filePaths;
      names := [];
      geneSets := map[];
      new;
      LoadData();
    }

    /** `load_data`: stores each loading dataset's gene set under its name,
        in file order; the others are reported and skipped. */
    method LoadData()
      requires Valid()
      modifies this
      ensures Valid()
      ensures State() == LoadAll(old(State()), filePaths)
    {
      ghost var start := State();
      var i := 0;
      while i < |filePaths|
        invariant 0 <= i <= |filePaths|
        invariant State() == LoadAll(start, filePaths[..i])
        invariant WellFormed(State())
      {
        var (dbName, dataset) := filePaths[i];
        assert filePaths[..i + 1][..i] == filePaths[..i];
        if Loads(dataset) {
          geneSets := geneSets[dbName := GeneSetOf(dataset.cells)];
          names := PutKey(names, dbName);
        }
        i := i + 1;
      }
      assert filePaths[..|filePaths|] == filePaths;
    }

    /** `find_intersections`: the genes in every loaded set; none when no set
        is loaded. */
    function FindIntersections(): (r: set<string>)
      reads this
      requires Valid()
      ensures geneSets == map[] ==> r == {}
      ensures geneSets != map[] ==> forall g :: g in r <==> forall n | n in geneSets :: g in geneSets[n]
    {
      CombosInNames(State());
      AllIntersection(names, geneSets)
    }

    /** `find_three_dataset_intersections`, one combination at a time. */
    method FindThreeDatasetIntersections() returns (results: Table)
      requires Valid()
      ensures results == TrioIntersections(State())
    {
      CombosInNames(State());
      var allIntersection := FindIntersections();
      results := TrioLoop(Combos(names, 3), geneSets, allIntersection);
    }

    /** The rows of the table before sorting: the all-set genes (in the set's
        iteration order), then each trio entry's genes. */
    method CollectRows() returns (rows: seq<ConfidenceRow>)
      requires Valid()
      ensures NoDuplicates(rows)
      ensures forall row :: row in rows <==>
                IsConfidenceRow(row, FindIntersections(), TrioIntersections(State()))
    {
      var allIntersection := FindIntersections();
      var trios := FindThreeDatasetIntersections();
      CombosInNames(State());
      TrioTableSound(Combos(names, 3), geneSets, allIntersection);
      rows := GatherRows(allIntersection, trios);
    }

    /** `get_high_confidence_genes` as the code stands. */
    method GetHighConfidenceGenesAsWritten() returns (table: Result<seq<ConfidenceRow>>)
      requires Valid()
      ensures table.Failure? <==> FindIntersections() == {} && TrioIntersections(State()) == []
      ensures table.Success? ==> Ranked(table.value) && NoDuplicates(table.value)
      ensures table.Success? ==> forall row :: row in table.value <==>
                IsConfidenceRow(row, FindIntersections(), TrioIntersections(State()))
    {
      var rows := CollectRows();
      NoRowsIff(this, rows);
      table := RankAsWritten(rows);
      SortRowsRanked(rows);
      assert table.Success? ==> multiset(table.value) == multiset(rows);
      assert forall row :: row in rows <==> row in multiset(rows);
    }

    /** `get_high_confidence_genes` as intended: the rows ranked by count
        descending, then gene symbol; an empty table when there are none. */
    method GetHighConfidenceGenes() returns (table: seq<ConfidenceRow>)
      requires Valid()
      ensures Ranked(table) && NoDuplicates(table)
      ensures forall row :: row in table <==>
                IsConfidenceRow(row, FindIntersections(), TrioIntersections(State()))
    {
      var rows := CollectRows();
      table := Rank(rows);
      assert forall row :: row in rows <==> row in multiset(rows);
    }
  }

  /** The loop of `find_three_dataset_intersections` over the combinations
      `combos`: a combination whose genes are in all its three sets and not
      in `all` is stored under its label. */
  method TrioLoop(combos: seq<seq<string>>, sets: map<string, set<string>>, all: set<string>) returns (results: Table)
    requires CombosIn(combos, sets)
    ensures results == TrioTable(combos, sets, all)
  {
    results := [];
    var i := 0;
    while i < |combos|
      invariant 0 <= i <= |combos|
      invariant CombosIn(combos[..i], sets)
      invariant results == TrioTable(combos[..i], sets, all)
    {
      var combo := combos[i];
      TrioTableStep(combos, i, sets, all);
      var intersection := AllIntersection(combo, sets);
      var uniqueToThree := intersection - all;
      if uniqueToThree != {} {
        results := OrderedPut(results, Label(combo), uniqueToThree);
      }
      i := i + 1;
    }
    assert combos[..|combos|] == combos;
  }

  /** The first loop of `get_high_confidence_genes`: one count-4 row per
      all-set gene, in the set's iteration order. */
  method AllRows(all: set<string>) returns (rows: seq<ConfidenceRow>)
    ensures NoDuplicates(rows)
    ensures forall row :: row in rows <==> AllRow(row, all)
  {
    rows := [];
    var remaining := all;
    while remaining != {}
      invariant remaining <= all
      invariant NoDuplicates(rows)
      invariant forall row :: row in rows <==> AllRow(row, all - remaining)
      decreases remaining
    {
      var gene :| gene in remaining;
      AppendFresh(rows, ConfidenceRow(gene, AllDatabases, 4));
      rows := rows + [ConfidenceRow(gene, AllDatabases, 4)];
      remaining := remaining - {gene};
    }
    assert all - remaining == all;
  }

  /** The inner loop over trio entry `k`: one count-3 row per gene, under
      the entry's label. */
  method AppendTrioRows(rows: seq<ConfidenceRow>, all: set<string>, trios: Table, k: nat)
    returns (rows': seq<ConfidenceRow>)
    requires Distinct(Keys(trios)) && k < |trios|
    requires NoDuplicates(rows)
    requires forall row :: row in rows <==> AllRow(row, all) || TrioRow(row, trios, k)
    ensures NoDuplicates(rows')
    ensures forall row :: row in rows' <==> AllRow(row, all) || TrioRow(row, trios, k + 1)
  {
    var (combo, genes) := trios[k];
    rows' := rows;
    var left := genes;
    while left != {}
      invariant left <= genes
      invariant NoDuplicates(rows')
      invariant forall row :: row in rows' <==>
                  AllRow(row, all) || TrioRow(row, trios, k)
                  || (row.intersectionCount == 3 && row.databases == combo && row.geneSymbol in genes - left)
      decreases left
    {
      var gene :| gene in left;
      var row := ConfidenceRow(gene, combo, 3);
      TrioRowFresh(trios, k, gene);
      AppendFresh(rows', row);
      rows' := rows' + [row];
      left := left - {gene};
    }
    forall row ensures TrioRow(row, trios, k + 1) <==>
             TrioRow(row, trios, k) ||
             (row.intersectionCount == 3 && row.databases == combo && row.geneSymbol in genes) {
      TrioRowStep(trios, k, row);
    }
  }

  /** Both loops of `get_high_confidence_genes` that build the rows. */
  method GatherRows(all: set<string>, trios: Table) returns (rows: seq<ConfidenceRow>)
    requires Distinct(Keys(trios))
    ensures NoDuplicates(rows)
    ensures forall row :: row in rows <==> IsConfidenceRow(row, all, trios)
  {
    rows := AllRows(all);
    var k := 0;
    while k < |trios|
      invariant 0 <= k <= |trios|
      invariant NoDuplicates(rows)
      invariant forall row :: row in rows <==> AllRow(row, all) || TrioRow(row, trios, k)
    {
      rows := AppendTrioRows(rows, all, trios, k);
      k := k + 1;
    }
  }

  /** Appending a row that is not there keeps the rows free of duplicates. */
  lemma AppendFresh(rows: seq<ConfidenceRow>, row: ConfidenceRow)
    requires NoDuplicates(rows) && row !in rows
    ensures NoDuplicates(rows + [row])
  {
    assert multiset(rows + [row]) == multiset(rows) + multiset{row};
  }

  /** The collected rows are empty exactly when the two sources are. */
  lemma NoRowsIff(a: GeneAnalyzer, rows: seq<ConfidenceRow>)
    requires a.Valid()
    requires forall row :: row in rows <==> IsConfidenceRow(row, a.FindIntersections(), TrioIntersections(a.State()))
    ensures |rows| == 0 <==> a.FindIntersections() == {} && TrioIntersections(a.State()) == []
  {
    var all := a.FindIntersections();
    var t := TrioIntersections(a.State());
    if all != {} {
      var gene :| gene in all;
      assert AllRow(ConfidenceRow(gene, AllDatabases, 4), all);
      assert ConfidenceRow(gene, AllDatabases, 4) in rows;
    } else if t != [] {
      CombosInNames(a.State());
      TrioTableSound(Combos(a.names, 3), a.geneSets, all);
      assert t[0] in t;
      var gene :| gene in t[0].1;
      assert TrioRow(ConfidenceRow(gene, t[0].0, 3), t, |t|);
      assert ConfidenceRow(gene, t[0].0, 3) in rows;
    }
    if |rows| > 0 {
      assert IsConfidenceRow(rows[0], all, t);
      if AllRow(rows[0], all) {
        assert rows[0].geneSymbol in all;
      } else {
        var m :| 0 <= m < |t| && t[m].0 == rows[0].databases && rows[0].geneSymbol in t[m].1;
        assert t[m] in t;
      }
    }
  }
}
