/** The integer and order rules inside the two gene-structure plotting
    scripts: which intron rows are kept, chromosome renaming, the enhancer
    search window, the promoter window around a transcription start site
    (TSS), the unit of a length label, the gene extent on the axis, and the
    choice, placement and thinning of the axis ticks. */
module GeneStructure {
  import opened TextUtil
  import opened Seqs

  // ---------------------------------------------------------------- introns

  /** An intron row: its gene and its chromosome coordinates. */
  datatype Intron = Intron(gene: string, start: int, end: int)

  predicate PositiveLength(i: Intron) {
    i.end > i.start
  }

  /** `read_gene_data`: a non-empty intron table loses the rows whose end
      does not lie after their start. */
  function FilterIntrons(introns: seq<Intron>): seq<Intron> {
    if |introns| == 0 then introns else Filter(introns, PositiveLength)
  }

  /** The kept rows are exactly those of positive length, in table order;
      the emptiness guard changes nothing, and filtering twice is filtering
      once. */
  lemma IntronFilterMeaning(introns: seq<Intron>)
    ensures forall i :: i in FilterIntrons(introns) <==> i in introns && i.end > i.start
    ensures IsSubsequence(FilterIntrons(introns), introns)
    ensures FilterIntrons(introns) == Filter(introns, PositiveLength)
    ensures FilterIntrons(FilterIntrons(introns)) == FilterIntrons(introns)
  {
    FilterIsSubsequence(introns, PositiveLength);
    FilterIdempotent(introns, PositiveLength);
  }

  // ---------------------------------------------------------------- chromosome names

  /** Python's `name.replace("chr", "")`: every occurrence is removed,
      scanning left to right without overlaps, in a single pass. */
  function StripChr(name: string): (r: string)
    ensures |r| <= |name|
  {
    if |name| >= 3 && name[..3] == "chr" then StripChr(name[3..])
    else if |name| == 0 then ""
    else [name[0]] + StripChr(name[1..])
  }

  /** A name without `chr` is left alone. */
  lemma {:induction false} StripChrUnchanged(name: string)
    requires !Contains(name, "chr")
    ensures StripChr(name) == name
  {
    if |name| > 0 {
      assert OccursAt(name, "chr", 0) == (|name| >= 3 && name[..3] == "chr");
      forall i: nat | i <= |name[1..]|
        ensures OccursAt(name[1..], "chr", i) == OccursAt(name, "chr", i + 1)
      {
        if i + 3 <= |name[1..]| {
          assert name[1..][i..i + 3] == name[i + 1..i + 4];
        }
      }
      StripChrUnchanged(name[1..]);
      assert name == [name[0]] + name[1..];
    }
  }

  /** A name with `chr` in it gets shorter. */
  lemma {:induction false} StripChrShortens(name: string)
    requires Contains(name, "chr")
    ensures |StripChr(name)| < |name|
  {
    var i: nat :| i <= |name| && OccursAt(name, "chr", i);
    if !(|name| >= 3 && name[..3] == "chr") {
      assert i > 0;
      assert name[1..][i - 1..i + 2] == name[i..i + 3];
      assert OccursAt(name[1..], "chr", i - 1);
      ContainsWitness(name[1..], "chr", i - 1);
      StripChrShortens(name[1..]);
    }
  }

  /** So a name comes back unchanged exactly when it has no `chr`. */
  lemma StripChrFixedPoints(name: string)
    ensures StripChr(name) == name <==> !Contains(name, "chr")
  {
    if Contains(name, "chr") { StripChrShortens(name); } else { StripChrUnchanged(name); }
  }

  /** The UCSC prefix goes: `chr` followed by a name without `chr` gives
      that name. */
  lemma StripChrPrefix(name: string)
    requires !Contains(name, "chr")
    ensures StripChr("chr" + name) == name
  {
    assert ("chr" + name)[..3] == "chr";
    assert ("chr" + name)[3..] == name;
    StripChrUnchanged(name);
  }

  /** The scan in steps: text that holds no `chr`, even with the next two
      characters of an occurrence of `chr` appended, is kept, and the first
      occurrence after it is dropped. */
  lemma {:induction false} StripChrSplit(a: string, b: string)
    requires !Contains(a + "ch", "chr")
    ensures StripChr(a + "chr" + b) == a + StripChr(b)
  {
    var name := a + "chr" + b;
    if |a| == 0 {
      assert name[..3] == "chr" && name[3..] == b;
    } else {
      var ach := a + "ch";
      assert ach[..3] == name[..3];
      if name[..3] == "chr" {
        ContainsWitness(ach, "chr", 0);
      }
      assert name[1..] == a[1..] + "chr" + b;
      NoChrShift(a);
      StripChrSplit(a[1..], b);
      assert a == [a[0]] + a[1..];
    }
  }

  lemma NoChrShift(a: string)
    requires |a| > 0 && !Contains(a + "ch", "chr")
    ensures !Contains(a[1..] + "ch", "chr")
  {
    var ach := a + "ch";
    forall i: nat | i <= |a[1..] + "ch"| && OccursAt(a[1..] + "ch", "chr", i)
      ensures false
    {
      assert (a[1..] + "ch")[i..i + 3] == ach[i + 1..i + 4];
      ContainsWitness(ach, "chr", i + 1);
    }
  }

  /** One pass is not a fixed point: removing an inner `chr` can bring a new
      one together, so `c` + `chr` + `hr` becomes `chr`. */
  lemma StripChrSinglePass()
    ensures StripChr("cchrhr") == "chr"
    ensures StripChr(StripChr("cchrhr")) == ""
  {
    var s := "cchrhr";
    assert s[..3] != "chr" by { assert s[..3][1] == 'c'; }
    assert s[1..][..3] == "chr";
    assert s[1..][3..] == "hr";
    assert "hr"[1..] == "r" && "r"[1..] == "";
    assert "chr"[..3] == "chr" && "chr"[3..] == "";
  }

  // ---------------------------------------------------------------- enhancers

  /** An enhancer row of a BED table after chromosome renaming. */
  datatype Enhancer = Enhancer(chromosome: string, start: int, end: int)

  /** The default number of bases searched on either side of the gene. */
  const DefaultWindow: int := 500

  function Max(a: int, b: int): int {
    if a >= b then a else b
  }

  function Min(a: int, b: int): int {
    if a <= b then a else b
  }

  /** The gene extended by `window` bases on both sides, clipped at 0. */
  function ExtendedStart(geneStart: int, window: int): int {
    Max(0, geneStart - window)
  }

  function ExtendedEnd(geneEnd: int, window: int): int {
    geneEnd + window
  }

  predicate NearGene(e: Enhancer, chrom: string, geneStart: int, geneEnd: int, window: int) {
    && e.chromosome == chrom
    && e.start >= ExtendedStart(geneStart, window)
    && e.end <= ExtendedEnd(geneEnd, window)
  }

  /** `find_gene_enhancers`: the same mask applied to the proximal and to the
      distal table. */
  function FindGeneEnhancers(chrom: string, geneStart: int, geneEnd: int,
                             proximal: seq<Enhancer>, distal: seq<Enhancer>, window: int)
    : (r: (seq<Enhancer>, seq<Enhancer>))
  {
    (Filter(proximal, e => NearGene(e, chrom, geneStart, geneEnd, window)),
     Filter(distal, e => NearGene(e, chrom, geneStart, geneEnd, window)))
  }

  /** A selected enhancer is on the gene's chromosome and lies wholly inside
      `[max(0, start - window), end + window]`; every such enhancer is
      selected; each table keeps its order. */
  lemma FindGeneEnhancersMeaning(chrom: string, geneStart: int, geneEnd: int,
                                 proximal: seq<Enhancer>, distal: seq<Enhancer>, window: int)
    ensures var (p, d) := FindGeneEnhancers(chrom, geneStart, geneEnd, proximal, distal, window);
            && (forall e :: e in p <==>
                  (e in proximal && e.chromosome == chrom
                   && Max(0, geneStart - window) <= e.start && e.end <= geneEnd + window))
            && (forall e :: e in d <==>
                  (e in distal && e.chromosome == chrom
                   && Max(0, geneStart - window) <= e.start && e.end <= geneEnd + window))
            && IsSubsequence(p, proximal) && IsSubsequence(d, distal)
  {
    var near := e => NearGene(e, chrom, geneStart, geneEnd, window);
    FilterIsSubsequence(proximal, near);
    FilterIsSubsequence(distal, near);
  }

  /** An enhancer on the chromosome inside the gene itself is always found,
      and a wider window finds everything a narrower one does. */
  lemma FindGeneEnhancersWidening(chrom: string, geneStart: int, geneEnd: int,
                                  proximal: seq<Enhancer>, distal: seq<Enhancer>, w1: int, w2: int)
    requires 0 <= w1 <= w2
    ensures forall e | e in proximal && e.chromosome == chrom && 0 <= geneStart <= e.start && e.end <= geneEnd ::
              e in FindGeneEnhancers(chrom, geneStart, geneEnd, proximal, distal, w1).0
    ensures forall e | e in FindGeneEnhancers(chrom, geneStart, geneEnd, proximal, distal, w1).0 ::
              e in FindGeneEnhancers(chrom, geneStart, geneEnd, proximal, distal, w2).0
    ensures forall e | e in FindGeneEnhancers(chrom, geneStart, geneEnd, proximal, distal, w1).1 ::
              e in FindGeneEnhancers(chrom, geneStart, geneEnd, proximal, distal, w2).1
  {
    FindGeneEnhancersMeaning(chrom, geneStart, geneEnd, proximal, distal, w1);
    FindGeneEnhancersMeaning(chrom, geneStart, geneEnd, proximal, distal, w2);
  }

  // ---------------------------------------------------------------- promoter window

  /** A promoter drawn around its TSS: the TSS and the window's two ends. */
  datatype PromoterWindow = PromoterWindow(tss: int, start: int, end: int)

  /** On the `+` strand the TSS is the promoter's start and the window runs
      200 bases below it to 40 above; on any other strand the TSS is the
      promoter's end and the window runs 40 below to 200 above. */
  function PromoterWindowFor(strand: string, promoterStart: int, promoterEnd: int): (w: PromoterWindow) {
    if strand == "+" then
      var tss := promoterStart;
      PromoterWindow(tss, tss - 200, tss + 40)
    else
      var tss := promoterEnd;
      PromoterWindow(tss, tss - 40, tss + 200)
  }

  /** Bases of the window before the TSS in the direction of transcription
      (towards higher coordinates on `+`, lower ones otherwise), and after. */
  function Upstream(strand: string, w: PromoterWindow): int {
    if strand == "+" then w.tss - w.start else w.end - w.tss
  }

  function Downstream(strand: string, w: PromoterWindow): int {
    if strand == "+" then w.end - w.tss else w.tss - w.start
  }

  /** Either way the window is 240 bases, contains the TSS, and reaches 200
      bases upstream and 40 downstream: the minus-strand window is the plus
      one mirrored about the TSS. */
  lemma PromoterWindowShape(strand: string, promoterStart: int, promoterEnd: int)
    ensures var w := PromoterWindowFor(strand, promoterStart, promoterEnd);
            && w.end - w.start == 240
            && w.start <= w.tss <= w.end
            && w.tss == (if strand == "+" then promoterStart else promoterEnd)
            && Upstream(strand, w) == 200 && Downstream(strand, w) == 40
  {
  }

  // ---------------------------------------------------------------- length labels

  /** What `format_bp` returns: megabases or kilobases with one decimal (the
      decimal text is not modelled), or the plain count followed by `bp`. */
  datatype BpText = Megabases(bp: int) | Kilobases(bp: int) | Bases(text: string)

  function FormatBp(bp: int): BpText {
    if bp >= 1000000 then Megabases(bp)
    else if bp >= 1000 then Kilobases(bp)
    else Bases(IntDecimal(bp) + "bp")
  }

  /** 0 for bases, 1 for kilobases, 2 for megabases. */
  function UnitRank(t: BpText): nat {
    match t
    case Bases(_) => 0
    case Kilobases(_) => 1
    case Megabases(_) => 2
  }

  /** The unit never shrinks as the length grows, and switches at exactly
      1000 and 1000000. */
  lemma FormatBpMonotone(a: int, b: int)
    requires a <= b
    ensures UnitRank(FormatBp(a)) <= UnitRank(FormatBp(b))
    ensures FormatBp(999).Bases? && FormatBp(1000).Kilobases?
    ensures FormatBp(999999).Kilobases? && FormatBp(1000000).Megabases?
  {
  }

  /** Below 1000 bases (and not negative) the label is at most three digits
      and `bp`, and the digits read back as the length. */
  lemma FormatBpBases(bp: int)
    requires 0 <= bp < 1000
    ensures FormatBp(bp).Bases?
    ensures var t := FormatBp(bp).text;
            && 3 <= |t| <= 5 && t[|t| - 2..] == "bp"
            && AllDigits(t[..|t| - 2]) && DigitsValue(t[..|t| - 2]) == bp
  {
    var d := NatDecimal(bp);
    NatDecimalValue(bp);
    NatDecimalShort(bp);
    var t := d + "bp";
    assert FormatBp(bp).text == t;
    assert t[..|t| - 2] == d;
    assert t[|t| - 2..] == "bp";
  }

  // ---------------------------------------------------------------- gene extent

  /** A pair of chromosome coordinates. */
  datatype Interval = Interval(start: int, end: int)

  function Starts(s: seq<Interval>): (r: seq<int>)
    ensures |r| == |s|
  {
    seq(|s|, i requires 0 <= i < |s| => s[i].start)
  }

  function Ends(s: seq<Interval>): (r: seq<int>)
    ensures |r| == |s|
  {
    seq(|s|, i requires 0 <= i < |s| => s[i].end)
  }

  /** The smallest and largest element of a non-empty column. */
  function MinOf(s: seq<int>): (m: int)
    requires |s| > 0
    ensures m in s && forall x | x in s :: m <= x
  {
    if |s| == 1 then s[0]
    else
      assert s == s[..|s| - 1] + [s[|s| - 1]];
      Min(MinOf(s[..|s| - 1]), s[|s| - 1])
  }

  function MaxOf(s: seq<int>): (m: int)
    requires |s| > 0
    ensures m in s && forall x | x in s :: x <= m
  {
    if |s| == 1 then s[0]
    else
      assert s == s[..|s| - 1] + [s[|s| - 1]];
      Max(MaxOf(s[..|s| - 1]), s[|s| - 1])
  }

  /** The extent of a gene on the axis in the enhancer script: from the
      smallest promoter or exon start to the largest promoter or exon end,
      a missing promoter table standing in as `+inf` for the minimum and
      `-inf` for the maximum, so that the exons alone decide. */
  function GeneExtent(promoters: seq<Interval>, exons: seq<Interval>): (r: Interval)
    requires |exons| > 0
  {
    var exonStart := MinOf(Starts(exons));
    var exonEnd := MaxOf(Ends(exons));
    if |promoters| == 0 then Interval(exonStart, exonEnd)
    else Interval(Min(MinOf(Starts(promoters)), exonStart), Max(MaxOf(Ends(promoters)), exonEnd))
  }

  /** The extent covers every exon and every promoter, and each of its ends
      is the start (or end) of one of them. */
  lemma GeneExtentCovers(promoters: seq<Interval>, exons: seq<Interval>)
    requires |exons| > 0
    ensures var r := GeneExtent(promoters, exons);
            && (forall i | 0 <= i < |exons| :: r.start <= exons[i].start && exons[i].end <= r.end)
            && (forall i | 0 <= i < |promoters| :: r.start <= promoters[i].start && promoters[i].end <= r.end)
            && ((exists i | 0 <= i < |exons| :: exons[i].start == r.start)
                || (exists i | 0 <= i < |promoters| :: promoters[i].start == r.start))
            && ((exists i | 0 <= i < |exons| :: exons[i].end == r.end)
                || (exists i | 0 <= i < |promoters| :: promoters[i].end == r.end))
  {
    var r := GeneExtent(promoters, exons);
    forall i | 0 <= i < |exons| ensures r.start <= exons[i].start && exons[i].end <= r.end {
      assert Starts(exons)[i] in Starts(exons);
      assert Ends(exons)[i] in Ends(exons);
    }
    forall i | 0 <= i < |promoters| ensures r.start <= promoters[i].start && promoters[i].end <= r.end {
      assert Starts(promoters)[i] in Starts(promoters);
      assert Ends(promoters)[i] in Ends(promoters);
    }
    var es := MinOf(Starts(exons));
    var ee := MaxOf(Ends(exons));
    var k :| 0 <= k < |exons| && Starts(exons)[k] == es;
    var l :| 0 <= l < |exons| && Ends(exons)[l] == ee;
    if |promoters| > 0 {
      var ps := MinOf(Starts(promoters));
      var pe := MaxOf(Ends(promoters));
      var m :| 0 <= m < |promoters| && Starts(promoters)[m] == ps;
      var n :| 0 <= n < |promoters| && Ends(promoters)[n] == pe;
      assert exons[k].start == r.start || promoters[m].start == r.start;
      assert exons[l].end == r.end || promoters[n].end == r.end;
    } else {
      assert exons[k].start == r.start && exons[l].end == r.end;
    }
  }

  // ---------------------------------------------------------------- tick scale and step

  /** The desired number of ticks. */
  const NumTicks: int := 8

  /** The base step, the unit named on the axis and the divider of the tick
      labels for a span of `totalBp` bases. */
  datatype TickScale = TickScale(baseStep: int, unit: string, divider: int)

  function TickScaleFor(totalBp: int): (s: TickScale)
    ensures s.baseStep > 0 && s.divider > 0
  {
    if totalBp > 1000000 then TickScale(100000, "Mb", 1000000)
    else if totalBp > 100000 then TickScale(10000, "kb", 1000)
    else TickScale(1000, "kb", 1000)
  }

  /** A longer span never gets a finer base step or a smaller unit, and the
      labels are divided by the unit the axis names. */
  lemma TickScaleMonotone(a: int, b: int)
    requires a <= b
    ensures TickScaleFor(a).baseStep <= TickScaleFor(b).baseStep
    ensures TickScaleFor(a).divider <= TickScaleFor(b).divider
    ensures TickScaleFor(a).baseStep > 0
    ensures TickScaleFor(a).unit == "Mb" <==> TickScaleFor(a).divider == 1000000
    ensures TickScaleFor(a).unit == "kb" <==> TickScaleFor(a).divider == 1000
  {
  }

  /** `(c * s) % s == 0`: a multiple leaves no remainder. */
  lemma MultipleMod(c: int, s: int)
    requires s > 0
    ensures (c * s) % s == 0 && (c * s) / s == c
  {
    var q := (c * s) / s;
    var r := (c * s) % s;
    assert (c - q) * s == r;
    MulZero(c - q, s, r);
  }

  /** The only multiple of `s` in `[0, s)` is 0. */
  lemma MulZero(k: int, s: int, r: int)
    requires s > 0 && 0 <= r < s && k * s == r
    ensures k == 0
  {
    if k > 0 { MulAtLeast(k, s); } else if k < 0 { MulAtLeast(-k, s); }
  }

  /** Multiplying by a positive number keeps the sign. */
  lemma MulSign(a: int, s: int)
    requires s > 0
    ensures a > 0 <==> a * s > 0
    ensures a < 0 <==> a * s < 0
  {
    if a > 0 { MulAtLeast(a, s); }
    else if a < 0 { MulAtLeast(-a, s); assert a * s == -((-a) * s); }
  }

  lemma MulAtLeast(k: int, s: int)
    requires k >= 1 && s > 0
    ensures k * s >= s
  {
  }

  /** Euclidean division of a non-negative number, as `RoundDiv` uses it. */
  lemma DivFacts(q: int, b: int)
    requires q >= 0 && b > 0
    ensures q / b * b - q == -(q % b) && 0 <= q % b < b
    ensures (q / b + 1) * b - q == b - q % b
    ensures q >= b ==> q / b >= 1
  {
    assert (q / b + 1) * b == q / b * b + b;
  }

  /** Python's `round(q / b)` for `q >= 0` and `b > 0`: the nearest integer,
      a tie going to the even neighbour. */
  function RoundDiv(q: int, b: int): (n: int)
    requires q >= 0 && b > 0
    ensures 2 * (n * b - q) <= b && 2 * (q - n * b) <= b
    ensures (2 * (n * b - q) == b || 2 * (q - n * b) == b) ==> n % 2 == 0
    ensures q >= b ==> n >= 1
  {
    DivFacts(q, b);
    var n := q / b;
    var r := q % b;
    if 2 * r < b then n
    else if 2 * r > b then n + 1
    else if n % 2 == 0 then n
    else n + 1
  }

  /** `step = max(base_step, total_bp // num_ticks)`, then rounded to a
      multiple of the base step. */
  function TickStep(totalBp: int): (step: int)
    ensures step >= TickScaleFor(totalBp).baseStep
    ensures step % TickScaleFor(totalBp).baseStep == 0
  {
    var base := TickScaleFor(totalBp).baseStep;
    var raw := if totalBp / NumTicks > base then totalBp / NumTicks else base;
    var n := RoundDiv(raw, base);
    MultipleMod(n, base);
    assert n * base >= base by { assert (n - 1) * base >= 0; }
    n * base
  }

  /** The step is the base-step multiple nearest an eighth of the span, or
      the base step itself when the span is shorter than eight of those. */
  lemma TickStepNearest(totalBp: int)
    ensures var base := TickScaleFor(totalBp).baseStep;
            var step := TickStep(totalBp);
            && (totalBp / NumTicks <= base ==> step == base)
            && (totalBp / NumTicks > base ==>
                  2 * (step - totalBp / NumTicks) <= base && 2 * (totalBp / NumTicks - step) <= base)
  {
    var base := TickScaleFor(totalBp).baseStep;
    if totalBp / NumTicks <= base {
      assert RoundDiv(base, base) == 1 by { MultipleMod(1, base); }
    }
  }

  // ---------------------------------------------------------------- tick positions

  /** numpy's `arange(start, stop, step)` on integers with a positive step:
      `start`, `start + step`, ... while below `stop`. */
  function Arange(start: int, stop: int, step: int): (r: seq<int>)
    requires step > 0
  {
    if stop <= start then []
    else seq((stop - start + step - 1) / step, k => start + k * step)
  }

  /** The progression's elements are below `stop` and the next one would not
      be. */
  lemma ArangeMeaning(start: int, stop: int, step: int)
    requires step > 0
    ensures var r := Arange(start, stop, step);
            && (forall k | 0 <= k < |r| :: r[k] == start + k * step && r[k] < stop)
            && start + |r| * step >= stop
  {
    if stop > start {
      var d := stop - start + step - 1;
      var n := d / step;
      DivFacts(d, step);
      forall k | 0 <= k < n ensures start + k * step < stop {
        MulSub(n, k, step);
        MulAtLeast(n - k, step);
      }
    }
  }

  predicate Increasing(s: seq<int>) {
    forall i, j | 0 <= i < j < |s| :: s[i] < s[j]
  }

  lemma IncreasingFilter(s: seq<int>, p: int -> bool)
    requires Increasing(s)
    ensures Increasing(Filter(s, p))
  {
    FilterIsSubsequence(s, p);
    var sub := Filter(s, p);
    var idx :| SubsequenceBy(sub, s, idx);
    forall i, j | 0 <= i < j < |sub| ensures sub[i] < sub[j] {
      assert sub[i] == s[idx[i]] && sub[j] == s[idx[j]] && idx[i] < idx[j];
    }
  }

  /** The step multiple at or below `geneStart`, where the progression starts. */
  function FirstTick(geneStart: int, step: int): int
    requires step > 0
  {
    (geneStart / step) * step
  }

  /** The progression before the two masks. */
  function TickRange(geneStart: int, geneEnd: int, step: int): seq<int>
    requires step > 0
  {
    Arange(FirstTick(geneStart, step), geneEnd + step, step)
  }

  /** `arange` from the step multiple at or below the gene start, past the
      gene end, then the two masks that keep `[geneStart, geneEnd]`. */
  function TickPositions(geneStart: int, geneEnd: int, step: int): seq<int>
    requires step > 0
  {
    Filter(Filter(TickRange(geneStart, geneEnd, step), p => p >= geneStart), p => p <= geneEnd)
  }

  /** Every element of the progression is a multiple of the step, and it
      increases. */
  lemma TickRangeMultiples(geneStart: int, geneEnd: int, step: int)
    requires step > 0
    ensures var range := TickRange(geneStart, geneEnd, step);
            && (forall p | p in range :: p % step == 0)
            && Increasing(range)
  {
    var c0 := geneStart / step;
    var range := TickRange(geneStart, geneEnd, step);
    ArangeMeaning(FirstTick(geneStart, step), geneEnd + step, step);
    forall k | 0 <= k < |range| ensures range[k] % step == 0 {
      MulSub(c0 + k, k, step);
      assert range[k] == (c0 + k) * step;
      MultipleMod(c0 + k, step);
    }
    forall i, j | 0 <= i < j < |range| ensures range[i] < range[j] {
      MulSub(j, i, step);
      MulAtLeast(j - i, step);
    }
  }

  /** Every multiple of the step from the gene start to the gene end is in
      the progression. */
  lemma TickRangeHits(geneStart: int, geneEnd: int, step: int, m: int)
    requires step > 0 && geneStart <= m <= geneEnd && m % step == 0
    ensures m in TickRange(geneStart, geneEnd, step)
  {
    var c0 := geneStart / step;
    var first := FirstTick(geneStart, step);
    var range := TickRange(geneStart, geneEnd, step);
    ArangeMeaning(first, geneEnd + step, step);
    var cm := m / step;
    var k := cm - c0;
    DivMod(geneStart, step);
    DivMod(m, step);
    MulSub(cm, c0, step);
    MulSign(k, step);
    MulSub(|range|, k, step);
    MulSign(|range| - k, step);
    assert range[k] == first + k * step;
  }

  /** Euclidean division: quotient times divisor plus the remainder. */
  lemma DivMod(q: int, b: int)
    requires b > 0
    ensures q == q / b * b + q % b && 0 <= q % b < b
  {
  }

  /** `(a - b) * s == a * s - b * s`. */
  lemma MulSub(a: int, b: int, s: int)
    ensures (a - b) * s == a * s - b * s
  {
  }

  /** The ticks are exactly the multiples of the step within the gene's
      extent, in increasing order. */
  lemma TickPositionsMeaning(geneStart: int, geneEnd: int, step: int)
    requires step > 0
    ensures var ticks := TickPositions(geneStart, geneEnd, step);
            && (forall p | p in ticks :: geneStart <= p <= geneEnd && p % step == 0)
            && (forall m | geneStart <= m <= geneEnd && m % step == 0 :: m in ticks)
            && Increasing(ticks)
  {
    var range := TickRange(geneStart, geneEnd, step);
    TickRangeMultiples(geneStart, geneEnd, step);
    forall m | geneStart <= m <= geneEnd && m % step == 0
      ensures m in TickPositions(geneStart, geneEnd, step)
    {
      TickRangeHits(geneStart, geneEnd, step, m);
    }
    IncreasingFilter(range, p => p >= geneStart);
    IncreasingFilter(Filter(range, p => p >= geneStart), p => p <= geneEnd);
  }

  // ---------------------------------------------------------------- tick thinning

  /** The least gap, in axis coordinates, between two ticks kept. */
  const MinDistance: real := 0.1

  /** The indices of the ticks the thinning pass keeps: the first tick, then
      every tick at least `MinDistance` beyond the last one kept. */
  function Kept(ticks: seq<real>): (r: seq<nat>)
    ensures forall j | 0 <= j < |r| :: r[j] < |ticks|
    ensures |ticks| > 0 ==> |r| > 0 && r[0] == 0
  {
    if |ticks| == 0 then []
    else
      var g := Kept(ticks[..|ticks| - 1]);
      var i := |ticks| - 1;
      if |g| == 0 || ticks[i] - ticks[g[|g| - 1]] >= MinDistance then g + [i] else g
  }

  /** Whether the tick after a prefix whose kept indices are `g` is kept. */
  predicate KeepsNext(ticks: seq<real>, g: seq<nat>, i: nat)
    requires i < |ticks| && forall j | 0 <= j < |g| :: g[j] < |ticks|
  {
    |g| == 0 || ticks[i] - ticks[g[|g| - 1]] >= MinDistance
  }

  /** What was kept of the first `i + 1` ticks, from what was kept of the
      first `i`. */
  lemma KeptStep(ticks: seq<real>, i: nat)
    requires i < |ticks|
    ensures var g := Kept(ticks[..i]);
            Kept(ticks[..i + 1]) == if KeepsNext(ticks, g, i) then g + [i] else g
  {
    var t := ticks[..i + 1];
    assert t[..i] == ticks[..i];
    var g := Kept(ticks[..i]);
    assert |g| > 0 ==> t[g[|g| - 1]] == ticks[g[|g| - 1]];
  }

  /** The kept indices increase, so the kept ticks are a subsequence. */
  lemma {:induction false} KeptIncreasing(ticks: seq<real>)
    ensures var r := Kept(ticks);
            forall j, l | 0 <= j < l < |r| :: r[j] < r[l]
  {
    if |ticks| > 0 {
      var n := |ticks| - 1;
      KeptIncreasing(ticks[..n]);
      KeptStep(ticks, n);
      assert ticks[..n + 1] == ticks;
    }
  }

  /** Consecutive kept ticks are at least `MinDistance` apart. */
  lemma {:induction false} KeptSpaced(ticks: seq<real>)
    ensures var r := Kept(ticks);
            forall j | 0 <= j < |r| - 1 :: ticks[r[j + 1]] - ticks[r[j]] >= MinDistance
  {
    if |ticks| > 0 {
      var n := |ticks| - 1;
      var init := ticks[..n];
      KeptSpaced(init);
      KeptStep(ticks, n);
      assert ticks[..n + 1] == ticks;
      var g := Kept(init);
      assert forall j | 0 <= j < |g| :: init[g[j]] == ticks[g[j]];
    }
  }

  /** Every tick dropped lies less than `MinDistance` beyond the last tick
      kept before it: between two kept ticks, or after the last, nothing
      else was far enough. */
  lemma {:induction false} KeptMaximal(ticks: seq<real>)
    ensures var r := Kept(ticks);
            forall j, i | 0 <= j < |r| && r[j] < i < (if j + 1 < |r| then r[j + 1] else |ticks|) ::
              ticks[i] - ticks[r[j]] < MinDistance
  {
    if |ticks| > 0 {
      var n := |ticks| - 1;
      var init := ticks[..n];
      KeptMaximal(init);
      KeptStep(ticks, n);
      assert ticks[..n + 1] == ticks;
      var g := Kept(init);
      assert forall i | 0 <= i < n :: init[i] == ticks[i];
    }
  }

  /** `ts` and `ls` are the ticks and labels at the indices `kept`. */
  ghost predicate PickedAt(ts: seq<real>, ls: seq<string>, ticks: seq<real>, labels: seq<string>, kept: seq<nat>)
  {
    && |ts| == |kept| && |ls| == |kept|
    && forall j | 0 <= j < |kept| :: kept[j] < |ticks| && kept[j] < |labels| && ts[j] == ticks[kept[j]] && ls[j] == labels[kept[j]]
  }

  lemma PickedAppend(ts: seq<real>, ls: seq<string>, ticks: seq<real>, labels: seq<string>, kept: seq<nat>, i: nat)
    requires PickedAt(ts, ls, ticks, labels, kept) && i < |ticks| && i < |labels|
    ensures PickedAt(ts + [ticks[i]], ls + [labels[i]], ticks, labels, kept + [i])
  {
  }

  /** The loop over `zip(compressed_ticks, tick_labels)` that keeps a tick
      when it lies at least `MinDistance` beyond the last one kept; `None`
      is the starting `-inf`. The kept positions and their labels are those
      at the indices `Kept` picks from the zipped prefix. */
  method ThinTicks(compressedTicks: seq<real>, tickLabels: seq<string>)
    returns (finalTicks: seq<real>, finalLabels: seq<string>)
    ensures var kept := Kept(compressedTicks[..Min(|compressedTicks|, |tickLabels|)]);
            && |finalTicks| == |kept| && |finalLabels| == |kept|
            && (forall j | 0 <= j < |kept| ::
                  finalTicks[j] == compressedTicks[kept[j]] && finalLabels[j] == tickLabels[kept[j]])
  {
    finalTicks := [];
    finalLabels := [];
    var lastPos: Option<real> := None;
    var n := Min(|compressedTicks|, |tickLabels|);
    var i := 0;
    ghost var kept: seq<nat> := [];
    while i < n
      invariant 0 <= i <= n
      invariant kept == Kept(compressedTicks[..i])
      invariant PickedAt(finalTicks, finalLabels, compressedTicks, tickLabels, kept)
      invariant lastPos.None? <==> |kept| == 0
      invariant |kept| > 0 ==> lastPos == Some(compressedTicks[kept[|kept| - 1]])
    {
      var pos := compressedTicks[i];
      var text := tickLabels[i];
      KeptStep(compressedTicks, i);
      if lastPos.None? || pos - lastPos.value >= MinDistance {
        PickedAppend(finalTicks, finalLabels, compressedTicks, tickLabels, kept, i);
        finalTicks := finalTicks + [pos];
        finalLabels := finalLabels + [text];
        lastPos := Some(pos);
        kept := kept + [i];
      }
      i := i + 1;
    }
  }
}
