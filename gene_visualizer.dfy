/** The gene loop of the plain gene-structure script: which genes are drawn,
    the extent each one is drawn over, and the ticks of its axis. Unlike
    the enhancer script, this one takes the minimum and maximum of the
    gene's promoter columns even when the gene has no promoter row. */
module GeneVisualizer {
  import opened Seqs
  import opened GeneStructure

  /** A row of the exon or the promoter table: its gene name, `None` for a
      missing cell (pandas' NaN, which equals nothing, itself included), and
      its coordinates. */
  datatype GeneRow = GeneRow(gene: Option<string>, span: Interval)

  function GeneColumn(rows: seq<GeneRow>): (r: seq<Option<string>>)
    ensures |r| == |rows|
  {
    seq(|rows|, i requires 0 <= i < |rows| => rows[i].gene)
  }

  /** The names that are present, in order. */
  function Present(names: seq<Option<string>>): seq<string> {
    if |names| == 0 then []
    else (if names[0].Some? then [names[0].value] else []) + Present(names[1..])
  }

  /** The coordinates of the rows of gene `g`, in table order: the rows the
      mask `table['external_gene_name'] == g` keeps. */
  function GeneSpans(rows: seq<GeneRow>, g: Option<string>): (r: seq<Interval>)
    ensures |r| > 0 ==> g.Some?
  {
    if |rows| == 0 then []
    else
      var last := rows[|rows| - 1];
      GeneSpans(rows[..|rows| - 1], g) + (if SameGene(last.gene, g) then [last.span] else [])
  }

  /** The rows kept are exactly those of gene `g`. */
  lemma {:induction false} GeneSpansMeaning(rows: seq<GeneRow>, g: Option<string>)
    ensures forall x :: x in GeneSpans(rows, g) <==> exists k | 0 <= k < |rows| :: SameGene(rows[k].gene, g) && rows[k].span == x
  {
    if |rows| > 0 {
      var init := rows[..|rows| - 1];
      GeneSpansMeaning(init, g);
      assert forall k | 0 <= k < |init| :: init[k] == rows[k];
    }
  }

  /** A present name of the table has at least one row. */
  lemma {:induction false} GeneSpansPresent(rows: seq<GeneRow>, g: Option<string>)
    requires g.Some? && g in GeneColumn(rows)
    ensures |GeneSpans(rows, g)| > 0
  {
    var init := rows[..|rows| - 1];
    if rows[|rows| - 1].gene != g {
      assert g in GeneColumn(init) by {
        var k :| 0 <= k < |rows| && GeneColumn(rows)[k] == g;
        assert GeneColumn(init)[k] == g;
      }
      GeneSpansPresent(init, g);
    }
  }

  /** As written: `min(promoters.min(), exons.min())` and the matching
      `max`. Without promoter rows each promoter column's `min()`/`max()` is
      NaN, and Python's `min` and `max` return their first argument when no
      comparison with it succeeds, so the extent is NaN (`None` here). */
  function ExtentAsWritten(promoters: seq<Interval>, exons: seq<Interval>): (r: Option<Interval>)
    requires |exons| > 0
    ensures r.None? <==> |promoters| == 0
    ensures r.Some? ==> r.value == GeneExtent(promoters, exons)
  {
    if |promoters| == 0 then None else Some(GeneExtent(promoters, exons))
  }

  /** What a gene's picture is laid out from: its extent, the tick step the
      span picks, and the tick positions. */
  datatype GenePlan = GenePlan(gene: string, extent: Interval, step: int, ticks: seq<int>)

  function PlanFor(gene: string, extent: Interval): GenePlan {
    var step := TickStep(extent.end - extent.start);
    GenePlan(gene, extent, step, TickPositions(extent.start, extent.end, step))
  }

  /** The pictures saved, in order, and the exception that ended the loop
      early, if any. */
  datatype Run = Run(drawn: seq<GenePlan>, failure: Option<string>)

  /** A NaN extent makes the tick start NaN, and `np.arange` refuses it. */
  const ArangeError: string := "ValueError: arange: cannot compute length"

  function Prepend(drawn: seq<GenePlan>, run: Run): Run {
    Run(drawn + run.drawn, run.failure)
  }

  /** What the loop does with one name: skip it, stop, or draw a plan. */
  datatype Step = Skip | Abort | Draw(plan: GenePlan)

  /** One name as written: skip a name without exon rows, stop at a gene
      whose extent is NaN, lay out the others. */
  function StepAsWritten(g: Option<string>, exons: seq<GeneRow>, promoters: seq<GeneRow>): (r: Step)
    ensures r.Draw? ==> g.Some? && r.plan.gene == g.value
  {
    var ex := GeneSpans(exons, g);
    if |ex| == 0 then Skip
    else
      match ExtentAsWritten(GeneSpans(promoters, g), ex)
      case None => Abort
      case Some(extent) => Draw(PlanFor(g.value, extent))
  }

  /** One name, corrected: a gene without promoters is laid out over its
      exons. */
  function StepCorrected(g: Option<string>, exons: seq<GeneRow>, promoters: seq<GeneRow>): (r: Step)
    ensures !r.Abort?
    ensures r.Draw? ==> g.Some? && r.plan.gene == g.value
  {
    var ex := GeneSpans(exons, g);
    if |ex| == 0 then Skip
    else Draw(PlanFor(g.value, GeneExtent(GeneSpans(promoters, g), ex)))
  }

  /** The two differ only where the written one stops: on a gene with exon
      rows and no promoter row. */
  lemma StepsAgree(g: Option<string>, exons: seq<GeneRow>, promoters: seq<GeneRow>)
    ensures StepAsWritten(g, exons, promoters).Abort?
            <==> |GeneSpans(exons, g)| > 0 && |GeneSpans(promoters, g)| == 0
    ensures !StepAsWritten(g, exons, promoters).Abort?
            ==> StepAsWritten(g, exons, promoters) == StepCorrected(g, exons, promoters)
  {
  }

  /** The loop over `names` as written. */
  function RunFrom(names: seq<Option<string>>, exons: seq<GeneRow>, promoters: seq<GeneRow>): Run
  {
    if |names| == 0 then Run([], None)
    else
      match StepAsWritten(names[0], exons, promoters)
      case Skip => RunFrom(names[1..], exons, promoters)
      case Abort => Run([], Some(ArangeError))
      case Draw(plan) => Prepend([plan], RunFrom(names[1..], exons, promoters))
  }

  function RunAsWritten(exons: seq<GeneRow>, promoters: seq<GeneRow>): Run {
    RunFrom(Unique(GeneColumn(exons)), exons, promoters)
  }

  /** The corrected loop: the extent of a gene without promoters is its
      exons' extent, as in the enhancer script. */
  function PlansFrom(names: seq<Option<string>>, exons: seq<GeneRow>, promoters: seq<GeneRow>): seq<GenePlan>
  {
    if |names| == 0 then []
    else
      var step := StepCorrected(names[0], exons, promoters);
      (if step.Draw? then [step.plan] else []) + PlansFrom(names[1..], exons, promoters)
  }

  function Plans(exons: seq<GeneRow>, promoters: seq<GeneRow>): seq<GenePlan> {
    PlansFrom(Unique(GeneColumn(exons)), exons, promoters)
  }

  /** The gene of each plan, in order. */
  function Genes(plans: seq<GenePlan>): (r: seq<string>)
    ensures |r| == |plans|
  {
    if |plans| == 0 then [] else [plans[0].gene] + Genes(plans[1..])
  }

  /** Every gene of `names` that has exon rows also has a promoter row. */
  predicate EveryGeneHasPromoters(names: seq<Option<string>>, exons: seq<GeneRow>, promoters: seq<GeneRow>) {
    forall i | 0 <= i < |names| :: |GeneSpans(exons, names[i])| > 0 ==> |GeneSpans(promoters, names[i])| > 0
  }

  /** `plot_gene_structure`, the part of it that decides what is drawn. */
  method PlotGeneStructure(exons: seq<GeneRow>, promoters: seq<GeneRow>) returns (run: Run)
    ensures run == RunAsWritten(exons, promoters)
  {
    var genes := Unique(GeneColumn(exons));
    var drawn: seq<GenePlan> := [];
    var i := 0;
    while i < |genes|
      invariant 0 <= i <= |genes|
      invariant Prepend(drawn, RunFrom(genes[i..], exons, promoters)) == RunFrom(genes, exons, promoters)
    {
      assert genes[i..][1..] == genes[i + 1..];
      RunFromStep(drawn, genes[i..], exons, promoters);
      var outcome := LayOutGene(genes[i], exons, promoters);
      if outcome.Abort? {
        return Run(drawn, Some(ArangeError));
      } else if outcome.Draw? {
        drawn := drawn + [outcome.plan];
      }
      i := i + 1;
    }
    run := Run(drawn, None);
  }

  /** One pass of the gene loop, on the pictures saved so far. */
  lemma RunFromStep(drawn: seq<GenePlan>, names: seq<Option<string>>, exons: seq<GeneRow>, promoters: seq<GeneRow>)
    requires |names| > 0
    ensures var run := Prepend(drawn, RunFrom(names, exons, promoters));
            var rest := RunFrom(names[1..], exons, promoters);
            match StepAsWritten(names[0], exons, promoters)
            case Skip => run == Prepend(drawn, rest)
            case Abort => run == Run(drawn, Some(ArangeError))
            case Draw(plan) => run == Prepend(drawn + [plan], rest)
  {
    match StepAsWritten(names[0], exons, promoters)
    case Skip =>
    case Abort =>
      assert drawn + [] == drawn;
    case Draw(plan) =>
      var rest := RunFrom(names[1..], exons, promoters);
      assert drawn + ([plan] + rest.drawn) == (drawn + [plan]) + rest.drawn;
  }

  /** The body of the gene loop: the gene's rows, its extent, its tick
      step and positions. */
  method LayOutGene(g: Option<string>, exons: seq<GeneRow>, promoters: seq<GeneRow>) returns (outcome: Step)
    ensures outcome == StepAsWritten(g, exons, promoters)
  {
    var geneExons := GeneSpans(exons, g);
    var genePromoters := GeneSpans(promoters, g);
    if |geneExons| == 0 {
      return Skip;
    }
    var extent := ExtentAsWritten(genePromoters, geneExons);
    if extent.None? {
      return Abort;
    }
    var totalBp := extent.value.end - extent.value.start;
    var step := TickStep(totalBp);
    var ticks := TickPositions(extent.value.start, extent.value.end, step);
    outcome := Draw(GenePlan(g.value, extent.value, step, ticks));
  }

  /** The run as written stops exactly when it reaches a gene with exon
      rows and no promoter row. */
  lemma {:induction false} RunFromStops(names: seq<Option<string>>, exons: seq<GeneRow>, promoters: seq<GeneRow>)
    ensures RunFrom(names, exons, promoters).failure.None? <==> EveryGeneHasPromoters(names, exons, promoters)
  {
    if |names| > 0 {
      RunFromStops(names[1..], exons, promoters);
      assert forall i | 1 <= i < |names| :: names[1..][i - 1] == names[i];
      StepsAgree(names[0], exons, promoters);
    }
  }

  /** The pictures saved before a stop are the first ones of the corrected
      run, and without a stop the two runs draw the same. */
  lemma {:induction false} RunFromPrefix(names: seq<Option<string>>, exons: seq<GeneRow>, promoters: seq<GeneRow>)
    ensures var run := RunFrom(names, exons, promoters);
            && run.drawn <= PlansFrom(names, exons, promoters)
            && (run.failure.None? ==> run.drawn == PlansFrom(names, exons, promoters))
  {
    if |names| > 0 {
      RunFromPrefix(names[1..], exons, promoters);
      StepsAgree(names[0], exons, promoters);
      var rest := RunFrom(names[1..], exons, promoters);
      var plans := PlansFrom(names[1..], exons, promoters);
      match StepAsWritten(names[0], exons, promoters)
      case Skip =>
        assert RunFrom(names, exons, promoters) == rest;
        assert PlansFrom(names, exons, promoters) == plans;
      case Abort =>
        assert RunFrom(names, exons, promoters).drawn == [];
      case Draw(p) =>
        assert RunFrom(names, exons, promoters).drawn == [p] + rest.drawn;
        assert PlansFrom(names, exons, promoters) == [p] + plans;
    }
  }

  lemma RunAsWrittenMeaning(exons: seq<GeneRow>, promoters: seq<GeneRow>)
    ensures var names := Unique(GeneColumn(exons));
            var run := RunAsWritten(exons, promoters);
            && (run.failure.None? <==> EveryGeneHasPromoters(names, exons, promoters))
            && (run.failure.Some? ==> run.failure.value == ArangeError)
            && run.drawn <= Plans(exons, promoters)
            && (run.failure.None? ==> run.drawn == Plans(exons, promoters))
  {
    var names := Unique(GeneColumn(exons));
    RunFromStops(names, exons, promoters);
    RunFromPrefix(names, exons, promoters);
    RunFromError(names, exons, promoters);
  }

  lemma {:induction false} RunFromError(names: seq<Option<string>>, exons: seq<GeneRow>, promoters: seq<GeneRow>)
    ensures RunFrom(names, exons, promoters).failure.Some? ==> RunFrom(names, exons, promoters).failure.value == ArangeError
  {
    if |names| > 0 {
      RunFromError(names[1..], exons, promoters);
    }
  }

  /** The finding: one gene with one exon and no promoter row ends the run
      as written before anything is drawn; the corrected run draws it over
      its exon. */
  lemma PromoterlessGeneAborts(g: string, s: int, e: int)
    ensures RunAsWritten([GeneRow(Some(g), Interval(s, e))], []) == Run([], Some(ArangeError))
    ensures Plans([GeneRow(Some(g), Interval(s, e))], []) == [PlanFor(g, Interval(s, e))]
  {
    var exons := [GeneRow(Some(g), Interval(s, e))];
    SingleExon(g, s, e);
    assert GeneExtent([], [Interval(s, e)]) == Interval(s, e) by {
      assert Starts([Interval(s, e)]) == [s] && Ends([Interval(s, e)]) == [e];
    }
    assert StepAsWritten(Some(g), exons, []) == Abort;
    assert StepCorrected(Some(g), exons, []) == Draw(PlanFor(g, Interval(s, e)));
    assert [Some(g)][1..] == [];
    assert PlansFrom([], exons, []) == [];
    assert PlansFrom([Some(g)], exons, []) == [PlanFor(g, Interval(s, e))] + PlansFrom([], exons, []);
  }

  lemma SingleExon(g: string, s: int, e: int)
    ensures var exons := [GeneRow(Some(g), Interval(s, e))];
            && Unique(GeneColumn(exons)) == [Some(g)]
            && GeneSpans(exons, Some(g)) == [Interval(s, e)]
            && GeneSpans([], Some(g)) == []
  {
    var exons := [GeneRow(Some(g), Interval(s, e))];
    assert GeneColumn(exons) == [Some(g)];
    assert [Some(g)][..0] == [];
    assert exons[..0] == [];
    assert GeneSpans(exons[..0], Some(g)) == [];
  }

  /** Genes without exon rows are skipped: the corrected run draws each
      present gene name of the exon table once, in order of first
      appearance, and a missing name never. */
  lemma {:induction false} PlansFromGenes(names: seq<Option<string>>, exons: seq<GeneRow>, promoters: seq<GeneRow>)
    requires forall i | 0 <= i < |names| :: names[i] in GeneColumn(exons)
    ensures Genes(PlansFrom(names, exons, promoters)) == Present(names)
  {
    if |names| > 0 {
      assert forall i | 1 <= i < |names| :: names[1..][i - 1] == names[i];
      PlansFromGenes(names[1..], exons, promoters);
      var g := names[0];
      var rest := PlansFrom(names[1..], exons, promoters);
      if g.Some? {
        GeneSpansPresent(exons, g);
        var p := StepCorrected(g, exons, promoters).plan;
        assert PlansFrom(names, exons, promoters) == [p] + rest;
        assert Present(names) == [g.value] + Present(names[1..]);
        assert ([p] + rest)[1..] == rest;
      } else {
        assert StepCorrected(g, exons, promoters) == Skip;
        assert PlansFrom(names, exons, promoters) == rest;
        assert Present(names) == Present(names[1..]);
      }
    }
  }

  lemma PlottedGenes(exons: seq<GeneRow>, promoters: seq<GeneRow>)
    ensures Genes(Plans(exons, promoters)) == Present(Unique(GeneColumn(exons)))
  {
    PlansFromGenes(Unique(GeneColumn(exons)), exons, promoters);
  }
}
