/** `build_dashboard`: one panel per pool, then the countdown bar. The frame
    keeps the logical content only; layout, colour and number formatting are not modelled. */
module Dashboard {
  import opened PoolData
  import opened Text
  import opened Workers

  /** `REFRESH_INTERVAL`, in seconds (one tick per second). */
  const RefreshInterval: nat := 30

  datatype Panel =
    | ErrorPanel(title: string, message: string)   // "<LABEL> error: <message>"
    | PoolPanel(title: string, summary: Summary)   // header, totals and the worker table

  datatype Cell = Filled | Unfilled

  datatype Frame =
    | LoadError                                    // "Error loading stats", nothing else
    | Frame(panels: seq<Panel>, bar: seq<Cell>, secondsLeft: int)

  /** Python's `cell * n`: `n` copies, none when `n <= 0`. */
  function Repeat(c: Cell, n: int): (r: seq<Cell>)
    ensures |r| == if n <= 0 then 0 else n
    ensures forall i :: 0 <= i < |r| ==> r[i] == c
    decreases n
  {
    if n <= 0 then [] else [c] + Repeat(c, n - 1)
  }

  /** `"█" * filled + "░" * (REFRESH_INTERVAL - filled)` with `filled = countdown`. */
  function Bar(countdown: int): (r: seq<Cell>)
    ensures |r| == (if countdown <= 0 then 0 else countdown) +
                   (if countdown >= RefreshInterval then 0 else RefreshInterval - countdown)
    ensures forall i :: 0 <= i < |r| ==> (r[i] == Filled <==> i < countdown)
  {
    Repeat(Filled, countdown) + Repeat(Unfilled, RefreshInterval - countdown)
  }

  /** `seconds_left = REFRESH_INTERVAL - filled` */
  function SecondsLeft(countdown: int): (r: int)
    ensures 0 <= countdown <= RefreshInterval ==> r == |Bar(countdown)| - countdown
    ensures 0 <= countdown < RefreshInterval ==> 1 <= r <= RefreshInterval
  {
    RefreshInterval - countdown
  }

  /** The panel of one pool: an error panel when its object has an `error` key. */
  function PanelFor(pool: string, d: Dataset): (p: Panel)
    ensures p.title == Upper(pool)
    ensures p.ErrorPanel? <==> d.error.Some?
    ensures p.ErrorPanel? ==> p.message == d.error.value
    ensures p.PoolPanel? ==> p.summary == Aggregate(d)
  {
    if d.error.Some? then ErrorPanel(Upper(pool), d.error.value)
    else PoolPanel(Upper(pool), Aggregate(d))
  }

  /** The whole of `build_dashboard(data, countdown)`, as a value. */
  function Render(data: PoolMap, countdown: int): (f: Frame)
    ensures f.LoadError? <==> !HasLabel(data, "xla") || !HasLabel(data, "salv")
    ensures f.Frame? ==> |f.panels| == |data| && f.bar == Bar(countdown) && f.secondsLeft == SecondsLeft(countdown)
  {
    if !HasLabel(data, "xla") || !HasLabel(data, "salv") then LoadError
    else Frame(seq(|data|, i requires 0 <= i < |data| => PanelFor(data[i].0, data[i].1)),
               Bar(countdown), SecondsLeft(countdown))
  }

  /** `build_dashboard`, step by step: panels appended in dictionary order, an
      error entry appended and skipped with `continue`, rows added one by one. */
  method BuildDashboard(data: PoolMap, countdown: int) returns (f: Frame)
    ensures f == Render(data, countdown)
  {
    if !HasLabel(data, "xla") || !HasLabel(data, "salv") {
      return LoadError;
    }
    var panels: seq<Panel> := [];
    for i := 0 to |data|
      invariant |panels| == i
      invariant forall j :: 0 <= j < i ==> panels[j] == PanelFor(data[j].0, data[j].1)
    {
      var (pool, dataset) := data[i];
      if dataset.error.Some? {
        panels := panels + [ErrorPanel(Upper(pool), dataset.error.value)];
        continue;
      }
      var stats := dataset.stats.GetOr(Stats(None));
      var workers := dataset.workers.GetOr([]);
      var total := stats.hashrate.GetOr(0);
      var active := ActiveCount(workers);
      var shown := SortByName(Active(workers));
      var top := Top(shown);
      var table := AddRows(shown, top);
      panels := panels + [PoolPanel(Upper(pool), Summary(total, active, table))];
    }
    assert panels == seq(|data|, i requires 0 <= i < |data| => PanelFor(data[i].0, data[i].1));
    f := Frame(panels, Bar(countdown), SecondsLeft(countdown));
  }

  /** The `for worker in sorted_workers` loop: one `table.add_row` per shown worker. */
  method AddRows(shown: seq<Worker>, top: int) returns (table: seq<Row>)
    ensures table == Table(shown, top)
  {
    table := [];
    for j := 0 to |shown|
      invariant |table| == j
      invariant forall k :: 0 <= k < j ==> table[k] == RowFor(shown[k], top)
    {
      var worker := shown[j];
      var isBest := Rate(worker) == top;
      var name := DisplayName(worker);
      table := table + [Row(name, Rate(worker), isBest)];
    }
  }

  // ---------------------------------------------------------------------------

  /** The bar has `REFRESH_INTERVAL` cells, `countdown` filled ones first, and
      counts down from 30 seconds at tick 0 to 1 second at tick 29. */
  lemma BarShape(countdown: int)
    requires 0 <= countdown <= RefreshInterval
    ensures |Bar(countdown)| == RefreshInterval
    ensures forall i :: 0 <= i < RefreshInterval ==> (Bar(countdown)[i] == Filled <==> i < countdown)
    ensures SecondsLeft(countdown) == RefreshInterval - countdown == |Bar(countdown)| - countdown
    ensures countdown == 0 ==> SecondsLeft(countdown) == 30 && forall i :: 0 <= i < 30 ==> Bar(countdown)[i] == Unfilled
    ensures countdown == RefreshInterval - 1 ==> SecondsLeft(countdown) == 1
  {
    var b := Bar(countdown);
    forall i | 0 <= i < RefreshInterval ensures b[i] == Filled <==> i < countdown {
      if i >= countdown { assert b[i] == Repeat(Unfilled, RefreshInterval - countdown)[i - countdown]; }
    }
  }

  /** A missing `xla` or `salv` entry, and only that, makes the frame the lone error panel. */
  lemma MissingPoolOnlyError(data: PoolMap, countdown: int)
    ensures Render(data, countdown) == LoadError <==> !HasLabel(data, "xla") || !HasLabel(data, "salv")
    ensures Render(data, countdown).Frame? ==> |Render(data, countdown).panels| == |data|
    ensures var f := Render(data, countdown);
      f.Frame? ==> forall i :: 0 <= i < |data| ==>
        f.panels[i].title == Upper(data[i].0) && (f.panels[i].ErrorPanel? <==> data[i].1.error.Some?)
  {
  }

  /** What a fetched pool shows: the error panel for a failed fetch, otherwise the
      aggregated panel of its object unless that object itself carries `error`. */
  lemma FetchedPanel(pool: string, outcome: FetchOutcome)
    ensures outcome.Raised? ==> PanelFor(pool, FetchStatsFromUrl(outcome)) == ErrorPanel(Upper(pool), outcome.message)
    ensures outcome.Decoded? && outcome.body.error.None? ==>
              PanelFor(pool, FetchStatsFromUrl(outcome)) == PoolPanel(Upper(pool), Aggregate(outcome.body))
  {
  }

  /** After `fetch_all_stats` there is always a full frame: the XLA panel, then the SALV
      panel, each decided by its own fetch alone, so one pool's failure leaves the other shown. */
  lemma FetchedFrame(xla: FetchOutcome, salv: FetchOutcome, countdown: int)
    ensures Render(FetchAllStats(xla, salv), countdown) ==
            Frame([PanelFor("xla", FetchStatsFromUrl(xla)), PanelFor("salv", FetchStatsFromUrl(salv))],
                  Bar(countdown), SecondsLeft(countdown))
    ensures Upper("xla") == "XLA" && Upper("salv") == "SALV"
  {
    var data := FetchAllStats(xla, salv);
    assert data[0].0 == "xla" && data[1].0 == "salv";
    assert HasLabel(data, "xla") && HasLabel(data, "salv");
    assert Upper("xla") == [UpperChar('x')] + Upper("la");
    assert Upper("salv") == [UpperChar('s')] + Upper("alv");
  }

  /** Replacing one pool's object changes that pool's panel and no other. */
  lemma PanelsIndependent(data: PoolMap, i: nat, d: Dataset, countdown: int)
    requires i < |data|
    requires Render(data, countdown).Frame?
    ensures var after := Render(data[i := (data[i].0, d)], countdown);
      after.Frame? && |after.panels| == |data| &&
      after.panels[i] == PanelFor(data[i].0, d) &&
      forall j :: 0 <= j < |data| && j != i ==> after.panels[j] == Render(data, countdown).panels[j]
  {
    var data' := data[i := (data[i].0, d)];
    var x :| 0 <= x < |data| && data[x].0 == "xla";
    var s :| 0 <= s < |data| && data[s].0 == "salv";
    assert data'[x].0 == "xla" && data'[s].0 == "salv";
  }
}
