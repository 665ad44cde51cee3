/** The append-only performance ledger and its ratchet (`check_perf_ratchet.py`) as a state machine.
    Metrics are reals; copied fields no check reads are JSON text. */
module PerfLedger {
  import opened Wrappers

  type Env = map<string, string>

  /** `stamps` has every field present, as JSON text; a null or missing `tcg_env` is None. */
  datatype Provenance = Provenance(stamps: map<string, string>, hostArch: string, tcgEnv: Option<Env>)

  /** `aggregates` has every aggregate present, as JSON text; the numbers the checks read are beside it,
      None where null or missing. */
  datatype Results = Results(
    provenance: Option<Provenance>, headlineEligible: bool, aggregates: map<string, string>, mismatchCount: Option<int>,
    coverage: Option<real>, runtimeO3: Option<real>, warmO2: Option<real>)

  datatype Row = Row(
    source: string, hostArch: string, tcgEnv: Option<Env>, evidence: bool, mismatchCount: Option<int>,
    coverage: Option<real>, runtimeO3: Option<real>, warmO2: Option<real>,
    stamps: map<string, string>, aggregates: map<string, string>, gates: map<string, bool>)

  /** What each gate's predicate says of results; None where evaluating it raises. */
  type Gates = map<string, Results -> Option<bool>>

  datatype Thresholds = Thresholds(runtimeFloor: real, warmFloor: real, coverageDropIsRed: bool)

  datatype Metric = RuntimeO3 | WarmO2

  datatype Problem =
    | NoProvenance
    | MissingFields(names: set<string>)
    | WeakenedProofs(flags: seq<string>)
    | Mismatches(count: Option<int>)

  datatype Failure = Regressed(metric: Metric, current: real, best: real) | CoverageDropped(current: real, best: real)

  const MANDATORY_PROVENANCE: set<string> := {
    "git_sha", "git_dirty", "git_diff_sha256", "untracked_count", "dylib_path", "dylib_sha256",
    "dylib_mtime", "rustc_version", "rustc_path", "target", "host_arch", "host_model", "ncpu",
    "tcg_env", "cache", "loadavg_before", "loadavg_after", "load_threshold", "quiet", "load_status",
    "n_compile", "n_run", "warmup_runs", "timestamp_utc", "harness", "schema"
  }

  function EnvOrEmpty(env: Option<Env>): Env {
    if env.Some? then env.value else map[]
  }

  function WeakeningFlags(env: Env): seq<string> {
    (if "TCG_NO_PROOF_CERTS" in env then ["TCG_NO_PROOF_CERTS"] else []) +
    (if "TCG_NO_PROOF_CACHE" in env then ["TCG_NO_PROOF_CACHE"] else []) +
    (if "TCG_REFINE_SOLVER" in env && env["TCG_REFINE_SOLVER"] == "0" then ["TCG_REFINE_SOLVER=0"] else [])
  }

  function Validate(results: Results): seq<Problem> {
    if results.provenance.None? then [NoProvenance]
    else
      var prov := results.provenance.value;
      var missing := MANDATORY_PROVENANCE - prov.stamps.Keys;
      var flags := WeakeningFlags(EnvOrEmpty(prov.tcgEnv));
      (if missing != {} then [MissingFields(missing)] else []) +
      (if flags != [] then [WeakenedProofs(flags)] else []) +
      (if results.mismatchCount != Some(0) then [Mismatches(results.mismatchCount)] else [])
  }

  const COPIED_STAMPS: set<string> := {
    "timestamp_utc", "git_sha", "git_dirty", "dylib_sha256", "host_model", "target", "load_status", "n_compile", "n_run"
  }

  /** Read without a default: a missing one raises. */
  const REQUIRED_AGGREGATES: set<string> := {
    "total_programs", "match_count", "incomplete_count", "mismatch_count", "coverage_pct"
  }

  const COPIED_AGGREGATES: set<string> := {
    "total_programs", "match_count", "incomplete_count", "nondet_failclosed_count", "nondet_candidate_count",
    "scalar_runtime_geomean_vs_llvm_o3", "runtime_worst_vs_llvm_o3", "compile_warm_geomean_vs_llvm_o3",
    "compile_cold_geomean_vs_llvm_o2", "size_geomean_vs_llvm_o3", "rss_geomean_vs_llvm_o3"
  }

  /** What an aggregate that is not there is recorded as. */
  function Default(field: string): string {
    if field == "nondet_failclosed_count" || field == "nondet_candidate_count" then "0" else "null"
  }

  predicate GatesAnswer(gates: Gates, results: Results) {
    forall g <- gates.Keys :: gates[g](results).Some?
  }

  /** None where a field read without a default is missing or a gate cannot be evaluated. */
  function Condense(results: Results, source: string, gates: Gates): Option<Row>
    requires results.provenance.Some?
  {
    var prov := results.provenance.value;
    if !(COPIED_STAMPS <= prov.stamps.Keys) || !(REQUIRED_AGGREGATES <= results.aggregates.Keys) then None
    else if !GatesAnswer(gates, results) then None
    else
      Some(Row(source, prov.hostArch, prov.tcgEnv, results.headlineEligible, results.mismatchCount,
               results.coverage, results.runtimeO3, results.warmO2,
               map f | f in COPIED_STAMPS :: prov.stamps[f],
               map f | f in COPIED_AGGREGATES :: if f in results.aggregates then results.aggregates[f] else Default(f),
               map g | g in gates :: gates[g](results).value))
  }

  /** No proof gate is switched off. */
  predicate GatesOn(env: Env) {
    && "TCG_NO_PROOF_CERTS" !in env && "TCG_NO_PROOF_CACHE" !in env
    && ("TCG_REFINE_SOLVER" in env ==> env["TCG_REFINE_SOLVER"] != "0")
  }

  lemma FlagsIffGatesOff(env: Env)
    ensures WeakeningFlags(env) == [] <==> GatesOn(env)
  {
    var (a, b, c) := ("TCG_NO_PROOF_CERTS" in env, "TCG_NO_PROOF_CACHE" in env,
                      "TCG_REFINE_SOLVER" in env && env["TCG_REFINE_SOLVER"] == "0");
    assert |WeakeningFlags(env)| == (if a then 1 else 0) + (if b then 1 else 0) + (if c then 1 else 0);
  }

  /** Which flags are reported. */
  lemma FlagsAre(env: Env, flag: string)
    ensures flag in WeakeningFlags(env) <==>
            || (flag == "TCG_NO_PROOF_CERTS" && flag in env)
            || (flag == "TCG_NO_PROOF_CACHE" && flag in env)
            || (flag == "TCG_REFINE_SOLVER=0" && "TCG_REFINE_SOLVER" in env && env["TCG_REFINE_SOLVER"] == "0")
  {
  }

  /** Which problems are reported, with what in them. */
  lemma ProblemsAre(results: Results, p: Problem)
    ensures p in Validate(results) <==>
            match p
            case NoProvenance => results.provenance.None?
            case MissingFields(names) =>
              && results.provenance.Some? && names != {}
              && (forall f :: f in names <==> f in MANDATORY_PROVENANCE && f !in results.provenance.value.stamps)
            case WeakenedProofs(flags) =>
              && results.provenance.Some? && flags == WeakeningFlags(EnvOrEmpty(results.provenance.value.tcgEnv))
              && !GatesOn(EnvOrEmpty(results.provenance.value.tcgEnv))
            case Mismatches(count) =>
              results.provenance.Some? && results.mismatchCount == count && count != Some(0)
  {
    hide WeakeningFlags, GatesOn;
    if results.provenance.Some? {
      FlagsIffGatesOff(EnvOrEmpty(results.provenance.value.tcgEnv));
      if p.MissingFields? {
        var missing := MANDATORY_PROVENANCE - results.provenance.value.stamps.Keys;
        assert forall f :: f in missing <==> f in MANDATORY_PROVENANCE && f !in results.provenance.value.stamps;
        assert p.names == missing <==> forall f :: f in p.names <==> f in missing;
      }
    }
  }

  /** Every mandatory stamp is there, every proof gate was on and nothing mismatched. */
  predicate EvidenceWorthy(results: Results) {
    && results.provenance.Some? && MANDATORY_PROVENANCE <= results.provenance.value.stamps.Keys
    && GatesOn(EnvOrEmpty(results.provenance.value.tcgEnv)) && results.mismatchCount == Some(0)
  }

  lemma ValidIff(results: Results)
    ensures Validate(results) == [] <==> EvidenceWorthy(results)
  {
    hide WeakeningFlags, GatesOn;
    if results.provenance.Some? {
      var prov := results.provenance.value;
      FlagsIffGatesOff(EnvOrEmpty(prov.tcgEnv));
      var missing := MANDATORY_PROVENANCE - prov.stamps.Keys;
      assert missing == {} <==> MANDATORY_PROVENANCE <= prov.stamps.Keys by {
        assert forall f :: f in missing <==> f in MANDATORY_PROVENANCE && f !in prov.stamps.Keys;
      }
      var (a, b) := (if missing != {} then [MissingFields(missing)] else [], WeakeningFlags(EnvOrEmpty(prov.tcgEnv)));
      var c := if results.mismatchCount != Some(0) then [Mismatches(results.mismatchCount)] else [];
      assert |Validate(results)| == |a| + (if b != [] then 1 else 0) + |c|;
    }
  }

  // --- The ratchet ------------------------------------------------------------------------------------

  function MetricOf(row: Row, m: Metric): Option<real> {
    if m == RuntimeO3 then row.runtimeO3 else row.warmO2
  }

  /** A committed row the new one is measured against. */
  predicate IsBaseline(r: Row, row: Row) {
    r.evidence && r.hostArch == row.hostArch && r.source != row.source
  }

  function Baselines(row: Row, ledger: seq<Row>): seq<Row> {
    if ledger == [] then []
    else (if IsBaseline(ledger[0], row) then [ledger[0]] else []) + Baselines(row, ledger[1..])
  }

  function MetricValues(rows: seq<Row>, m: Metric): seq<real> {
    if rows == [] then []
    else (if MetricOf(rows[0], m).Some? then [MetricOf(rows[0], m).value] else []) + MetricValues(rows[1..], m)
  }

  function CoverageValues(rows: seq<Row>): seq<real> {
    if rows == [] then []
    else (if rows[0].coverage.Some? then [rows[0].coverage.value] else []) + CoverageValues(rows[1..])
  }

  function Least(vals: seq<real>): (r: real)
    requires vals != []
    ensures r in vals && forall v <- vals :: r <= v
  {
    if |vals| == 1 then vals[0]
    else
      assert vals == [vals[0]] + vals[1..];
      var rest := Least(vals[1..]);
      if vals[0] <= rest then vals[0] else rest
  }

  function Greatest(vals: seq<real>): (r: real)
    requires vals != []
    ensures r in vals && forall v <- vals :: v <= r
  {
    if |vals| == 1 then vals[0]
    else
      assert vals == [vals[0]] + vals[1..];
      var rest := Greatest(vals[1..]);
      if vals[0] >= rest then vals[0] else rest
  }

  function RegressPct(cur: real, best: real): real
    requires best != 0.0
  {
    100.0 * (cur - best) / best
  }

  /** The failures of one metric; None where the percentage divides by zero. */
  function MetricFailures(row: Row, baselines: seq<Row>, m: Metric, floor: real): Option<seq<Failure>> {
    var (vals, cur) := (MetricValues(baselines, m), MetricOf(row, m));
    if vals == [] || cur.None? then Some([])
    else
      var best := Least(vals);
      if best == 0.0 then None
      else if RegressPct(cur.value, best) > floor then Some([Regressed(m, cur.value, best)])
      else Some([])
  }

  function AllMetricFailures(row: Row, baselines: seq<Row>, checks: seq<(Metric, real)>,
      fails: seq<Failure>): Option<seq<Failure>> {
    if checks == [] then Some(fails)
    else
      var first := MetricFailures(row, baselines, checks[0].0, checks[0].1);
      if first.None? then None else AllMetricFailures(row, baselines, checks[1..], fails + first.value)
  }

  function CoverageFailures(row: Row, baselines: seq<Row>): seq<Failure> {
    var vals := CoverageValues(baselines);
    if vals != [] && row.coverage.Some? && row.coverage.value < Greatest(vals)
    then [CoverageDropped(row.coverage.value, Greatest(vals))]
    else []
  }

  function Checks(th: Thresholds): seq<(Metric, real)> {
    [(RuntimeO3, th.runtimeFloor), (WarmO2, th.warmFloor)]
  }

  /** Failures against the best committed evidence; None when the run stops on an exception. */
  function Ratchet(row: Row, ledger: seq<Row>, th: Thresholds): Option<seq<Failure>> {
    var baselines := Baselines(row, ledger);
    if !row.evidence || baselines == [] then Some([])
    else
      var fails := AllMetricFailures(row, baselines, Checks(th), []);
      if fails.None? then None
      else Some(fails.value + if th.coverageDropIsRed then CoverageFailures(row, baselines) else [])
  }

  method RatchetCheck(row: Row, ledger: seq<Row>, th: Thresholds) returns (r: Option<seq<Failure>>)
    ensures r == Ratchet(row, ledger, th)
  {
    hide Least, Baselines, RegressPct, CoverageFailures, Checks, MetricValues, MetricOf;
    var evidence := Baselines(row, ledger);
    if !row.evidence { return Some([]); }
    if evidence == [] { return Some([]); }
    var fails: seq<Failure> := [];
    var checks := Checks(th);
    assert checks[0..] == checks;
    for i := 0 to |checks|
      invariant AllMetricFailures(row, evidence, checks, []) == AllMetricFailures(row, evidence, checks[i..], fails)
    {
      assert checks[i..][1..] == checks[i + 1..] && fails + [] == fails;
      var (metric, floor) := checks[i];
      var (vals, cur) := (MetricValues(evidence, metric), MetricOf(row, metric));
      if vals == [] || cur.None? { continue; }
      var best := Least(vals);
      if best == 0.0 { return None; }
      if RegressPct(cur.value, best) > floor {
        fails := fails + [Regressed(metric, cur.value, best)];
      }
    }
    if th.coverageDropIsRed {
      fails := fails + CoverageFailures(row, evidence);
    }
    return Some(fails);
  }

  // --- What passing means -----------------------------------------------------------------------------

  /** `row` is no more than `floor` percent above `base` in this metric, where both record it. */
  predicate WithinFloor(base: Row, row: Row, m: Metric, floor: real) {
    MetricOf(base, m).Some? && MetricOf(row, m).Some? ==>
      100.0 * MetricOf(row, m).value <= (100.0 + floor) * MetricOf(base, m).value
  }

  predicate CoverageKept(base: Row, row: Row) {
    base.coverage.Some? && row.coverage.Some? ==> base.coverage.value <= row.coverage.value
  }

  predicate PositiveMetrics(rows: seq<Row>) {
    forall r <- rows :: (r.runtimeO3.Some? ==> r.runtimeO3.value > 0.0) && (r.warmO2.Some? ==> r.warmO2.value > 0.0)
  }

  lemma {:induction false} BaselinesExact(row: Row, ledger: seq<Row>, r: Row)
    ensures r in Baselines(row, ledger) <==> r in ledger && IsBaseline(r, row)
  {
    if ledger == [] {
    } else {
      BaselinesExact(row, ledger[1..], r);
      assert ledger == [ledger[0]] + ledger[1..];
    }
  }

  lemma {:induction false} MetricValuesExact(rows: seq<Row>, m: Metric, v: real)
    ensures v in MetricValues(rows, m) <==> exists r <- rows :: MetricOf(r, m) == Some(v)
  {
    if rows == [] {
    } else {
      MetricValuesExact(rows[1..], m, v);
      assert rows == [rows[0]] + rows[1..];
    }
  }

  lemma {:induction false} CoverageValuesExact(rows: seq<Row>, v: real)
    ensures v in CoverageValues(rows) <==> exists r <- rows :: r.coverage == Some(v)
  {
    if rows == [] {
    } else {
      CoverageValuesExact(rows[1..], v);
      assert rows == [rows[0]] + rows[1..];
    }
  }

  lemma Quotient(x: real, d: real, f: real)
    requires d != 0.0
    ensures x / d > f <==> if d > 0.0 then x > f * d else x < f * d
  {
    var q := x / d;
    assert q * d == x;
    if d > 0.0 {
      if q > f { assert (q - f) * d > 0.0; } else { assert (f - q) * d >= 0.0; }
    } else {
      if q > f { assert (q - f) * (0.0 - d) > 0.0; } else { assert (f - q) * (0.0 - d) >= 0.0; }
    }
  }

  lemma RegressIff(cur: real, best: real, floor: real)
    requires best != 0.0
    ensures RegressPct(cur, best) <= floor <==>
            if best > 0.0 then 100.0 * cur <= (100.0 + floor) * best else 100.0 * cur >= (100.0 + floor) * best
  {
    Quotient(100.0 * (cur - best), best, floor);
    assert (100.0 + floor) * best == 100.0 * best + floor * best;
  }

  /** One metric passes exactly when the current value is within the floor of the best, for a
      positive best; a negative best turns the comparison round, and a zero one raises. */
  lemma MetricPassesIff(row: Row, baselines: seq<Row>, m: Metric, floor: real)
    requires MetricValues(baselines, m) != [] && MetricOf(row, m).Some?
    ensures var (best, cur) := (Least(MetricValues(baselines, m)), MetricOf(row, m).value);
            MetricFailures(row, baselines, m, floor) == Some([]) <==>
              if best > 0.0 then 100.0 * cur <= (100.0 + floor) * best
              else best < 0.0 && 100.0 * cur >= (100.0 + floor) * best
  {
    hide RegressPct, Least, MetricValues, MetricOf;
    var (best, cur) := (Least(MetricValues(baselines, m)), MetricOf(row, m).value);
    if best != 0.0 {
      RegressIff(cur, best, floor);
    }
  }

  function WithMetric(row: Row, m: Metric, v: real): Row {
    if m == RuntimeO3 then row.(runtimeO3 := Some(v)) else row.(warmO2 := Some(v))
  }

  /** A row that records `v` passes this metric. */
  predicate Passes(row: Row, baselines: seq<Row>, m: Metric, floor: real, v: real) {
    MetricFailures(WithMetric(row, m, v), baselines, m, floor) == Some([])
  }

  predicate WithinOf(best: real, floor: real, v: real) {
    100.0 * v <= (100.0 + floor) * best
  }

  /** Some value passes and every one that passes is within the floor of the best, if and only if the
      best is positive. From a negative best a value passes exactly when it is not below the floor, so
      every regression is hidden; from a zero best every run raises. */
  lemma PassingMeansWithinIff(row: Row, baselines: seq<Row>, m: Metric, floor: real)
    requires MetricValues(baselines, m) != []
    ensures var best := Least(MetricValues(baselines, m));
            && ((exists v :: Passes(row, baselines, m, floor, v)) &&
                (forall v :: Passes(row, baselines, m, floor, v) ==> WithinOf(best, floor, v))
                <==> best > 0.0)
            && (best < 0.0 ==> forall v :: Passes(row, baselines, m, floor, v) <==> 100.0 * v >= (100.0 + floor) * best)
  {
    hide MetricFailures, MetricValues, Least;
    var best := Least(MetricValues(baselines, m));
    forall v: real
      ensures Passes(row, baselines, m, floor, v) <==>
              if best > 0.0 then WithinOf(best, floor, v) else best < 0.0 && 100.0 * v >= (100.0 + floor) * best
    {
      MetricPassesIff(WithMetric(row, m, v), baselines, m, floor);
    }
    var edge := (100.0 + floor) * best / 100.0;
    if best > 0.0 {
      assert Passes(row, baselines, m, floor, edge);
    } else if best < 0.0 {
      assert Passes(row, baselines, m, floor, edge + 1.0) && !WithinOf(best, floor, edge + 1.0);
    }
  }

  lemma ScaleMonotone(k: real, x: real, y: real)
    requires k >= 0.0 && x <= y
    ensures k * x <= k * y
  {
    assert k * (y - x) >= 0.0;
  }

  lemma PassedMetric(row: Row, baselines: seq<Row>, m: Metric, floor: real, r: Row)
    requires PositiveMetrics(baselines) && floor >= 0.0 && r in baselines
    requires MetricFailures(row, baselines, m, floor) == Some([])
    ensures WithinFloor(r, row, m, floor)
  {
    hide MetricFailures, MetricValues, MetricOf, PositiveMetrics, Least;
    if MetricOf(r, m).Some? && MetricOf(row, m).Some? {
      LeastBelow(baselines, m, r);
      MetricPassesIff(row, baselines, m, floor);
      ScaleMonotone(100.0 + floor, Least(MetricValues(baselines, m)), MetricOf(r, m).value);
    }
  }

  lemma LeastBelow(baselines: seq<Row>, m: Metric, r: Row)
    requires PositiveMetrics(baselines) && r in baselines && MetricOf(r, m).Some?
    ensures MetricValues(baselines, m) != [] && 0.0 < Least(MetricValues(baselines, m)) <= MetricOf(r, m).value
  {
    hide MetricValues, MetricOf, PositiveMetrics;
    MetricValuesExact(baselines, m, MetricOf(r, m).value);
    var best := LeastPositive(baselines, m);
  }

  lemma LeastPositive(baselines: seq<Row>, m: Metric) returns (best: real)
    requires PositiveMetrics(baselines) && MetricValues(baselines, m) != []
    ensures best == Least(MetricValues(baselines, m)) && best > 0.0
    ensures exists b <- baselines :: MetricOf(b, m) == Some(best)
  {
    hide Least, MetricValues;
    best := Least(MetricValues(baselines, m));
    MetricValuesExact(baselines, m, best);
  }

  lemma MetricPasses(row: Row, baselines: seq<Row>, m: Metric, floor: real)
    requires PositiveMetrics(baselines) && forall r <- baselines :: WithinFloor(r, row, m, floor)
    ensures MetricFailures(row, baselines, m, floor) == Some([])
  {
    hide MetricValues, Least, RegressPct;
    if MetricValues(baselines, m) != [] && MetricOf(row, m).Some? {
      var best := LeastPositive(baselines, m);
      MetricPassesIff(row, baselines, m, floor);
    }
  }

  /** With positive baselines, one metric passes if and only if the row is within the floor of every
      one of them. */
  lemma MetricPassesAllIff(row: Row, baselines: seq<Row>, m: Metric, floor: real)
    requires PositiveMetrics(baselines) && floor >= 0.0
    ensures MetricFailures(row, baselines, m, floor) == Some([]) <==>
        forall r <- baselines :: WithinFloor(r, row, m, floor)
  {
    hide MetricFailures, WithinFloor, PositiveMetrics;
    if MetricFailures(row, baselines, m, floor) == Some([]) {
      forall r | r in baselines
        ensures WithinFloor(r, row, m, floor)
      {
        PassedMetric(row, baselines, m, floor, r);
      }
    }
    if forall r <- baselines :: WithinFloor(r, row, m, floor) {
      MetricPasses(row, baselines, m, floor);
    }
  }

  lemma CoveragePassesIff(row: Row, baselines: seq<Row>)
    ensures CoverageFailures(row, baselines) == [] <==> forall r <- baselines :: CoverageKept(r, row)
  {
    var vals := CoverageValues(baselines);
    forall r | r in baselines && r.coverage.Some?
      ensures r.coverage.value in vals
    {
      CoverageValuesExact(baselines, r.coverage.value);
    }
    if vals != [] {
      CoverageValuesExact(baselines, Greatest(vals));
    }
  }

  /** `row` keeps to everything a committed evidence row of its architecture set. */
  predicate Holds(base: Row, row: Row, th: Thresholds) {
    && WithinFloor(base, row, RuntimeO3, th.runtimeFloor)
    && WithinFloor(base, row, WarmO2, th.warmFloor)
    && (th.coverageDropIsRed ==> CoverageKept(base, row))
  }

  predicate SaneThresholds(th: Thresholds) {
    th.runtimeFloor >= 0.0 && th.warmFloor >= 0.0
  }

  lemma ChecksUnfold(row: Row, baselines: seq<Row>, th: Thresholds)
    ensures var (x, y) := (MetricFailures(row, baselines, RuntimeO3, th.runtimeFloor),
                           MetricFailures(row, baselines, WarmO2, th.warmFloor));
            AllMetricFailures(row, baselines, Checks(th), []) == if x.None? ||
                y.None? then None else Some(x.value + y.value)
  {
    hide MetricFailures;
    var (x, y) := (MetricFailures(row, baselines, RuntimeO3, th.runtimeFloor),
                   MetricFailures(row, baselines, WarmO2, th.warmFloor));
    var checks := Checks(th);
    assert checks[1..] == [(WarmO2, th.warmFloor)] && checks[1..][1..] == [];
    if x.Some? {
      assert [] + x.value == x.value;
      assert AllMetricFailures(row, baselines, checks, []) == AllMetricFailures(row, baselines, checks[1..], x.value);
    }
  }

  /** The ratchet lets an evidence row through if and only if it holds to every committed evidence row
      of the same architecture, not just to the latest or the best. */
  lemma RatchetPassesIff(row: Row, ledger: seq<Row>, th: Thresholds)
    requires PositiveMetrics(ledger) && SaneThresholds(th) && row.evidence
    ensures Ratchet(row, ledger, th) == Some([]) <==> forall r <- ledger :: IsBaseline(r, row) ==> Holds(r, row, th)
  {
    var bs := Baselines(row, ledger);
    forall r: Row
      ensures r in bs <==> r in ledger && IsBaseline(r, row)
    {
      BaselinesExact(row, ledger, r);
    }
    assert PositiveMetrics(bs);
    hide Baselines, MetricFailures, CoverageFailures, WithinFloor, CoverageKept, AllMetricFailures, Checks,
        IsBaseline, PositiveMetrics;
    if bs != [] {
      ChecksUnfold(row, bs, th);
      MetricPassesAllIff(row, bs, RuntimeO3, th.runtimeFloor);
      MetricPassesAllIff(row, bs, WarmO2, th.warmFloor);
      CoveragePassesIff(row, bs);
      var (x, y) := (MetricFailures(row, bs, RuntimeO3, th.runtimeFloor),
          MetricFailures(row, bs, WarmO2, th.warmFloor));
      if x.Some? && y.Some? {
        var c := if th.coverageDropIsRed then CoverageFailures(row, bs) else [];
        assert |x.value + y.value + c| == |x.value| + |y.value| + |c|;
      }
      assert Ratchet(row, ledger, th) == Some([]) <==>
             x == Some([]) && y == Some([]) && (th.coverageDropIsRed ==> CoverageFailures(row, bs) == []);
      assert Ratchet(row, ledger, th) == Some([]) <==> forall r <- bs :: Holds(r, row, th);
    }
  }

  /** The least value a committed evidence row of this architecture records for the metric. */
  ghost predicate IsBest(row: Row, ledger: seq<Row>, m: Metric, b: real) {
    && (exists r <- ledger :: IsBaseline(r, row) && MetricOf(r, m) == Some(b))
    && forall r <- ledger :: IsBaseline(r, row) && MetricOf(r, m).Some? ==> b <= MetricOf(r, m).value
  }

  ghost predicate IsMostCovered(row: Row, ledger: seq<Row>, b: real) {
    && (exists r <- ledger :: IsBaseline(r, row) && r.coverage == Some(b))
    && forall r <- ledger :: IsBaseline(r, row) && r.coverage.Some? ==> r.coverage.value <= b
  }

  /** The regression against the best exceeds the floor. */
  predicate Exceeds(cur: real, best: real, floor: real) {
    if best > 0.0 then 100.0 * cur > (100.0 + floor) * best else 100.0 * cur < (100.0 + floor) * best
  }

  function FloorOf(th: Thresholds, m: Metric): real {
    if m == RuntimeO3 then th.runtimeFloor else th.warmFloor
  }

  /** Nothing is compared with a best of zero. */
  ghost predicate Comparisons(row: Row, ledger: seq<Row>) {
    row.evidence ==> forall m: Metric :: MetricOf(row, m).Some? ==> !IsBest(row, ledger, m, 0.0)
  }

  /** Exactly when a failure is reported. */
  ghost predicate IsFailure(row: Row, ledger: seq<Row>, th: Thresholds, f: Failure) {
    && row.evidence
    && match f
       case Regressed(m, cur, best) =>
         MetricOf(row, m) == Some(cur) && IsBest(row, ledger, m, best) && Exceeds(cur, best, FloorOf(th, m))
       case CoverageDropped(cur, best) =>
         th.coverageDropIsRed && row.coverage == Some(cur) && IsMostCovered(row, ledger, best) && cur < best
  }

  lemma BestIff(row: Row, ledger: seq<Row>, m: Metric, b: real)
    ensures IsBest(row, ledger, m, b) <==>
            MetricValues(Baselines(row, ledger), m) != [] && Least(MetricValues(Baselines(row, ledger), m)) == b
  {
    hide MetricOf, IsBaseline;
    var bs := Baselines(row, ledger);
    var vals := MetricValues(bs, m);
    forall v: real
      ensures v in vals <==> exists r <- ledger :: IsBaseline(r, row) && MetricOf(r, m) == Some(v)
    {
      ValuesOfBaselines(row, ledger, m, v);
    }
    hide Baselines, MetricValues;
    if IsBest(row, ledger, m, b) {
      assert b in vals;
    }
    if vals != [] && Least(vals) == b {
      forall r | r in ledger && IsBaseline(r, row) && MetricOf(r, m).Some?
        ensures b <= MetricOf(r, m).value
      {
        assert MetricOf(r, m).value in vals;
      }
    }
  }

  lemma ValuesOfBaselines(row: Row, ledger: seq<Row>, m: Metric, v: real)
    ensures v in MetricValues(Baselines(row, ledger), m) <==>
            exists r <- ledger :: IsBaseline(r, row) && MetricOf(r, m) == Some(v)
  {
    hide MetricOf, IsBaseline, Baselines, MetricValues;
    MetricValuesExact(Baselines(row, ledger), m, v);
    forall r: Row ensures r in Baselines(row, ledger) <==> r in ledger && IsBaseline(r, row) {
      BaselinesExact(row, ledger, r);
    }
  }

  lemma CoveredIff(row: Row, ledger: seq<Row>, b: real)
    ensures IsMostCovered(row, ledger, b) <==>
            CoverageValues(Baselines(row, ledger)) != [] && Greatest(CoverageValues(Baselines(row, ledger))) == b
  {
    hide IsBaseline, Baselines, CoverageValues;
    var bs := Baselines(row, ledger);
    var vals := CoverageValues(bs);
    forall r: Row ensures r in bs <==> r in ledger && IsBaseline(r, row) { BaselinesExact(row, ledger, r); }
    forall v: real
      ensures v in vals <==> exists r <- ledger :: IsBaseline(r, row) && r.coverage == Some(v)
    {
      CoverageValuesExact(bs, v);
    }
    if IsMostCovered(row, ledger, b) {
      assert b in vals;
    }
    if vals != [] && Greatest(vals) == b {
      forall r | r in ledger && IsBaseline(r, row) && r.coverage.Some?
        ensures r.coverage.value <= b
      {
        assert r.coverage.value in vals;
      }
    }
  }

  /** The failures of one metric. */
  lemma MetricFailuresAre(row: Row, ledger: seq<Row>, m: Metric, floor: real, f: Failure)
    ensures var r := MetricFailures(row, Baselines(row, ledger), m, floor);
            && (r.None? <==> MetricOf(row, m).Some? && IsBest(row, ledger, m, 0.0))
            && (r.Some? ==> (f in r.value <==>
                  && f.Regressed? && f.metric == m && MetricOf(row, m) == Some(f.current)
                  && IsBest(row, ledger, m, f.best) && Exceeds(f.current, f.best, floor)))
  {
    hide MetricOf, MetricValues, Baselines, IsBest, RegressPct, Least;
    var vals := MetricValues(Baselines(row, ledger), m);
    BestIff(row, ledger, m, 0.0);
    if f.Regressed? { BestIff(row, ledger, m, f.best); }
    if vals != [] && MetricOf(row, m).Some? && Least(vals) != 0.0 {
      RegressIff(MetricOf(row, m).value, Least(vals), floor);
      BestIff(row, ledger, m, Least(vals));
    }
  }

  /** The ratchet stops if and only if something is compared with zero, and otherwise reports exactly the
      failures there are. A row that is not evidence has none. */
  lemma RatchetIs(row: Row, ledger: seq<Row>, th: Thresholds, f: Failure)
    ensures Ratchet(row, ledger, th).Some? <==> Comparisons(row, ledger)
    ensures Ratchet(row, ledger, th).Some? ==>
              (f in Ratchet(row, ledger, th).value <==> IsFailure(row, ledger, th, f))
  {
    hide MetricFailures, CoverageFailures, AllMetricFailures, Checks, Baselines, IsBest, IsMostCovered, MetricOf,
        Exceeds;
    var bs := Baselines(row, ledger);
    MetricFailuresAre(row, ledger, RuntimeO3, th.runtimeFloor, f);
    MetricFailuresAre(row, ledger, WarmO2, th.warmFloor, f);
    CoverageFailureIs(row, ledger, f);
    ChecksUnfold(row, bs, th);
    if bs == [] { NoBaselines(row, ledger, f); }
    var (x, y) := (MetricFailures(row, bs, RuntimeO3, th.runtimeFloor), MetricFailures(row, bs, WarmO2, th.warmFloor));
    TwoComparisons(row, ledger);
  }

  lemma TwoComparisons(row: Row, ledger: seq<Row>)
    ensures Comparisons(row, ledger) <==>
            (row.evidence ==>
               && !(MetricOf(row, RuntimeO3).Some? && IsBest(row, ledger, RuntimeO3, 0.0))
               && !(MetricOf(row, WarmO2).Some? && IsBest(row, ledger, WarmO2, 0.0)))
  {
    hide MetricOf, IsBest;
    forall m: Metric | MetricOf(row, m).Some? ensures m == RuntimeO3 || m == WarmO2 { }
  }

  lemma CoverageFailureIs(row: Row, ledger: seq<Row>, f: Failure)
    ensures f in CoverageFailures(row, Baselines(row, ledger)) <==>
            && f.CoverageDropped? && row.coverage == Some(f.current) && IsMostCovered(row, ledger, f.best)
            && f.current < f.best
  {
    hide Baselines, CoverageValues, IsMostCovered, Greatest;
    var vals := CoverageValues(Baselines(row, ledger));
    if vals != [] { CoveredIff(row, ledger, Greatest(vals)); }
    if f.CoverageDropped? { CoveredIff(row, ledger, f.best); }
  }

  lemma NoBaselines(row: Row, ledger: seq<Row>, f: Failure)
    requires Baselines(row, ledger) == []
    ensures !(f.Regressed? && IsBest(row, ledger, f.metric, f.best))
    ensures !(f.CoverageDropped? && IsMostCovered(row, ledger, f.best))
    ensures forall m: Metric :: !IsBest(row, ledger, m, 0.0)
  {
    forall m: Metric, b: real ensures !IsBest(row, ledger, m, b) { BestIff(row, ledger, m, b); }
    if f.CoverageDropped? { CoveredIff(row, ledger, f.best); }
  }

  /** Passing, whatever the metrics are: nothing compared with zero, and no failure. */
  ghost predicate Passing(row: Row, ledger: seq<Row>, th: Thresholds) {
    Comparisons(row, ledger) && forall f: Failure :: !IsFailure(row, ledger, th, f)
  }

  lemma PassingIff(row: Row, ledger: seq<Row>, th: Thresholds)
    ensures Ratchet(row, ledger, th) == Some([]) <==> Passing(row, ledger, th)
    ensures !row.evidence ==> Passing(row, ledger, th)
  {
    hide Ratchet, Comparisons, IsFailure;
    var r := Ratchet(row, ledger, th);
    forall f: Failure
      ensures r.Some? <==> Comparisons(row, ledger)
      ensures r.Some? ==> (f in r.value <==> IsFailure(row, ledger, th, f))
    {
      RatchetIs(row, ledger, th, f);
    }
    RatchetIs(row, ledger, th, CoverageDropped(0.0, 0.0));
    if r.Some? && r.value != [] { assert r.value[0] in r.value; }
    NotEvidence(row, ledger, th);
  }

  lemma NotEvidence(row: Row, ledger: seq<Row>, th: Thresholds)
    ensures !row.evidence ==> Comparisons(row, ledger) && forall f: Failure :: !IsFailure(row, ledger, th, f)
  {
  }

  /** The coverage half needs nothing of the metrics: whatever they are, a row that passes covers no
      less than any committed evidence row of its architecture. */
  lemma PassingKeepsCoverage(row: Row, ledger: seq<Row>, th: Thresholds, base: Row)
    requires Ratchet(row, ledger, th) == Some([]) && row.evidence && th.coverageDropIsRed
    requires base in ledger && IsBaseline(base, row)
    ensures CoverageKept(base, row)
  {
    BaselinesExact(row, ledger, base);
    CoveragePassesIff(row, Baselines(row, ledger));
  }

  // --- The ledger over runs -----------------------------------------------------------------------------

  datatype Verdict = Rejected(problems: seq<Problem>) | Red(failures: seq<Failure>) | Raised | Accepted(row: Row)

  function Judge(results: Results, source: string, gates: Gates, ledger: seq<Row>, th: Thresholds): Verdict {
    var problems := Validate(results);
    if problems != [] then Rejected(problems)
    else
      var row := Condense(results, source, gates);
      if row.None? then Raised
      else
        var fails := Ratchet(row.value, ledger, th);
        if fails.None? then Raised else if fails.value != [] then Red(fails.value) else Accepted(row.value)
  }

  predicate HasSource(ledger: seq<Row>, source: string) {
    exists r <- ledger :: r.source == source
  }

  datatype Invocation = Invocation(results: Results, source: string, append: bool, gates: Gates)

  function AfterRun(ledger: seq<Row>, run: Invocation, th: Thresholds): seq<Row> {
    var verdict := Judge(run.results, run.source, run.gates, ledger, th);
    if verdict.Accepted? && run.append && !HasSource(ledger, run.source) then ledger + [verdict.row] else ledger
  }

  function AfterRuns(runs: seq<Invocation>, th: Thresholds): seq<Row> {
    if runs == [] then [] else AfterRun(AfterRuns(runs[..|runs| - 1], th), runs[|runs| - 1], th)
  }

  lemma ValidHasProvenance(results: Results)
    requires Validate(results) == []
    ensures results.provenance.Some?
  {
  }

  lemma CondenseKeepsSource(results: Results, source: string, gates: Gates)
    requires results.provenance.Some? && Condense(results, source, gates).Some?
    ensures Condense(results, source, gates).value.source == source
  {
  }

  /** The ledger file and the two ways `main` uses it. */
  class LedgerFile {
    var rows: seq<Row>

    constructor ()
      ensures rows == []
    {
      rows := [];
    }

    method Run(run: Invocation, th: Thresholds) returns (exitCode: int)
      modifies this
      ensures rows == AfterRun(old(rows), run, th)
      ensures exitCode == 0 <==> Acceptable(run, old(rows), th)
      ensures |rows| == |old(rows)| + 1 <==>
              Acceptable(run, old(rows), th) && run.append && NewSource(old(rows), run.source)
      ensures rows == old(rows) || (|rows| == |old(rows)| + 1 && old(rows) == rows[..|old(rows)|] &&
                                    Records(rows[|old(rows)|], run))
    {
      hide Ratchet, Validate, Condense, Acceptable, Records;
      JudgeIff(run, rows, th);
      var problems := Validate(run.results);
      if problems != [] { return 1; }
      ValidHasProvenance(run.results);
      var condensed := Condense(run.results, run.source, run.gates);
      if condensed.None? { return 1; }
      var row := condensed.value;
      CondenseKeepsSource(run.results, run.source, run.gates);
      var fails := RatchetCheck(row, rows, th);
      if fails.None? || fails.value != [] { return 1; }
      if run.append {
        var present := false;
        for i := 0 to |rows|
          invariant !present && forall k :: 0 <= k < i ==> rows[k].source != row.source
          invariant rows == old(rows)
        {
          if rows[i].source == row.source { present := true; break; }
        }
        if !present { rows := rows + [row]; }
      }
      return 0;
    }

    /** `--check-ledger`: counts bad rows. */
    method CheckLedger() returns (exitCode: int)
      ensures exitCode == 0 <==> forall r <- rows :: CleanRow(r)
    {
      var bad := 0;
      for i := 0 to |rows|
        invariant bad >= 0 && (bad == 0 <==> forall k :: 0 <= k < i ==> CleanRow(rows[k]))
      {
        if WeakeningFlags(EnvOrEmpty(rows[i].tcgEnv)) != [] { bad := bad + 1; }
        if rows[i].mismatchCount != Some(0) { bad := bad + 1; }
      }
      return if bad > 0 then 1 else 0;
    }
  }

  predicate CleanRow(r: Row) {
    WeakeningFlags(EnvOrEmpty(r.tcgEnv)) == [] && r.mismatchCount == Some(0)
  }

  /** A row is clean if and only if every proof gate was on and nothing mismatched. */
  lemma CleanIff(r: Row)
    ensures CleanRow(r) <==> GatesOn(EnvOrEmpty(r.tcgEnv)) && r.mismatchCount == Some(0)
  {
    FlagsIffGatesOff(EnvOrEmpty(r.tcgEnv));
  }

  /** Both are evidence for one architecture. */
  predicate Comparable(base: Row, row: Row) {
    base.evidence && row.evidence && base.hostArch == row.hostArch
  }

  ghost predicate UniqueSources(rows: seq<Row>) {
    forall i, j :: 0 <= i < j < |rows| ==> rows[i].source != rows[j].source
  }

  ghost predicate CoverageNeverDrops(rows: seq<Row>) {
    forall i, j :: 0 <= i < j < |rows| && Comparable(rows[i], rows[j]) ==> CoverageKept(rows[i], rows[j])
  }

  ghost predicate NoRegression(rows: seq<Row>, th: Thresholds) {
    forall i, j :: 0 <= i < j < |rows| && Comparable(rows[i], rows[j]) ==>
      WithinFloor(rows[i], rows[j], RuntimeO3, th.runtimeFloor) && WithinFloor(rows[i], rows[j], WarmO2, th.warmFloor)
  }

  /** A run leaves the ledger alone, or adds one clean row that has a new source and passes. */
  predicate Appends(before: seq<Row>, after: seq<Row>, th: Thresholds) {
    && |after| == |before| + 1 && after == before + [after[|before|]]
    && CleanRow(after[|before|]) && !HasSource(before, after[|before|].source)
    && Ratchet(after[|before|], before, th) == Some([])
  }

  lemma RunAppendsOrKeeps(before: seq<Row>, run: Invocation, th: Thresholds)
    ensures AfterRun(before, run, th) == before || Appends(before, AfterRun(before, run, th), th)
  {
    hide Ratchet, WeakeningFlags, HasSource;
  }

  /** Every row of every reachable ledger is clean and has its own source, so `--check-ledger` always
      passes. */
  lemma {:induction false} LedgerStaysValid(runs: seq<Invocation>, th: Thresholds)
    ensures UniqueSources(AfterRuns(runs, th)) && forall r <- AfterRuns(runs, th) :: CleanRow(r)
  {
    if runs == [] {
    } else {
      hide CleanRow, AfterRun, Ratchet, HasSource, UniqueSources;
      var (before, after) := (AfterRuns(runs[..|runs| - 1], th), AfterRuns(runs, th));
      LedgerStaysValid(runs[..|runs| - 1], th);
      RunAppendsOrKeeps(before, runs[|runs| - 1], th);
      if after != before { StaysUnique(before, after[|before|]); }
    }
  }

  lemma StaysUnique(before: seq<Row>, row: Row)
    requires UniqueSources(before) && !HasSource(before, row.source)
    ensures UniqueSources(before + [row])
  {
  }

  /** `row` records the results of `run`, field for field. */
  predicate Records(row: Row, run: Invocation) {
    && run.results.provenance.Some? && row.source == run.source && row.hostArch == run.results.provenance.value.hostArch
    && row.tcgEnv == run.results.provenance.value.tcgEnv && row.evidence == run.results.headlineEligible
    && row.mismatchCount == run.results.mismatchCount && row.coverage == run.results.coverage
    && row.runtimeO3 == run.results.runtimeO3 && row.warmO2 == run.results.warmO2
    && row.stamps.Keys == COPIED_STAMPS && row.aggregates.Keys == COPIED_AGGREGATES
    && (forall f <- COPIED_STAMPS ::
          f in run.results.provenance.value.stamps && row.stamps[f] == run.results.provenance.value.stamps[f])
    && (forall f <- COPIED_AGGREGATES ::
          row.aggregates[f] == if f in run.results.aggregates then run.results.aggregates[f]
                               else if f in {"nondet_failclosed_count", "nondet_candidate_count"} then "0" else "null")
    && row.gates.Keys == run.gates.Keys
    && (forall g <- run.gates.Keys :: run.gates[g](run.results) == Some(row.gates[g]))
  }

  /** Every field read without a default is there, and every gate can be evaluated. */
  predicate Complete(run: Invocation) {
    && run.results.provenance.Some? && COPIED_STAMPS <= run.results.provenance.value.stamps.Keys
    && REQUIRED_AGGREGATES <= run.results.aggregates.Keys && GatesAnswer(run.gates, run.results)
  }

  lemma CondenseRecords(run: Invocation)
    requires run.results.provenance.Some?
    ensures Condense(run.results, run.source, run.gates).Some? <==> Complete(run)
    ensures Complete(run) ==> Records(Condense(run.results, run.source, run.gates).value, run)
  {
  }

  /** A row that records a run is fixed by it. */
  lemma OneRecord(a: Row, b: Row, run: Invocation)
    requires Records(a, run) && Records(b, run)
    ensures a == b
  {
    assert a.stamps == b.stamps && a.aggregates == b.aggregates;
    forall g | g in run.gates.Keys ensures a.gates[g] == b.gates[g] {
      assert run.gates[g](run.results) == Some(a.gates[g]);
    }
    assert a.gates == b.gates;
  }

  /** The run is accepted: its results are evidence-worthy and complete, and the row that records them
      passes. */
  ghost predicate Acceptable(run: Invocation, before: seq<Row>, th: Thresholds) {
    EvidenceWorthy(run.results) && Complete(run) && exists row: Row :: Records(row, run) && Passing(row, before, th)
  }

  ghost predicate NewSource(before: seq<Row>, source: string) {
    forall r <- before :: r.source != source
  }

  lemma JudgeIff(run: Invocation, before: seq<Row>, th: Thresholds)
    ensures Judge(run.results, run.source, run.gates, before, th).Accepted? <==> Acceptable(run, before, th)
    ensures Acceptable(run, before, th) ==>
              Records(Judge(run.results, run.source, run.gates, before, th).row, run)
  {
    hide Validate, EvidenceWorthy, Condense, Complete, Records, Ratchet, Passing;
    ValidIff(run.results);
    if EvidenceWorthy(run.results) {
      ValidHasProvenance(run.results);
      CondenseRecords(run);
      if Complete(run) {
        var row := Condense(run.results, run.source, run.gates).value;
        PassingIff(row, before, th);
        forall r: Row | Records(r, run) ensures r == row { OneRecord(r, row, run); }
      }
    }
  }

  /** One run: the ledger gains the row that records it if and only if the run is acceptable, asks to
      append and has a new source; otherwise nothing changes. */
  lemma RunIff(before: seq<Row>, run: Invocation, th: Thresholds, row: Row)
    requires Records(row, run)
    ensures AfterRun(before, run, th) ==
            if Acceptable(run, before, th) && run.append && NewSource(before, run.source) then before + [row]
            else before
  {
    hide Judge, Acceptable, Records;
    JudgeIff(run, before, th);
    if Acceptable(run, before, th) {
      OneRecord(row, Judge(run.results, run.source, run.gates, before, th).row, run);
    }
  }

  lemma AcceptedRecord(run: Invocation, before: seq<Row>, th: Thresholds) returns (row: Row)
    requires Acceptable(run, before, th)
    ensures Records(row, run)
  {
    hide Records, Passing;
    row :| Records(row, run) && Passing(row, before, th);
  }

  /** Over any sequence of runs, every acceptable run that asks to append is in the ledger from then on,
      under its source; if the source was new, with the row that records it. */
  lemma {:induction false} EveryAcceptedRunIsRecorded(runs: seq<Invocation>, th: Thresholds, i: nat, row: Row)
    requires i < |runs| && runs[i].append && Acceptable(runs[i], AfterRuns(runs[..i], th), th) && Records(row, runs[i])
    ensures !NewSource(AfterRuns(runs, th), runs[i].source)
    ensures NewSource(AfterRuns(runs[..i], th), runs[i].source) ==> row in AfterRuns(runs, th)
    decreases |runs|
  {
    hide Acceptable, AfterRun, Records, NewSource;
    var n := |runs| - 1;
    var before := AfterRuns(runs[..n], th);
    if i < n {
      assert runs[..n][..i] == runs[..i] && runs[..n][i] == runs[i];
      EveryAcceptedRunIsRecorded(runs[..n], th, i, row);
      RunKeepsRows(before, runs[n], th, runs[i].source);
    } else {
      assert runs[..i] == runs[..n];
      RunTakes(before, runs[n], th, row);
    }
  }

  lemma RunTakes(before: seq<Row>, run: Invocation, th: Thresholds, row: Row)
    requires run.append && Acceptable(run, before, th) && Records(row, run)
    ensures !NewSource(AfterRun(before, run, th), run.source)
    ensures NewSource(before, run.source) ==> row in AfterRun(before, run, th)
  {
    hide Acceptable, AfterRun;
    RunIff(before, run, th, row);
    if NewSource(before, run.source) {
      assert row in before + [row] && row.source == run.source;
    }
  }

  lemma RunKeepsRows(before: seq<Row>, run: Invocation, th: Thresholds, source: string)
    ensures forall r <- before :: r in AfterRun(before, run, th)
    ensures !NewSource(before, source) ==> !NewSource(AfterRun(before, run, th), source)
  {
    hide Judge;
  }

  /** Every row of every reachable ledger records results that were submitted for appending and are
      valid: no number in it is typed by hand. */
  lemma {:induction false} RowsComeFromResults(runs: seq<Invocation>, th: Thresholds, row: Row)
    requires row in AfterRuns(runs, th)
    ensures exists run <- runs :: run.append && Records(row, run) && Validate(run.results) == []
  {
    hide AfterRun, Validate, Records;
    var n := |runs| - 1;
    var (before, run) := (AfterRuns(runs[..n], th), runs[n]);
    assert runs == runs[..n] + [run];
    if row in before {
      RowsComeFromResults(runs[..n], th, row);
      var r :| r in runs[..n] && r.append && Records(row, r) && Validate(r.results) == [];
      assert r in runs;
    } else {
      NewRowRecords(before, run, th, row);
      assert run in runs;
    }
  }

  lemma NewRowRecords(before: seq<Row>, run: Invocation, th: Thresholds, row: Row)
    requires row in AfterRun(before, run, th) && row !in before
    ensures run.append && Records(row, run) && Validate(run.results) == []
  {
    hide Judge, Acceptable, Records, Validate, HasSource;
    JudgeIff(run, before, th);
    JudgedValid(run, before, th);
  }

  lemma JudgedValid(run: Invocation, before: seq<Row>, th: Thresholds)
    ensures Judge(run.results, run.source, run.gates, before, th).Accepted? ==> Validate(run.results) == []
  {
    hide Validate, Condense, Ratchet;
  }

  /** Evidence coverage never decreases for an architecture, whatever the metrics. */
  lemma {:induction false} CoverageOnlyRises(runs: seq<Invocation>, th: Thresholds)
    requires th.coverageDropIsRed
    ensures CoverageNeverDrops(AfterRuns(runs, th))
  {
    if runs == [] {
    } else {
      hide CleanRow, AfterRun, Ratchet, CoverageKept;
      var (before, after) := (AfterRuns(runs[..|runs| - 1], th), AfterRuns(runs, th));
      CoverageOnlyRises(runs[..|runs| - 1], th);
      RunAppendsOrKeeps(before, runs[|runs| - 1], th);
      if after != before {
        NewRowCovers(before, after[|before|], th);
      }
    }
  }

  lemma NewRowCovers(before: seq<Row>, row: Row, th: Thresholds)
    requires th.coverageDropIsRed && !HasSource(before, row.source) && Ratchet(row, before, th) == Some([])
    ensures forall i :: 0 <= i < |before| && Comparable(before[i], row) ==> CoverageKept(before[i], row)
  {
    hide Ratchet, CoverageKept;
    forall i | 0 <= i < |before| && Comparable(before[i], row)
      ensures CoverageKept(before[i], row)
    {
      assert before[i] in before && IsBaseline(before[i], row);
      PassingKeepsCoverage(row, before, th, before[i]);
    }
  }

  /** With positive metrics, each committed geomean is within the floor of every earlier evidence row
      of its architecture: small regressions cannot accumulate from row to row. */
  lemma {:induction false} RegressionsCannotAccumulate(runs: seq<Invocation>, th: Thresholds)
    requires SaneThresholds(th) && PositiveMetrics(AfterRuns(runs, th))
    ensures NoRegression(AfterRuns(runs, th), th)
  {
    if runs == [] {
    } else {
      hide CleanRow, AfterRun, Ratchet, WithinFloor;
      var (before, after) := (AfterRuns(runs[..|runs| - 1], th), AfterRuns(runs, th));
      RunAppendsOrKeeps(before, runs[|runs| - 1], th);
      assert forall r <- before :: r in after;
      RegressionsCannotAccumulate(runs[..|runs| - 1], th);
      hide NoRegression;
      if after != before {
        var row := after[|before|];
        assert PositiveMetrics(before) && !HasSource(before, row.source) && Ratchet(row, before, th) == Some([]);
        hide PositiveMetrics, HasSource;
        NewRowHolds(before, row, th);
        ExtendsNoRegression(before, row, th);
      }
    }
  }

  lemma ExtendsNoRegression(before: seq<Row>, row: Row, th: Thresholds)
    requires NoRegression(before, th)
    requires forall i :: 0 <= i < |before| && Comparable(before[i], row) ==>
               WithinFloor(before[i], row, RuntimeO3, th.runtimeFloor) &&
                   WithinFloor(before[i], row, WarmO2, th.warmFloor)
    ensures NoRegression(before + [row], th)
  {
    hide WithinFloor;
  }

  lemma NewRowHolds(before: seq<Row>, row: Row, th: Thresholds)
    requires SaneThresholds(th) && PositiveMetrics(before) && !HasSource(before, row.source)
    requires Ratchet(row, before, th) == Some([])
    ensures forall i :: 0 <= i < |before| && Comparable(before[i], row) ==>
              WithinFloor(before[i], row, RuntimeO3, th.runtimeFloor) &&
                  WithinFloor(before[i], row, WarmO2, th.warmFloor)
  {
    hide Ratchet, WithinFloor, PositiveMetrics;
    if row.evidence {
      RatchetPassesIff(row, before, th);
      forall i | 0 <= i < |before| && Comparable(before[i], row)
        ensures Holds(before[i], row, th)
      {
        assert before[i] in before && IsBaseline(before[i], row);
      }
    }
  }

  /** Rows are only ever added at the end. */
  lemma {:induction false} AppendOnly(runs: seq<Invocation>, more: seq<Invocation>, th: Thresholds)
    ensures AfterRuns(runs, th) <= AfterRuns(runs + more, th)
    decreases more
  {
    if more == [] {
      assert runs + more == runs;
    } else {
      var k := |more| - 1;
      AppendOnly(runs, more[..k], th);
      assert (runs + more)[..|runs + more| - 1] == runs + more[..k];
    }
  }
}
