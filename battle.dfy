/**
 * The compiler-comparison driver (run_compiler_battle.py): it builds the
 * adversarial benchmark with several compiler profiles, runs each build,
 * scans its output for the balance score, hotspot flag and redirect
 * counters, keeps the worst of N runs per profile and turns the verdicts into
 * an exit status. Compilation and execution are not performed here: their
 * outcomes are inputs.
 */
module CompilerBattle {
  import opened Wrappers
  import opened BattleText

  /** One benchmark result (the `BenchResult` dataclass); the balance score is a percentage. */
  datatype BenchResult = BenchResult(
    compiler: string,
    balanceScore: real,
    hotspotDetected: bool,
    suspiciousPatterns: nat,
    blockedRedirects: nat,
    executionTimeMs: int,
    rawOutput: string,
    success: bool,
    error: Option<string>)

  datatype Verdict = Pass | Warn | Fail | Error

  /** A compiler profile of the registry: its key, display name and executable. */
  datatype Profile = Profile(key: string, name: string, executable: string)

  /** The profile registry, in declaration order. */
  const Registry: seq<Profile> := [
    Profile("gcc-O3", "GCC -O3", "g++"),
    Profile("gcc-O2", "GCC -O2", "g++"),
    Profile("gcc-O3-no-licm", "GCC -O3 (no LICM)", "g++"),
    Profile("gcc-O3-barrier", "GCC -O3 + Barrier Fix", "g++"),
    Profile("icpx", "Intel ICX", "icpx"),
    Profile("icx", "Intel ICX (legacy)", "icx"),
    Profile("clang", "Clang -O3", "clang++")
  ]

  /** How one execution of a built benchmark ended. */
  datatype RunOutcome =
    | Finished(stdout: string, stderr: string, elapsedMs: int)
    | TimedOut
    | Raised(message: string)

  datatype CompileOutcome = Compiled | CompileFailed(message: string)

  /** The command line: `--list`, `--compilers`, `--runs`, `--timeout`. */
  datatype Invocation = Invocation(list: bool, compilers: Option<string>, runs: int, timeout: int)

  /**
   * What the world answers: whether the benchmark source exists, which
   * executables are on PATH, how compiling each profile ends and how the
   * n-th run of each profile ends.
   */
  datatype World = World(
    sourceExists: bool,
    onPath: set<string>,
    compile: string -> CompileOutcome,
    run: (string, nat) -> RunOutcome)

  // ---------------------------------------------------------------------------
  // Verdicts
  // ---------------------------------------------------------------------------

  /** `evaluate_result`. */
  function Evaluate(r: BenchResult): Verdict
  {
    if !r.success then Error
    else if r.balanceScore >= 50.0 then Pass
    else if r.balanceScore >= 20.0 then Warn
    else Fail
  }

  /** Order of the successful verdicts: FAIL below WARN below PASS. */
  function Rank(v: Verdict): int
  {
    match v
    case Fail => 0
    case Warn => 1
    case Pass => 2
    case Error => -1
  }

  /**
   * A failed result is always ERROR; a successful one is PASS exactly from 50,
   * WARN exactly on [20, 50) and FAIL exactly below 20.
   */
  lemma EvaluateBands(r: BenchResult)
    ensures !r.success <==> Evaluate(r) == Error
    ensures Evaluate(r) == Pass <==> r.success && r.balanceScore >= 50.0
    ensures Evaluate(r) == Warn <==> r.success && 20.0 <= r.balanceScore < 50.0
    ensures Evaluate(r) == Fail <==> r.success && r.balanceScore < 20.0
  {
  }

  /** A higher score never yields a worse verdict. */
  lemma EvaluateMonotone(a: BenchResult, b: BenchResult)
    requires a.success && b.success && a.balanceScore <= b.balanceScore
    ensures 0 <= Rank(Evaluate(a)) <= Rank(Evaluate(b))
  {
  }

  // ---------------------------------------------------------------------------
  // run_benchmark: metric reductions over the captured output
  // ---------------------------------------------------------------------------

  /** `[float(b) for b in tokens]`, failing with Python's message at the first bad token. */
  function ParseAll(tokens: seq<string>): (r: Result<seq<real>, string>)
    requires forall t | t in tokens :: DecimalShaped(t)
    ensures r.Ok? ==> |r.value| == |tokens|
  {
    if tokens == [] then Ok([])
    else match ParseFloat(tokens[0])
      case None => Err("could not convert string to float: '" + tokens[0] + "'")
      case Some(x) =>
        match ParseAll(tokens[1..])
        case Err(e) => Err(e)
        case Ok(xs) => Ok([x] + xs)
  }

  /** Python's `min` of a non-empty list of floats. */
  function MinOf(xs: seq<real>): (m: real)
    requires |xs| > 0
    ensures m in xs && forall x | x in xs :: m <= x
  {
    if |xs| == 1 then xs[0]
    else var rest := MinOf(xs[1..]);
      assert forall x | x in xs :: x == xs[0] || x in xs[1..];
      if xs[0] <= rest then xs[0] else rest
  }

  /**
   * `sum([int(s) for s in tokens])` on runs of digits: 0 for no token, at
   * least every token's value, and 0 exactly when every token is worth 0.
   */
  function SumDigits(tokens: seq<string>): (r: nat)
    requires forall t | t in tokens :: AllDigits(t)
    ensures tokens == [] ==> r == 0
    ensures forall i | 0 <= i < |tokens| :: DigitsValue(tokens[i]) <= r
    ensures r == 0 <==> forall i | 0 <= i < |tokens| :: DigitsValue(tokens[i]) == 0
  {
    if tokens == [] then 0
    else
      var rest := SumDigits(tokens[1..]);
      assert forall i | 1 <= i < |tokens| :: tokens[i] == tokens[1..][i - 1];
      DigitsValue(tokens[0]) + rest
  }

  function Failure(timeMs: int, message: string): BenchResult
  {
    BenchResult("", 0.0, false, 0, 0, timeMs, "", false, Some(message))
  }

  /** `run_benchmark`, given how the process ended and the timeout in seconds. */
  function RunBenchmark(outcome: RunOutcome, timeout: int): BenchResult
  {
    match outcome
    case TimedOut => Failure(timeout * 1000, "Benchmark timeout")
    case Raised(msg) => Failure(0, msg)
    case Finished(out, err, elapsed) =>
      var output := out + err;
      var balance := FindAll(BalancePattern, output);
      BalanceCapturesAreDecimalShaped(output);
      CountCapturesAreDigits(output);
      match ParseAll(balance)
      case Err(msg) => Failure(0, msg)
      case Ok(scores) =>
        BenchResult("",
          if scores == [] then 0.0 else MinOf(scores),
          "YES" in FindAll(HotspotPattern, output),
          SumDigits(FindAll(SuspiciousPattern, output)),
          SumDigits(FindAll(BlockedPattern, output)),
          elapsed, output, true, None)
  }

  /**
   * The failure paths of `run_benchmark`: a timeout is a failure lasting the
   * whole timeout, any other exception (a bad balance token included) a
   * failure with 0 ms; both carry no metrics and no output.
   */
  lemma RunBenchmarkFailures(outcome: RunOutcome, timeout: int)
    ensures var r := RunBenchmark(outcome, timeout);
            && (r.success <==> outcome.Finished? && ParsesAll(FindAll(BalancePattern, outcome.stdout + outcome.stderr)))
            && (outcome.TimedOut? ==> r.executionTimeMs == timeout * 1000 && r.error == Some("Benchmark timeout"))
            && (outcome.Raised? ==> r.executionTimeMs == 0 && r.error == Some(outcome.message))
            && (outcome.Finished? && !r.success ==> r.executionTimeMs == 0 && r.error.Some?)
            && (!r.success ==> r.balanceScore == 0.0 && !r.hotspotDetected
                               && r.suspiciousPatterns == 0 && r.blockedRedirects == 0 && r.rawOutput == "")
  {
    if outcome.Finished? {
      var output := outcome.stdout + outcome.stderr;
      BalanceCapturesAreDecimalShaped(output);
      ParseAllSpec(FindAll(BalancePattern, output));
    }
  }

  /**
   * The metric reductions of a successful run: the balance is the least of
   * the captured percentages (0 without any), the hotspot flag is set iff
   * some capture is "YES", and the output is kept whole.
   */
  lemma RunBenchmarkMetrics(out: string, err: string, elapsed: int, timeout: int)
    requires RunBenchmark(Finished(out, err, elapsed), timeout).success
    ensures var r := RunBenchmark(Finished(out, err, elapsed), timeout);
            var tokens := FindAll(BalancePattern, out + err);
            && r.rawOutput == out + err && r.executionTimeMs == elapsed && r.error.None?
            && (tokens == [] ==> r.balanceScore == 0.0)
            && (forall t | t in tokens :: DecimalShaped(t) && ParseFloat(t).Some? && r.balanceScore <= ParseFloat(t).value)
            && (tokens != [] ==> exists t | t in tokens :: DecimalShaped(t) && ParseFloat(t) == Some(r.balanceScore))
            && (r.hotspotDetected <==> "YES" in FindAll(HotspotPattern, out + err))
  {
    var output := out + err;
    var tokens := FindAll(BalancePattern, output);
    BalanceCapturesAreDecimalShaped(output);
    ParseAllSpec(tokens);
    if tokens != [] {
      var scores := ParseAll(tokens).value;
      var m := MinOf(scores);
      forall t | t in tokens ensures DecimalShaped(t) && ParseFloat(t).Some? && m <= ParseFloat(t).value {
        var i :| 0 <= i < |tokens| && tokens[i] == t;
        assert scores[i] in scores;
      }
      var k :| 0 <= k < |scores| && scores[k] == m;
      assert tokens[k] in tokens;
    }
  }

  /**
   * The counters of a successful run: `suspicious_patterns` and
   * `blocked_redirects` are the sums of their captured counts, every capture
   * being a run of digits, and 0 when nothing was captured.
   */
  lemma RunBenchmarkCounts(out: string, err: string, elapsed: int, timeout: int)
    requires RunBenchmark(Finished(out, err, elapsed), timeout).success
    ensures forall t | t in FindAll(SuspiciousPattern, out + err) + FindAll(BlockedPattern, out + err) :: AllDigits(t)
    ensures var r := RunBenchmark(Finished(out, err, elapsed), timeout);
            && r.suspiciousPatterns == SumDigits(FindAll(SuspiciousPattern, out + err))
            && r.blockedRedirects == SumDigits(FindAll(BlockedPattern, out + err))
            && (FindAll(SuspiciousPattern, out + err) == [] ==> r.suspiciousPatterns == 0)
            && (FindAll(BlockedPattern, out + err) == [] ==> r.blockedRedirects == 0)
  {
    CountCapturesAreDigits(out + err);
  }

  predicate ParsesAll(tokens: seq<string>)
  {
    forall t | t in tokens :: DecimalShaped(t) && ParseFloat(t).Some?
  }

  /** `ParseAll` succeeds exactly when every token is a float, and then holds their values in order. */
  lemma {:induction false} ParseAllSpec(tokens: seq<string>)
    requires forall t | t in tokens :: DecimalShaped(t)
    ensures ParseAll(tokens).Ok? <==> ParsesAll(tokens)
    ensures ParseAll(tokens).Ok? ==>
              forall i | 0 <= i < |tokens| :: ParseFloat(tokens[i]) == Some(ParseAll(tokens).value[i])
  {
    if tokens != [] {
      ParseAllSpec(tokens[1..]);
      if ParseFloat(tokens[0]).Some? && ParseAll(tokens[1..]).Ok? {
        var xs := ParseAll(tokens).value;
        assert xs[1..] == ParseAll(tokens[1..]).value;
        forall i | 0 <= i < |tokens| ensures ParseFloat(tokens[i]) == Some(xs[i]) {
          if i > 0 { assert tokens[i] == tokens[1..][i - 1]; }
        }
      }
      if ParsesAll(tokens) {
        assert tokens[0] in tokens;
        assert forall t | t in tokens[1..] :: t in tokens;
      } else {
        var t :| t in tokens && !(DecimalShaped(t) && ParseFloat(t).Some?);
        if t != tokens[0] {
          var i :| 0 <= i < |tokens| && tokens[i] == t;
          assert tokens[1..][i - 1] == t;
        }
      }
    }
  }

  // ---------------------------------------------------------------------------
  // Worst of N runs
  // ---------------------------------------------------------------------------

  /** The ranking key of `min(..., key=...)`: the score, or +infinity (None) for a failed run. */
  function Key(r: BenchResult): Option<real>
  {
    if r.success then Some(r.balanceScore) else None
  }

  predicate KeyLess(a: Option<real>, b: Option<real>)
  {
    a.Some? && (b.None? || a.value < b.value)
  }

  /** Python's `min` with a key: scan left to right, replacing the best only on a strict improvement. */
  function MinIndexFrom(runs: seq<BenchResult>, best: nat, i: nat): (k: nat)
    requires best < |runs| && best < i <= |runs|
    ensures k < |runs|
    decreases |runs| - i
  {
    if i == |runs| then best
    else if KeyLess(Key(runs[i]), Key(runs[best])) then MinIndexFrom(runs, i, i + 1)
    else MinIndexFrom(runs, best, i + 1)
  }

  function WorstRun(runs: seq<BenchResult>): BenchResult
    requires |runs| > 0
  {
    runs[MinIndexFrom(runs, 0, 1)]
  }

  lemma {:induction false} MinIndexFromSpec(runs: seq<BenchResult>, best: nat, i: nat)
    requires best < i <= |runs|
    requires forall j | 0 <= j < i :: !KeyLess(Key(runs[j]), Key(runs[best]))
    requires forall j | 0 <= j < best :: KeyLess(Key(runs[best]), Key(runs[j]))
    ensures var k := MinIndexFrom(runs, best, i);
            (forall j | 0 <= j < |runs| :: !KeyLess(Key(runs[j]), Key(runs[k])))
            && (forall j | 0 <= j < k :: KeyLess(Key(runs[k]), Key(runs[j])))
    decreases |runs| - i
  {
    if i < |runs| {
      if KeyLess(Key(runs[i]), Key(runs[best])) {
        MinIndexFromSpec(runs, i, i + 1);
      } else {
        MinIndexFromSpec(runs, best, i + 1);
      }
    }
  }

  /**
   * Worst-of-N: when some run succeeded, the kept result is a successful run
   * of least balance and the first such; when all failed, it is the first run.
   */
  lemma WorstRunSpec(runs: seq<BenchResult>)
    requires |runs| > 0
    ensures var k := MinIndexFrom(runs, 0, 1);
            && ((exists j | 0 <= j < |runs| :: runs[j].success) ==>
                  runs[k].success
                  && (forall j | 0 <= j < |runs| && runs[j].success :: runs[k].balanceScore <= runs[j].balanceScore)
                  && (forall j | 0 <= j < k :: !runs[j].success || runs[k].balanceScore < runs[j].balanceScore))
            && ((forall j | 0 <= j < |runs| :: !runs[j].success) ==> k == 0)
  {
    MinIndexFromSpec(runs, 0, 1);
    var k := MinIndexFrom(runs, 0, 1);
    if exists j | 0 <= j < |runs| :: runs[j].success {
      var j :| 0 <= j < |runs| && runs[j].success;
      assert !KeyLess(Key(runs[j]), Key(runs[k]));
    }
    if k > 0 {
      assert KeyLess(Key(runs[k]), Key(runs[0]));
    }
  }

  // ---------------------------------------------------------------------------
  // Choosing the profiles
  // ---------------------------------------------------------------------------

  function RegistryKeys(): seq<string>
  {
    seq(|Registry|, i requires 0 <= i < |Registry| => Registry[i].key)
  }

  function ProfileOf(key: string): Option<Profile>
  {
    ProfileIn(Registry, key)
  }

  function ProfileIn(profiles: seq<Profile>, key: string): (r: Option<Profile>)
    ensures r.Some? ==> r.value in profiles && r.value.key == key
    ensures r.None? ==> forall p | p in profiles :: p.key != key
  {
    if profiles == [] then None
    else if profiles[0].key == key then Some(profiles[0])
    else ProfileIn(profiles[1..], key)
  }

  /** The keys of `profiles` whose executable is on PATH, in order. */
  function AvailableIn(profiles: seq<Profile>, onPath: set<string>): (keys: seq<string>)
  {
    if profiles == [] then []
    else (if profiles[0].executable in onPath then [profiles[0].key] else [])
         + AvailableIn(profiles[1..], onPath)
  }

  lemma {:induction false} AvailableInSpec(profiles: seq<Profile>, onPath: set<string>, k: string)
    ensures k in AvailableIn(profiles, onPath) <==>
            exists p | p in profiles :: p.key == k && p.executable in onPath
  {
    if profiles != [] {
      AvailableInSpec(profiles[1..], onPath, k);
      assert forall p | p in profiles :: p == profiles[0] || p in profiles[1..];
    }
  }

  /** `find_available_compilers`. */
  method FindAvailableCompilers(onPath: set<string>) returns (available: seq<string>)
    ensures available == AvailableIn(Registry, onPath)
  {
    available := ScanProfiles(Registry, onPath);
  }

  /** The loop of `find_available_compilers` over a list of profiles. */
  method ScanProfiles(profiles: seq<Profile>, onPath: set<string>) returns (available: seq<string>)
    ensures available == AvailableIn(profiles, onPath)
  {
    available := [];
    var i := 0;
    while i < |profiles|
      invariant 0 <= i <= |profiles|
      invariant available + AvailableIn(profiles[i..], onPath) == AvailableIn(profiles, onPath)
    {
      assert profiles[i..][1..] == profiles[i + 1..];
      if profiles[i].executable in onPath {
        available := available + [profiles[i].key];
      }
      i := i + 1;
    }
  }

  /** The keys named by `--compilers`: split on commas, each stripped. */
  function ExplicitKeys(arg: string): (keys: seq<string>)
    ensures |keys| == |SplitComma(arg)|
  {
    var parts := SplitComma(arg);
    seq(|parts|, i requires 0 <= i < |parts| => Strip(parts[i]))
  }

  /** The auto-detected keys: the available GCC profiles in fixed order, then icpx, else icx. */
  function AutoDetect(available: seq<string>): seq<string>
  {
    var gcc := seq(3, i requires 0 <= i < 3 => ["gcc-O3", "gcc-O2", "gcc-O3-no-licm"][i]);
    Filter(gcc, available)
    + (if "icpx" in available then ["icpx"] else if "icx" in available then ["icx"] else [])
  }

  /** `[k for k in wanted if k in available]`. */
  function Filter<T(==)>(wanted: seq<T>, available: seq<T>): seq<T>
  {
    if wanted == [] then []
    else (if wanted[0] in available then [wanted[0]] else []) + Filter(wanted[1..], available)
  }

  /** The profiles `main` goes on to build, or None when it returns 1 before compiling. */
  function SelectKeys(compilers: Option<string>, onPath: set<string>): Option<seq<string>>
  {
    if compilers.Some? && compilers.value != "" then
      var keys := ExplicitKeys(compilers.value);
      if forall k | k in keys :: ProfileOf(k).Some? then Some(keys) else None
    else
      var keys := AutoDetect(AvailableIn(Registry, onPath));
      if keys == [] then None else Some(keys)
  }

  /**
   * Every key `main` goes on with names a registry profile; explicit keys
   * are kept as given (after stripping), and `main` goes on iff all of them
   * are registry keys; without keys it goes on iff `AutoKeys` is non-empty,
   * with exactly that list.
   */
  lemma SelectKeysSpec(compilers: Option<string>, onPath: set<string>)
    ensures var r := SelectKeys(compilers, onPath);
            && (r.Some? ==> forall k | k in r.value :: ProfileOf(k).Some?)
            && (compilers.Some? && compilers.value != "" ==>
                  (r.Some? <==> forall k | k in ExplicitKeys(compilers.value) :: ProfileOf(k).Some?)
                  && (r.Some? ==> r.value == ExplicitKeys(compilers.value)))
            && (compilers.None? || compilers.value == "" ==>
                  (r.Some? <==> AutoKeys(onPath) != [])
                  && (r.Some? ==> r.value == AutoKeys(onPath)))
  {
    if compilers.None? || compilers.value == "" {
      AutoKeysSpec(onPath);
      AutoKeysExact(onPath);
    }
  }

  /** Some registry profile with this key has its executable on PATH. */
  ghost predicate OnPath(k: string, onPath: set<string>)
  {
    exists p | p in Registry :: p.key == k && p.executable in onPath
  }

  /**
   * What auto-detection promises, stated on the registry: the available
   * ones of gcc-O3, gcc-O2 and gcc-O3-no-licm in that order, then icpx when
   * it is available, else icx when that is.
   */
  ghost function AutoKeys(onPath: set<string>): seq<string>
  {
    (if OnPath("gcc-O3", onPath) then ["gcc-O3"] else [])
    + (if OnPath("gcc-O2", onPath) then ["gcc-O2"] else [])
    + (if OnPath("gcc-O3-no-licm", onPath) then ["gcc-O3-no-licm"] else [])
    + (if OnPath("icpx", onPath) then ["icpx"] else if OnPath("icx", onPath) then ["icx"] else [])
  }

  /** Filtering a list of three keys keeps each one that is available, in order. */
  lemma FilterThree<T>(a: T, b: T, c: T, available: seq<T>)
    ensures Filter([a, b, c], available)
      == (if a in available then [a] else []) + (if b in available then [b] else []) + (if c in available then [c] else [])
  {
    assert [c][1..] == [];
    assert Filter([c], available) == (if c in available then [c] else []) + Filter([], available);
    assert [b, c][1..] == [c];
    assert Filter([b, c], available) == (if b in available then [b] else []) + Filter([c], available);
    assert [a, b, c][1..] == [b, c];
    assert Filter([a, b, c], available) == (if a in available then [a] else []) + Filter([b, c], available);
  }



  /** The list comprehension and the Intel fallback over `find_available_compilers` compute `AutoKeys`. */
  lemma AutoKeysExact(onPath: set<string>)
    ensures AutoDetect(AvailableIn(Registry, onPath)) == AutoKeys(onPath)
  {
    var available := AvailableIn(Registry, onPath);
    assert seq(3, i requires 0 <= i < 3 => ["gcc-O3", "gcc-O2", "gcc-O3-no-licm"][i]) == ["gcc-O3", "gcc-O2", "gcc-O3-no-licm"];
    FilterThree("gcc-O3", "gcc-O2", "gcc-O3-no-licm", available);
    AvailableInSpec(Registry, onPath, "gcc-O3");
    AvailableInSpec(Registry, onPath, "gcc-O2");
    AvailableInSpec(Registry, onPath, "gcc-O3-no-licm");
    AvailableInSpec(Registry, onPath, "icpx");
    AvailableInSpec(Registry, onPath, "icx");
  }


  /** Auto-detection picks only available GCC and Intel profiles of the registry. */
  lemma AutoKeysSpec(onPath: set<string>)
    ensures forall k | k in AutoDetect(AvailableIn(Registry, onPath)) ::
              && k in ["gcc-O3", "gcc-O2", "gcc-O3-no-licm", "icpx", "icx"]
              && ProfileOf(k).Some?
              && exists p | p in Registry :: p.key == k && p.executable in onPath
  {
    AutoKeysExact(onPath);
    forall k | k in AutoKeys(onPath)
      ensures k in ["gcc-O3", "gcc-O2", "gcc-O3-no-licm", "icpx", "icx"] && OnPath(k, onPath)
      ensures ProfileOf(k).Some?
    {
      AutoKeyOnPath(k, onPath);
      AutoKeyKnown(k);
    }
  }

  /** A key of `AutoKeys` is one of the five candidates and available, one part of it at a time. */
  lemma AutoKeyOnPath(k: string, onPath: set<string>)
    requires k in AutoKeys(onPath)
    ensures k in ["gcc-O3", "gcc-O2", "gcc-O3-no-licm", "icpx", "icx"] && OnPath(k, onPath)
  {
    var a := if OnPath("gcc-O3", onPath) then ["gcc-O3"] else [];
    var b := if OnPath("gcc-O2", onPath) then ["gcc-O2"] else [];
    var c := if OnPath("gcc-O3-no-licm", onPath) then ["gcc-O3-no-licm"] else [];
    var d := if OnPath("icpx", onPath) then ["icpx"] else if OnPath("icx", onPath) then ["icx"] else [];
    assert AutoKeys(onPath) == a + b + c + d;
    assert k in a || k in b || k in c || k in d;
  }


  /** Each key auto-detection can pick names a registry profile. */
  lemma AutoKeyKnown(k: string)
    requires k in ["gcc-O3", "gcc-O2", "gcc-O3-no-licm", "icpx", "icx"]
    ensures ProfileOf(k).Some?
  {
  }

  /** The keys `main` goes on with all name registry profiles. */
  lemma SelectKeysKnown(compilers: Option<string>, onPath: set<string>)
    ensures SelectKeys(compilers, onPath).Some? ==>
              forall k | k in SelectKeys(compilers, onPath).value :: ProfileOf(k).Some?
  {
    SelectKeysSpec(compilers, onPath);
  }

  // ---------------------------------------------------------------------------
  // main
  // ---------------------------------------------------------------------------

  /** The result a profile contributes: one ERROR when compiling fails, else the worst run, or nothing for no runs. */
  function ProfileResults(p: Profile, inv: Invocation, world: World): seq<BenchResult>
  {
    match world.compile(p.key)
    case CompileFailed(msg) =>
      [BenchResult(p.name, 0.0, false, 0, 0, 0, "", false, Some(msg))]
    case Compiled =>
      var runs := RunsOf(p, inv, world, if inv.runs < 0 then 0 else inv.runs);
      if runs == [] then [] else [WorstRun(runs)]
  }

  /** The first n runs of a compiled profile, each stamped with the profile's name. */
  function RunsOf(p: Profile, inv: Invocation, world: World, n: nat): (rs: seq<BenchResult>)
    ensures |rs| == n
    ensures forall k | 0 <= k < n :: rs[k].compiler == p.name
  {
    if n == 0 then []
    else RunsOf(p, inv, world, n - 1)
         + [RunBenchmark(world.run(p.key, n - 1), inv.timeout).(compiler := p.name)]
  }

  function AllResults(keys: seq<string>, inv: Invocation, world: World): seq<BenchResult>
    requires forall k | k in keys :: ProfileOf(k).Some?
  {
    if keys == [] then []
    else AllResults(keys[..|keys| - 1], inv, world)
         + ProfileResults(ProfileOf(keys[|keys| - 1]).value, inv, world)
  }

  predicate AnyFail(results: seq<BenchResult>)
  {
    exists r | r in results :: Evaluate(r) == Fail
  }

  /** The validation loop of `main`: every explicit key must name a profile. */
  method ValidateKeys(profiles: seq<Profile>, keys: seq<string>) returns (ok: bool)
    ensures ok <==> forall k | k in keys :: ProfileIn(profiles, k).Some?
  {
    var j := 0;
    while j < |keys|
      invariant 0 <= j <= |keys|
      invariant forall m | 0 <= m < j :: ProfileIn(profiles, keys[m]).Some?
    {
      if ProfileIn(profiles, keys[j]).None? {
        assert keys[j] in keys;
        return false;
      }
      j := j + 1;
    }
    assert forall k | k in keys :: exists m | 0 <= m < |keys| :: keys[m] == k;
    return true;
  }

  /** The key checks of `main`: validate explicit keys, or auto-detect. */
  method ChooseKeys(compilers: Option<string>, onPath: set<string>) returns (keys: Option<seq<string>>)
    ensures keys == SelectKeys(compilers, onPath)
  {
    if compilers.Some? && compilers.value != "" {
      var explicit := ExplicitKeys(compilers.value);
      var ok := ValidateKeys(Registry, explicit);
      keys := if ok then Some(explicit) else None;
    } else {
      var available := FindAvailableCompilers(onPath);
      var auto := AutoDetect(available);
      keys := if auto == [] then None else Some(auto);
    }
  }

  /** The body of the per-profile loop of `main`: compile, run `runs` times, keep the worst. */
  method BenchProfile(p: Profile, inv: Invocation, world: World) returns (rs: seq<BenchResult>)
    ensures rs == ProfileResults(p, inv, world)
  {
    match world.compile(p.key)
    case CompileFailed(msg) =>
      rs := [BenchResult(p.name, 0.0, false, 0, 0, 0, "", false, Some(msg))];
    case Compiled =>
      var runResults: seq<BenchResult> := [];
      var n := 0;
      while n < inv.runs
        invariant 0 <= n && (inv.runs >= 0 ==> n <= inv.runs) && (inv.runs < 0 ==> n == 0)
        invariant runResults == RunsOf(p, inv, world, n)
      {
        var r := RunBenchmark(world.run(p.key, n), inv.timeout);
        r := r.(compiler := p.name);
        runResults := runResults + [r];
        n := n + 1;
      }
      assert n == (if inv.runs < 0 then 0 else inv.runs);
      rs := [];
      if runResults != [] {
        var worst := WorstRun(runResults);
        rs := [worst];
      }
  }

  /** `any(evaluate_result(r) == "FAIL" for r in all_results)` as an exit status. */
  method ExitCode(results: seq<BenchResult>) returns (code: int)
    ensures code == 1 <==> AnyFail(results)
    ensures code == 0 <==> !AnyFail(results)
  {
    var anyFail := false;
    var j := 0;
    while j < |results|
      invariant 0 <= j <= |results|
      invariant anyFail <==> exists m | 0 <= m < j :: Evaluate(results[m]) == Fail
    {
      if Evaluate(results[j]) == Fail {
        anyFail := true;
      }
      j := j + 1;
    }
    code := if anyFail then 1 else 0;
  }

  /**
   * `main`: the exit status and the list of stored results. `--list` exits 0;
   * a missing source or a rejected key list exits 1 before anything is built;
   * otherwise each profile contributes its results in order and the status is 1
   * exactly when one of them evaluates to FAIL.
   */
  method RunBattle(inv: Invocation, world: World) returns (code: int, results: seq<BenchResult>)
    ensures inv.list ==> code == 0 && results == []
    ensures !inv.list && !world.sourceExists ==> code == 1 && results == []
    ensures !inv.list && world.sourceExists && SelectKeys(inv.compilers, world.onPath).None? ==>
              code == 1 && results == []
    ensures !inv.list && world.sourceExists && SelectKeys(inv.compilers, world.onPath).Some? ==>
              && (SelectKeysKnown(inv.compilers, world.onPath);
                  results == AllResults(SelectKeys(inv.compilers, world.onPath).value, inv, world))
              && (code == 1 <==> AnyFail(results))
              && (code == 0 <==> !AnyFail(results))
  {
    if inv.list {
      return 0, [];
    }
    if !world.sourceExists {
      return 1, [];
    }
    var chosen := ChooseKeys(inv.compilers, world.onPath);
    if chosen.None? {
      return 1, [];
    }
    var keys := chosen.value;
    SelectKeysKnown(inv.compilers, world.onPath);
    results := [];
    var i := 0;
    while i < |keys|
      invariant 0 <= i <= |keys|
      invariant results == AllResults(keys[..i], inv, world)
    {
      assert keys[..i + 1][..i] == keys[..i];
      var rs := BenchProfile(ProfileOf(keys[i]).value, inv, world);
      results := results + rs;
      i := i + 1;
    }
    assert keys[..|keys|] == keys;
    code := ExitCode(results);
  }

  /** A failed compile contributes exactly one ERROR result; a compiled profile one result per positive run count, none for zero runs. */
  lemma ProfileResultsSpec(p: Profile, inv: Invocation, world: World)
    ensures world.compile(p.key).CompileFailed? ==>
              |ProfileResults(p, inv, world)| == 1 && Evaluate(ProfileResults(p, inv, world)[0]) == Error
              && ProfileResults(p, inv, world)[0].compiler == p.name
    ensures world.compile(p.key).Compiled? ==>
              |ProfileResults(p, inv, world)| == (if inv.runs >= 1 then 1 else 0)
    ensures world.compile(p.key).Compiled? && inv.runs >= 1 ==>
              ProfileResults(p, inv, world)[0] in RunsOf(p, inv, world, inv.runs)
              && ProfileResults(p, inv, world)[0].compiler == p.name
  {
  }
}
