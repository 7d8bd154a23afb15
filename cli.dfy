/**
 * What both command-line front ends share: the parsed options, the ways a
 * run ends, and the common tail of `main` that computes the placement and
 * prints it.
 */
module Cli {
  import opened Wrappers
  import opened Strings
  import opened Numerals
  import opened CpuRanges
  import opened Placement
  import opened Render
  import opened Lscpu

  /** The options `main` reads after argument parsing (`--verbose` only adds diagnostics). */
  datatype Args = Args(threads: int, sockets: int, coresPerSocket: int, numaNodes: int,
                       useLscpu: bool, noHyperthreads: bool, cpuList: bool)

  /** The parser's defaults: one thread, every topology value -1, no flags. */
  const Defaults: Args := Args(1, -1, -1, -1, false, false, false)

  /** Exceptions that end a run with a traceback. */
  datatype Fault =
    | ZeroDivisionError       // `totCores / memZones` with no zones
    | ZeroStepError           // `range(0, c, 0)`
    | NameError               // `CPU_Info` used where it is not defined
    | Uncaught(raised: Raised) // an exception out of `CPU_Info()`

  /** How a run ends: one line on standard output, `sys.exit`, or an exception. */
  datatype Outcome = Printed(line: string) | Exit(status: nat) | Crash(fault: Fault)

  /**
   * The tail of `main` once the topology is settled: the per-zone share,
   * the placement and the printed line. Division by zero zones comes first,
   * then the zero stride of `range`.
   */
  function Emit(form: Form, t: Topology, threads: int, width: int): (o: Outcome)
    ensures o.Crash? <==> t.numaNodes == 0 || threads == 0
    ensures t.numaNodes == 0 ==> o == Crash(ZeroDivisionError)
    ensures !o.Exit?
  {
    if t.numaNodes == 0 then Crash(ZeroDivisionError)
    else if threads == 0 then Crash(ZeroStepError)
    else Printed(Line(form, width, Plan(CoresPerZone(TotalCores(t), t.numaNodes), t.numaNodes, threads)))
  }

  /** The line is empty exactly when nothing was placed. */
  lemma LineEmpty(form: Form, width: int, plan: seq<nat>)
    ensures Line(form, width, plan) == "" <==> plan == []
  {
    LineSplits(form, width, plan);
  }

  /** The id list read back with `int` on each comma-separated field gives the placement. */
  lemma IdListRoundTrip(plan: seq<nat>, width: int)
    requires plan != []
    ensures ParseTokens(Split(Line(IdList, width, plan), ',')) == Some(plan)
  {
    LineSplits(IdList, width, plan);
    var es := Entries(IdList, width, plan);
    forall k | 0 <= k < |plan|
      ensures es[k] == Decimals(plan)[k]
    {
      DecimalsAt(plan, k);
    }
    assert es == Decimals(plan);
    ParseDecimals(plan);
  }

  /**
   * With `--cpu-list` on a valid topology and a positive stride, the line
   * reads back as the placement: ceil(c / threads) ids per zone, all
   * distinct and below the total core count; it is empty exactly when the
   * per-zone share c is zero.
   */
  lemma PrintedIds(t: Topology, threads: int, width: int)
    requires Positive(t) && threads >= 1
    ensures Emit(IdList, t, threads, width).Printed?
    ensures
      var line := Emit(IdList, t, threads, width).line;
      var c := CoresPerZone(TotalCores(t), t.numaNodes);
      && (line == "" <==> c == 0)
      && (line != "" ==> ParseTokens(Split(line, ',')).Some?)
      && (line != "" ==>
            var ids := ParseTokens(Split(line, ',')).value;
            && |ids| == CeilDiv(c, threads) * t.numaNodes
            && (forall p :: 0 <= p < |ids| ==> ids[p] < TotalCores(t))
            && (forall p, q :: 0 <= p < q < |ids| ==> ids[p] != ids[q]))
  {
    var c := CoresPerZone(TotalCores(t), t.numaNodes);
    var plan := Plan(c, t.numaNodes, threads);
    PlanEmpty(c, t.numaNodes, threads);
    LineEmpty(IdList, width, plan);
    PlanOnMachine(t, threads);
    if plan != [] {
      IdListRoundTrip(plan, width);
    }
  }
}

/** `main()` of the top-level script `numa_mask_gen.py`. */
module ScriptMain {
  import opened Wrappers
  import opened Placement
  import opened Render
  import opened Lscpu
  import opened LscpuLines
  import opened LscpuReader
  import opened Cli

  /**
   * One run, given what `CPU_Info()` produced; that result is used only
   * with `--use-lscpu`. The doubled mask is padded to the fixed width 32.
   */
  ghost function RunWith(args: Args, cpuInfo: Result<CpuInfo, Raised>): Outcome
  {
    var form := SelectForm(args.noHyperthreads, args.cpuList);
    if args.useLscpu then
      match cpuInfo
      case Failure(e) => Crash(Uncaught(e))
      case Success(info) =>
        if info.Error() then Exit(1)
        else Emit(form, Topology(info.sockets, info.coresPerSocket, info.numaNodes), args.threads, LegacyWidth)
    else
      match FromArguments(args.sockets, args.coresPerSocket, args.numaNodes)
      case None => Exit(1)
      case Some(t) => Emit(form, t, args.threads, LegacyWidth)
  }

  /**
   * One run with the corrected reader: `output` is what the topology
   * command printed, as lines, or `None` when it could not be run.
   */
  ghost function Run(args: Args, output: Option<seq<string>>): Outcome
  {
    RunWith(args, CpuInfoOf(output))
  }

  /** One run with `CPU_Info()` as written, which keeps the partial dictionary of malformed output. */
  ghost function RunAsWritten(args: Args, output: Option<seq<string>>): Outcome
  {
    RunWith(args, CpuInfoOfAsWritten(output))
  }

  /** `main()`, reading the topology with the corrected `CPU_Info()` when asked to. */
  method Execute(args: Args, output: Option<seq<string>>) returns (o: Outcome)
    ensures o == Run(args, output)
  {
    var form := SelectForm(args.noHyperthreads, args.cpuList);
    var t: Topology;
    if args.useLscpu {
      var cpuInfo := ReadCpuInfo(output);
      if cpuInfo.Failure? {
        return Crash(Uncaught(cpuInfo.error));
      }
      if cpuInfo.value.Error() {
        return Exit(1);
      }
      t := Topology(cpuInfo.value.sockets, cpuInfo.value.coresPerSocket, cpuInfo.value.numaNodes);
    } else {
      var given := FromArguments(args.sockets, args.coresPerSocket, args.numaNodes);
      if given.None? {
        return Exit(1);
      }
      t := given.value;
    }
    o := Emit(form, t, args.threads, LegacyWidth);
  }

  /** Without `--use-lscpu` the run exits with status 1 exactly when a topology value is not positive. */
  lemma RejectsNonPositive(args: Args, output: Option<seq<string>>)
    requires !args.useLscpu
    ensures Run(args, output) == Exit(1) <==>
      args.sockets <= 0 || args.coresPerSocket <= 0 || args.numaNodes <= 0
    ensures !(Run(args, output) == Exit(1)) ==> !Run(args, output).Exit?
  {
  }

  /** The defaults alone are rejected: the topology must be given or read. */
  lemma DefaultsRejected(output: Option<seq<string>>)
    ensures Run(Defaults, output) == Exit(1)
  {
    RejectsNonPositive(Defaults, output);
  }

  /** With `--use-lscpu` the explicit topology values are ignored. */
  lemma LscpuIgnoresArguments(args: Args, output: Option<seq<string>>, sockets: int, coresPerSocket: int, numaNodes: int)
    requires args.useLscpu
    ensures Run(args, output) ==
      Run(args.(sockets := sockets, coresPerSocket := coresPerSocket, numaNodes := numaNodes), output)
  {
  }

  /**
   * With `--use-lscpu` and the corrected reader: a command that could not
   * be run or malformed output exits with status 1, an exception out of
   * `CPU_Info()` propagates, and a read reporting no NUMA nodes divides by
   * zero.
   */
  lemma LscpuOutcomes(args: Args, output: Option<seq<string>>)
    requires args.useLscpu
    ensures (output.None? || LineMap(output.value).None?) <==> Run(args, output) == Exit(1)
    ensures CpuInfoOf(output).Failure? ==> Run(args, output) == Crash(Uncaught(CpuInfoOf(output).error))
    ensures CpuInfoOf(output).Success? && CpuInfoOf(output).value.Info? && CpuInfoOf(output).value.numaNodes == 0
      ==> Run(args, output) == Crash(ZeroDivisionError)
  {
  }
  /** On output that the command could not give, or that holds only `key: value` lines, the two readers give the same run. */
  lemma AsWrittenAgreesOnWellFormed(args: Args, output: Option<seq<string>>)
    requires output.None? || LineMap(output.value).Some?
    ensures RunAsWritten(args, output) == Run(args, output)
  {
    if output.Some? {
      AsWrittenAgrees(output.value);
    }
  }

  /**
   * As written, `--use-lscpu` never exits once the command produced
   * output, however malformed: the run prints or raises.
   */
  lemma AsWrittenNeverExitsOnOutput(args: Args, output: Option<seq<string>>)
    requires args.useLscpu && output.Some?
    ensures !RunAsWritten(args, output).Exit?
  {
  }

  /**
   * The single output line "garbage": the corrected reader exits with
   * status 1, while `main()` as written crashes with `KeyError('Architecture')`.
   */
  lemma GarbageOutput(args: Args)
    requires args.useLscpu
    ensures Run(args, Some(["garbage"])) == Exit(1)
    ensures RunAsWritten(args, Some(["garbage"])) == Crash(Uncaught(KeyError("Architecture")))
  {
    MalformedOutputRaises();
  }

  /** On an explicit valid topology with a non-zero stride the selected form is printed, masks padded to 32 digits. */
  lemma PrintsPlan(args: Args, output: Option<seq<string>>)
    requires !args.useLscpu && args.threads != 0
    requires args.sockets > 0 && args.coresPerSocket > 0 && args.numaNodes > 0
    ensures
      var total := args.sockets * args.coresPerSocket;
      Run(args, output) == Printed(Line(SelectForm(args.noHyperthreads, args.cpuList), LegacyWidth,
                                        Plan(total / args.numaNodes, args.numaNodes, args.threads)))
  {
  }

  /**
   * With `--use-lscpu` and a successful read reporting NUMA nodes, the
   * placement is built from the sockets, cores per socket and NUMA node
   * count that were read.
   */
  lemma LscpuPrintsPlan(args: Args, output: Option<seq<string>>, info: CpuInfo)
    requires args.useLscpu && args.threads != 0
    requires CpuInfoOf(output) == Success(info) && info.Info? && info.numaNodes > 0
    ensures
      var t := Topology(info.sockets, info.coresPerSocket, info.numaNodes);
      Run(args, output) == Printed(Line(SelectForm(args.noHyperthreads, args.cpuList), LegacyWidth,
                                        Plan(CoresPerZone(TotalCores(t), t.numaNodes), t.numaNodes, args.threads)))
  {
  }
}

/** `main()` of the package entry point `numa_mask_gen/__main__.py`. */
module PackageMain {
  import opened Wrappers
  import opened Strings
  import opened Numerals
  import opened CpuRanges
  import opened Placement
  import opened Render
  import opened Cli

  /**
   * One run. `CPU_Info` is not defined in this module, so `--use-lscpu`
   * ends in `NameError`; the doubled mask is padded to `HexWidth` of the
   * total core count.
   */
  function Run(args: Args): (o: Outcome)
    ensures args.useLscpu ==> o == Crash(NameError)
  {
    var form := SelectForm(args.noHyperthreads, args.cpuList);
    if args.useLscpu then Crash(NameError)
    else
      match FromArguments(args.sockets, args.coresPerSocket, args.numaNodes)
      case None => Exit(1)
      case Some(t) => Emit(form, t, args.threads, HexWidth(TotalCores(t)))
  }

  /** The run exits with status 1 exactly when a topology value is not positive; it never exits otherwise. */
  lemma RejectsNonPositive(args: Args)
    requires !args.useLscpu
    ensures Run(args) == Exit(1) <==> args.sockets <= 0 || args.coresPerSocket <= 0 || args.numaNodes <= 0
    ensures Run(args).Exit? ==> Run(args) == Exit(1)
  {
  }

  /** A valid topology with a zero stride fails in `range`. */
  lemma ZeroThreadsCrash(args: Args)
    requires !args.useLscpu && args.threads == 0
    requires args.sockets > 0 && args.coresPerSocket > 0 && args.numaNodes > 0
    ensures Run(args) == Crash(ZeroStepError)
  {
  }

  /**
   * `--cpu-list` prints the decimal id list also without `--no-hyperthreads`,
   * where the warning says it is ignored; on a valid topology with a
   * positive stride the ids read back distinct and below the core count.
   */
  lemma CpuListPrintsIds(args: Args)
    requires !args.useLscpu && args.cpuList && args.threads >= 1
    requires args.sockets > 0 && args.coresPerSocket > 0 && args.numaNodes > 0
    ensures Run(args).Printed?
    ensures
      var line := Run(args).line;
      var total := args.sockets * args.coresPerSocket;
      var c := total / args.numaNodes;
      && (line == "" <==> c == 0)
      && (line != "" ==> ParseTokens(Split(line, ',')).Some?)
      && (line != "" ==>
            var ids := ParseTokens(Split(line, ',')).value;
            && |ids| == CeilDiv(c, args.threads) * args.numaNodes
            && (forall p :: 0 <= p < |ids| ==> ids[p] < total)
            && (forall p, q :: 0 <= p < q < |ids| ==> ids[p] != ids[q]))
  {
    var t := FromArguments(args.sockets, args.coresPerSocket, args.numaNodes).value;
    PrintedIds(t, args.threads, HexWidth(TotalCores(t)));
  }

  /**
   * On a valid topology with a non-zero stride the line of the selected
   * form is printed, masks padded to `HexWidth` of the total core count.
   */
  lemma PrintsPlan(args: Args)
    requires !args.useLscpu && args.threads != 0
    requires args.sockets > 0 && args.coresPerSocket > 0 && args.numaNodes > 0
    ensures
      var total := args.sockets * args.coresPerSocket;
      Run(args) == Printed(Line(SelectForm(args.noHyperthreads, args.cpuList), HexWidth(total),
                                Plan(total / args.numaNodes, args.numaNodes, args.threads)))
  {
  }
}
