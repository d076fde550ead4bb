/**
 The remote agent's job methods (`src/dbus-service/methods.c`). Each job runs in
 a forked process. When its setup and inner `fork` succeed it runs one external
 program; when the outer `fork` succeeds it emits one signal.
 Process plumbing is replaced by abstract inputs: whether `open`, `mkstemp` or
 `pipe` succeeded, how the forked child ended, and the chunks read from its pipe.
 */
module Methods {
  import opened Wrappers
  import opened GStr
  import opened CVector
  import opened LinesVector
  import opened Environment

  /** `generate_derivations_string`: every item preceded by `separator`, in order. */
  method GenerateDerivationsString(derivation: seq<string>, separator: string) returns (r: string)
    ensures r == JoinPrefixed(derivation, separator)
    ensures derivation == [] ==> r == ""
  {
    r := "";
    var i := 0;
    while i < |derivation|
      invariant i <= |derivation|
      invariant r == JoinPrefixed(derivation[..i], separator)
    {
      assert derivation[..i + 1][..i] == derivation[..i];
      r := r + separator + derivation[i];
      i := i + 1;
    }
    assert derivation[..i] == derivation;
  }

  // ---------------------------------------------------------------------------
  // Job ids

  /** The C `int` the counter is stored in. */
  newtype Int32 = x: int | -0x8000_0000 <= x < 0x8000_0000

  /** The process-wide `job_counter`, starting at 0, held as an explicit value
      that is threaded through successive calls. */
  datatype JobCounter = JobCounter(next: Int32)

  const InitialCounter := JobCounter(0)

  /** `disnix_get_job_id`: hand out the current value, then increment. Signed
      overflow is undefined in C; it is modelled as two's-complement wrap-around. */
  function GetJobId(c: JobCounter): (res: (Int32, JobCounter))
    ensures res.0 == c.next
    ensures c.next < 0x7fff_ffff ==> res.1.next as int == c.next as int + 1
    ensures c.next == 0x7fff_ffff ==> res.1.next as int == -0x8000_0000
  {
    (c.next, JobCounter(if c.next == 0x7fff_ffff then -0x8000_0000 else c.next + 1))
  }

  /** The ids handed out by `n` successive calls, and the counter afterwards. */
  function IssueIds(c: JobCounter, n: nat): (r: (seq<Int32>, JobCounter))
    ensures |r.0| == n
    ensures n > 0 ==> r.0[0] == c.next
    ensures n == 0 ==> r.1 == c
    decreases n
  {
    if n == 0 then ([], c)
    else
      var (id, c') := GetJobId(c);
      var (rest, last) := IssueIds(c', n - 1);
      ([id] + rest, last)
  }

  /** Without overflow, `n` calls count up from the current value. */
  lemma {:induction false} IssueIdsCountUp(c: JobCounter, n: nat)
    requires c.next as int + n <= 0x8000_0000
    ensures |IssueIds(c, n).0| == n
    ensures forall i :: 0 <= i < n ==> IssueIds(c, n).0[i] as int == c.next as int + i
    ensures IssueIds(c, n).1.next as int == c.next as int + n || c.next as int + n == 0x8000_0000
    ensures c.next as int + n < 0x8000_0000 ==> IssueIds(c, n).1.next as int == c.next as int + n
    ensures n > 0 && c.next as int + n == 0x8000_0000 ==> IssueIds(c, n).1.next as int == -0x8000_0000
    decreases n
  {
    if n > 0 {
      var (id, c') := GetJobId(c);
      if n > 1 {
        IssueIdsCountUp(c', n - 1);
      }
    }
  }

  /** From a fresh agent the ids are 0, 1, 2, ... and none is handed out twice. */
  lemma JobIdsAreFresh(n: nat)
    requires n <= 0x8000_0000
    ensures |IssueIds(InitialCounter, n).0| == n
    ensures forall i :: 0 <= i < n ==> IssueIds(InitialCounter, n).0[i] as int == i
    ensures forall i, j :: 0 <= i < j < n ==> IssueIds(InitialCounter, n).0[i] != IssueIds(InitialCounter, n).0[j]
  {
    IssueIdsCountUp(InitialCounter, n);
  }

  // ---------------------------------------------------------------------------
  // Process outcomes and signals

  /** The signal that ends a job: `finish`, `success` with its output lines, or `failure`. */
  datatype Signal = Finish | Success(paths: seq<string>) | Failure

  /** How a reaped child ended. */
  datatype Termination = Exited(code: nat) | Killed(signo: nat)

  /** Outcome of `fork`: it failed, or the child ran and was reaped by `wait`. */
  datatype Child = ForkFailed | Reaped(how: Termination)

  /** The `wait` status word as Linux encodes it: the exit code in bits 8..15, the
      terminating signal in bits 0..6. */
  function WaitStatus(t: Termination): nat
  {
    match t
    case Exited(code) => (code % 256) * 256
    case Killed(signo) => signo % 128
  }

  /** `WEXITSTATUS(status)`, that is `(status >> 8) & 0xff`. */
  function WExitStatus(status: nat): (r: nat)
    ensures r < 256
    ensures status < 0x1_0000 ==> r * 256 <= status < (r + 1) * 256
  {
    (status / 256) % 256
  }

  /** What every job tests: `WEXITSTATUS(status) == 0`. */
  predicate ExitStatusZero(child: Child)
  {
    child.Reaped? && WExitStatus(WaitStatus(child.how)) == 0
  }

  /** The decoding of the status word: an exited child's code modulo 256; and 0 for a
      child killed by a signal, since `WIFEXITED` is never consulted. */
  lemma ExitStatusDecoding(t: Termination)
    ensures t.Exited? ==> WExitStatus(WaitStatus(t)) == t.code % 256
    ensures t.Killed? ==> WExitStatus(WaitStatus(t)) == 0
  {
    if t.Exited? {
      var c := t.code % 256;
      assert c * 256 / 256 == c;
    }
  }

  /** What one job does: the program its child runs (if a child ran) and the
      signal the job emits. */
  datatype JobRun = JobRun(exec: Option<Exec>, signal: Signal)

  /** A child runs the program exactly when setup succeeded and `fork` did. */
  function Launch(setupOk: bool, child: Child, argv: seq<string>, env: Env): (r: Option<Exec>)
    ensures r.Some? <==> setupOk && child.Reaped?
    ensures r.Some? ==> r.value == Exec(argv, env)
  {
    if setupOk && child.Reaped? then Some(Exec(argv, env)) else None
  }

  /** The job's signal: `onZero` when setup succeeded and the exit status is 0,
      `failure` for every other path (failed setup, failed fork, non-zero status). */
  function Verdict(setupOk: bool, child: Child, onZero: Signal): (r: Signal)
    requires !onZero.Failure?
    ensures r == onZero <==> setupOk && ExitStatusZero(child)
    ensures r.Failure? <==> !(setupOk && ExitStatusZero(child))
  {
    if setupOk && ExitStatusZero(child) then onZero else Failure
  }

  /** `disnix_X` itself: fork a job process and return TRUE. The job's signal is
      emitted only when that outer `fork` succeeds; when it fails nothing is
      emitted at all. */
  function EmittedSignals(job: Int32, forked: bool, run: JobRun): (r: seq<(Int32, Signal)>)
    ensures |r| <= 1
    ensures |r| == 1 <==> forked
    ensures forked ==> r[0] == (job, run.signal)
  {
    if forked then [(job, run.signal)] else []
  }

  // ---------------------------------------------------------------------------
  // Argument vectors of the nix-store jobs (heap allocated)

  /** `nix-store --export <derivations>` in `n + 3` slots. */
  function ExportArgv(derivations: seq<string>): (r: Store)
    ensures r == Stored(Strs(["nix-store", "--export"] + derivations) + [Null])
    ensures |r.block| == |derivations| + 3
  {
    ArgvBlock(|derivations| + 3, ["nix-store", "--export"], derivations)
  }

  /** `nix-store --check-validity --print-invalid <derivations>` in `n + 4` slots. */
  function PrintInvalidArgv(derivations: seq<string>): (r: Store)
    ensures r == Stored(Strs(["nix-store", "--check-validity", "--print-invalid"] + derivations) + [Null])
    ensures |r.block| == |derivations| + 4
  {
    ArgvBlock(|derivations| + 4, ["nix-store", "--check-validity", "--print-invalid"], derivations)
  }

  /** `nix-store -r <derivations>` in `n + 3` slots. */
  function RealiseArgv(derivations: seq<string>): (r: Store)
    ensures r == Stored(Strs(["nix-store", "-r"] + derivations) + [Null])
    ensures |r.block| == |derivations| + 3
  {
    ArgvBlock(|derivations| + 3, ["nix-store", "-r"], derivations)
  }

  /** `nix-store -qR <derivations>` in `n + 3` slots. */
  function QueryRequisitesArgv(derivations: seq<string>): (r: Store)
    ensures r == Stored(Strs(["nix-store", "-qR"] + derivations) + [Null])
    ensures |r.block| == |derivations| + 3
  {
    ArgvBlock(|derivations| + 3, ["nix-store", "-qR"], derivations)
  }

  /** What `execvp` reads from a completely filled argv block. */
  function ExecArgs(s: Store): (r: seq<string>)
    requires s.Stored? && Terminated(s.block).Some?
    ensures Terminated(s.block) == Some(r)
  {
    Terminated(s.block).value
  }

  // ---------------------------------------------------------------------------
  // Jobs

  /** `disnix_import_thread_func`: `nix-store --import` with the closure file as
      standard input; `finish` iff the file fileOpened and the exit status is 0. */
  function ImportJob(env: Env, fileOpened: bool, child: Child): (r: JobRun)
    ensures r.exec.Some? <==> fileOpened && child.Reaped?
    ensures r.exec.Some? ==> r.exec.value.argv == ["nix-store", "--import"]
    ensures r.signal == Finish <==> fileOpened && ExitStatusZero(child)
    ensures r.signal.Failure? <==> !(fileOpened && ExitStatusZero(child))
  {
    JobRun(Launch(fileOpened, child, ["nix-store", "--import"], env), Verdict(fileOpened, child, Finish))
  }

  /** `disnix_export_thread_func`: `nix-store --export` writing to the temporary
      file `mkstemp` created (`None` when it failed); on exit status 0 the job
      succeeds with that one path. */
  function ExportJob(env: Env, derivations: seq<string>, tempfile: Option<string>, child: Child): (r: JobRun)
    ensures r.exec.Some? <==> tempfile.Some? && child.Reaped?
    ensures r.exec.Some? ==> r.exec.value.argv == ["nix-store", "--export"] + derivations
    ensures r.signal.Success? <==> tempfile.Some? && ExitStatusZero(child)
    ensures r.signal.Success? ==> r.signal.paths == [tempfile.value]
    ensures r.signal.Failure? <==> !r.signal.Success?
  {
    var argv := ExecArgs(ExportArgv(derivations));
    JobRun(Launch(tempfile.Some?, child, argv, env),
           Verdict(tempfile.Some?, child, Success([if tempfile.Some? then tempfile.value else ""])))
  }

  /** The lines a capturing job reports: those its vector holds when walked after
      the read loop, with `update_lines_vector` as written; the NULL vector of an
      empty read counts as no lines. */
  function ReportedLines(chunks: seq<string>): (r: seq<string>)
    ensures chunks == [] ==> r == []
    ensures chunks != [] ==> r == VisibleLines(chunks)
    ensures NoNewlines(r)
  {
    if chunks == [] then []
    else
      CollectLinesAsWrittenIsVisible(chunks);
      CollectLinesAsWritten(chunks).value
  }

  /** Shared shape of the print-invalid, realise and query-requisites jobs: create
      a pipe, run the program with its standard output on the pipe, fold what is
      read into lines and succeed with them on exit status 0. */
  function CaptureJob(env: Env, argv: Store, pipeOk: bool, child: Child, chunks: seq<string>): (r: JobRun)
    requires argv.Stored? && Terminated(argv.block).Some?
    ensures r.exec.Some? <==> pipeOk && child.Reaped?
    ensures r.exec.Some? ==> r.exec.value.argv == ExecArgs(argv)
    ensures r.signal.Success? <==> pipeOk && ExitStatusZero(child)
    ensures r.signal.Success? ==> r.signal.paths == ReportedLines(chunks)
    ensures r.signal.Failure? <==> !r.signal.Success?
  {
    JobRun(Launch(pipeOk, child, ExecArgs(argv), env),
           Verdict(pipeOk, child, Success(ReportedLines(chunks))))
  }

  /** `disnix_print_invalid_thread_func`. */
  function PrintInvalidJob(env: Env, derivations: seq<string>, pipeOk: bool, child: Child, chunks: seq<string>): (r: JobRun)
    ensures r.exec.Some? <==> pipeOk && child.Reaped?
    ensures r.exec.Some? ==> r.exec.value.argv == ["nix-store", "--check-validity", "--print-invalid"] + derivations
    ensures r.signal.Success? <==> pipeOk && ExitStatusZero(child)
    ensures r.signal.Success? ==> r.signal.paths == ReportedLines(chunks)
    ensures r.signal.Failure? <==> !r.signal.Success?
  {
    CaptureJob(env, PrintInvalidArgv(derivations), pipeOk, child, chunks)
  }

  /** `disnix_realise_thread_func`. */
  function RealiseJob(env: Env, derivations: seq<string>, pipeOk: bool, child: Child, chunks: seq<string>): (r: JobRun)
    ensures r.exec.Some? <==> pipeOk && child.Reaped?
    ensures r.exec.Some? ==> r.exec.value.argv == ["nix-store", "-r"] + derivations
    ensures r.signal.Success? <==> pipeOk && ExitStatusZero(child)
    ensures r.signal.Success? ==> r.signal.paths == ReportedLines(chunks)
    ensures r.signal.Failure? <==> !r.signal.Success?
  {
    CaptureJob(env, RealiseArgv(derivations), pipeOk, child, chunks)
  }

  /** `disnix_query_requisites_thread_func`. */
  function QueryRequisitesJob(env: Env, derivations: seq<string>, pipeOk: bool, child: Child, chunks: seq<string>): (r: JobRun)
    ensures r.exec.Some? <==> pipeOk && child.Reaped?
    ensures r.exec.Some? ==> r.exec.value.argv == ["nix-store", "-qR"] + derivations
    ensures r.signal.Success? <==> pipeOk && ExitStatusZero(child)
    ensures r.signal.Success? ==> r.signal.paths == ReportedLines(chunks)
    ensures r.signal.Failure? <==> !r.signal.Success?
  {
    CaptureJob(env, QueryRequisitesArgv(derivations), pipeOk, child, chunks)
  }

  /** On exit status 0 the realise job reports the lines of its first read with
      text (read `k`) in full; every later read only extends the last of them, up
      to its own first newline. */
  lemma CapturedOutputAsWritten(env: Env, derivations: seq<string>, child: Child, chunks: seq<string>, k: nat)
    requires ExitStatusZero(child)
    requires k < |chunks| && CString(chunks[k]) != ""
    requires forall j :: 0 <= j < k ==> CString(chunks[j]) == ""
    ensures RealiseJob(env, derivations, true, child, chunks).signal ==
      Success(Glue(Split(CString(chunks[k]), '\n'), [FirstLines(chunks[k + 1..])]))
  {
    LaterReadsAddNoLines(chunks, k);
  }

  /** The concrete case: output arriving as `"a"` then `"b\nc"` is reported as the
      one path `ab`; the line `c` is lost. */
  lemma RealiseLosesLines(env: Env, derivations: seq<string>)
    ensures RealiseJob(env, derivations, true, Reaped(Exited(0)), ["a", "b\nc"]).signal == Success(["ab"])
  {
    ExitStatusDecoding(Exited(0));
    ChunkingVisibleAsWritten();
    CollectLinesAsWrittenIsVisible(["a", "b\nc"]);
  }

  /** `disnix_set_thread_func`: `nix-env -p <profile path> --set <derivation>`,
      where the profile path lies under the build's local state directory. */
  function SetJob(env: Env, localStateDir: string, profile: string, derivation: string, child: Child): (r: JobRun)
    ensures r.exec.Some? <==> child.Reaped?
    ensures r.exec.Some? ==>
      r.exec.value.argv == ["nix-env", "-p", localStateDir + "/nix/profiles/disnix/" + profile, "--set", derivation]
    ensures r.signal == Finish <==> ExitStatusZero(child)
    ensures r.signal.Failure? <==> !ExitStatusZero(child)
  {
    var profilePath := localStateDir + "/nix/profiles/disnix/" + profile;
    JobRun(Launch(true, child, ["nix-env", "-p", profilePath, "--set", derivation], env),
           Verdict(true, child, Finish))
  }

  /** `nix-collect-garbage`, with `-d` added when `deleteOld` is false: the
      opposite of what the job's log message announces. */
  function CollectGarbageArgv(deleteOld: bool): (r: seq<string>)
    ensures 1 <= |r| <= 2 && r[0] == "nix-collect-garbage"
    ensures |r| == 2 <==> !deleteOld
    ensures |r| == 2 ==> r[1] == "-d"
  {
    if deleteOld then ["nix-collect-garbage"] else ["nix-collect-garbage", "-d"]
  }

  /** `-d` (delete old generations) is passed exactly when it was not asked for. */
  lemma CollectGarbageFlagInverted(deleteOld: bool)
    ensures "-d" in CollectGarbageArgv(deleteOld) <==> !deleteOld
  {
    if deleteOld {
      assert CollectGarbageArgv(deleteOld) == ["nix-collect-garbage"];
    } else {
      assert CollectGarbageArgv(deleteOld)[1] == "-d";
    }
  }

  /** `disnix_collect_garbage_thread_func`. */
  function CollectGarbageJob(env: Env, deleteOld: bool, child: Child): (r: JobRun)
    ensures r.exec.Some? <==> child.Reaped?
    ensures r.exec.Some? ==> r.exec.value.argv == CollectGarbageArgv(deleteOld)
    ensures r.signal == Finish <==> ExitStatusZero(child)
    ensures r.signal.Failure? <==> !ExitStatusZero(child)
  {
    JobRun(Launch(true, child, CollectGarbageArgv(deleteOld), env), Verdict(true, child, Finish))
  }

  /** The two directions of an activation module. */
  datatype Activity = Activate | Deactivate
  {
    function Verb(): string
    {
      match this
      case Activate => "activate"
      case Deactivate => "deactivate"
    }
  }

  /** `disnix_activate_thread_func` and `disnix_deactivate_thread_func`: run
      `<modules dir>/<type> activate|deactivate <derivation>` with the arguments
      composed into the environment; `finish` iff the exit status is 0. */
  function ActivationJob(env: Env, modulesDir: string, activity: Activity, derivation: string,
                         typ: string, args: seq<string>, child: Child): (r: JobRun)
    requires child.Reaped? ==> AllAssignments(args)
    ensures r.exec.Some? <==> child.Reaped?
    ensures r.exec.Some? ==> r.exec.value.argv == [modulesDir + "/" + typ, activity.Verb(), derivation]
    ensures r.exec.Some? ==> r.exec.value.env == Compose(env, args)
    ensures r.signal == Finish <==> ExitStatusZero(child)
    ensures r.signal.Failure? <==> !ExitStatusZero(child)
  {
    var cmd := modulesDir + "/" + typ;
    var childEnv := if child.Reaped? then Compose(env, args) else env;
    JobRun(Launch(true, child, [cmd, activity.Verb(), derivation], childEnv), Verdict(true, child, Finish))
  }

  /** `disnix_activate` for job `job`: with the outer `fork` successful the job
      emits exactly one signal, `finish` iff the module exited with status 0 and
      `failure` otherwise; with the outer `fork` failed it emits nothing. */
  lemma ActivateEmitsOneSignal(job: Int32, forked: bool, env: Env, modulesDir: string, activity: Activity,
                               derivation: string, typ: string, args: seq<string>, child: Child)
    requires child.Reaped? ==> AllAssignments(args)
    ensures var sent := EmittedSignals(job, forked, ActivationJob(env, modulesDir, activity, derivation, typ, args, child));
      && (sent == [(job, Finish)] <==> forked && ExitStatusZero(child))
      && (sent == [(job, Failure)] <==> forked && !ExitStatusZero(child))
      && (sent == [] <==> !forked)
  {
  }

  /** Activation and deactivation of the same service run the same module with the
      same environment and reach the same verdict; only the verb differs. */
  lemma ActivateDeactivateDifferOnlyInVerb(env: Env, modulesDir: string, derivation: string,
                                           typ: string, args: seq<string>, child: Child)
    requires child.Reaped? ==> AllAssignments(args)
    ensures var a := ActivationJob(env, modulesDir, Activate, derivation, typ, args, child);
      var d := ActivationJob(env, modulesDir, Deactivate, derivation, typ, args, child);
      && a.signal == d.signal
      && a.exec.Some? == d.exec.Some?
      && (a.exec.Some? ==>
            && a.exec.value.env == d.exec.value.env
            && |a.exec.value.argv| == |d.exec.value.argv| == 3
            && a.exec.value.argv[0] == d.exec.value.argv[0]
            && a.exec.value.argv[2] == d.exec.value.argv[2]
            && a.exec.value.argv[1] == "activate" && d.exec.value.argv[1] == "deactivate")
  {
  }

  /** A module killed by a signal has `WEXITSTATUS` 0, so its job reports `finish`. */
  lemma KilledModuleReportsFinish(env: Env, modulesDir: string, activity: Activity, derivation: string,
                                  typ: string, args: seq<string>, signo: nat)
    requires AllAssignments(args)
    ensures ActivationJob(env, modulesDir, activity, derivation, typ, args, Reaped(Killed(signo))).signal == Finish
  {
    ExitStatusDecoding(Killed(signo));
  }
}
