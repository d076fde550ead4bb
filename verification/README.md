# Disnix remote agent: job logic, line capture and argument vectors

This project models, in Dafny, the sequential logic of the Disnix remote agent
(`src/dbus-service/methods.c`) and of its state-management library
(`src/libstatemgmt/state-management.c`). The agent's job methods are import,
export, print-invalid, realise, set, query-requisites, collect-garbage, activate
and deactivate. Each forks a job process. When the job's setup (`open`,
`mkstemp` or `pipe`) and its own `fork` succeed, it runs one external program
(`nix-store`, `nix-env`, `nix-collect-garbage` or an activation module). When the
outer `fork` succeeds, the job emits one of three signals: `finish`, `success`
with output lines, or `failure`. The state-management library builds the
`dysnomia` and `dysnomia-snapshots` command lines.

Modules, leaves first:

- `Wrappers` (`wrappers.dfy`): `Option`, standing in for a pointer that may be NULL.
- `GStr` (`gstr.dfy`): GLib's `g_strsplit` with a one-character delimiter, both
  unlimited and limited to two tokens. It also holds the prefix-joining of
  `generate_derivations_string`, and the lemmas that splitting and joining are
  inverse and that splitting a concatenation glues the two boundary pieces.
- `CVector` (`cvector.dfy`): NULL-terminated `char *` vectors as blocks of slots
  (`Unset`, `Null` or `Str`). `Terminated` is what `execvp` or `g_strv_length`
  reads from a block. `ArgvBlock` is the shape shared by every heap-allocated
  argv that is a fixed prefix followed by a list of items: allocate, write the
  prefix, the items, then NULL. It reports the first
  write past the allocation as `OutOfBounds`. `FillArgv` performs those writes
  on a real array.
- `LinesVector` (`lines.dfy`): `update_lines_vector`, and the read loop that
  folds pipe chunks into lines, both as written and corrected (see Findings).
- `Environment` (`environment.dfy`): composing `key=value` arguments into a
  child's environment with `setenv(name, value, 0)`.
- `Methods` (`methods.dfy`): `generate_derivations_string`, the job counter, the
  exit-status-to-signal decision, and each job's argv, environment and signal.
- `StateManagement` (`state_management.dfy`): the Dysnomia argument vectors.

Process plumbing is replaced by abstract inputs:

- whether `open`, `mkstemp` or `pipe` succeeded;
- whether `fork` succeeded and, if it did, how the child terminated (`Child`);
- the sequence of chunks `read` returned.

The Linux `wait` status word is modelled explicitly, so that `WEXITSTATUS` is
computed as the code computes it. Characters stand for bytes.

## Model

| member | source | states |
|---|---|---|
| GStr.Split | src/dbus-service/methods.c:60-61 | `g_strsplit(s, "\n", 0)`: the empty string gives the empty vector; otherwise one more piece than there are separators, and no piece holds the separator |
| GStr.SplitFirst | src/dbus-service/methods.c:781-782 | `g_strsplit(arg, "=", 2)`: with an '=' present, exactly two parts; the first has no '='; rejoining the parts with '=' gives the argument back |
| GStr.PiecesAppend | src/dbus-service/methods.c:89-109 | splitting `a + b` gives the pieces of `a` and of `b`, with the last piece of `a` glued onto the first piece of `b` |
| GStr.PiecesOfJoin | src/dbus-service/methods.c:60 | joining separator-free pieces with the separator and splitting again returns the pieces |
| GStr.JoinOfPieces | src/dbus-service/methods.c:60 | splitting a string and joining the pieces returns the string |
| GStr.JoinPrefixedSplit | src/dbus-service/methods.c:35-48 | the derivations string splits back into a leading empty piece followed by every item in order; no items give "" |
| Methods.GenerateDerivationsString | src/dbus-service/methods.c:35-48 | the loop builds separator+item for every item, in order; empty input gives "" |
| LinesVector.CString | src/dbus-service/methods.c:325-330 | the buffer handed on after `line[line_size] = '\0'` is the chunk cut at its first NUL: a NUL-free prefix followed in the chunk by a NUL; it is the whole chunk when the chunk has no NUL |
| LinesVector.FirstLine | src/dbus-service/methods.c:96-99 | the text the glue branch appends to the last line: `buf` up to its first newline, all of `buf` when it has none, and the first piece of its split |
| LinesVector.GlueBranchAsWritten | src/dbus-service/methods.c:89-109 | as written, when the last line does not end in '\n': the block has old length + pieces + 1 slots, slot `lines_length` still holds the old NULL, and walking it gives the old lines with only the first piece of `buf` appended to the last |
| LinesVector.UpdateBlockAsWritten | src/dbus-service/methods.c:57-115 | as written: from NULL or an empty vector the walk gives the split of `buf`; for a last line without '\n' it gives the old lines with `buf`'s first line appended; for a last line ending in '\n' and a non-empty `buf` the walk fails |
| LinesVector.WalkedUpdate | src/dbus-service/methods.c:64-109 | for NULL, an empty vector or a last line without a trailing '\n', walking the block the code returns gives the split of `buf`, or the old lines with `buf`'s first line appended; no line gains a newline |
| LinesVector.CollectLinesAsWritten | src/dbus-service/methods.c:325-331 | as written, the read loop's vector is NULL exactly when nothing was read, its walk never fails, and none of its lines holds a newline |
| LinesVector.CollectLinesAsWrittenIsVisible | src/dbus-service/methods.c:425-430 | as written, the read loop collects the lines of the first read with text in full, and every later read only extends the last line with its text up to its first newline |
| LinesVector.LaterReadsAddNoLines | src/dbus-service/methods.c:647-652 | as written, for the first read `k` with text, wherever it falls: the collected lines are that read's split with the last line extended by every later read's text up to its first newline, so later reads never add a line |
| LinesVector.GlueBranchCounterexample | src/dbus-service/methods.c:89-109 | `["a"]` fed `"b\nc"` yields the block `ab, NULL, c, NULL`, walked as `["ab"]`, where the corrected update gives `["ab", "c"]` |
| LinesVector.ChunkingVisibleAsWritten | src/dbus-service/methods.c:325-331 | as written, reads `"a"`, `"b\nc"` collect `["ab"]` but the same bytes in one read collect `["ab", "c"]` |
| LinesVector.NewlineBranchUnreachable | src/dbus-service/methods.c:78-88 | no line the read loop collects as written ends in '\n', so the branch for a last line ending in '\n' is never taken on a vector the function built |
| LinesVector.NewlineBranchUnreachableCorrected | src/dbus-service/methods.c:78-88 | the same with the corrected update: no collected last line ends in '\n' |
| LinesVector.UpdateLinesCorrected | src/dbus-service/methods.c:57-115 | corrected update: from NULL or an empty vector, the result is the split of `buf`; an empty `buf` changes nothing; for newline-free lines and a non-empty `buf`, every line but the last is kept, the first piece of `buf` is appended to the last line and the other pieces follow; no line gains a newline |
| LinesVector.CollectLinesCorrected | src/dbus-service/methods.c:325-331 | with the corrected update, the read loop's vector is NULL exactly when nothing was read, and none of its lines holds a newline |
| LinesVector.UpdateLinesExtendsSplit | src/dbus-service/methods.c:64-109 | with the corrected update, adding `buf` to the lines of `text` gives the lines of `text + buf` |
| LinesVector.CollectLinesIsSplit | src/dbus-service/methods.c:325-331 | with the corrected update, the vector is NULL when nothing was read, and otherwise the split of everything read |
| LinesVector.ReadLoopSplitsOutput | src/dbus-service/methods.c:425-430 | with the corrected update and no NUL in the output, the collected lines are the split of the concatenated chunks |
| LinesVector.ChunkingInvisible | src/dbus-service/methods.c:647-652 | with the corrected update, two chunkings of the same output collect the same lines |
| LinesVector.NewlineBranchAsWritten | src/dbus-service/methods.c:78-109 | the block that branch fills has old length + pieces + 2 slots, the size it reallocates, and begins with the old lines unchanged |
| LinesVector.NewlineBranchAsWrittenLosesTerminator | src/dbus-service/methods.c:78-109 | in that branch as written, any non-empty `buf` leaves an unwritten slot before the NULL terminator |
| LinesVector.NewlineBranchCounterexample | src/dbus-service/methods.c:78-109 | `["a\n"]` fed `"b"` yields the block `a\n, b, <unset>, NULL`, which cannot be walked |
| LinesVector.NewlineBranchCorrected | src/dbus-service/methods.c:78-88 | corrected branch: every old line is kept and every piece of `buf` follows, NULL-terminated |
| CVector.ArgvBlock | src/dbus-service/methods.c:211-220 | a block fits exactly when it has room for prefix, items and NULL; then `execvp` reads prefix + items; otherwise the first bad write is at index `alloc` |
| CVector.FillArgv | src/dbus-service/methods.c:211-220 | the array writes (prefix by index, items at offset, then NULL) produce exactly `ArgvBlock`, with every index checked |
| Environment.SetEnvKeep | src/dbus-service/methods.c:782 | `setenv(name, value, 0)`: existing variables keep their values; a valid new name gets the value; an empty name is refused |
| Environment.ApplyArgument | src/dbus-service/methods.c:781-783 | one argument: the text before its first '=' is bound to the text after it, unless that name is empty or already set; every existing variable is kept |
| Environment.Compose | src/dbus-service/methods.c:779-784 | the composed environment is the inherited one plus every new non-empty name, bound to the value of its first assignment |
| Environment.FirstOccurrenceWins | src/dbus-service/methods.c:847-852 | of two assignments to the same new name, the earlier one's value is kept |
| Methods.GetJobId | src/dbus-service/methods.c:903-909 | returns the current counter value, then advances it by one, wrapping at the `int` limit |
| Methods.IssueIds | src/dbus-service/methods.c:903-909 | `n` successive calls hand out `n` ids, the first being the counter's current value; no calls leave the counter as it was |
| Methods.IssueIdsCountUp | src/dbus-service/methods.c:906-907 | without overflow, `n` successive calls return the current value, +1, +2, …, and leave the counter `n` higher; reaching 2^31 exactly wraps it to −2^31 |
| Methods.JobIdsAreFresh | src/dbus-service/methods.c:33 | from a fresh agent the ids are 0, 1, 2, … and none repeats |
| Methods.WExitStatus | src/dbus-service/methods.c:156 | `WEXITSTATUS` is below 256 and, for a 16-bit status word, is its high byte |
| Methods.ExitStatusDecoding | src/dbus-service/methods.c:797-802 | `WEXITSTATUS` of an exited child is its exit code mod 256; of a child killed by a signal it is 0 |
| Methods.Verdict | src/dbus-service/methods.c:790-802 | the job's signal is finish or success exactly when setup succeeded and the exit status is 0; in every other case it is failure |
| Methods.EmittedSignals | src/dbus-service/methods.c:811-821 | for job id `job`, at most one signal is emitted; one exactly when the outer fork succeeded, and it is the job's verdict tagged with `job` |
| Methods.ExportArgv | src/dbus-service/methods.c:211-220 | `nix-store --export` + derivations + NULL fills its n+3 slots exactly |
| Methods.PrintInvalidArgv | src/dbus-service/methods.c:290-302 | `nix-store --check-validity --print-invalid` + derivations + NULL fills its n+4 slots exactly |
| Methods.RealiseArgv | src/dbus-service/methods.c:393-404 | `nix-store -r` + derivations + NULL fills its n+3 slots exactly |
| Methods.QueryRequisitesArgv | src/dbus-service/methods.c:613-624 | `nix-store -qR` + derivations + NULL fills its n+3 slots exactly |
| Methods.ImportJob | src/dbus-service/methods.c:119-166 | `nix-store --import` runs iff the closure opened and fork succeeded; finish iff it opened and the exit status is 0, else failure |
| Methods.ExportJob | src/dbus-service/methods.c:182-254 | the export runs iff mkstemp and fork succeeded; success carries exactly the temp file path iff the exit status is 0, else failure |
| Methods.ReportedLines | src/dbus-service/methods.c:318-340 | the reported lines are empty when nothing was read, and otherwise the lines the code as written collects (`VisibleLines`): the first read with text in full, later reads only extending the last line; no reported line holds a newline |
| Methods.CaptureJob | src/dbus-service/methods.c:284-351 | the program runs iff pipe and fork succeeded; success carries the collected lines iff the exit status is 0, else failure |
| Methods.PrintInvalidJob | src/dbus-service/methods.c:270-357 | the print-invalid argv runs iff the pipe and fork succeeded; success with the collected lines iff the pipe was made and the exit status is 0; failure in every other case |
| Methods.RealiseJob | src/dbus-service/methods.c:373-456 | the realise argv runs iff the pipe and fork succeeded; success with the collected lines iff the pipe was made and the exit status is 0; failure in every other case |
| Methods.QueryRequisitesJob | src/dbus-service/methods.c:593-678 | the query-requisites argv runs iff the pipe and fork succeeded; success with the collected lines iff the pipe was made and the exit status is 0; failure in every other case |
| Methods.CapturedOutputAsWritten | src/dbus-service/methods.c:425-441 | on exit status 0, the realise job's payload is the split of its first read `k` with text (after any reads without text), the last line extended by every later read's text up to its first newline |
| Methods.RealiseLosesLines | src/dbus-service/methods.c:425-441 | output arriving as `"a"` then `"b\nc"` is reported as the single path `ab`; `c` is lost |
| Methods.SetJob | src/dbus-service/methods.c:472-516 | `nix-env -p <state dir>/nix/profiles/disnix/<profile> --set <derivation>`; finish iff exit status 0 |
| Methods.CollectGarbageArgv | src/dbus-service/methods.c:716-725 | the argv is `nix-collect-garbage` alone when `delete_old` is true, and `nix-collect-garbage -d` when it is false |
| Methods.CollectGarbageFlagInverted | src/dbus-service/methods.c:700-725 | `-d` is passed exactly when `delete_old` is false, the opposite of the log message |
| Methods.CollectGarbageJob | src/dbus-service/methods.c:694-741 | runs the garbage collector iff fork succeeded; finish iff exit status 0, else failure |
| Methods.ActivationJob | src/dbus-service/methods.c:757-809 | runs `[modules_dir/type, verb, derivation]` in the composed environment iff fork succeeded; finish iff exit status 0, else failure |
| Methods.ActivateEmitsOneSignal | src/dbus-service/methods.c:757-821 | `disnix_activate` with a successful outer fork emits exactly one signal for its job: finish iff the module's exit status is 0, failure otherwise; with a failed outer fork it emits none |
| Methods.ActivateDeactivateDifferOnlyInVerb | src/dbus-service/methods.c:776-852 | activate and deactivate run the same module and derivation in the same environment and reach the same verdict; only argv[1] differs |
| Methods.KilledModuleReportsFinish | src/dbus-service/methods.c:797-800 | an activation module killed by a signal is reported as finish |
| StateManagement.DysnomiaActivity | src/libstatemgmt/state-management.c:31-55 | the 10-entry `dysnomia` argv holds type, operation, component and container pairs in that order, ending with `--environment`; the environment holds exactly the inherited variables, unchanged, and every new non-empty name bound to its first assignment |
| StateManagement.DysnomiaActivityArgv | src/libstatemgmt/state-management.c:38 | `dysnomia` followed by the type, operation, component and container pairs in that order, then `--environment` |
| StateManagement.LockOrUnlockArgv | src/libstatemgmt/state-management.c:288 | `dysnomia` followed by the type, operation, container and component pairs in that order, then `--environment` |
| StateManagement.QueryAllSnapshotsArgv | src/libstatemgmt/state-management.c:63 | `dysnomia-snapshots --query-all` followed by the container and component pairs |
| StateManagement.QueryLatestSnapshotArgv | src/libstatemgmt/state-management.c:80 | `dysnomia-snapshots --query-latest` followed by the container and component pairs |
| StateManagement.LockComponentArgv | src/libstatemgmt/state-management.c:298-301 | the lock argv passes type, operation `lock`, container and component |
| StateManagement.UnlockComponentArgv | src/libstatemgmt/state-management.c:303-306 | the unlock argv passes type, operation `unlock`, container and component |
| StateManagement.LockUnlockDifferOnlyInOperation | src/libstatemgmt/state-management.c:282-306 | the lock and unlock argvs are equal except for the operation entry |
| StateManagement.LockMatchesActivityOptions | src/libstatemgmt/state-management.c:282-296 | a lock request passes the same option pairs as the activity `lock`; only the container and component pairs are swapped |
| StateManagement.QueryAllLatestDifferOnlyInMode | src/libstatemgmt/state-management.c:57-89 | the query-all and query-latest argvs differ only in the mode flag; both pass the same container and component |
| StateManagement.PrintMissingSnapshotsArgv | src/libstatemgmt/state-management.c:97-106 | two fixed entries, the components and NULL fill the n+3 slots exactly |
| StateManagement.ResolveSnapshotsArgv | src/libstatemgmt/state-management.c:153-162 | two fixed entries, the snapshots and NULL fill the n+3 slots exactly |
| StateManagement.ImportSnapshotsArgvAsWritten | src/libstatemgmt/state-management.c:123-136 | as written, the NULL store lands at index n+6 of an n+6-slot block, one past the end, for every snapshot list |
| StateManagement.ImportSnapshotsArgv | src/libstatemgmt/state-management.c:123-136 | with n+7 slots, six fixed entries, the snapshots and NULL fit exactly, and `execvp` reads the prefix followed by the snapshots |
| StateManagement.CleanSnapshotsArgv | src/libstatemgmt/state-management.c:179-208 | gc/keep entries, then the container pair only if the container is non-empty, then the component pair only if the component is non-empty; the count is 4, 6 or 8, so NULL stays inside the 9 slots |

## Left out

- The transition engine (`transition`) and the `activate_system` driver: only
  their declarations exist in `src/activate/transition.h` and
  `src/activate/activate.h`. Their implementations are not part of this model,
  so dependency ordering, locking and phase sequencing are not modelled. The same
  holds for `capture_infra` (`src/capture-infra/capture-infra.h`).
- `src/dbus-service/disnix-service.c`: GObject/D-Bus registration and the main loop.
- Signal delivery (`disnix_emit_*`). Only which signal a job emits is modelled.
- `disnix_lock` and `disnix_unlock`: they return TRUE and do nothing else. The
  unused `lock_manager` and `unlock_manager` settings are also left out.
- `disnix_query_installed` and `statemgmt_capture_config`: file reading and
  temp-file I/O with trivial result shaping.
- `generate_int_key`: it has no caller in the modelled code.
- `fork`, `exec`, `wait`, `pipe`, `dup2`, `close`, `mkdir`, `mkstemp`, `open` and
  `fchmod`: each becomes an abstract success flag or `Child` outcome. Where
  standard input and output point is not modelled.
- The `procreact` futures returned by the snapshot queries. Only the argv their
  child runs is modelled.
- Logging (`g_print`, `g_printerr`, `dprintf`).
- The read size bound (`BUFFER_SIZE - 1` bytes per read). The line properties,
  as written and corrected, are stated for chunks of any size.
- StateManagement.CleanSnapshotsArgv: the decimal text of `keep` (`sprintf("%d")`)
  is an abstract function parameter.
- Methods.GetJobId: overflow of the C `int` counter is undefined behaviour. It is
  modelled as two's-complement wrap-around, and freshness is proved only for the
  first 2^31 ids.
- LinesVector.UpdateLinesCorrected, LinesVector.CollectLinesCorrected: both
  non-empty branches store the pieces after the first right after the old lines,
  not at `lines_length + i`. `UpdateBlockAsWritten` and `CollectLinesAsWritten`
  model the code, and the jobs report what the code collects.
- LinesVector.UpdateLinesExtendsSplit, LinesVector.CollectLinesIsSplit,
  LinesVector.ReadLoopSplitsOutput, LinesVector.ChunkingInvisible: these hold of
  the corrected update only. As written, output spread over several reads is not
  split in full (`ChunkingVisibleAsWritten`).
- Methods.ReportedLines: a NULL lines vector (nothing read) is passed to the
  success signal. It is modelled as an empty line list, because how the signal
  code marshals NULL is not part of this model.
- Environment.Compose: every argument must contain '='. Without one, the C code
  passes a NULL value to `setenv`, or reads past the split vector for an empty
  argument. Variable order in the environment is not modelled, since a map has no
  order.
- Methods.ActivationJob: the environment is composed only in the child. When
  `fork` fails, the arguments are not inspected.
- NULL `container` or `component` strings in the state-management calls are not
  modelled. Strings are never NULL here.

## Behaviour worth knowing

- A failing outer `fork` in `disnix_*` emits no signal, since only the child
  runs the job (src/dbus-service/methods.c:173-177). `EmittedSignals` and
  `ActivateEmitsOneSignal` model this.
- The jobs test only `WEXITSTATUS(status) == 0`, never `WIFEXITED`. For a child
  killed by a signal `WEXITSTATUS` is 0, so the job reports `finish` or
  `success`. `KilledModuleReportsFinish` states this.
- `disnix_lock` and `disnix_unlock` return TRUE and emit nothing
  (src/dbus-service/methods.c:891-899).

## Findings

| source | as written | input that shows it | evidently intended | confidence | as-written member | corrected member |
|---|---|---|---|---|---|---|
| src/libstatemgmt/state-management.c:124-136 | allocates `snapshots_size + 6` slots, then stores NULL at index `snapshots_size + 6` | any snapshot list, e.g. none: `args[6] = NULL` in a 6-slot block | allocate `snapshots_size + 7` slots | high; not executed | StateManagement.ImportSnapshotsArgvAsWritten | StateManagement.ImportSnapshotsArgv |
| src/dbus-service/methods.c:78-109 | when the last line ends in '\n', the first piece goes to slot L (old length) but the copy loop stores piece `i` at `lines_length + i`, from L+2 on, so slot L+1 is never written | lines `["a\n"]`, buf `"b"`: block `a\n, b, <unset>, NULL` | the new pieces follow the old lines directly | medium; not executed; unreachable from this file's read loops, but `update_lines_vector` is not static | LinesVector.NewlineBranchCounterexample | LinesVector.NewlineBranchCorrected |
| src/dbus-service/methods.c:89-109 | when the last line does not end in '\n', the copy loop stores piece `i` at `lines_length + i`, behind the old NULL terminator that slot `lines_length` keeps, so every piece after the first is invisible | reads `"a"` then `"b\nc"`: block `ab, NULL, c, NULL`, reported as `["ab"]` | store piece `i` at `lines_length + i - 1`, so the lines read are the split of all output | high; not executed; taken on every read after the first that has text | LinesVector.GlueBranchCounterexample | LinesVector.CollectLinesIsSplit |
