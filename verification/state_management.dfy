/**
 Argument vectors of the state-management library
 (`src/libstatemgmt/state-management.c`), which runs Dysnomia to carry out
 component activities, to lock and unlock components, and to manage snapshots.
 */
module StateManagement {
  import opened Wrappers
  import opened CVector
  import opened Environment

  /** Reads a run of `--flag value` pairs from the front of `xs`; a final lone
      entry is left over. */
  function Options(xs: seq<string>): (r: seq<(string, string)>)
    ensures |r| == |xs| / 2
    ensures forall i :: 0 <= i < |r| ==> r[i] == (xs[2 * i], xs[2 * i + 1])
    decreases |xs|
  {
    if |xs| < 2 then [] else [(xs[0], xs[1])] + Options(xs[2..])
  }

  // ---------------------------------------------------------------------------
  // Fixed vectors (stack arrays initialised in place)

  /** `statemgmt_run_dysnomia_activity`'s vector. */
  function DysnomiaActivityArgv(typ: string, activity: string, component: string, container: string): (r: seq<string>)
    ensures |r| == 10 && r[0] == "dysnomia" && r[9] == "--environment"
    ensures Options(r[1..9]) ==
      [("--type", typ), ("--operation", activity), ("--component", component), ("--container", container)]
  {
    ["dysnomia", "--type", typ, "--operation", activity, "--component", component,
     "--container", container, "--environment"]
  }

  /** `statemgmt_run_dysnomia_activity`: Dysnomia runs the activity with the
      arguments composed into its environment as for activation modules. */
  function DysnomiaActivity(env: Env, typ: string, activity: string, component: string, container: string,
                            args: seq<string>): (r: Exec)
    requires AllAssignments(args)
    ensures |r.argv| == 10 && r.argv[0] == "dysnomia" && r.argv[9] == "--environment"
    ensures Options(r.argv[1..9]) ==
      [("--type", typ), ("--operation", activity), ("--component", component), ("--container", container)]
    ensures forall k :: k in r.env <==> k in env || (k != "" && FirstBinding(args, k).Some?)
    ensures forall k :: k in env ==> r.env[k] == env[k]
    ensures forall k :: k !in env && k != "" && FirstBinding(args, k).Some? ==>
      k in r.env && r.env[k] == FirstBinding(args, k).value
  {
    Exec(DysnomiaActivityArgv(typ, activity, component, container), Compose(env, args))
  }

  /** `lock_or_unlock_component`'s vector; it lists the container before the
      component, unlike the activity vector. */
  function LockOrUnlockArgv(operation: string, typ: string, container: string, component: string): (r: seq<string>)
    ensures |r| == 10 && r[0] == "dysnomia" && r[9] == "--environment"
    ensures Options(r[1..9]) ==
      [("--type", typ), ("--operation", operation), ("--container", container), ("--component", component)]
  {
    ["dysnomia", "--type", typ, "--operation", operation, "--container", container,
     "--component", component, "--environment"]
  }

  /** `statemgmt_lock_component`. */
  function LockComponentArgv(typ: string, container: string, component: string): (r: seq<string>)
    ensures |r| == 10 && r[0] == "dysnomia" && r[9] == "--environment"
    ensures Options(r[1..9]) ==
      [("--type", typ), ("--operation", "lock"), ("--container", container), ("--component", component)]
  {
    LockOrUnlockArgv("lock", typ, container, component)
  }

  /** `statemgmt_unlock_component`. */
  function UnlockComponentArgv(typ: string, container: string, component: string): (r: seq<string>)
    ensures |r| == 10 && r[0] == "dysnomia" && r[9] == "--environment"
    ensures Options(r[1..9]) ==
      [("--type", typ), ("--operation", "unlock"), ("--container", container), ("--component", component)]
  {
    LockOrUnlockArgv("unlock", typ, container, component)
  }

  /** Locking and unlocking differ in the operation entry and nowhere else. */
  lemma LockUnlockDifferOnlyInOperation(typ: string, container: string, component: string)
    ensures var l := LockComponentArgv(typ, container, component);
      var u := UnlockComponentArgv(typ, container, component);
      |l| == |u| && l[4] == "lock" && u[4] == "unlock" &&
      forall i :: 0 <= i < |l| && i != 4 ==> l[i] == u[i]
  {
  }

  /** A lock request passes Dysnomia the same options as running the activity
      `lock` directly; only the order of the container and component pairs differs. */
  lemma LockMatchesActivityOptions(typ: string, container: string, component: string)
    ensures var l := Options(LockComponentArgv(typ, container, component)[1..9]);
      var a := Options(DysnomiaActivityArgv(typ, "lock", component, container)[1..9]);
      multiset(l) == multiset(a) && l[..2] == a[..2] && l[2] == a[3] && l[3] == a[2]
  {
    var t, o, ct, cp := ("--type", typ), ("--operation", "lock"), ("--container", container), ("--component", component);
    assert Options(LockComponentArgv(typ, container, component)[1..9]) == [t, o] + [ct, cp];
    assert Options(DysnomiaActivityArgv(typ, "lock", component, container)[1..9]) == [t, o] + [cp, ct];
    assert multiset([ct, cp]) == multiset([cp, ct]);
  }

  /** `statemgmt_query_all_snapshots`'s vector. */
  function QueryAllSnapshotsArgv(container: string, component: string): (r: seq<string>)
    ensures |r| == 6 && r[0] == "dysnomia-snapshots" && r[1] == "--query-all"
    ensures Options(r[2..]) == [("--container", container), ("--component", component)]
  {
    ["dysnomia-snapshots", "--query-all", "--container", container, "--component", component]
  }

  /** `statemgmt_query_latest_snapshot`'s vector. */
  function QueryLatestSnapshotArgv(container: string, component: string): (r: seq<string>)
    ensures |r| == 6 && r[0] == "dysnomia-snapshots" && r[1] == "--query-latest"
    ensures Options(r[2..]) == [("--container", container), ("--component", component)]
  {
    ["dysnomia-snapshots", "--query-latest", "--container", container, "--component", component]
  }

  /** Both queries name the container and the component the same way; only the
      mode flag at index 1 differs. */
  lemma QueryAllLatestDifferOnlyInMode(container: string, component: string)
    ensures var all := QueryAllSnapshotsArgv(container, component);
      var latest := QueryLatestSnapshotArgv(container, component);
      |all| == |latest| == 6 && all[1] == "--query-all" && latest[1] == "--query-latest" &&
      (forall i :: 0 <= i < 6 && i != 1 ==> all[i] == latest[i]) &&
      Options(all[2..]) == Options(latest[2..]) == [("--container", container), ("--component", component)]
  {
  }

  // ---------------------------------------------------------------------------
  // Heap-allocated vectors

  /** `statemgmt_print_missing_snapshots`: two fixed entries, the components and
      NULL, in exactly the `n + 3` slots allocated. */
  function PrintMissingSnapshotsArgv(components: seq<string>): (r: Store)
    ensures r == Stored(Strs(["dysnomia-snapshots", "--print-missing"] + components) + [Null])
    ensures |r.block| == |components| + 3
  {
    ArgvBlock(|components| + 3, ["dysnomia-snapshots", "--print-missing"], components)
  }

  /** `statemgmt_resolve_snapshots`: two fixed entries, the snapshots and NULL, in
      exactly the `n + 3` slots allocated. */
  function ResolveSnapshotsArgv(snapshots: seq<string>): (r: Store)
    ensures r == Stored(Strs(["dysnomia-snapshots", "--resolve"] + snapshots) + [Null])
    ensures |r.block| == |snapshots| + 3
  {
    ArgvBlock(|snapshots| + 3, ["dysnomia-snapshots", "--resolve"], snapshots)
  }

  /** The six fixed entries of the snapshot import vector. */
  function ImportSnapshotsPrefix(container: string, component: string): seq<string>
  {
    ["dysnomia-snapshots", "--import", "--container", container, "--component", component]
  }

  /** `statemgmt_import_snapshots` as written: six fixed entries and the snapshots
      fill all `n + 6` slots, so the NULL terminator is stored one past the end. */
  function ImportSnapshotsArgvAsWritten(container: string, component: string, snapshots: seq<string>): (r: Store)
    ensures r == OutOfBounds(|snapshots| + 6)
  {
    ArgvBlock(|snapshots| + 6, ImportSnapshotsPrefix(container, component), snapshots)
  }

  /** `statemgmt_import_snapshots` with room for the terminator: `n + 7` slots,
      filled exactly. */
  function ImportSnapshotsArgv(container: string, component: string, snapshots: seq<string>): (r: Store)
    ensures r == Stored(Strs(ImportSnapshotsPrefix(container, component) + snapshots) + [Null])
    ensures |r.block| == |snapshots| + 7
    ensures Terminated(r.block) == Some(ImportSnapshotsPrefix(container, component) + snapshots)
  {
    ArgvBlock(|snapshots| + 7, ImportSnapshotsPrefix(container, component), snapshots)
  }

  /** A `flag value` pair that is passed only when the value is not empty. */
  function OptionalPair(flag: string, value: string): seq<string>
  {
    if value != "" then [flag, value] else []
  }

  /** Stores `flag` and `value` at `count` and `count + 1`, as each optional pair
      of the clean-up vector is stored. */
  method AppendPair(args: array<Slot>, count: nat, flag: string, value: string) returns (count': nat)
    requires count + 2 <= args.Length
    modifies args
    ensures count' == count + 2
    ensures args[..count'] == old(args[..count]) + Strs([flag, value])
  {
    args[count] := Str(flag);
    args[count + 1] := Str(value);
    count' := count + 2;
  }

  /** `statemgmt_clean_snapshots`: a 9-slot block, four fixed entries, then the
      container pair and the component pair each only when non-empty, then NULL.
      `decimal` stands for the `sprintf("%d")` conversion of `keep`. */
  method CleanSnapshotsArgv(keep: int, container: string, component: string, decimal: int -> string)
    returns (block: seq<Slot>, count: nat)
    ensures |block| == 9
    ensures count == 4 + (if container != "" then 2 else 0) + (if component != "" then 2 else 0)
    ensures count < |block| && block[count] == Null
    ensures Terminated(block) == Some(["dysnomia-snapshots", "--gc", "--keep", decimal(keep)]
      + OptionalPair("--container", container) + OptionalPair("--component", component))
  {
    var args := new Slot[9](_ => Unset);
    args[0] := Str("dysnomia-snapshots");
    args[1] := Str("--gc");
    args[2] := Str("--keep");
    args[3] := Str(decimal(keep));
    count := 4;
    ghost var written: seq<string> := ["dysnomia-snapshots", "--gc", "--keep", decimal(keep)];
    assert args[..count] == Strs(written);
    if container != "" {
      count := AppendPair(args, count, "--container", container);
    }
    written := written + OptionalPair("--container", container);
    if component != "" {
      count := AppendPair(args, count, "--component", component);
    }
    written := written + OptionalPair("--component", component);
    args[count] := Null;
    block := args[..];
    assert block == Strs(written) + [Null] + block[count + 1..] by {
      assert block[..count] == Strs(written);
    }
    TerminatedStrs(written, block[count + 1..]);
  }
}
