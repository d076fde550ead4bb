/**
 Environment composition for activation modules and Dysnomia: every `key=value`
 argument is split at its first '=' and set with `setenv(name, value, 0)`, which
 never overwrites a variable that is already present.
 */
module Environment {
  import opened Wrappers
  import opened GStr

  /** A process environment: variable name to value. */
  type Env = map<string, string>

  /** The program a child process is made to run: `execvp(argv[0], argv)` in the
      given environment. */
  datatype Exec = Exec(argv: seq<string>, env: Env)

  /** Every argument holds an '='. Without one, `g_strsplit` yields no value and
      `setenv` is handed a NULL value (or, for an empty argument, the code reads
      past the end of the split vector). */
  predicate AllAssignments(args: seq<string>)
  {
    forall i :: 0 <= i < |args| ==> '=' in args[i]
  }

  /** A name glibc's `setenv` accepts: non-empty and free of '='. */
  predicate ValidName(name: string)
  {
    name != "" && '=' !in name
  }

  /** The part of an assignment before its first '='. */
  function Name(arg: string): string
    requires '=' in arg
  {
    arg[..IndexOf(arg, '=')]
  }

  /** The part of an assignment after its first '='; it may hold further '='s. */
  function Value(arg: string): string
    requires '=' in arg
  {
    arg[IndexOf(arg, '=') + 1..]
  }

  /** `setenv(name, value, 0)`: an invalid name is refused (EINVAL) and a name
      already present keeps its value. */
  function SetEnvKeep(env: Env, name: string, value: string): (r: Env)
    ensures r.Keys == env.Keys + (if ValidName(name) then {name} else {})
    ensures forall k :: k in env ==> r[k] == env[k]
    ensures ValidName(name) && name !in env ==> r[name] == value
  {
    if !ValidName(name) || name in env then env else env[name := value]
  }

  /** One loop iteration: `g_strsplit(arg, "=", 2)` and `setenv` without overwrite. */
  function ApplyArgument(env: Env, arg: string): (r: Env)
    requires '=' in arg
    ensures r.Keys == env.Keys + (if ValidName(Name(arg)) then {Name(arg)} else {})
    ensures forall k :: k in env ==> r[k] == env[k]
    ensures ValidName(Name(arg)) && Name(arg) !in env ==> r[Name(arg)] == Value(arg)
  {
    SplitFirstIsNameValue(arg);
    var pair := SplitFirst(arg, '=');
    SetEnvKeep(env, pair[0], pair[1])
  }

  /** Reference definition: the value assigned by the first argument named `k`. */
  function FirstBinding(args: seq<string>, k: string): Option<string>
    requires AllAssignments(args)
  {
    if |args| == 0 then None
    else if Name(args[0]) == k then Some(Value(args[0]))
    else FirstBinding(args[1..], k)
  }

  /** The split the loop performs agrees with `Name` and `Value`. */
  lemma SplitFirstIsNameValue(arg: string)
    requires '=' in arg
    ensures SplitFirst(arg, '=') == [Name(arg), Value(arg)]
  {
  }

  /** Names never contain '=', so the only name `setenv` refuses here is the empty one. */
  lemma NameHasNoEquals(arg: string)
    requires '=' in arg
    ensures '=' !in Name(arg)
  {
  }

  /** The environment the child runs with after the argument loop: the inherited
      variables unchanged, plus, for each new non-empty name, the value of its
      first assignment. */
  function Compose(env: Env, args: seq<string>): (r: Env)
    requires AllAssignments(args)
    ensures forall k :: k in r <==> k in env || (k != "" && FirstBinding(args, k).Some?)
    ensures forall k :: k in env ==> r[k] == env[k]
    ensures forall k :: k !in env && k != "" && FirstBinding(args, k).Some? ==>
      r[k] == FirstBinding(args, k).value
    decreases |args|
  {
    if |args| == 0 then env
    else
      SplitFirstIsNameValue(args[0]);
      NameHasNoEquals(args[0]);
      Compose(ApplyArgument(env, args[0]), args[1..])
  }

  /** First occurrence wins: of two assignments to the same new name, the earlier
      one's value is the one the child sees. */
  lemma {:induction false} FirstOccurrenceWins(env: Env, args: seq<string>, i: nat, j: nat)
    requires AllAssignments(args)
    requires i < j < |args|
    requires Name(args[i]) == Name(args[j]) && Name(args[i]) != "" && Name(args[i]) !in env
    requires forall m :: 0 <= m < i ==> Name(args[m]) != Name(args[i])
    ensures Name(args[i]) in Compose(env, args)
    ensures Compose(env, args)[Name(args[i])] == Value(args[i])
  {
    FirstBindingAt(args, i);
  }

  /** `FirstBinding` finds the earliest argument with the name. */
  lemma {:induction false} FirstBindingAt(args: seq<string>, i: nat)
    requires AllAssignments(args)
    requires i < |args|
    requires forall m :: 0 <= m < i ==> Name(args[m]) != Name(args[i])
    ensures FirstBinding(args, Name(args[i])) == Some(Value(args[i]))
    decreases i
  {
    if i > 0 {
      assert Name(args[0]) != Name(args[i]);
      assert args[1..][i - 1] == args[i];
      FirstBindingAt(args[1..], i - 1);
    }
  }
}
