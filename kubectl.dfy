/**
 * The kubectl plumbing: the base command taken from the environment, the
 * command lines for creating and reading the EntandoAppV2 resource and for
 * reading the operator mode, and how their outcomes are turned into errors.
 *
 * Running the command is a parameter (`Runner`) that maps the program and
 * its flattened arguments to the outcome; decoding YAML is a parameter too.
 */
module KubectlService {
  import opened Wrappers
  import opened Strings
  import opened FlagValues
  import opened Env
  import opened Spawn

  const KubectlBaseCommandEnv := "ENTANDO_CLI_KUBECTL_COMMAND"
  const EntandoAppResourceName := "EntandoAppV2"
  const OperatorDeploymentType := "ENTANDO_K8S_OPERATOR_DEPLOYMENT_TYPE"

  /** What a finished child process reports: its error, if any, and what it printed. */
  datatype SpawnResult = SpawnResult(err: Option<string>, stdout: string, stderr: string)

  /** Running a program with its arguments. */
  type Runner = (string, seq<string>) -> SpawnResult

  /** Plain string arguments. */
  function Strs(parts: seq<string>): (args: seq<Arg>)
    ensures |args| == |parts| && forall i :: 0 <= i < |parts| ==> args[i] == Str(parts[i])
  {
    if parts == [] then [] else Strs(parts[..|parts| - 1]) + [Str(parts[|parts| - 1])]
  }

  /** Flattening plain string arguments gives the strings back. */
  lemma {:induction false} FlattenStrs(parts: seq<string>)
    ensures WellFormedAll(Strs(parts))
    ensures Flatten(Strs(parts)) == parts
    decreases |parts|
  {
    if parts != [] {
      var init := parts[..|parts| - 1];
      FlattenStrs(init);
      assert Strs(parts)[..|parts| - 1] == Strs(init);
      assert parts == init + [parts[|parts| - 1]];
    }
  }

  // ---------------------------------------------------------------------
  // getKubectlBaseCommand

  /**
   * `getKubectlBaseCommand`: the variable split on spaces; the first part is
   * the program and the others, in order, are its arguments.
   */
  method GetKubectlBaseCommand(env: map<string, string>) returns (baseCmd: string, args: seq<Arg>, err: Option<string>)
    ensures Getenv(env, KubectlBaseCommandEnv) == "" ==>
              err == Some(MissingEnvMessage(KubectlBaseCommandEnv)) && args == []
    ensures Getenv(env, KubectlBaseCommandEnv) != "" ==>
              var parts := Split(Getenv(env, KubectlBaseCommandEnv), ' ');
              err == None && baseCmd == parts[0] && args == Strs(parts[1..])
  {
    var kubectlBaseCmd := Getenv(env, KubectlBaseCommandEnv);
    if kubectlBaseCmd == "" {
      return "", [], Some(MissingEnvMessage(KubectlBaseCommandEnv));
    }

    var parts := Split(kubectlBaseCmd, ' ');
    args := [];
    var i := 1;
    while i < |parts|
      invariant 1 <= i <= |parts|
      invariant args == Strs(parts[1..i])
    {
      assert parts[1..i + 1][..i - 1] == parts[1..i];
      args := args + [Str(parts[i])];
      i := i + 1;
    }
    return parts[0], args, None;
  }

  /**
   * The program and arguments of the base command join back, with single
   * spaces, into the variable's value, and no part holds a space.
   */
  lemma BaseCommandRoundTrip(value: string)
    ensures var parts := Split(value, ' ');
            Join([parts[0]] + Flatten(Strs(parts[1..])), " ") == value
            && forall i :: 0 <= i < |parts| ==> ' ' !in parts[i]
  {
    var parts := Split(value, ' ');
    FlattenStrs(parts[1..]);
    assert [parts[0]] + parts[1..] == parts;
    JoinSplit(value, ' ');
  }

  // ---------------------------------------------------------------------
  // CreateEntandoApp

  /** `create` makes a new resource; `apply`, chosen with `force`, overwrites an existing one. */
  function CreateVerb(force: bool): (verb: string)
    ensures verb == "apply" <==> force
    ensures verb == "create" <==> !force
  {
    if force then "apply" else "create"
  }

  /** The arguments of the create command: the base arguments, the verb, and the file. */
  function CreateArgs(baseArgs: seq<Arg>, force: bool, fileName: string): (args: seq<Arg>)
    ensures |args| == |baseArgs| + 3 && args[..|baseArgs|] == baseArgs
    ensures args[|baseArgs|..] == [Str(CreateVerb(force)), Str("-f"), Str(fileName)]
  {
    baseArgs + [Str(CreateVerb(force)), Str("-f"), Str(fileName)]
  }

  const AlreadyExistsMessage := "resource already exists. " + "You can overwrite it using the --force flag"

  /** How a failed create is reported. */
  function ClassifyCreateError(output: SpawnResult, force: bool): (err: Option<string>)
    ensures output.err == None ==> err == None
    ensures output.err.Some? && output.stderr == "" ==> err == output.err
    ensures output.err.Some? && output.stderr != "" && !force && ContainsSubstring(output.stderr, "AlreadyExists")
            ==> err == Some(AlreadyExistsMessage)
    ensures output.err.Some? && output.stderr != "" && (force || !ContainsSubstring(output.stderr, "AlreadyExists"))
            ==> err == Some("error creating the resource: " + output.stderr)
  {
    if output.err.Some? && |output.stderr| > 0 then
      if !force && ContainsSubstring(output.stderr, "AlreadyExists") then Some(AlreadyExistsMessage)
      else Some("error creating the resource: " + output.stderr)
    else output.err
  }

  /**
   * The "already exists" advice is given only for an unforced create whose
   * error output names the condition (or when the run itself failed with
   * exactly that text and printed nothing).
   */
  lemma AlreadyExistsOnlyUnforced(output: SpawnResult, force: bool)
    requires ClassifyCreateError(output, force) == Some(AlreadyExistsMessage)
    ensures (output.err == Some(AlreadyExistsMessage) && output.stderr == "")
            || (!force && ContainsSubstring(output.stderr, "AlreadyExists"))
  {
    assert AlreadyExistsMessage[0] == 'r';
    assert ("error creating the resource: " + output.stderr)[0] == 'e';
  }

  /**
   * The process launcher of the tool reports an error only when the program
   * could not be started, and then with empty output; such an outcome is
   * passed through unchanged: the classification of an `AlreadyExists`
   * failure never applies.
   */
  lemma StartFailurePassesThrough(output: SpawnResult, force: bool)
    requires output.err.Some? ==> output.stdout == "" && output.stderr == ""
    ensures ClassifyCreateError(output, force) == output.err
  {
  }

  /**
   * `CreateEntandoApp`: checks that the file exists, builds the command from
   * the base command, runs it, and classifies the failure.
   */
  method CreateEntandoApp(fileName: string, force: bool, fileExists: bool, env: map<string, string>, run: Runner)
    returns (err: Option<string>)
    ensures !fileExists ==> err == Some("file " + fileName + " doesn't exist")
    ensures fileExists && Getenv(env, KubectlBaseCommandEnv) == "" ==>
              err == Some(MissingEnvMessage(KubectlBaseCommandEnv))
    ensures fileExists && Getenv(env, KubectlBaseCommandEnv) != "" ==>
              var parts := Split(Getenv(env, KubectlBaseCommandEnv), ' ');
              err == ClassifyCreateError(run(parts[0], parts[1..] + [CreateVerb(force), "-f", fileName]), force)
  {
    if !fileExists {
      return Some("file " + fileName + " doesn't exist");
    }

    var baseCmd, args, baseErr := GetKubectlBaseCommand(env);
    if baseErr.Some? {
      return baseErr;
    }

    var kubectlCmd;
    if force {
      kubectlCmd := "apply";
    } else {
      kubectlCmd := "create";
    }

    ghost var baseArgs := args;
    args := args + [Str(kubectlCmd), Str("-f"), Str(fileName)];
    assert args == CreateArgs(baseArgs, force, fileName);

    var raw := MkRawSpawnArgs(args);
    CreateArgsFlatten(Split(Getenv(env, KubectlBaseCommandEnv), ' ')[1..], force, fileName);
    var output := run(baseCmd, raw);
    err := ClassifyCreateError(output, force);
  }

  /** The create command line, flattened, is the base arguments followed by the verb and the file. */
  lemma CreateArgsFlatten(baseParts: seq<string>, force: bool, fileName: string)
    ensures WellFormedAll(CreateArgs(Strs(baseParts), force, fileName))
    ensures Flatten(CreateArgs(Strs(baseParts), force, fileName)) == baseParts + [CreateVerb(force), "-f", fileName]
  {
    var all := baseParts + [CreateVerb(force), "-f", fileName];
    var args := CreateArgs(Strs(baseParts), force, fileName);
    assert |args| == |all|;
    forall i | 0 <= i < |all| ensures args[i] == Strs(all)[i] {
      if i < |baseParts| {
        assert args[i] == Strs(baseParts)[i];
      } else {
        assert args[i] == args[|baseParts|..][i - |baseParts|];
      }
    }
    assert args == Strs(all);
    FlattenStrs(all);
  }

  // ---------------------------------------------------------------------
  // GetOperatorMode

  const OperatorModeJsonPath :=
    "jsonpath='{.spec.template.spec.containers[0].env[?(@.name == \"" + OperatorDeploymentType + "\")].value}'"

  /** The operator mode named by the deployment's variable, once the surrounding `'` are removed. */
  function ParseOperatorMode(stdout: string): (r: (string, Option<string>))
    ensures r.1 == None <==> Trim(stdout, '\'') == "olm" || Trim(stdout, '\'') == "helm"
    ensures r.1 == None ==> (r.0 == OperatorOlm <==> Trim(stdout, '\'') == "olm")
    ensures r.0 == OperatorPlain <==> Trim(stdout, '\'') == "helm"
    ensures r.1.Some? ==> r.0 == OperatorAuto
  {
    var parsedMode := Trim(stdout, '\'');
    if parsedMode == "olm" then (OperatorOlm, None)
    else if parsedMode == "helm" then (OperatorPlain, None)
    else (OperatorAuto, Some("unable to retrieve the operator mode from the deployment.\nUnexpected value for "
                             + OperatorDeploymentType + ": " + parsedMode))
  }

  /** Any number of `'` around the value are ignored. */
  lemma ParseOperatorModeQuoted(mode: string, n: nat, m: nat)
    requires mode == "olm" || mode == "helm"
    ensures ParseOperatorMode(Repeat('\'', n) + mode + Repeat('\'', m)).1 == None
    ensures ParseOperatorMode(Repeat('\'', n) + mode + Repeat('\'', m)).0
            == if mode == "olm" then OperatorOlm else OperatorPlain
  {
    TrimPadded(mode, '\'', n, m);
  }

  /** `GetOperatorMode`: reads the deployment's variable through kubectl. */
  method GetOperatorMode(env: map<string, string>, run: Runner) returns (mode: string, err: Option<string>)
    ensures Getenv(env, KubectlBaseCommandEnv) == "" ==>
              mode == OperatorAuto && err == Some(MissingEnvMessage(KubectlBaseCommandEnv))
    ensures Getenv(env, KubectlBaseCommandEnv) != "" ==>
              var parts := Split(Getenv(env, KubectlBaseCommandEnv), ' ');
              var output := run(parts[0], parts[1..] + ["get", "deploy", "entando-operator", "-o", OperatorModeJsonPath]);
              if output.err.Some? then
                mode == OperatorAuto
                && err == Some("unable to retrieve the operator mode from the deployment: " + output.err.value)
              else (mode, err) == ParseOperatorMode(output.stdout)
  {
    var baseCmd, args, baseErr := GetKubectlBaseCommand(env);
    if baseErr.Some? {
      return OperatorAuto, baseErr;
    }
    ghost var parts := Split(Getenv(env, KubectlBaseCommandEnv), ' ');
    var extra := ["get", "deploy", "entando-operator", "-o", OperatorModeJsonPath];
    args := args + Strs(extra);
    FlattenStrs(parts[1..]);
    FlattenStrs(extra);
    FlattenConcat(Strs(parts[1..]), Strs(extra));
    var raw := MkRawSpawnArgs(args);
    var output := run(baseCmd, raw);
    if output.err.Some? {
      return OperatorAuto, Some("unable to retrieve the operator mode from the deployment: " + output.err.value);
    }
    mode, err := ParseOperatorMode(output.stdout).0, ParseOperatorMode(output.stdout).1;
  }

  // ---------------------------------------------------------------------
  // parseEntandoAppV2 / GetEntandoApp

  /** Exactly one resource is expected in the decoded list. */
  function ParseEntandoAppV2<T>(decoded: Result<seq<T>>): (r: Result<T>)
    ensures r.Ok? <==> decoded.Ok? && |decoded.value| == 1
    ensures r.Ok? ==> r.value == decoded.value[0]
    ensures decoded.Err? ==> r == Err(decoded.msg)
    ensures decoded.Ok? && |decoded.value| == 0 ==> r == Err("resource of type " + EntandoAppResourceName + " not found")
    ensures decoded.Ok? && |decoded.value| > 1 ==> r == Err("found multiple resources of type " + EntandoAppResourceName)
  {
    match decoded
    case Err(e) => Err(e)
    case Ok(items) =>
      if |items| == 0 then Err("resource of type " + EntandoAppResourceName + " not found")
      else if |items| > 1 then Err("found multiple resources of type " + EntandoAppResourceName)
      else Ok(items[0])
  }

  /** `GetEntandoApp`: lists the resources as YAML and expects exactly one. */
  method GetEntandoApp<T>(env: map<string, string>, run: Runner, decode: string -> Result<seq<T>>)
    returns (app: Result<T>)
    ensures Getenv(env, KubectlBaseCommandEnv) == "" ==> app == Err(MissingEnvMessage(KubectlBaseCommandEnv))
    ensures Getenv(env, KubectlBaseCommandEnv) != "" ==>
              var parts := Split(Getenv(env, KubectlBaseCommandEnv), ' ');
              var output := run(parts[0], parts[1..] + ["get", EntandoAppResourceName, "-o", "yaml"]);
              app == if output.err.Some? then Err(output.err.value) else ParseEntandoAppV2(decode(output.stdout))
  {
    var baseCmd, args, baseErr := GetKubectlBaseCommand(env);
    if baseErr.Some? {
      return Err(baseErr.value);
    }
    ghost var parts := Split(Getenv(env, KubectlBaseCommandEnv), ' ');
    var extra := ["get", EntandoAppResourceName, "-o", "yaml"];
    args := args + Strs(extra);
    FlattenStrs(parts[1..]);
    FlattenStrs(extra);
    FlattenConcat(Strs(parts[1..]), Strs(extra));
    var raw := MkRawSpawnArgs(args);
    var output := run(baseCmd, raw);
    if output.err.Some? {
      return Err(output.err.value);
    }
    return ParseEntandoAppV2(decode(output.stdout));
  }
}
