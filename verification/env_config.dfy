/** Loading the required settings from the environment: every required
    variable is read, and those that are unset or empty are collected so that
    the entry point can stop before any network access. */
module EnvConfig {
  import opened Results
  import opened Seqs

  /** Names of the variables the poster cannot run without, in reading order. */
  const RequiredEnvVars: seq<string> :=
    ["NODE_URL", "JWT", "PAGE_ID", "CONFLUENCE_USERNAME", "CONFLUENCE_PASSWORD"]

  /** The process environment: variable names to values. */
  type Environment = map<string, string>

  /** `os.getenv(name)`: the value, or nothing when the variable is unset. */
  function GetEnv(env: Environment, name: string): Option<string> {
    if name in env then Some(env[name]) else None
  }

  /** `not value`: the variable is unset or set to the empty string. */
  predicate IsMissing(env: Environment, name: string) {
    GetEnv(env, name) == None || GetEnv(env, name) == Some("")
  }

  /** The names among `names` that are missing from `env`, in order. */
  function MissingIn(env: Environment, names: seq<string>): (missing: seq<string>)
    ensures forall i :: 0 <= i < |missing| ==> missing[i] in names && IsMissing(env, missing[i])
    ensures forall i :: 0 <= i < |names| && IsMissing(env, names[i]) ==> names[i] in missing
  {
    Filter((name: string) => IsMissing(env, name), names)
  }

  /** What the missing names say about the environment: they are exactly the
      unset or empty variables among `names`, in the order of `names`, and
      there are none exactly when every variable is set to a non-empty value. */
  lemma MissingInFacts(env: Environment, names: seq<string>)
    ensures forall name :: name in MissingIn(env, names) <==> name in names && IsMissing(env, name)
    ensures IsSubsequence(MissingIn(env, names), names)
    ensures |MissingIn(env, names)| == 0 <==> forall i :: 0 <= i < |names| ==> !IsMissing(env, names[i])
  {
    var missing := MissingIn(env, names);
    FilterIsSubsequence((name: string) => IsMissing(env, name), names);
    if |missing| != 0 {
      assert missing[0] in names && IsMissing(env, missing[0]);
      var i :| 0 <= i < |names| && names[i] == missing[0];
      assert IsMissing(env, names[i]);
    }
  }

  /** The loading loop: records every required variable's value in the
      configuration and collects the missing names. */
  method LoadVariables(env: Environment, required: seq<string>)
    returns (config: map<string, Option<string>>, missing: seq<string>)
    ensures missing == MissingIn(env, required)
    ensures forall name :: name in missing <==> name in required && IsMissing(env, name)
    ensures IsSubsequence(missing, required)
    ensures |missing| == 0 <==> forall i :: 0 <= i < |required| ==> !IsMissing(env, required[i])
    ensures config.Keys == set name | name in required
    ensures forall name :: name in config ==> config[name] == GetEnv(env, name)
  {
    config := map[];
    missing := [];
    for i := 0 to |required|
      invariant missing == MissingIn(env, required[..i])
      invariant config.Keys == set name | name in required[..i]
      invariant forall name :: name in config ==> config[name] == GetEnv(env, name)
    {
      var name := required[i];
      var value := GetEnv(env, name);
      assert required[..i + 1][..i] == required[..i];
      assert required[..i + 1] == required[..i] + [name];
      if value == None || value == Some("") {
        missing := missing + [name];
      }
      config := config[name := value];
    }
    assert required[..|required|] == required;
    MissingInFacts(env, required);
  }

  /** With every required variable set to a non-empty value, nothing is
      reported missing and the poster goes on; otherwise it stops. */
  lemma ProceedsExactlyWhenAllSet(env: Environment)
    ensures |MissingIn(env, RequiredEnvVars)| == 0 <==>
      forall name :: name in RequiredEnvVars ==> name in env && env[name] != ""
  {
    MissingInFacts(env, RequiredEnvVars);
  }
}
