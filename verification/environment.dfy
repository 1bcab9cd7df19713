/** `validateEnvironment`: collect the required variables that are unset or
    empty, in a fixed order; fail listing them, or build the configuration
    with defaults. The process environment is a map. */
module Environment {
  import opened Common

  const RequiredVars: seq<string> := ["OPENAI_API_KEY", "SUPABASE_URL", "SUPABASE_KEY"]
  const MissingPrefix := "Missing required environment variables: "
  const DefaultNodeEnv := "development"
  const DefaultPort := "3000"

  /** The validated configuration. `allowedOrigins` is passed through, so it
      may be absent; the other optional values have defaults. */
  datatype EnvironmentConfig = EnvironmentConfig(
    openAiApiKey: string,
    supabaseUrl: string,
    supabaseKey: string,
    nodeEnv: string,
    allowedOrigins: Option<string>,
    port: string)

  /** `!process.env[name]`: an environment value is a string, falsy when unset or empty. */
  predicate IsUnset(env: map<string, string>, name: string) {
    name !in env || env[name] == ""
  }

  /** `process.env[name] || fallback`. */
  function ValueOr(env: map<string, string>, name: string, fallback: string): string {
    if IsUnset(env, name) then fallback else env[name]
  }

  /** The names in `names` that are unset, in their order. */
  function MissingAmong(env: map<string, string>, names: seq<string>): (missing: seq<string>)
    ensures |missing| <= |names|
    ensures forall n :: n in missing ==> n in names && IsUnset(env, n)
  {
    if names == [] then []
    else
      var last := names[|names| - 1];
      MissingAmong(env, names[..|names| - 1]) + (if IsUnset(env, last) then [last] else [])
  }

  /** Exactly the unset names are listed, and in the order given. */
  lemma {:induction false} MissingAmongExactly(env: map<string, string>, names: seq<string>)
    ensures forall n :: n in MissingAmong(env, names) <==> n in names && IsUnset(env, n)
    ensures IsSubsequence(MissingAmong(env, names), names)
  {
    if names != [] {
      var init, last := names[..|names| - 1], names[|names| - 1];
      assert names == init + [last];
      MissingAmongExactly(env, init);
      AppendKeepsSubsequence(MissingAmong(env, init), init, last, IsUnset(env, last));
    }
  }

  /** Extending both sides by the same element, or only the larger side, keeps
      the subsequence relation. */
  lemma {:induction false} AppendKeepsSubsequence(a: seq<string>, b: seq<string>, x: string, both: bool)
    requires IsSubsequence(a, b)
    ensures IsSubsequence(a + (if both then [x] else []), b + [x])
    decreases |b|
  {
    var a' := a + (if both then [x] else []);
    if a == [] {
      if both {
        assert a' == [x] && (b + [x])[|b|..] == [x];
        SubsequenceRefl([x]);
        SubsequenceOfSuffix([x], b + [x], |b|);
      }
    } else if a[0] == b[0] {
      assert a'[1..] == a[1..] + (if both then [x] else []);
      assert (b + [x])[1..] == b[1..] + [x];
      AppendKeepsSubsequence(a[1..], b[1..], x, both);
    } else {
      assert (b + [x])[1..] == b[1..] + [x];
      AppendKeepsSubsequence(a, b[1..], x, both);
    }
  }

  /** `names.join(", ")`. */
  function Join(names: seq<string>, separator: string): string
  {
    if names == [] then ""
    else if |names| == 1 then names[0]
    else names[0] + separator + Join(names[1..], separator)
  }

  /** The first name opens the joined text, followed by the separator when
      more follow, and the last name closes it; no names join to "". */
  lemma JoinEnds(names: seq<string>, separator: string)
    ensures names == [] ==> Join(names, separator) == ""
    ensures names != [] ==> names[0] <= Join(names, separator)
    ensures |names| >= 2 ==> names[0] + separator <= Join(names, separator)
    ensures names != [] ==>
              var r, last := Join(names, separator), names[|names| - 1];
              |last| <= |r| && r[|r| - |last|..] == last
  {
    if |names| >= 2 {
      var head, rest := names[0] + separator, Join(names[1..], separator);
      assert Join(names, separator) == head + rest;
      assert head <= head + rest;
    }
    if names != [] {
      JoinEndsWithLast(names, separator);
    }
  }

  /** The joined text ends with the last name. */
  lemma {:induction false} JoinEndsWithLast(names: seq<string>, separator: string)
    requires names != []
    ensures var r, last := Join(names, separator), names[|names| - 1];
            |last| <= |r| && r[|r| - |last|..] == last
  {
    if |names| >= 2 {
      JoinEndsWithLast(names[1..], separator);
      var r, rest, last := Join(names, separator), Join(names[1..], separator), names[|names| - 1];
      assert names[1..][|names[1..]| - 1] == last;
      assert r == (names[0] + separator) + rest;
      assert r[|r| - |last|..] == rest[|rest| - |last|..];
    }
  }

  /** `validateEnvironment()` on the environment `env`. */
  method ValidateEnvironment(env: map<string, string>) returns (r: Result<EnvironmentConfig>)
    ensures r.Failure? <==> MissingAmong(env, RequiredVars) != []
    ensures r.Failure? ==>
              r.error == Error(MissingPrefix + Join(MissingAmong(env, RequiredVars), ", "))
    ensures r.Success? ==>
              && !IsUnset(env, "OPENAI_API_KEY") && !IsUnset(env, "SUPABASE_URL")
              && !IsUnset(env, "SUPABASE_KEY")
              && r.value.openAiApiKey == env["OPENAI_API_KEY"]
              && r.value.supabaseUrl == env["SUPABASE_URL"]
              && r.value.supabaseKey == env["SUPABASE_KEY"]
              && r.value.nodeEnv == ValueOr(env, "NODE_ENV", DefaultNodeEnv)
              && r.value.allowedOrigins == (if "ALLOWED_ORIGINS" in env then Some(env["ALLOWED_ORIGINS"]) else None)
              && r.value.port == ValueOr(env, "PORT", DefaultPort)
  {
    var missing: seq<string> := [];
    for i := 0 to |RequiredVars|
      invariant missing == MissingAmong(env, RequiredVars[..i])
    {
      var varName := RequiredVars[i];
      assert RequiredVars[..i + 1][..i] == RequiredVars[..i];
      if IsUnset(env, varName) {
        missing := missing + [varName];
      }
    }
    assert RequiredVars[..|RequiredVars|] == RequiredVars;
    if |missing| > 0 {
      return Failure(Error(MissingPrefix + Join(missing, ", ")));
    }
    MissingAmongExactly(env, RequiredVars);
    assert missing == [];
    assert RequiredVars[0] in RequiredVars && RequiredVars[1] in RequiredVars
           && RequiredVars[2] in RequiredVars;
    return Success(EnvironmentConfig(
      env["OPENAI_API_KEY"],
      env["SUPABASE_URL"],
      env["SUPABASE_KEY"],
      ValueOr(env, "NODE_ENV", DefaultNodeEnv),
      if "ALLOWED_ORIGINS" in env then Some(env["ALLOWED_ORIGINS"]) else None,
      ValueOr(env, "PORT", DefaultPort)));
  }

  /** With nothing set, all three names are reported, in order. */
  lemma NothingSetReportsAll()
    ensures MissingAmong(map[], RequiredVars) == RequiredVars
  {
    var none: map<string, string> := map[];
    var first, firstTwo := ["OPENAI_API_KEY"], ["OPENAI_API_KEY", "SUPABASE_URL"];
    assert first[..0] == [];
    assert MissingAmong(none, first) == first;
    assert firstTwo[..1] == first;
    assert MissingAmong(none, firstTwo) == firstTwo;
    assert RequiredVars[..2] == firstTwo;
  }

  /** The message for an empty environment names all three, separated by ", ". */
  lemma NothingSetMessage()
    ensures MissingPrefix + Join(MissingAmong(map[], RequiredVars), ", ")
            == MissingPrefix + ("OPENAI_API_KEY" + ", " + "SUPABASE_URL" + ", " + "SUPABASE_KEY")
  {
    NothingSetReportsAll();
    RequiredVarsJoined();
  }

  /** The three required names joined by ", ". */
  lemma RequiredVarsJoined()
    ensures Join(RequiredVars, ", ") == "OPENAI_API_KEY" + ", " + "SUPABASE_URL" + ", " + "SUPABASE_KEY"
  {
    var last, tail := ["SUPABASE_KEY"], ["SUPABASE_URL", "SUPABASE_KEY"];
    assert Join(last, ", ") == "SUPABASE_KEY";
    assert tail[1..] == last;
    assert Join(tail, ", ") == "SUPABASE_URL" + ", " + "SUPABASE_KEY";
    assert RequiredVars[1..] == tail;
  }

}
