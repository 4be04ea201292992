/** `validateEnv`: the start-up check of the build's environment variables.
    The environment is a map from variable name to value; an absent or empty
    value counts as missing. */
module Env {
  import opened Wrappers
  import opened Strings
  import opened Seqs

  type Environment = map<string, string>

  const SupabaseUrl: string := "VITE_SUPABASE_URL"
  const SupabaseAnonKey: string := "VITE_SUPABASE_ANON_KEY"

  /** The required variables, in declaration order. */
  const Required: seq<string> := [SupabaseUrl, SupabaseAnonKey]

  /** The variable is set to a non-empty value. */
  predicate IsSet(env: Environment, name: string) {
    name in env && Truthy(env[name])
  }

  function IsMissing(env: Environment): string -> bool {
    (name: string) => !IsSet(env, name)
  }

  /** The required variables that are not set, in declaration order. */
  function Missing(env: Environment): (m: seq<string>)
    ensures forall v :: v in m <==> v in Required && !IsSet(env, v)
    ensures SubsequenceOf(m, Required)
  {
    Filter(Required, IsMissing(env))
  }

  /** One line of the missing-variable list. */
  function Bullet(name: string): string {
    "  - " + name
  }

  const MissingHead: string := "Missing required environment variables:\n"
  const MissingTail: string := "\n\nPlease create a .env.local file in the project root with these variables.\n"
    + "Refer to the documentation for setup instructions."

  function MissingMessage(missing: seq<string>): string {
    MissingHead + Join(Map(missing, Bullet), "\n") + MissingTail
  }

  function InvalidUrlMessage(url: string): string {
    "Invalid VITE_SUPABASE_URL format.\nExpected: https://your-project.supabase.co\nGot: " + url
  }

  /** `validateEnv()`: throws when a required variable is missing, and
      otherwise when the URL does not start with 'http'. The missing check
      comes first. */
  function ValidateEnv(env: Environment): (o: Outcome)
    ensures |Missing(env)| > 0 ==> o == Failed(MissingMessage(Missing(env)))
    ensures |Missing(env)| == 0 ==> IsSet(env, SupabaseUrl) && IsSet(env, SupabaseAnonKey)
    ensures |Missing(env)| == 0 ==>
              (o.Failed? <==> !StartsWith(env[SupabaseUrl], "http"))
              && (o.Failed? ==> o.message == InvalidUrlMessage(env[SupabaseUrl]))
  {
    var missing := Missing(env);
    if |missing| > 0 then Failed(MissingMessage(missing))
    else
      assert SupabaseUrl in Required && SupabaseAnonKey in Required;
      var url := env[SupabaseUrl];
      if Truthy(url) && !StartsWith(url, "http") then Failed(InvalidUrlMessage(url)) else Succeeded
  }

  /** A bullet line contains its name. */
  lemma BulletContainsName(name: string)
    ensures Contains(Bullet(name), name)
  {
    assert Bullet(name)[4..4 + |name|] == name;
    assert OccursAt(Bullet(name), name, 4);
  }

  /** The error names every missing variable. */
  lemma MissingMessageNamesEach(env: Environment, k: nat)
    requires k < |Missing(env)|
    ensures Contains(ValidateEnv(env).message, Missing(env)[k])
  {
    var missing := Missing(env);
    var bullets := Map(missing, Bullet);
    JoinContains(bullets, "\n", k);
    BulletContainsName(missing[k]);
    ContainsTrans(Join(bullets, "\n"), bullets[k], missing[k]);
    ContainsInMiddle(MissingHead, Join(bullets, "\n"), MissingTail, missing[k]);
  }

  /** With both variables missing the error lists them in declaration
      order, whatever else holds. */
  lemma EmptyEnvironment()
    ensures Missing(map[]) == Required
    ensures ValidateEnv(map[]) == Failed(MissingMessage(Required))
  {
    FilterKeepsAll(Required, IsMissing(map[]));
  }

  /** A complete environment with a URL not starting with 'http' fails on the
      URL; one starting with 'https' passes. */
  lemma UrlExamples()
    ensures ValidateEnv(map[SupabaseUrl := "localhost:54321", SupabaseAnonKey := "k"])
            == Failed(InvalidUrlMessage("localhost:54321"))
    ensures ValidateEnv(map[SupabaseUrl := "https://x.supabase.co", SupabaseAnonKey := "k"]) == Succeeded
  {
    var bad: Environment := map[SupabaseUrl := "localhost:54321", SupabaseAnonKey := "k"];
    var good: Environment := map[SupabaseUrl := "https://x.supabase.co", SupabaseAnonKey := "k"];
    assert Missing(bad) == [] by {
      assert forall v :: v in Required ==> IsSet(bad, v);
    }
    assert Missing(good) == [] by {
      assert forall v :: v in Required ==> IsSet(good, v);
    }
    assert !StartsWith("localhost:54321", "http") by {
      assert "localhost:54321"[..4][0] == 'l';
    }
    assert "https://x.supabase.co"[..4] == "http";
  }
}
