/**
 * `Settings` and `Settings.from_env` of rag_chatbot/config.py.
 *
 * The environment is a map from variable names to values; a name absent from the
 * map is unset, so `os.getenv(name)` is `None` and `os.getenv(name, default)` is
 * `default`. Python's `int()` is the parameter `parseInt`, which gives `None`
 * where `int()` raises ValueError. The float `temperature` is not part of this model.
 */
module Config {
  import opened Wrappers
  import opened Text

  type Env = map<string, string>

  datatype Settings = Settings(
    openaiApiKey: string,
    pineconeApiKey: string,
    pineconeIndexName: string,
    pineconeHost: Option<string>,
    pineconeEnvironment: Option<string>,
    namespace: string,
    chunkSize: int,
    chunkOverlap: int,
    topK: int,
    model: string,
    embeddingModel: string)

  datatype ConfigError =
    | MissingVariables(names: seq<string>)           // EnvironmentError
    | InvalidInteger(variable: string, text: string)  // ValueError from int()

  const DefaultNamespace: string := "default"
  const DefaultChunkSize: int := 800
  const DefaultChunkOverlap: int := 200
  const DefaultTopK: int := 5
  const DefaultModel: string := "gpt-4o-mini"
  const DefaultEmbeddingModel: string := "text-embedding-3-small"

  /** `Settings(openai_api_key, pinecone_api_key, pinecone_index_name)`: every other field at its declared default. */
  function DefaultSettings(openaiApiKey: string, pineconeApiKey: string, pineconeIndexName: string): Settings {
    Settings(openaiApiKey, pineconeApiKey, pineconeIndexName, None, None,
             DefaultNamespace, DefaultChunkSize, DefaultChunkOverlap, DefaultTopK,
             DefaultModel, DefaultEmbeddingModel)
  }

  /** The required variables, in the order they are checked. */
  const RequiredVariables: seq<string> := ["OPENAI_API_KEY", "PINECONE_API_KEY", "PINECONE_INDEX_NAME"]

  const MissingPrefix: string := "Missing required environment variables: "

  /** The text of the raised error; the bad value is quoted as `repr` quotes a plain string. */
  function Message(e: ConfigError): string {
    match e
    case MissingVariables(names) => MissingPrefix + Join(", ", names)
    case InvalidInteger(_, text) => "invalid literal for int() with base 10: '" + text + "'"
  }

  /** `os.getenv(name)`. */
  function GetEnv(env: Env, name: string): Option<string> {
    if name in env then Some(env[name]) else None
  }

  /** `os.getenv(name, default)`. */
  function GetEnvOr(env: Env, name: string, default: string): string {
    if name in env then env[name] else default
  }

  /** `not os.getenv(name)`: unset or empty. */
  predicate Missing(env: Env, name: string) {
    name !in env || env[name] == []
  }

  /** The required variables that are missing, in checking order. */
  function MissingFrom(env: Env, names: seq<string>): seq<string> {
    if names == [] then []
    else (if Missing(env, names[0]) then [names[0]] else []) + MissingFrom(env, names[1..])
  }

  function MissingRequired(env: Env): seq<string> {
    MissingFrom(env, RequiredVariables)
  }

  /** `int(os.getenv(name, default))`, the default being already a number. */
  function IntSetting(env: Env, parseInt: string -> Option<int>, name: string, default: int): Result<int, ConfigError> {
    if name !in env then Success(default)
    else if parseInt(env[name]).None? then Failure(InvalidInteger(name, env[name]))
    else Success(parseInt(env[name]).value)
  }

  /** What `Settings.from_env()` returns or raises. */
  function SettingsFromEnv(env: Env, parseInt: string -> Option<int>): Result<Settings, ConfigError> {
    var missing := MissingRequired(env);
    if missing != [] then Failure(MissingVariables(missing))
    else
      MissingRequiredUnfolds(env);
      var chunkSize := IntSetting(env, parseInt, "CHUNK_SIZE", DefaultChunkSize);
      var chunkOverlap := IntSetting(env, parseInt, "CHUNK_OVERLAP", DefaultChunkOverlap);
      var topK := IntSetting(env, parseInt, "TOP_K", DefaultTopK);
      if chunkSize.Failure? then Failure(chunkSize.error)
      else if chunkOverlap.Failure? then Failure(chunkOverlap.error)
      else if topK.Failure? then Failure(topK.error)
      else Success(Settings(
        env["OPENAI_API_KEY"], env["PINECONE_API_KEY"], env["PINECONE_INDEX_NAME"],
        GetEnv(env, "PINECONE_HOST"), GetEnv(env, "PINECONE_ENVIRONMENT"),
        GetEnvOr(env, "PINECONE_NAMESPACE", DefaultNamespace),
        chunkSize.value, chunkOverlap.value, topK.value,
        GetEnvOr(env, "OPENAI_MODEL", DefaultModel),
        GetEnvOr(env, "OPENAI_EMBEDDING_MODEL", DefaultEmbeddingModel)))
  }

  method FromEnv(env: Env, parseInt: string -> Option<int>) returns (r: Result<Settings, ConfigError>)
    ensures r == SettingsFromEnv(env, parseInt)
  {
    var missing: seq<string> := [];
    var openaiApiKey := GetEnv(env, "OPENAI_API_KEY");
    if openaiApiKey.None? || openaiApiKey.value == [] {
      missing := missing + ["OPENAI_API_KEY"];
    }
    var pineconeApiKey := GetEnv(env, "PINECONE_API_KEY");
    if pineconeApiKey.None? || pineconeApiKey.value == [] {
      missing := missing + ["PINECONE_API_KEY"];
    }
    var pineconeIndexName := GetEnv(env, "PINECONE_INDEX_NAME");
    if pineconeIndexName.None? || pineconeIndexName.value == [] {
      missing := missing + ["PINECONE_INDEX_NAME"];
    }
    assert missing == MissingRequired(env) by {
      MissingRequiredUnfolds(env);
    }
    if missing != [] {
      return Failure(MissingVariables(missing));
    }
    var chunkSize := IntSetting(env, parseInt, "CHUNK_SIZE", DefaultChunkSize);
    if chunkSize.Failure? {
      return Failure(chunkSize.error);
    }
    var chunkOverlap := IntSetting(env, parseInt, "CHUNK_OVERLAP", DefaultChunkOverlap);
    if chunkOverlap.Failure? {
      return Failure(chunkOverlap.error);
    }
    var topK := IntSetting(env, parseInt, "TOP_K", DefaultTopK);
    if topK.Failure? {
      return Failure(topK.error);
    }
    r := Success(Settings(
      openaiApiKey.value, pineconeApiKey.value, pineconeIndexName.value,
      GetEnv(env, "PINECONE_HOST"), GetEnv(env, "PINECONE_ENVIRONMENT"),
      GetEnvOr(env, "PINECONE_NAMESPACE", DefaultNamespace),
      chunkSize.value, chunkOverlap.value, topK.value,
      GetEnvOr(env, "OPENAI_MODEL", DefaultModel),
      GetEnvOr(env, "OPENAI_EMBEDDING_MODEL", DefaultEmbeddingModel)));
  }

  /** The missing list is built by one conditional append per required variable, in order. */
  lemma MissingRequiredUnfolds(env: Env)
    ensures MissingRequired(env) ==
      (if Missing(env, "OPENAI_API_KEY") then ["OPENAI_API_KEY"] else []) +
      (if Missing(env, "PINECONE_API_KEY") then ["PINECONE_API_KEY"] else []) +
      (if Missing(env, "PINECONE_INDEX_NAME") then ["PINECONE_INDEX_NAME"] else [])
  {
    var rs := RequiredVariables;
    var r1: seq<string> := ["PINECONE_API_KEY", "PINECONE_INDEX_NAME"];
    var r2: seq<string> := ["PINECONE_INDEX_NAME"];
    assert rs[1..] == r1 && r1[1..] == r2 && r2[1..] == [];
    assert MissingFrom(env, r2) == (if Missing(env, "PINECONE_INDEX_NAME") then ["PINECONE_INDEX_NAME"] else []) + MissingFrom(env, []);
    assert MissingFrom(env, r1) == (if Missing(env, "PINECONE_API_KEY") then ["PINECONE_API_KEY"] else []) + MissingFrom(env, r2);
    assert MissingFrom(env, rs) == (if Missing(env, "OPENAI_API_KEY") then ["OPENAI_API_KEY"] else []) + MissingFrom(env, r1);
  }

  // ---------------------------------------------------------------------------
  // Properties

  /** A name is reported missing exactly when it is required and unset or empty. */
  lemma {:induction false} MissingFromMembers(env: Env, names: seq<string>, n: string)
    ensures n in MissingFrom(env, names) <==> n in names && Missing(env, n)
  {
    if names != [] {
      MissingFromMembers(env, names[1..], n);
      assert names == [names[0]] + names[1..];
    }
  }

  /** The reported names keep the checking order and each name appears once. */
  lemma {:induction false} MissingFromOrdered(env: Env, names: seq<string>, i: nat, j: nat)
    requires i < j < |MissingFrom(env, names)|
    ensures exists p, q :: 0 <= p < q < |names| && names[p] == MissingFrom(env, names)[i] && names[q] == MissingFrom(env, names)[j]
  {
    var ms := MissingFrom(env, names);
    var head: seq<string> := if Missing(env, names[0]) then [names[0]] else [];
    var rest := MissingFrom(env, names[1..]);
    assert ms == head + rest;
    if head != [] && i == 0 {
      assert ms[j] == rest[j - 1];
      MissingFromMembers(env, names[1..], rest[j - 1]);
      var q :| 0 <= q < |names[1..]| && names[1..][q] == rest[j - 1];
      assert names[0] == ms[0] && names[q + 1] == ms[j];
    } else {
      var d := |head|;
      assert ms[i] == rest[i - d] && ms[j] == rest[j - d];
      MissingFromOrdered(env, names[1..], i - d, j - d);
      var p, q :| 0 <= p < q < |names[1..]| && names[1..][p] == rest[i - d] && names[1..][q] == rest[j - d];
      assert names[p + 1] == ms[i] && names[q + 1] == ms[j];
    }
  }

  /** `from_env` raises the missing-variables error exactly when a required variable is unset or empty. */
  lemma MissingErrorIff(env: Env, parseInt: string -> Option<int>)
    ensures SettingsFromEnv(env, parseInt).Failure? && SettingsFromEnv(env, parseInt).error.MissingVariables?
      <==> exists n :: n in RequiredVariables && Missing(env, n)
    ensures SettingsFromEnv(env, parseInt).Failure? && SettingsFromEnv(env, parseInt).error.MissingVariables? ==>
      Message(SettingsFromEnv(env, parseInt).error) == MissingPrefix + Join(", ", MissingRequired(env))
  {
    var ms := MissingRequired(env);
    if ms != [] {
      MissingFromMembers(env, RequiredVariables, ms[0]);
    }
    if exists n :: n in RequiredVariables && Missing(env, n) {
      var n :| n in RequiredVariables && Missing(env, n);
      MissingFromMembers(env, RequiredVariables, n);
    }
  }

  /** The message names every missing variable. */
  lemma MessageNamesEachMissing(env: Env, parseInt: string -> Option<int>, n: string)
    requires n in RequiredVariables && Missing(env, n)
    ensures SettingsFromEnv(env, parseInt).Failure?
    ensures IsSubstring(n, Message(SettingsFromEnv(env, parseInt).error))
  {
    var ms := MissingRequired(env);
    MissingFromMembers(env, RequiredVariables, n);
    var k :| 0 <= k < |ms| && ms[k] == n;
    JoinContainsEach(", ", ms, k);
    var joined := Join(", ", ms);
    var i :| 0 <= i <= |joined| && n <= joined[i..];
    var msg := MissingPrefix + joined;
    assert msg[|MissingPrefix| + i..] == joined[i..];
  }

  /** With every required variable missing the message lists all three in checking order. */
  lemma AllMissingMessage(parseInt: string -> Option<int>)
    ensures Message(SettingsFromEnv(map[], parseInt).error) ==
      MissingPrefix + ("OPENAI_API_KEY" + ", " + "PINECONE_API_KEY" + ", " + "PINECONE_INDEX_NAME")
  {
    var none: Env := map[];
    MissingRequiredUnfolds(none);
    assert Missing(none, "OPENAI_API_KEY") && Missing(none, "PINECONE_API_KEY") && Missing(none, "PINECONE_INDEX_NAME");
    ConcatThree("OPENAI_API_KEY", "PINECONE_API_KEY", "PINECONE_INDEX_NAME");
    assert MissingRequired(none) == RequiredVariables;
    assert SettingsFromEnv(none, parseInt) == Failure(MissingVariables(RequiredVariables));
    JoinThree(", ", "OPENAI_API_KEY", "PINECONE_API_KEY", "PINECONE_INDEX_NAME");
    assert Message(MissingVariables(RequiredVariables)) == MissingPrefix + Join(", ", RequiredVariables);
  }

  lemma ConcatThree<T>(a: T, b: T, c: T)
    ensures [a] + [b] + [c] == [a, b, c]
  {
  }

  lemma JoinThree(sep: string, a: string, b: string, c: string)
    ensures Join(sep, [a, b, c]) == a + sep + b + sep + c
  {
    assert [a, b, c][1..] == [b, c] && [b, c][1..] == [c];
  }

  /** When no required variable is missing, the only possible error is an unparsable integer. */
  lemma SuccessIff(env: Env, parseInt: string -> Option<int>)
    ensures SettingsFromEnv(env, parseInt).Success? <==>
      MissingRequired(env) == [] &&
      IntSetting(env, parseInt, "CHUNK_SIZE", DefaultChunkSize).Success? &&
      IntSetting(env, parseInt, "CHUNK_OVERLAP", DefaultChunkOverlap).Success? &&
      IntSetting(env, parseInt, "TOP_K", DefaultTopK).Success?
    ensures SettingsFromEnv(env, parseInt).Failure? && SettingsFromEnv(env, parseInt).error.InvalidInteger? ==>
      var n := SettingsFromEnv(env, parseInt).error.variable;
      n in env && parseInt(env[n]).None? && n in ["CHUNK_SIZE", "CHUNK_OVERLAP", "TOP_K"]
  {
  }

  /** On success the three required fields are the environment's values verbatim. */
  lemma RequiredVerbatim(env: Env, parseInt: string -> Option<int>)
    requires SettingsFromEnv(env, parseInt).Success?
    ensures var s := SettingsFromEnv(env, parseInt).value;
      "OPENAI_API_KEY" in env && s.openaiApiKey == env["OPENAI_API_KEY"] && s.openaiApiKey != [] &&
      "PINECONE_API_KEY" in env && s.pineconeApiKey == env["PINECONE_API_KEY"] && s.pineconeApiKey != [] &&
      "PINECONE_INDEX_NAME" in env && s.pineconeIndexName == env["PINECONE_INDEX_NAME"] && s.pineconeIndexName != []
  {
    MissingFromMembers(env, RequiredVariables, "OPENAI_API_KEY");
    MissingFromMembers(env, RequiredVariables, "PINECONE_API_KEY");
    MissingFromMembers(env, RequiredVariables, "PINECONE_INDEX_NAME");
  }

  /** An environment holding only the three required variables gives the declared defaults everywhere else. */
  lemma OnlyRequiredGivesDefaults(openaiApiKey: string, pineconeApiKey: string, pineconeIndexName: string, parseInt: string -> Option<int>)
    requires openaiApiKey != [] && pineconeApiKey != [] && pineconeIndexName != []
    ensures var env := map["OPENAI_API_KEY" := openaiApiKey, "PINECONE_API_KEY" := pineconeApiKey, "PINECONE_INDEX_NAME" := pineconeIndexName];
      SettingsFromEnv(env, parseInt) == Success(DefaultSettings(openaiApiKey, pineconeApiKey, pineconeIndexName))
  {
    var env := map["OPENAI_API_KEY" := openaiApiKey, "PINECONE_API_KEY" := pineconeApiKey, "PINECONE_INDEX_NAME" := pineconeIndexName];
    MissingRequiredUnfolds(env);
  }

  /** The dataclass defaults: namespace "default", 800/200/5, "gpt-4o-mini", "text-embedding-3-small", no host, no environment. */
  lemma DeclaredDefaults(a: string, b: string, c: string)
    ensures var s := DefaultSettings(a, b, c);
      s.namespace == "default" && s.chunkSize == 800 && s.chunkOverlap == 200 && s.topK == 5 &&
      s.model == "gpt-4o-mini" && s.embeddingModel == "text-embedding-3-small" &&
      s.pineconeHost.None? && s.pineconeEnvironment.None?
  {
  }

  /** An optional variable that is set, even to "", replaces the default: only unset variables fall back. */
  lemma SetButEmptyOptional(env: Env, parseInt: string -> Option<int>)
    requires SettingsFromEnv(env, parseInt).Success?
    ensures var s := SettingsFromEnv(env, parseInt).value;
      (s.namespace == if "PINECONE_NAMESPACE" in env then env["PINECONE_NAMESPACE"] else "default") &&
      (s.model == if "OPENAI_MODEL" in env then env["OPENAI_MODEL"] else "gpt-4o-mini") &&
      (s.embeddingModel == if "OPENAI_EMBEDDING_MODEL" in env then env["OPENAI_EMBEDDING_MODEL"] else "text-embedding-3-small") &&
      (s.pineconeHost == if "PINECONE_HOST" in env then Some(env["PINECONE_HOST"]) else None) &&
      (s.pineconeEnvironment == if "PINECONE_ENVIRONMENT" in env then Some(env["PINECONE_ENVIRONMENT"]) else None) &&
      ("CHUNK_SIZE" !in env ==> s.chunkSize == 800) && ("CHUNK_OVERLAP" !in env ==> s.chunkOverlap == 200) &&
      ("TOP_K" !in env ==> s.topK == 5)
  {
  }

  /** `from_env` accepts any parsed sizes, an overlap not below the chunk size included; only `chunk_text` rejects that. */
  lemma NoSizeOverlapCheck(a: string, b: string, c: string, parseInt: string -> Option<int>)
    requires a != [] && b != [] && c != []
    requires parseInt("100") == Some(100) && parseInt("500") == Some(500)
    ensures var env := map["OPENAI_API_KEY" := a, "PINECONE_API_KEY" := b, "PINECONE_INDEX_NAME" := c,
                           "CHUNK_SIZE" := "100", "CHUNK_OVERLAP" := "500"];
      SettingsFromEnv(env, parseInt).Success? &&
      SettingsFromEnv(env, parseInt).value.chunkSize == 100 &&
      SettingsFromEnv(env, parseInt).value.chunkOverlap == 500
  {
    var env := map["OPENAI_API_KEY" := a, "PINECONE_API_KEY" := b, "PINECONE_INDEX_NAME" := c,
                   "CHUNK_SIZE" := "100", "CHUNK_OVERLAP" := "500"];
    MissingRequiredUnfolds(env);
  }
}
