/** Configuration resolution helpers from `pkg/huggorm/config.go`: the
    property registry, `${NAME}` environment substitution over a parsed
    YAML tree, property-name suggestions, narrowing a map to string keys,
    validation of top-level properties, and merging a saved context.

    Go's `range` over a map visits keys in an unspecified order. The
    operations whose loops observe that order are methods that pick the
    next key with `:|`, so every postcondition holds for every order. */
module Config {
  import opened Wrappers
  import opened Strings
  import opened Levenshtein
  import opened Collections

  /** A key of a parsed YAML mapping: a string, or any other scalar
      (number, bool, ...) carried as its `fmt.Sprint` rendering. */
  datatype Key = StrKey(s: string) | OtherKey(repr: string)

  /** A parsed YAML value. Only `Mapping` is descended into by the
      substitution; a `List` is an opaque leaf there, as in Go, where only
      `map[interface{}]interface{}` values are recursed into. */
  datatype Value =
    | Text(s: string)
    | Mapping(entries: map<Key, Value>)
    | List(items: seq<Value>)
    | Scalar(repr: string)

  /** The process environment: variable names are never empty, and an
      absent name reads as "" like `os.Getenv`. */
  type Env = env: map<string, string> | "" !in env witness map[]

  datatype ConfigError =
    | EnvVarNotFound(name: string)
    | NonStringProperty(repr: string)

  function Message(e: ConfigError): string
  {
    match e
    case EnvVarNotFound(name) => "environment variable '" + name + "' not found"
    case NonStringProperty(repr) => "property '" + repr + "' is not a string"
  }

  /** The two kinds of error read differently, and each names the
      variable or the property it is about, so that can be read back. */
  lemma MessagesIdentifyError(e1: ConfigError, e2: ConfigError)
    ensures Message(e1) == Message(e2) <==> e1 == e2
  {
    if Message(e1) == Message(e2) {
      if e1.EnvVarNotFound? != e2.EnvVarNotFound? {
        DifferAt(Message(e1), Message(e2), 0);
        assert false;
      } else if e1.EnvVarNotFound? {
        FramedInjective("environment variable '", e1.name, e2.name, "' not found");
      } else {
        FramedInjective("property '", e1.repr, e2.repr, "' is not a string");
      }
    }
  }

  // ---------------------------------------------------------------------
  // Property registry

  /** Registering a property name: the registry only grows, by that name. */
  function AddValidProp(registry: set<string>, name: string): (r: set<string>)
    ensures name in r
    ensures registry <= r
    ensures r - {name} <= registry
  {
    registry + {name}
  }

  // ---------------------------------------------------------------------
  // Environment substitution

  function Getenv(env: Env, name: string): string
  {
    if name in env then env[name] else ""
  }

  /** The variable a string leaf refers to, when it is `${NAME}`: it starts
      with `${` and ends with `}` (so `${}` refers to the empty name). */
  function Reference(s: string): (r: Option<string>)
    ensures r.Some? ==> s == "${" + r.value + "}"
  {
    if StartsWith(s, "${") && EndsWith(s, "}") then
      assert s[..2] == "${";
      assert s[1] == '{' && s[|s| - 1] == '}';
      assert s == s[..2] + s[2..|s| - 1] + s[|s| - 1..];
      Some(s[2..|s| - 1])
    else None
  }

  lemma ReferenceOfPlaceholder(name: string)
    ensures Reference("${" + name + "}") == Some(name)
  {
    var s := "${" + name + "}";
    assert s[..2] == "${";
    assert s[|s| - 1..] == "}";
    assert s[2..|s| - 1] == name;
  }

  /** What happens to one string leaf: a reference to a set, non-empty
      variable becomes its value, a reference to anything else is an error
      naming the variable, and any other string stays as it is. */
  function SubstituteText(s: string, env: Env): (r: Result<string, ConfigError>)
    ensures Reference(s).None? ==> r == Success(s)
    ensures Reference(s).Some? && Getenv(env, Reference(s).value) != "" ==>
              r == Success(env[Reference(s).value])
    ensures Reference(s).Some? && Getenv(env, Reference(s).value) == "" ==>
              r == Failure(EnvVarNotFound(Reference(s).value))
  {
    match Reference(s)
    case None => Success(s)
    case Some(name) =>
      var val := Getenv(env, name);
      if val != "" then Success(val) else Failure(EnvVarNotFound(name))
  }

  /** The names of all unset or empty variables referenced by string
      leaves reachable through nested mappings. */
  function MissingVars(v: Value, env: Env): set<string>
  {
    match v
    case Text(s) => if SubstituteText(s, env).Failure? then {Reference(s).value} else {}
    case Mapping(m) => set k, n | k in m && n in MissingVars(m[k], env) :: n
    case List(_) => {}
    case Scalar(_) => {}
  }

  /** The tree after substitution, every resolvable reference replaced. */
  function Substitute(v: Value, env: Env): Value
  {
    match v
    case Text(s) => if SubstituteText(s, env).Success? then Text(SubstituteText(s, env).value) else v
    case Mapping(m) => Mapping(map k | k in m :: Substitute(m[k], env))
    case List(_) => v
    case Scalar(_) => v
  }

  /** Go's `SubEnvVars`: substitute every `${NAME}` leaf of the mapping and
      its nested mappings, failing on the first unresolvable reference met.
      Which one is met first depends on iteration order; the error always
      names one of them. */
  method SubEnvVars(m: map<Key, Value>, env: Env) returns (r: Result<map<Key, Value>, ConfigError>)
    ensures r.Success? <==> MissingVars(Mapping(m), env) == {}
    ensures r.Success? ==> Mapping(r.value) == Substitute(Mapping(m), env)
    ensures r.Failure? ==> r.error.EnvVarNotFound? && r.error.name in MissingVars(Mapping(m), env)
    decreases Mapping(m)
  {
    var out := m;
    var rest := m.Keys;
    while rest != {}
      invariant rest <= m.Keys
      invariant out.Keys == m.Keys
      invariant forall k :: k in m && k !in rest ==> out[k] == Substitute(m[k], env)
      invariant forall k :: k in m && k !in rest ==> MissingVars(m[k], env) == {}
      invariant forall k :: k in rest ==> out[k] == m[k]
      decreases rest
    {
      var k :| k in rest;
      match m[k] {
        case Text(s) =>
          var t := SubstituteText(s, env);
          if t.Failure? {
            assert t.error.name in MissingVars(m[k], env);
            assert t.error.name in MissingVars(Mapping(m), env);
            return Failure(t.error);
          }
          out := out[k := Text(t.value)];
        case Mapping(inner) =>
          var sub := SubEnvVars(inner, env);
          if sub.Failure? {
            assert sub.error.name in MissingVars(m[k], env);
            assert sub.error.name in MissingVars(Mapping(m), env);
            return sub;
          }
          out := out[k := Mapping(sub.value)];
        case List(_) =>
        case Scalar(_) =>
      }
      rest := rest - {k};
    }
    assert out == map k | k in m :: Substitute(m[k], env);
    assert MissingVars(Mapping(m), env) == {} by {
      forall n | n in MissingVars(Mapping(m), env)
        ensures false
      {
        var k :| k in m && n in MissingVars(m[k], env);
      }
    }
    r := Success(out);
  }

  /** `${}` names the empty variable, which is never set. */
  lemma EmptyReferenceFails(env: Env)
    ensures SubstituteText("${}", env) == Failure(EnvVarNotFound(""))
  {
    ReferenceOfPlaceholder("");
  }

  /** Two trees with the same mapping keys at every depth, strings where
      the other has strings, and identical lists and scalars. */
  predicate SameShape(v: Value, w: Value)
  {
    match v
    case Mapping(a) =>
      w.Mapping? && a.Keys == w.entries.Keys && forall k :: k in a ==> SameShape(a[k], w.entries[k])
    case Text(_) => w.Text?
    case List(_) => w == v
    case Scalar(_) => w == v
  }

  /** Substitution never changes a key, at any depth, and never touches a
      list or a non-string scalar; only string leaves can change. */
  lemma {:induction false} SubstituteKeepsShape(v: Value, env: Env)
    ensures SameShape(v, Substitute(v, env))
  {
    match v
    case Mapping(m) =>
      forall k | k in m
        ensures SameShape(m[k], Substitute(v, env).entries[k])
      {
        SubstituteKeepsShape(m[k], env);
      }
    case Text(_) =>
    case List(_) =>
    case Scalar(_) =>
  }

  /** No environment value is itself of the form `${NAME}`. */
  predicate PlainValues(env: Env)
  {
    forall name :: name in env ==> Reference(env[name]).None?
  }

  /** When no variable's value looks like a reference, substituting twice
      is the same as substituting once. */
  lemma {:induction false} SubstituteIdempotent(v: Value, env: Env)
    requires PlainValues(env)
    ensures Substitute(Substitute(v, env), env) == Substitute(v, env)
  {
    match v
    case Mapping(m) =>
      var once := map k | k in m :: Substitute(m[k], env);
      forall k | k in m
        ensures Substitute(once[k], env) == once[k]
      {
        SubstituteIdempotent(m[k], env);
      }
      assert (map k | k in once :: Substitute(once[k], env)) == once;
    case Text(s) =>
    case List(_) =>
    case Scalar(_) =>
  }

  /** When no variable's value looks like a reference, a tree with no
      missing reference has none left after substitution. */
  lemma {:induction false} SubstituteResolvesAll(v: Value, env: Env)
    requires PlainValues(env)
    requires MissingVars(v, env) == {}
    ensures MissingVars(Substitute(v, env), env) == {}
  {
    match v
    case Mapping(m) =>
      forall k | k in m
        ensures MissingVars(Substitute(m[k], env), env) == {}
      {
        assert MissingVars(m[k], env) == {} by {
          forall n | n in MissingVars(m[k], env)
            ensures n in MissingVars(v, env)
          {
          }
        }
        SubstituteResolvesAll(m[k], env);
      }
      var once := map k | k in m :: Substitute(m[k], env);
      assert Substitute(v, env) == Mapping(once);
    case Text(s) =>
      if Reference(s).Some? {
        assert Reference(env[Reference(s).value]).None?;
      }
    case List(_) =>
    case Scalar(_) =>
  }

  /** `SubEnvVars` run again on its own successful result: when no
      variable's value looks like a reference, the second run succeeds and
      changes nothing. Like Go, the method stops after a failed first run:
      there is no second run, and `second` repeats the failure. */
  method SubEnvVarsTwice(m: map<Key, Value>, env: Env)
    returns (first: Result<map<Key, Value>, ConfigError>, second: Result<map<Key, Value>, ConfigError>)
    ensures first.Failure? ==> second == first
    ensures first.Success? && PlainValues(env) ==> second == first
  {
    first := SubEnvVars(m, env);
    if first.Failure? {
      return first, first;
    }
    second := SubEnvVars(first.value, env);
    if PlainValues(env) {
      SubstituteResolvesAll(Mapping(m), env);
      SubstituteIdempotent(Mapping(m), env);
      assert Mapping(second.value) == Mapping(first.value);
    }
  }

  /** Without that condition substitution is not idempotent: a variable
      whose value is itself a reference is resolved one level per pass. */
  lemma SubstituteNotIdempotent()
    ensures var env: Env := map["A" := "${B}", "B" := "x"];
            Substitute(Substitute(Text("${A}"), env), env) != Substitute(Text("${A}"), env)
  {
    var env: Env := map["A" := "${B}", "B" := "x"];
    ReferenceOfPlaceholder("A");
    ReferenceOfPlaceholder("B");
    assert "${" + "A" + "}" == "${A}";
    assert "${" + "B" + "}" == "${B}";
    assert SubstituteText("${A}", env) == Success("${B}");
    assert SubstituteText("${B}", env) == Success("x");
    assert Substitute(Text("${A}"), env) == Text("${B}");
    assert Substitute(Text("${B}"), env) == Text("x");
  }

  // ---------------------------------------------------------------------
  // Suggestions

  /** Only names strictly closer than this are suggested. */
  const SuggestionLimit := 4

  /** What `GetSuggestion` may return for `word`: a registered name within
      the limit that no registered name beats, or "" when every registered
      name is at or beyond the limit. (A registered "" could also be
      returned as a genuine nearest name, which looks like no suggestion.) */
  predicate IsSuggestion(word: string, registry: set<string>, suggestion: string)
  {
    || (&& suggestion in registry
        && Distance(word, suggestion) < SuggestionLimit
        && forall p :: p in registry ==> Distance(word, suggestion) <= Distance(word, p))
    || (&& suggestion == ""
        && forall p :: p in registry ==> Distance(word, p) >= SuggestionLimit)
  }

  /** Go's `GetSuggestion`: the first registered name met whose distance
      beats everything seen so far, starting from the limit. Ties go to
      whichever name the iteration meets first. */
  method GetSuggestion(word: string, registry: set<string>) returns (suggestion: string)
    ensures IsSuggestion(word, registry, suggestion)
    ensures word in registry ==> suggestion == word
  {
    var min := SuggestionLimit;
    suggestion := "";
    var rest := registry;
    while rest != {}
      invariant rest <= registry
      invariant min <= SuggestionLimit
      invariant min == SuggestionLimit ==> suggestion == ""
      invariant min < SuggestionLimit ==> suggestion in registry && Distance(word, suggestion) == min
      invariant forall p :: p in registry && p !in rest ==> min <= Distance(word, p)
      decreases rest
    {
      var key :| key in rest;
      var dist := Distance(word, key);
      if dist < min {
        min := dist;
        suggestion := key;
      }
      rest := rest - {key};
    }
    if word in registry {
      RegisteredWordSuggestsItself(word, registry, suggestion);
    }
  }

  /** A registered word is its own only suggestion: it is at distance 0
      and every other name is farther. */
  lemma RegisteredWordSuggestsItself(word: string, registry: set<string>, suggestion: string)
    requires word in registry
    requires IsSuggestion(word, registry, suggestion)
    ensures suggestion == word
  {
    DistanceToSelf(word);
    assert Distance(word, suggestion) == 0;
    ZeroDistanceMeansEqual(word, suggestion);
  }

  /** When "" is not a registered name, whether a word gets a suggestion
      does not depend on iteration order: it gets none exactly when every
      name is at or beyond the limit. */
  lemma NoSuggestionIff(word: string, registry: set<string>, suggestion: string)
    requires "" !in registry
    requires IsSuggestion(word, registry, suggestion)
    ensures suggestion == "" <==> forall p :: p in registry ==> Distance(word, p) >= SuggestionLimit
  {
  }

  /** With a single registered name within the limit, that name is the
      one and only suggestion. */
  lemma SingletonSuggestion(word: string, name: string, suggestion: string)
    requires Distance(word, name) < SuggestionLimit
    ensures IsSuggestion(word, {name}, suggestion) <==> suggestion == name
  {
  }

  lemma ColourSuggestsColor(suggestion: string)
    ensures IsSuggestion("colour", {"color"}, suggestion) <==> suggestion == "color"
  {
    OneDeletion("colo", 'u', "r");
    assert "colo" + ['u'] + "r" == "colour";
    assert "colo" + "r" == "color";
    SingletonSuggestion("colour", "color", suggestion);
  }

  lemma NothingNearXyz(suggestion: string)
    ensures IsSuggestion("xyz123", {"color"}, suggestion) <==> suggestion == ""
  {
    DisjointDistance("xyz123", "color");
  }

  // ---------------------------------------------------------------------
  // Narrowing to string keys

  /** The map with each string key `s` put back as `StrKey(s)`. */
  function Widen(m: map<string, Value>): map<Key, Value>
  {
    map s | s in m :: StrKey(s) := m[s]
  }

  /** Go's `ConvertMap`: the same entries keyed by plain strings, or an
      error naming a key that is not a string. */
  method ConvertMap(m: map<Key, Value>) returns (r: Result<map<string, Value>, ConfigError>)
    ensures r.Success? <==> forall k :: k in m ==> k.StrKey?
    ensures r.Success? ==> Widen(r.value) == m
    ensures r.Failure? ==> r.error.NonStringProperty? && OtherKey(r.error.repr) in m
  {
    var out: map<string, Value> := map[];
    var rest := m.Keys;
    while rest != {}
      invariant rest <= m.Keys
      invariant forall k :: k in m && k !in rest ==> k.StrKey? && k.s in out && out[k.s] == m[k]
      invariant forall s :: s in out ==> StrKey(s) in m && StrKey(s) !in rest
      decreases rest
    {
      var k :| k in rest;
      match k {
        case StrKey(s) =>
          out := out[s := m[k]];
        case OtherKey(repr) =>
          return Failure(NonStringProperty(repr));
      }
      rest := rest - {k};
    }
    assert Widen(out) == m;
    r := Success(out);
  }

  // ---------------------------------------------------------------------
  // Validation of top-level properties

  /** The name a key is looked up and reported by: a string key as it is,
      any other key as its `fmt.Sprint` rendering. */
  function KeyString(k: Key): string
  {
    match k
    case StrKey(s) => s
    case OtherKey(repr) => repr
  }

  /** The names of the top-level keys that are not registered properties. */
  function Unregistered(config: map<Key, Value>, registry: set<string>): set<string>
  {
    set k | k in config && KeyString(k) !in registry :: KeyString(k)
  }

  /** The outcome of sorting unregistered keys: each suggestion entry maps
      an unregistered name to a real suggestion for it; each mysterious
      name is unregistered and got none; and every unregistered name lands
      in one of the two. Each key goes to exactly one list, so a name no
      key got a suggestion for is listed once per key printing as it, and
      a suggested name is listed for fewer keys than print as it. */
  predicate Classified(config: map<Key, Value>, registry: set<string>,
                       suggestions: map<string, string>, mysterious: seq<string>)
  {
    && (forall ks :: ks in suggestions ==>
          ks in Unregistered(config, registry) && suggestions[ks] != ""
          && IsSuggestion(ks, registry, suggestions[ks]))
    && (forall i :: 0 <= i < |mysterious| ==>
          mysterious[i] in Unregistered(config, registry) && IsSuggestion(mysterious[i], registry, ""))
    && (forall ks :: ks in Unregistered(config, registry) ==> ks in suggestions || ks in mysterious)
    && (forall ks :: ks in mysterious ==> multiset(mysterious)[ks] <= |KeysNamed(config, ks)|)
    && (forall ks :: ks in Unregistered(config, registry) && ks !in suggestions ==>
          multiset(mysterious)[ks] == |KeysNamed(config, ks)|)
    && (forall ks :: ks in suggestions ==> multiset(mysterious)[ks] < |KeysNamed(config, ks)|)
  }

  /** The top-level keys reported under the name `ks`; more than one
      only when a string key and another key print the same. */
  function KeysNamed(config: map<Key, Value>, ks: string): set<Key>
  {
    set k | k in config && KeyString(k) == ks
  }

  /** Handling one more key adds it to the handled keys of its own name
      and to no other. */
  lemma KeysNamedStep(config: map<Key, Value>, rest: set<Key>, key: Key, ks: string)
    requires key in rest && key in config
    ensures |KeysNamed(config, ks) - (rest - {key})|
            == |KeysNamed(config, ks) - rest| + (if KeyString(key) == ks then 1 else 0)
  {
    if KeyString(key) == ks {
      assert KeysNamed(config, ks) - (rest - {key}) == (KeysNamed(config, ks) - rest) + {key};
    } else {
      assert KeysNamed(config, ks) - (rest - {key}) == KeysNamed(config, ks) - rest;
    }
  }

  /** When every top-level key is a string, no name is listed as
      mysterious twice. */
  lemma StringKeysListedOnce(config: map<Key, Value>, registry: set<string>,
                             suggestions: map<string, string>, mysterious: seq<string>)
    requires forall k :: k in config ==> k.StrKey?
    requires Classified(config, registry, suggestions, mysterious)
    ensures forall i, j :: 0 <= i < j < |mysterious| ==> mysterious[i] != mysterious[j]
  {
    forall i, j | 0 <= i < j < |mysterious|
      ensures mysterious[i] != mysterious[j]
    {
      if mysterious[i] == mysterious[j] {
        var ks := mysterious[i];
        assert KeysNamed(config, ks) <= {StrKey(ks)};
        SubsetCardinality(KeysNamed(config, ks), {StrKey(ks)});
        TwiceCounted(mysterious, i, j);
        assert false;
      }
    }
  }

  /** A name only one key prints as goes to exactly one list: it is
      suggested or listed once as mysterious, never both, whatever the
      registry holds. */
  lemma SingleKeyOneList(config: map<Key, Value>, registry: set<string>,
                         suggestions: map<string, string>, mysterious: seq<string>, ks: string)
    requires Classified(config, registry, suggestions, mysterious)
    requires |KeysNamed(config, ks)| == 1
    ensures ks in suggestions ==> ks !in mysterious
    ensures ks in Unregistered(config, registry) && ks !in suggestions ==> multiset(mysterious)[ks] == 1
  {
  }

  /** With nothing registered, a string key `"1"` and a number key that
      prints as `1` are both listed: the name appears twice. */
  lemma SameNameListedPerKey(v1: Value, v2: Value, suggestions: map<string, string>, mysterious: seq<string>)
    requires Classified(map[StrKey("1") := v1, OtherKey("1") := v2], {}, suggestions, mysterious)
    ensures suggestions == map[]
    ensures mysterious == ["1", "1"]
  {
    var config := map[StrKey("1") := v1, OtherKey("1") := v2];
    assert KeysNamed(config, "1") == {StrKey("1"), OtherKey("1")};
    assert "1" in Unregistered(config, {});
    assert multiset(mysterious)["1"] == 2;
    forall i | 0 <= i < |mysterious|
      ensures mysterious[i] == "1"
    {
      assert mysterious[i] in Unregistered(config, {});
    }
    AllEqualCounted(mysterious, "1");
    assert mysterious == [mysterious[0], mysterious[1]];
  }

  /** With "" unregistered, no name is both suggested for and mysterious. */
  lemma ClassifiedExclusive(config: map<Key, Value>, registry: set<string>,
                            suggestions: map<string, string>, mysterious: seq<string>)
    requires "" !in registry
    requires Classified(config, registry, suggestions, mysterious)
    ensures forall ks :: ks in suggestions ==> ks !in mysterious
  {
    forall ks | ks in suggestions
      ensures ks !in mysterious
    {
      if ks in mysterious {
        var i :| 0 <= i < |mysterious| && mysterious[i] == ks;
        NoSuggestionIff(ks, registry, suggestions[ks]);
        NoSuggestionIff(ks, registry, "");
      }
    }
  }

  /** Something is reported exactly when some key is unregistered. */
  lemma ClassifiedReports(config: map<Key, Value>, registry: set<string>,
                          suggestions: map<string, string>, mysterious: seq<string>)
    requires Classified(config, registry, suggestions, mysterious)
    ensures |suggestions| + |mysterious| > 0 <==> exists k :: k in config && KeyString(k) !in registry
  {
    if exists k :: k in config && KeyString(k) !in registry {
      var k :| k in config && KeyString(k) !in registry;
      assert KeyString(k) in Unregistered(config, registry);
      if KeyString(k) in suggestions {
        assert |suggestions| > 0;
      }
    }
    if |suggestions| > 0 {
      var ks :| ks in suggestions;
      assert ks in Unregistered(config, registry);
    } else if |mysterious| > 0 {
      assert mysterious[0] in Unregistered(config, registry);
    }
  }

  /** A word within the limit of some registered name is never left
      without a suggestion. */
  lemma CloseWordHasSuggestion(word: string, registry: set<string>, near: string)
    requires near in registry && "" !in registry
    requires Distance(word, near) < SuggestionLimit
    ensures !IsSuggestion(word, registry, "")
  {
  }

  lemma FirstMysterious(config: map<Key, Value>, registry: set<string>,
                        suggestions: map<string, string>, mysterious: seq<string>)
    requires Classified(config, registry, suggestions, mysterious)
    requires |mysterious| > 0
    ensures exists ks :: ks in Unregistered(config, registry) && IsSuggestion(ks, registry, "")
  {
    assert mysterious[0] in Unregistered(config, registry);
  }

  /** When every unregistered name has a suggestion, none is mysterious. */
  lemma NoMysteriousWhenAllClose(config: map<Key, Value>, registry: set<string>,
                                 suggestions: map<string, string>, mysterious: seq<string>)
    requires Classified(config, registry, suggestions, mysterious)
    requires forall ks :: ks in Unregistered(config, registry) ==> !IsSuggestion(ks, registry, "")
    ensures mysterious == []
  {
    if |mysterious| > 0 {
      FirstMysterious(config, registry, suggestions, mysterious);
      assert false;
    }
  }

  lemma UnregisteredOfPair(good: string, typo: string, v1: Value, v2: Value)
    requires typo != good
    ensures Unregistered(map[StrKey(good) := v1, StrKey(typo) := v2], {good}) == {typo}
  {
    var config := map[StrKey(good) := v1, StrKey(typo) := v2];
    assert KeyString(StrKey(typo)) == typo;
    forall ks | ks in Unregistered(config, {good})
      ensures ks == typo
    {
      var k :| k in config && KeyString(k) !in {good} && KeyString(k) == ks;
    }
  }

  /** A config holding a registered property and a misspelling of it
      within the limit is reported as exactly one "did you mean" entry,
      pointing at the registered name, and no mysterious property. */
  lemma TypoGetsOneSuggestion(good: string, typo: string, v1: Value, v2: Value,
                              suggestions: map<string, string>, mysterious: seq<string>)
    requires good != "" && typo != good
    requires Distance(typo, good) < SuggestionLimit
    requires Classified(map[StrKey(good) := v1, StrKey(typo) := v2], {good}, suggestions, mysterious)
    ensures suggestions == map[typo := good]
    ensures mysterious == []
  {
    var config := map[StrKey(good) := v1, StrKey(typo) := v2];
    UnregisteredOfPair(good, typo, v1, v2);
    CloseWordHasSuggestion(typo, {good}, good);
    NoMysteriousWhenAllClose(config, {good}, suggestions, mysterious);
    assert typo in Unregistered(config, {good});
    assert typo in suggestions;
    forall ks | ks in suggestions
      ensures ks == typo
    {
      assert ks in Unregistered(config, {good});
    }
    assert suggestions[typo] in {good};
    assert suggestions.Keys == {typo};
  }

  /** `valid_porp` is close enough to `valid_prop` to be suggested it. */
  lemma ValidPorpIsCloseToValidProp()
    ensures Distance("valid_porp", "valid_prop") < SuggestionLimit
  {
    AdjacentSwap("valid_p", 'o', 'r', "p");
    assert "valid_p" + ['o', 'r'] + "p" == "valid_porp";
    assert "valid_p" + ['r', 'o'] + "p" == "valid_prop";
  }

  /** The classification loop of `validateProps`. */
  method Classify(config: map<Key, Value>, registry: set<string>)
    returns (suggestions: map<string, string>, mysterious: seq<string>)
    ensures Classified(config, registry, suggestions, mysterious)
  {
    suggestions := map[];
    mysterious := [];
    var rest := config.Keys;
    while rest != {}
      invariant ClassifiedSoFar(config, registry, rest, suggestions, mysterious)
      decreases rest
    {
      var key :| key in rest;
      var name := KeyString(key);
      var suggestion := "";
      if name !in registry {
        suggestion := GetSuggestion(name, registry);
      }
      ClassifyStep(config, registry, rest, key, suggestion, suggestions, mysterious);
      var next := Record(registry, name, suggestion, suggestions, mysterious);
      suggestions, mysterious := next.0, next.1;
      rest := rest - {key};
    }
    ClassifiedWhenDone(config, registry, suggestions, mysterious);
  }

  /** What the loop has established once the keys outside `rest` are
      handled. */
  ghost predicate ClassifiedSoFar(config: map<Key, Value>, registry: set<string>, rest: set<Key>,
                                  suggestions: map<string, string>, mysterious: seq<string>)
  {
    && rest <= config.Keys
    && (forall ks :: ks in suggestions ==>
          ks in Unregistered(config, registry) && suggestions[ks] != ""
          && IsSuggestion(ks, registry, suggestions[ks]))
    && (forall i :: 0 <= i < |mysterious| ==>
          mysterious[i] in Unregistered(config, registry) && IsSuggestion(mysterious[i], registry, ""))
    && (forall k :: k in config && k !in rest && KeyString(k) !in registry ==>
          KeyString(k) in suggestions || KeyString(k) in mysterious)
    && (forall ks :: CountedSoFar(config, registry, rest, suggestions, mysterious, ks))
  }

  /** The keys named `ks` outside `rest` are each counted once: as a
      mysterious entry, or, for at least one of them, by the suggestion
      entry for `ks`. */
  ghost predicate CountedSoFar(config: map<Key, Value>, registry: set<string>, rest: set<Key>,
                               suggestions: map<string, string>, mysterious: seq<string>, ks: string)
  {
    && multiset(mysterious)[ks] + (if ks in suggestions then 1 else 0) <= |KeysNamed(config, ks) - rest|
    && (ks !in registry && ks !in suggestions ==> multiset(mysterious)[ks] == |KeysNamed(config, ks) - rest|)
  }

  /** Handling one key: a registered name is skipped, an unregistered one
      is recorded under its suggestion, or listed as mysterious when it has
      none. */
  function Record(registry: set<string>, name: string, suggestion: string,
                  suggestions: map<string, string>, mysterious: seq<string>): (map<string, string>, seq<string>)
  {
    if name in registry then (suggestions, mysterious)
    else if suggestion != "" then (suggestions[name := suggestion], mysterious)
    else (suggestions, mysterious + [name])
  }

  lemma ClassifyStep(config: map<Key, Value>, registry: set<string>, rest: set<Key>, key: Key,
                     suggestion: string, suggestions: map<string, string>, mysterious: seq<string>)
    requires ClassifiedSoFar(config, registry, rest, suggestions, mysterious)
    requires key in rest
    requires KeyString(key) !in registry ==> IsSuggestion(KeyString(key), registry, suggestion)
    ensures var next := Record(registry, KeyString(key), suggestion, suggestions, mysterious);
            ClassifiedSoFar(config, registry, rest - {key}, next.0, next.1)
  {
    var name := KeyString(key);
    var next := Record(registry, name, suggestion, suggestions, mysterious);
    forall ks
      ensures CountedSoFar(config, registry, rest - {key}, next.0, next.1, ks)
    {
      CountStep(config, registry, rest, key, suggestion, suggestions, mysterious, ks);
    }
    if name in registry {
      SkipStep(config, registry, rest, key, suggestions, mysterious);
    } else if suggestion != "" {
      SuggestStep(config, registry, rest, key, suggestion, suggestions, mysterious, next.0);
    } else {
      MysteryStep(config, registry, rest, key, suggestions, mysterious);
    }
  }

  lemma SkipStep(config: map<Key, Value>, registry: set<string>, rest: set<Key>, key: Key,
                 suggestions: map<string, string>, mysterious: seq<string>)
    requires ClassifiedSoFar(config, registry, rest, suggestions, mysterious)
    requires key in rest && KeyString(key) in registry
    requires forall ks :: CountedSoFar(config, registry, rest - {key}, suggestions, mysterious, ks)
    ensures ClassifiedSoFar(config, registry, rest - {key}, suggestions, mysterious)
  {
  }

  lemma SuggestStep(config: map<Key, Value>, registry: set<string>, rest: set<Key>, key: Key,
                    suggestion: string, suggestions: map<string, string>, mysterious: seq<string>,
                    after: map<string, string>)
    requires ClassifiedSoFar(config, registry, rest, suggestions, mysterious)
    requires key in rest && KeyString(key) !in registry
    requires suggestion != "" && IsSuggestion(KeyString(key), registry, suggestion)
    requires after == suggestions[KeyString(key) := suggestion]
    requires forall ks :: CountedSoFar(config, registry, rest - {key}, after, mysterious, ks)
    ensures ClassifiedSoFar(config, registry, rest - {key}, after, mysterious)
  {
    assert KeyString(key) in Unregistered(config, registry);
  }

  lemma MysteryStep(config: map<Key, Value>, registry: set<string>, rest: set<Key>, key: Key,
                    suggestions: map<string, string>, mysterious: seq<string>)
    requires ClassifiedSoFar(config, registry, rest, suggestions, mysterious)
    requires key in rest && KeyString(key) !in registry
    requires IsSuggestion(KeyString(key), registry, "")
    requires forall ks :: CountedSoFar(config, registry, rest - {key}, suggestions, mysterious + [KeyString(key)], ks)
    ensures ClassifiedSoFar(config, registry, rest - {key}, suggestions, mysterious + [KeyString(key)])
  {
    var name := KeyString(key);
    assert name in Unregistered(config, registry);
    assert (mysterious + [name])[|mysterious|] == name;
  }

  lemma ClassifiedWhenDone(config: map<Key, Value>, registry: set<string>,
                           suggestions: map<string, string>, mysterious: seq<string>)
    requires ClassifiedSoFar(config, registry, {}, suggestions, mysterious)
    ensures Classified(config, registry, suggestions, mysterious)
  {
    forall ks
      ensures CountedSoFar(config, registry, {}, suggestions, mysterious, ks)
      ensures KeysNamed(config, ks) - {} == KeysNamed(config, ks)
    {
    }
  }

  /** Handling `key` counts it under its own name, as a mysterious entry
      or under the suggestion entry, and leaves every other name's count
      as it was. */
  lemma CountStep(config: map<Key, Value>, registry: set<string>, rest: set<Key>, key: Key,
                  suggestion: string, suggestions: map<string, string>, mysterious: seq<string>, ks: string)
    requires key in rest && key in config
    requires CountedSoFar(config, registry, rest, suggestions, mysterious, ks)
    ensures var next := Record(registry, KeyString(key), suggestion, suggestions, mysterious);
            CountedSoFar(config, registry, rest - {key}, next.0, next.1, ks)
  {
    var name := KeyString(key);
    KeysNamedStep(config, rest, key, ks);
    if name !in registry && suggestion == "" {
      assert multiset(mysterious + [name])[ks] == multiset(mysterious)[ks] + (if ks == name then 1 else 0);
    }
  }

  function Header(configPath: string): string
  {
    "corectl found invalid properties when validating the config file '" + configPath + "'."
  }

  function DidYouMean(name: string, suggestion: string): string
  {
    "  '" + name + "': did you mean '" + suggestion + "'?"
  }

  function Quote(name: string): string
  {
    "'" + name + "'"
  }

  function QuoteAll(names: seq<string>): (r: seq<string>)
    ensures |r| == |names|
    ensures forall i :: 0 <= i < |names| ==> r[i] == Quote(names[i])
  {
    if |names| == 0 then [] else [Quote(names[0])] + QuoteAll(names[1..])
  }

  /** The closing line listing the mysterious properties; its wording says
      whether suggestions were listed before it. */
  function MysteriousLine(afterSuggestions: bool, names: seq<string>): (line: string)
    ensures afterSuggestions ==> StartsWith(line, "Also, mysterious properties: ")
    ensures !afterSuggestions ==> StartsWith(line, "Mysterious properties: ")
    ensures EndsWith(line, Join(QuoteAll(names), ", "))
    ensures |line| == |if afterSuggestions then "Also, mysterious properties: " else "Mysterious properties: "|
                      + |Join(QuoteAll(names), ", ")|
  {
    var head := if afterSuggestions then "Also, mysterious properties: " else "Mysterious properties: ";
    ConcatParts(head, Join(QuoteAll(names), ", "));
    head + Join(QuoteAll(names), ", ")
  }

  /** The "did you mean" line of every suggestion entry. */
  function SuggestionLines(suggestions: map<string, string>): set<string>
  {
    set ks | ks in suggestions :: DidYouMean(ks, suggestions[ks])
  }

  /** The lines of the fatal report: the header, one "did you mean" line
      per suggestion entry, and the mysterious line when there are
      mysterious properties. */
  predicate Rendered(configPath: string, suggestions: map<string, string>, mysterious: seq<string>,
                     lines: seq<string>)
  {
    && |lines| == 1 + |suggestions| + (if |mysterious| > 0 then 1 else 0)
    && lines[0] == Header(configPath)
    && (forall ks :: ks in suggestions ==> DidYouMean(ks, suggestions[ks]) in lines[1..1 + |suggestions|])
    && (forall i :: 1 <= i <= |suggestions| ==> lines[i] in SuggestionLines(suggestions))
    && (|mysterious| > 0 ==> lines[|lines| - 1] == MysteriousLine(|suggestions| > 0, mysterious))
  }

  /** The report-building part of `validateProps`; the suggestion lines
      follow the map's iteration order. */
  method RenderReport(configPath: string, suggestions: map<string, string>, mysterious: seq<string>)
    returns (lines: seq<string>)
    ensures Rendered(configPath, suggestions, mysterious, lines)
  {
    var body: seq<string> := [];
    var rest := suggestions.Keys;
    while rest != {}
      invariant rest <= suggestions.Keys
      invariant |body| + |rest| == |suggestions|
      invariant forall ks :: ks in suggestions && ks !in rest ==> DidYouMean(ks, suggestions[ks]) in body
      invariant forall i :: 0 <= i < |body| ==> body[i] in SuggestionLines(suggestions)
      decreases rest
    {
      var ks :| ks in rest;
      body := body + [DidYouMean(ks, suggestions[ks])];
      rest := rest - {ks};
    }
    lines := [Header(configPath)] + body + MysteriousLines(|suggestions| > 0, mysterious);
    RenderedFromBody(configPath, suggestions, mysterious, body);
  }

  /** The closing line, present only when there are mysterious names. */
  function MysteriousLines(afterSuggestions: bool, mysterious: seq<string>): seq<string>
  {
    if |mysterious| > 0 then [MysteriousLine(afterSuggestions, mysterious)] else []
  }

  /** The header, the suggestion lines in any order, then the closing
      line, make a rendered report. */
  lemma RenderedFromBody(configPath: string, suggestions: map<string, string>, mysterious: seq<string>,
                         body: seq<string>)
    requires |body| == |suggestions|
    requires forall ks :: ks in suggestions ==> DidYouMean(ks, suggestions[ks]) in body
    requires forall i :: 0 <= i < |body| ==> body[i] in SuggestionLines(suggestions)
    ensures Rendered(configPath, suggestions, mysterious,
                     [Header(configPath)] + body + MysteriousLines(|suggestions| > 0, mysterious))
  {
    var lines := [Header(configPath)] + body + MysteriousLines(|suggestions| > 0, mysterious);
    assert lines[1..1 + |suggestions|] == body;
    assert forall i :: 1 <= i <= |suggestions| ==> lines[i] == body[i - 1];
  }

  /** A fatal validation report: the classification and its lines, which
      Go joins with newlines and passes to `log.Fatalln`. */
  datatype FatalReport = FatalReport(suggestions: map<string, string>, mysterious: seq<string>, lines: seq<string>)

  /** Go's `validateProps`: `None` when every top-level key is registered,
      otherwise the fatal report. */
  method ValidateProps(config: map<Key, Value>, configPath: string, registry: set<string>)
    returns (fatal: Option<FatalReport>)
    ensures fatal.Some? <==> Unregistered(config, registry) != {}
    ensures fatal.Some? ==> Classified(config, registry, fatal.value.suggestions, fatal.value.mysterious)
    ensures fatal.Some? ==>
              Rendered(configPath, fatal.value.suggestions, fatal.value.mysterious, fatal.value.lines)
  {
    var suggestions, mysterious := Classify(config, registry);
    ClassifiedReports(config, registry, suggestions, mysterious);
    if |mysterious| + |suggestions| > 0 {
      var lines := RenderReport(configPath, suggestions, mysterious);
      return Some(FatalReport(suggestions, mysterious, lines));
    }
    return None;
  }

  // ---------------------------------------------------------------------
  // Context merging

  /** The saved contexts, by name, and the name of the active one. */
  datatype ContextStore = ContextStore(current: string, contexts: map<string, map<string, Value>>)

  /** The context an invocation asks for: the named one, or the active
      one when no name is given; `None` when there is no such context. */
  function ResolveContext(store: ContextStore, contextName: string): (r: Option<map<string, Value>>)
    ensures r.Some? <==> (if contextName == "" then store.current else contextName) in store.contexts
    ensures r.Some? ==> r.value == store.contexts[if contextName == "" then store.current else contextName]
  {
    var name := if contextName == "" then store.current else contextName;
    if name in store.contexts then Some(store.contexts[name]) else None
  }

  function ConflictWarning(property: string): string
  {
    "Property '" + property + "' exists in both current context and config, using property from config\n"
  }

  /** Each conflict warning names its property, so distinct properties
      give distinct warnings. */
  lemma ConflictWarningNamesProperty(a: string, b: string)
    ensures ConflictWarning(a) == ConflictWarning(b) <==> a == b
  {
    if ConflictWarning(a) == ConflictWarning(b) {
      FramedInjective("Property '", a, b,
                      "' exists in both current context and config, using property from config\n");
    }
  }

  /** `merged` is `config` overlaid with `ctx`: every key of either, the
      config's value wherever the config has one, the context's value for
      the rest; `conflicts` lists each property both define, once. */
  ghost predicate MergedWith(config: map<Key, Value>, ctx: map<string, Value>,
                       merged: map<Key, Value>, conflicts: seq<string>)
  {
    && (forall k :: k in merged <==> k in config || (k.StrKey? && k.s in ctx))
    && (forall k :: k in config ==> merged[k] == config[k])
    && (forall p :: p in ctx && StrKey(p) !in config ==> merged[StrKey(p)] == ctx[p])
    && (forall p :: p in conflicts <==> p in ctx && StrKey(p) in config)
    && (forall i, j :: 0 <= i < j < |conflicts| ==> conflicts[i] != conflicts[j])
  }

  /** The config's `engine` wins over the context's, the context's `ttl`
      is added, and the one shared property is reported once. */
  lemma MergeExample(merged: map<Key, Value>, conflicts: seq<string>)
    requires MergedWith(map[StrKey("engine") := Text("a")],
                        map["engine" := Text("b"), "ttl" := Text("30")], merged, conflicts)
    ensures merged == map[StrKey("engine") := Text("a"), StrKey("ttl") := Text("30")]
    ensures conflicts == ["engine"]
  {
    var ctx := map["engine" := Text("b"), "ttl" := Text("30")];
    assert merged.Keys == {StrKey("engine"), StrKey("ttl")};
    assert "engine" in conflicts;
    forall i | 0 <= i < |conflicts|
      ensures conflicts[i] == "engine"
    {
      assert conflicts[i] in conflicts;
    }
    if |conflicts| > 1 {
      ConflictsDistinctPair(conflicts);
    }
  }

  /** Go's `mergeContext`: add every property of the resolved context the
      config does not already have; a property both define keeps the
      config's value and is reported once in `conflicts` (Go logs a
      `ConflictWarning` for it). */
  method MergeContext(config: map<Key, Value>, contextName: string, store: ContextStore)
    returns (merged: map<Key, Value>, conflicts: seq<string>)
    ensures ResolveContext(store, contextName).None? ==> merged == config && conflicts == []
    ensures ResolveContext(store, contextName).Some? ==>
              MergedWith(config, ResolveContext(store, contextName).value, merged, conflicts)
  {
    merged := config;
    conflicts := [];
    var resolved := ResolveContext(store, contextName);
    if resolved.None? {
      return;
    }
    var ctx := resolved.value;
    var rest := ctx.Keys;
    while rest != {}
      invariant rest <= ctx.Keys
      invariant forall k :: k in merged <==> k in config || (k.StrKey? && k.s in ctx && k.s !in rest)
      invariant forall k :: k in config ==> merged[k] == config[k]
      invariant forall p :: p in ctx && p !in rest && StrKey(p) !in config ==> merged[StrKey(p)] == ctx[p]
      invariant forall p :: p in conflicts <==> p in ctx && p !in rest && StrKey(p) in config
      invariant forall i, j :: 0 <= i < j < |conflicts| ==> conflicts[i] != conflicts[j]
      decreases rest
    {
      var p :| p in rest;
      if StrKey(p) in merged {
        conflicts := conflicts + [p];
      } else {
        merged := merged[StrKey(p) := ctx[p]];
      }
      rest := rest - {p};
    }
  }

  /** Distinct entries differ at their first two positions. Stated as a
      lemma so that the impossible branch of `MergeExample` checks nothing
      itself. */
  lemma ConflictsDistinctPair(conflicts: seq<string>)
    requires |conflicts| > 1
    requires forall i, j :: 0 <= i < j < |conflicts| ==> conflicts[i] != conflicts[j]
    ensures conflicts[0] != conflicts[1]
  {
  }
}
