/**
 * The path configuration: every configured file path comes from the
 * environment when it holds a non-empty value for the key, else from a
 * runtime override, else from the project default. The merged dictionary is
 * cached until the overrides change. The environment is a parameter, and
 * so is the path normalisation (`~` and variable expansion).
 */
module Config {
  import opened PyStr
  import opened Frames

  type Env = map<string, string>

  /** The configured keys, in declaration order. */
  const DefaultKeys: seq<string> := [
    "POLICIES_XLSX", "PROFILE_SCHEMA", "KEYWORD_MAP",
    "GEO_UFS", "GEO_MUN", "GEO_MUN_GJ",
    "DEFESOS_CSV", "UCS_CSV", "UCS_GEOJSON"]

  /** The project's default path for each key. */
  const Defaults: map<string, string> := map[
    "POLICIES_XLSX" := "data/processed/politicas_publicas.xlsx",
    "PROFILE_SCHEMA" := "data/docs/profile_schema.json",
    "KEYWORD_MAP" := "data/docs/keyword_map.json",
    "GEO_UFS" := "data/processed/geo/ufs.csv",
    "GEO_MUN" := "data/processed/geo/municipios.csv",
    "GEO_MUN_GJ" := "data/processed/geo/municipios_simplificado.geojson",
    "DEFESOS_CSV" := "data/processed/defesos.csv",
    "UCS_CSV" := "data/processed/ucs.csv",
    "UCS_GEOJSON" := "data/processed/ucs.geojson"]

  /** The key order lists exactly the keys that have defaults. */
  lemma DefaultKeysCover()
    ensures forall k :: k in DefaultKeys <==> k in Defaults
  {
  }

  /** `os.environ.get(k)` is truthy. */
  predicate EnvSet(env: Env, k: string)
  {
    k in env && env[k] != ""
  }

  /** The value `paths()` stores for key `k` with default `d`. */
  function Pick(env: Env, overrides: map<string, string>, coerce: string -> string, k: string, d: string): string
  {
    if EnvSet(env, k) then coerce(env[k])
    else if k in overrides then coerce(overrides[k])
    else coerce(d)
  }

  /** The entries `paths()` builds for the given keys. */
  function MergedOver(keys: seq<string>, defaults: map<string, string>, env: Env, overrides: map<string, string>,
                      coerce: string -> string): map<string, string>
    requires forall k :: k in keys ==> k in defaults
  {
    map k | k in keys :: Pick(env, overrides, coerce, k, defaults[k])
  }

  /** What `paths()` computes from the environment and the overrides. */
  function Merged(env: Env, overrides: map<string, string>, coerce: string -> string): map<string, string>
  {
    map k | k in Defaults :: Pick(env, overrides, coerce, k, Defaults[k])
  }

  /**
   * The merged paths have exactly the default keys, so an override or an
   * environment variable for any other key never appears.
   */
  lemma MergedKeys(env: Env, overrides: map<string, string>, coerce: string -> string)
    ensures Merged(env, overrides, coerce).Keys == Defaults.Keys
    ensures forall k :: k in overrides && k !in Defaults ==> k !in Merged(env, overrides, coerce)
  {
  }

  /**
   * For each configured key a non-empty environment value wins, then a
   * runtime override, then the default; each is normalised.
   */
  lemma MergedPriority(env: Env, overrides: map<string, string>, coerce: string -> string, k: string)
    requires k in Defaults
    ensures EnvSet(env, k) ==> Merged(env, overrides, coerce)[k] == coerce(env[k])
    ensures !EnvSet(env, k) && k in overrides ==> Merged(env, overrides, coerce)[k] == coerce(overrides[k])
    ensures !EnvSet(env, k) && k !in overrides ==> Merged(env, overrides, coerce)[k] == coerce(Defaults[k])
  {
  }

  /** The loop of `paths()`: one entry per default key, in order. */
  method MergePaths(env: Env, overrides: map<string, string>, coerce: string -> string)
    returns (merged: map<string, string>)
    ensures merged == Merged(env, overrides, coerce)
  {
    DefaultKeysCover();
    merged := MergeKeys(DefaultKeys, Defaults, env, overrides, coerce);
    assert merged.Keys == Merged(env, overrides, coerce).Keys;
  }

  /** The loop over any key list whose keys all have defaults. */
  method MergeKeys(keys: seq<string>, defaults: map<string, string>, env: Env, overrides: map<string, string>,
                   coerce: string -> string) returns (merged: map<string, string>)
    requires forall k :: k in keys ==> k in defaults
    ensures merged == MergedOver(keys, defaults, env, overrides, coerce)
  {
    merged := map[];
    for i := 0 to |keys|
      invariant merged == MergedOver(keys[..i], defaults, env, overrides, coerce)
    {
      var k := keys[i];
      merged := merged[k := Pick(env, overrides, coerce, k, defaults[k])];
      assert keys[..i + 1] == keys[..i] + [k];
    }
    assert keys[..|keys|] == keys;
  }

  /** `overrides or {}` */
  function OrEmpty(overrides: Option<map<string, string>>): map<string, string>
  {
    if overrides.Some? then overrides.value else map[]
  }

  /** `_runtime_overrides.update({k: _coerce(v) ...})` */
  function Updated(current: map<string, string>, added: map<string, string>, coerce: string -> string): map<string, string>
  {
    map k | k in current.Keys + added.Keys :: if k in added then coerce(added[k]) else current[k]
  }

  /**
   * An update keeps every earlier override it does not name, replaces the
   * ones it names with their normalised new values, and adds nothing else.
   */
  lemma UpdatedLaterWins(current: map<string, string>, added: map<string, string>, coerce: string -> string)
    ensures Updated(current, added, coerce).Keys == current.Keys + added.Keys
    ensures forall k :: k in added ==> Updated(current, added, coerce)[k] == coerce(added[k])
    ensures forall k :: k in current && k !in added ==> Updated(current, added, coerce)[k] == current[k]
  {
  }

  /** `path(key)` on the merged paths: the path, or `KeyError` for an unconfigured key. */
  function Lookup(p: map<string, string>, key: string): Outcome<string>
  {
    if key !in p then Raises("KeyError") else Returns(p[key])
  }

  /** On freshly merged paths the lookup fails exactly for keys without a default. */
  lemma LookupMerged(env: Env, overrides: map<string, string>, coerce: string -> string, key: string)
    ensures Lookup(Merged(env, overrides, coerce), key).Raises? <==> key !in Defaults
    ensures key in Defaults ==>
      Lookup(Merged(env, overrides, coerce), key) == Returns(Pick(env, overrides, coerce, key, Defaults[key]))
  {
  }

  /**
   * The module state: the runtime overrides and the one-entry cache of
   * `paths()`.
   */
  class PathConfig {
    const coerce: string -> string
    var overrides: map<string, string>
    var cache: Option<map<string, string>>

    /** The state at import time: no overrides, nothing cached. */
    constructor (coerce: string -> string)
      ensures this.coerce == coerce && overrides == map[] && cache == None
    {
      this.coerce := coerce;
      overrides := map[];
      cache := None;
    }

    /**
     * `paths()`: the cached dictionary when there is one (even if the
     * environment has changed since), otherwise the merge, which is then
     * cached.
     */
    method Paths(env: Env) returns (p: map<string, string>)
      modifies this
      ensures overrides == old(overrides)
      ensures old(cache).Some? ==> p == old(cache).value && cache == old(cache)
      ensures old(cache).None? ==> p == Merged(env, overrides, coerce) && cache == Some(p)
    {
      if cache.Some? {
        return cache.value;
      }
      p := MergePaths(env, overrides, coerce);
      cache := Some(p);
    }

    /** `set_paths(overrides)`: merge the normalised overrides and clear the cache. */
    method SetPaths(added: Option<map<string, string>>)
      modifies this
      ensures overrides == Updated(old(overrides), OrEmpty(added), coerce)
      ensures cache == None
    {
      var extra := OrEmpty(added);
      overrides := map k | k in overrides.Keys + extra.Keys :: if k in extra then coerce(extra[k]) else overrides[k];
      cache := None;
    }

    /** `path(key)`: the lookup in `paths()`. */
    method Path(env: Env, key: string) returns (r: Outcome<string>)
      modifies this
      ensures overrides == old(overrides)
      ensures old(cache).Some? ==> r == Lookup(old(cache).value, key) && cache == old(cache)
      ensures old(cache).None? ==> r == Lookup(Merged(env, overrides, coerce), key) && cache.Some?
    {
      var p := Paths(env);
      r := Lookup(p, key);
    }
  }

  /**
   * `set_paths` followed by `path`: the lookup sees the new overrides,
   * whatever was cached before.
   */
  method SetThenPath(c: PathConfig, env: Env, added: Option<map<string, string>>, key: string)
    returns (r: Outcome<string>)
    modifies c
    ensures c.overrides == Updated(old(c.overrides), OrEmpty(added), c.coerce)
    ensures r == Lookup(Merged(env, c.overrides, c.coerce), key)
  {
    c.SetPaths(added);
    r := c.Path(env, key);
  }
}
