/**
 * The configuration of the traffic overlay (nezha/traffic-progress.js, `main`):
 * defaults overlaid with `window.TrafficScriptConfig`, and `setConfig`, which
 * overlays a further partial object on the active configuration.
 */
module TrafficConfig {
  import opened Common

  /** The JavaScript values an option may hold. */
  datatype JsValue = JsBool(b: bool) | JsNumber(n: real) | JsString(s: string) | JsNull | JsUndefined

  /** A configuration object: its own enumerable properties. */
  type Config = map<string, JsValue>

  function DefaultConfig(): Config
  {
    map["showTrafficStats" := JsBool(true), "interval" := JsNumber(60000.0), "apiUrl" := JsString("/api/v1/service"),
        "enableLog" := JsBool(true), "debugMode" := JsBool(false)]
  }

  /**
   * `Object.assign({}, target, source)`: every property of the source is
   * copied over the target's (an explicit `undefined` included); a null or
   * undefined source copies nothing.
   */
  function Assign(target: Config, source: Option<Config>): (r: Config)
    ensures source.None? ==> r == target
    ensures source.Some? ==> r.Keys == target.Keys + source.value.Keys
    ensures source.Some? ==> forall k :: k in source.value ==> r[k] == source.value[k]
    ensures forall k :: k in target && (source.None? || k !in source.value) ==> r[k] == target[k]
  {
    if source.None? then target else target + source.value
  }

  /** The configuration at startup; a falsy override is replaced by `{}`. */
  function InitialConfig(userConfig: Option<Config>): (r: Config)
    ensures DefaultConfig().Keys <= r.Keys
  {
    Assign(Assign(map[], Some(DefaultConfig())), Some(if userConfig.Some? then userConfig.value else map[]))
  }

  /** An option the page sets wins over the default; any other default survives. */
  lemma InitialConfigPrecedence(userConfig: Option<Config>, k: string)
    ensures userConfig.Some? && k in userConfig.value ==> k in InitialConfig(userConfig) && InitialConfig(userConfig)[k] == userConfig.value[k]
    ensures (userConfig.None? || k !in userConfig.value) && k in DefaultConfig() ==> InitialConfig(userConfig)[k] == DefaultConfig()[k]
    ensures k in InitialConfig(userConfig) <==> k in DefaultConfig() || (userConfig.Some? && k in userConfig.value)
  {
  }

  /** The debugging surface's view of the active configuration. */
  class TrafficScript {
    var config: Config

    constructor (userConfig: Option<Config>)
      ensures config == InitialConfig(userConfig)
    {
      config := InitialConfig(userConfig);
    }

    /** `setConfig`: the new options overlay the active ones; nothing is ever dropped. */
    method SetConfig(newConfig: Option<Config>)
      modifies this
      ensures config == Assign(old(config), newConfig)
      ensures old(config).Keys <= config.Keys
    {
      config := Assign(config, newConfig);
    }
  }

  /** Successive `setConfig` calls compose: the later call wins on a shared option. */
  lemma SetConfigComposes(c: Config, first: Config, second: Config)
    ensures Assign(Assign(c, Some(first)), Some(second)) == Assign(c, Some(Assign(first, Some(second))))
  {
  }
}
