/** Configuration handling: the defaults (main.js:22-36), `filterConfig`
    (main.js:66-79), `setConfig` / `getConfig` (main.js:336-352) and the
    option merge inside `repairInput` (main.js:364-367).

    A configuration object is a map from property names to JavaScript values;
    `Object.assign` is map union in which the later argument wins. */
module Config {
  import opened Results
  import opened Strings
  import opened JsValues

  type Options = map<string, JsValue>

  const DefaultTemplate: string := "{_family}-{weight}-{comment}{i}.{ext}"

  const DefaultUserAgent: string :=
    "Mozilla/5.0 (Windows NT 10.0; Win64; x64) AppleWebKit/537.36 (KHTML, like Gecko) Chrome/57.0.2987.133 Safari/537.36"

  const Defaults: Options := map[
    "outputDir" := Str("./fonts"),
    "path" := Str("./"),
    "template" := Str(DefaultTemplate),
    "cssFile" := Str("fonts.css"),
    "userAgent" := Str(DefaultUserAgent),
    "base64" := Bool(false),
    "overwriting" := Bool(false),
    "strictSSL" := Bool(true),
    "verbose" := Bool(false),
    "simulate" := Bool(false)
  ]

  /** `typeof DEFAULT_CONFIG[key]`: a key without a default reads `undefined`. */
  function DefaultType(key: string): string {
    if key in Defaults then TypeOf(Defaults[key]) else "undefined"
  }

  /** Every value has the type of the default for its key. */
  predicate WellTyped(c: Options) {
    forall k :: k in c ==> TypeOf(c[k]) == DefaultType(k)
  }

  /** Well typed, and every default key is present. */
  predicate Complete(c: Options) {
    WellTyped(c) && Defaults.Keys <= c.Keys
  }

  /** `filterConfig`: keep exactly the entries whose value has the type of the
      default for that key. */
  function FilterConfig(c: Options): (r: Options)
    ensures r.Keys <= c.Keys
    ensures forall k :: k in r ==> r[k] == c[k]
    ensures forall k :: k in c ==> (k in r <==> TypeOf(c[k]) == DefaultType(k))
    ensures WellTyped(r)
  {
    map k | k in c && TypeOf(c[k]) == DefaultType(k) :: c[k]
  }

  /** Filtering twice is filtering once. */
  lemma FilterConfigIdempotent(c: Options)
    ensures FilterConfig(FilterConfig(c)) == FilterConfig(c)
  {
  }

  /** A configuration that is already well typed passes unchanged. */
  lemma FilterConfigKeepsWellTyped(c: Options)
    requires WellTyped(c)
    ensures FilterConfig(c) == c
  {
  }

  lemma DefaultsComplete()
    ensures Complete(Defaults)
  {
  }

  /** `setConfig(config, reset)`: defaults, then (unless resetting) the
      current configuration, then the new one, merged and filtered. */
  function SetConfig(current: Options, config: Options, reset: bool): (r: Options)
    ensures WellTyped(r)
    ensures forall k :: k in config && TypeOf(config[k]) == DefaultType(k) ==> k in r && r[k] == config[k]
    ensures forall k :: k in r ==> k in config || k in Defaults || (!reset && k in current)
  {
    FilterConfig(Defaults + (if reset then map[] else current) + config)
  }

  /** The constructor: `setConfig(config)` with `reset` true. */
  function NewConfig(config: Options): (r: Options)
    ensures WellTyped(r)
  {
    SetConfig(map[], config, true)
  }

  /** `getConfig()`: the defaults overlaid with the stored configuration. */
  function GetConfig(current: Options): (r: Options)
    ensures WellTyped(r)
  {
    FilterConfig(Defaults + current)
  }

  /** Later wins: a correctly typed value given to `setConfig` is what
      `getConfig` reports afterwards, a value of the wrong type overwrites the
      stored one and is then filtered out, so the default comes back, and keys
      the call leaves out keep their previous value when not resetting. */
  lemma SetThenGet(current: Options, config: Options, reset: bool, k: string)
    requires WellTyped(current)
    requires k in Defaults
    ensures var r := GetConfig(SetConfig(current, config, reset));
            && k in r
            && (k in config && TypeOf(config[k]) == DefaultType(k) ==> r[k] == config[k])
            && (k in config && TypeOf(config[k]) != DefaultType(k) ==> r[k] == Defaults[k])
            && (k !in config && (reset || k !in current) ==> r[k] == Defaults[k])
            && (k !in config && !reset && k in current ==> r[k] == current[k])
  {
  }

  /** Whatever was stored, provided it passed through `filterConfig`,
      `getConfig` reports every default key with a value of the right type. */
  lemma GetConfigComplete(current: Options)
    requires WellTyped(current)
    ensures Complete(GetConfig(current))
    ensures forall k :: k in Defaults ==> GetConfig(current)[k] == if k in current then current[k] else Defaults[k]
  {
  }

  /** An options argument as `Object.assign` copies it: objects and arrays
      contribute their entries (a later duplicate wins), other values nothing. */
  function OptionsOf(v: JsValue): (r: Options)
    ensures Entries(v).None? ==> r == map[]
  {
    match Entries(v)
    case None => map[]
    case Some(entries) => EntriesToMap(entries)
  }

  function EntriesToMap(entries: seq<(string, JsValue)>): (r: Options)
    ensures forall i :: 0 <= i < |entries| ==> entries[i].0 in r
    ensures forall k :: k in r ==> exists i :: 0 <= i < |entries| && entries[i] == (k, r[k])
    decreases |entries|
  {
    if |entries| == 0 then map[]
    else
      var last := entries[|entries| - 1];
      var r := EntriesToMap(entries[..|entries| - 1])[last.0 := last.1];
      r
  }

  /** A later duplicate wins: an entry whose key does not come again further
      on gives the value the key ends up with. */
  lemma {:induction false} EntriesToMapLastWins(entries: seq<(string, JsValue)>, i: nat)
    requires i < |entries|
    requires forall j :: i < j < |entries| ==> entries[j].0 != entries[i].0
    ensures entries[i].0 in EntriesToMap(entries)
    ensures EntriesToMap(entries)[entries[i].0] == entries[i].1
    decreases |entries|
  {
    var init := entries[..|entries| - 1];
    if i < |entries| - 1 {
      assert forall j :: i < j < |init| ==> init[j].0 != init[i].0 by {
        assert forall j :: i < j < |init| ==> init[j] == entries[j];
      }
      EntriesToMapLastWins(init, i);
    }
  }

  // ---------------------------------------------------------------------------
  // The option merge of `repairInput`

  /** As written (main.js:364-367): merge first, filter afterwards. A value of
      the wrong type given for a known key replaces the default and is then
      dropped, so the key disappears instead of falling back to its default. */
  function MergeOptionsAsWritten(current: Options, config: JsValue): (r: Options)
    ensures WellTyped(r)
  {
    FilterConfig(Defaults + current + OptionsOf(config))
  }

  /** With `{template: 5}` the merged configuration has no `template` at all;
      `format` would then be handed `undefined` as its template. */
  lemma MistypedOptionLosesDefault()
    ensures "template" !in MergeOptionsAsWritten(map[], Obj([("template", Num(5))]))
  {
    var c := Obj([("template", Num(5))]);
    assert OptionsOf(c) == map["template" := Num(5)];
    var merged := Defaults + map[] + OptionsOf(c);
    assert merged["template"] == Num(5);
    assert TypeOf(Num(5)) != DefaultType("template");
  }

  /** Corrected merge: filter each layer before merging, so a mistyped or
      unknown value falls back to the layer below and, ultimately, to the
      default. */
  function MergeOptions(current: Options, config: JsValue): (r: Options)
    ensures Complete(r)
    ensures forall k :: k in Defaults ==>
      r[k] == if k in OptionsOf(config) && TypeOf(OptionsOf(config)[k]) == DefaultType(k) then OptionsOf(config)[k]
              else if k in current && TypeOf(current[k]) == DefaultType(k) then current[k]
              else Defaults[k]
  {
    FilterConfig(Defaults + FilterConfig(current) + FilterConfig(OptionsOf(config)))
  }

  /** The corrected merge agrees with the one as written whenever every given
      value already has the right type. */
  lemma MergeOptionsAgreesOnWellTyped(current: Options, config: JsValue)
    requires WellTyped(current) && WellTyped(OptionsOf(config))
    ensures MergeOptions(current, config) == MergeOptionsAsWritten(current, config)
  {
    FilterConfigKeepsWellTyped(current);
    FilterConfigKeepsWellTyped(OptionsOf(config));
  }

  // ---------------------------------------------------------------------------
  // A complete configuration read as a record

  datatype Settings = Settings(
    outputDir: string,
    path: string,
    template: string,
    cssFile: string,
    userAgent: string,
    base64: bool,
    overwriting: bool,
    strictSSL: bool,
    verbose: bool,
    simulate: bool)

  function ToSettings(c: Options): (s: Settings)
    requires Complete(c)
    ensures c["outputDir"] == Str(s.outputDir) && c["path"] == Str(s.path)
    ensures c["template"] == Str(s.template) && c["cssFile"] == Str(s.cssFile)
    ensures c["base64"] == Bool(s.base64) && c["overwriting"] == Bool(s.overwriting)
    ensures c["simulate"] == Bool(s.simulate)
    ensures c["userAgent"] == Str(s.userAgent) && c["strictSSL"] == Bool(s.strictSSL)
    ensures c["verbose"] == Bool(s.verbose)
  {
    assert TypeOf(c["outputDir"]) == "string" && TypeOf(c["path"]) == "string";
    assert TypeOf(c["template"]) == "string" && TypeOf(c["cssFile"]) == "string";
    assert TypeOf(c["userAgent"]) == "string";
    assert TypeOf(c["base64"]) == "boolean" && TypeOf(c["overwriting"]) == "boolean";
    assert TypeOf(c["strictSSL"]) == "boolean" && TypeOf(c["verbose"]) == "boolean";
    assert TypeOf(c["simulate"]) == "boolean";
    Settings(
      c["outputDir"].s, c["path"].s, c["template"].s, c["cssFile"].s, c["userAgent"].s,
      c["base64"].b, c["overwriting"].b, c["strictSSL"].b, c["verbose"].b, c["simulate"].b)
  }

  lemma DefaultSettings()
    ensures Complete(Defaults)
    ensures ToSettings(Defaults) == Settings("./fonts", "./", DefaultTemplate, "fonts.css", DefaultUserAgent,
                                              false, false, true, false, false)
  {
  }
}
