/**
  The per-repository settings lookup: a setting given for one repository
  wins over the default for all repositories.
 */
module Config {
  import opened Wrappers

  /** The two sections of the settings dictionary, each of which may be
      missing: `repos` maps a repository's full name to its own settings,
      `defaults` holds the settings for every repository. */
  datatype Config = Config(
    repos: Option<map<string, map<string, string>>>,
    defaults: Option<map<string, string>>)
  {
    /** `get_setting`: the repository's own value for `key`, else the
        default, else nothing. */
    function GetSetting(fullName: string, key: string): Option<string>
    {
      var own :=
        if repos.Some? && fullName in repos.value && key in repos.value[fullName]
        then Some(repos.value[fullName][key]) else None;
      if own.Some? then own
      else if defaults.Some? && key in defaults.value then Some(defaults.value[key])
      else None
    }

    /** The settings consulted for a repository, most specific first. */
    function Layers(fullName: string): (layers: seq<map<string, string>>)
      ensures |layers| <= 2
    {
      (if repos.Some? && fullName in repos.value then [repos.value[fullName]] else []) +
      (if defaults.Some? then [defaults.value] else [])
    }
  }

  /** A new `Config`: an empty dictionary. */
  function NewConfig(): (c: Config)
    ensures c.repos == None && c.defaults == None
  {
    Config(None, None)
  }

  /** The value of `key` in the first of `layers` that has it. */
  function FirstHaving(layers: seq<map<string, string>>, key: string): Option<string>
  {
    if layers == [] then None
    else if key in layers[0] then Some(layers[0][key])
    else FirstHaving(layers[1..], key)
  }

  /** `FirstHaving` finds a value exactly when some layer has the key, and
      then it is the value of the first such layer. */
  lemma {:induction false} FirstHavingSpec(layers: seq<map<string, string>>, key: string)
    ensures FirstHaving(layers, key).None? <==> forall i :: 0 <= i < |layers| ==> key !in layers[i]
    ensures forall i :: 0 <= i < |layers| && key in layers[i] && (forall j :: 0 <= j < i ==> key !in layers[j]) ==>
      FirstHaving(layers, key) == Some(layers[i][key])
    decreases |layers|
  {
    if layers != [] {
      FirstHavingSpec(layers[1..], key);
      forall i | 0 <= i < |layers| && key in layers[i] && (forall j :: 0 <= j < i ==> key !in layers[j])
        ensures FirstHaving(layers, key) == Some(layers[i][key])
      {
        if i > 0 {
          assert key !in layers[0];
          assert layers[1..][i - 1] == layers[i];
          forall j | 0 <= j < i - 1 ensures key !in layers[1..][j] {
            assert layers[1..][j] == layers[j + 1];
          }
        }
      }
      if key !in layers[0] && FirstHaving(layers[1..], key).Some? {
        var i :| 0 <= i < |layers[1..]| && key in layers[1..][i];
        assert key in layers[i + 1];
      }
    }
  }

  /** The lookup is the first value for `key` among the repository's own
      settings and the defaults, in that order. */
  lemma GetSettingLayers(c: Config, fullName: string, key: string)
    ensures c.GetSetting(fullName, key) == FirstHaving(c.Layers(fullName), key)
  {
    var layers := c.Layers(fullName);
    if layers != [] {
      assert FirstHaving(layers, key) == if key in layers[0] then Some(layers[0][key]) else FirstHaving(layers[1..], key);
      if |layers| == 2 {
        assert layers[1..][1..] == [];
      }
    }
  }

  /** A repository's own setting takes precedence over the default. */
  lemma RepoSettingWins(c: Config, fullName: string, key: string)
    requires c.repos.Some? && fullName in c.repos.value && key in c.repos.value[fullName]
    ensures c.GetSetting(fullName, key) == Some(c.repos.value[fullName][key])
  {
    GetSettingLayers(c, fullName, key);
    FirstHavingSpec(c.Layers(fullName), key);
    assert c.Layers(fullName)[0] == c.repos.value[fullName];
  }

  /** Without a setting of its own, a repository gets the default when
      there is one. */
  lemma DefaultApplies(c: Config, fullName: string, key: string)
    requires !(c.repos.Some? && fullName in c.repos.value && key in c.repos.value[fullName])
    requires c.defaults.Some? && key in c.defaults.value
    ensures c.GetSetting(fullName, key) == Some(c.defaults.value[key])
  {
    var layers := c.Layers(fullName);
    GetSettingLayers(c, fullName, key);
    FirstHavingSpec(layers, key);
    var i := |layers| - 1;
    assert layers[i] == c.defaults.value;
    forall j | 0 <= j < i ensures key !in layers[j] {
      assert layers[j] == c.repos.value[fullName];
    }
  }

  /** With the key in neither section, there is no setting. */
  lemma NoSetting(c: Config, fullName: string, key: string)
    ensures c.GetSetting(fullName, key).None? <==>
      !(c.repos.Some? && fullName in c.repos.value && key in c.repos.value[fullName]) &&
      !(c.defaults.Some? && key in c.defaults.value)
  {
    var layers := c.Layers(fullName);
    GetSettingLayers(c, fullName, key);
    FirstHavingSpec(layers, key);
    if c.GetSetting(fullName, key).None? {
      if c.repos.Some? && fullName in c.repos.value {
        assert layers[0] == c.repos.value[fullName];
      }
      if c.defaults.Some? {
        assert layers[|layers| - 1] == c.defaults.value;
      }
    }
  }

  /** A new configuration has no settings at all. */
  lemma FreshConfigEmpty(fullName: string, key: string)
    ensures NewConfig().GetSetting(fullName, key) == None
  {
    FirstHavingSpec([], key);
  }
}
