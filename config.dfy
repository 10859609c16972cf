/**
 * The configuration manager (utils/config.py): the two loaded YAML
 * documents are JSON-like values, and a setting is found by following a
 * path of keys through nested dictionaries.
 */
module Config {
  import opened Wrappers
  import opened PyJson

  /**
   * The value reached by following `keys` from `value`, reading each key
   * with `get` (a missing key reads as `None`); `None` when a value that is
   * not a dictionary is met before the path ends.
   */
  function Follow(value: Json, keys: seq<string>): Option<Json>
    decreases |keys|
  {
    if keys == [] then Some(value)
    else if !value.JDict? then None
    else Follow(Field(value, keys[0], JNull), keys[1..])
  }

  /** `get_setting(*keys, default=default)` over the settings document `value`. */
  function Setting(value: Json, keys: seq<string>, default: Json): Json
    decreases |keys|
  {
    if keys == [] then (if value.JNull? then default else value)
    else if !value.JDict? then default
    else Setting(Field(value, keys[0], JNull), keys[1..], default)
  }

  /** The loop of `get_setting`: one key per round, with an early return at a non-dictionary. */
  method GetSetting(settings: Json, keys: seq<string>, default: Json) returns (r: Json)
    ensures r == Setting(settings, keys, default)
  {
    var value := settings;
    for i := 0 to |keys|
      invariant Setting(value, keys[i..], default) == Setting(settings, keys, default)
    {
      assert keys[i..][0] == keys[i] && keys[i..][1..] == keys[i + 1..];
      if !value.JDict? {
        return default;
      }
      value := Field(value, keys[i], JNull);
    }
    assert keys[|keys|..] == [];
    r := if value.JNull? then default else value;
  }

  /**
   * The setting is the value at the end of the path unless that value is
   * `None` or the path broke off at a non-dictionary; then it is the default.
   */
  lemma {:induction false} SettingFollows(value: Json, keys: seq<string>, default: Json)
    ensures Setting(value, keys, default) ==
      match Follow(value, keys)
      case None => default
      case Some(w) => if w.JNull? then default else w
    decreases |keys|
  {
    if keys != [] && value.JDict? {
      SettingFollows(Field(value, keys[0], JNull), keys[1..], default);
    }
  }

  /** A path can be followed in two legs. */
  lemma {:induction false} FollowConcat(value: Json, front: seq<string>, back: seq<string>)
    ensures Follow(value, front + back) ==
      match Follow(value, front)
      case None => None
      case Some(w) => Follow(w, back)
    decreases |front|
  {
    if front == [] {
      assert front + back == back;
    } else {
      assert (front + back)[0] == front[0] && (front + back)[1..] == front[1..] + back;
      if value.JDict? {
        FollowConcat(Field(value, front[0], JNull), front[1..], back);
      }
    }
  }

  /**
   * A value found at the end of the path is returned as it is, even when
   * it is falsy (`0`, `''`, `False`, an empty list or dictionary).
   */
  lemma SettingFound(value: Json, keys: seq<string>, default: Json, w: Json)
    requires Follow(value, keys) == Some(w) && !w.JNull?
    ensures Setting(value, keys, default) == w
  {
    SettingFollows(value, keys, default);
  }

  /** Meeting a non-dictionary before the last key gives the default. */
  lemma SettingStopsAtNonDict(value: Json, keys: seq<string>, k: nat, default: Json, w: Json)
    requires k < |keys| && Follow(value, keys[..k]) == Some(w) && !w.JDict?
    ensures Setting(value, keys, default) == default
  {
    FollowConcat(value, keys[..k], keys[k..]);
    assert keys[..k] + keys[k..] == keys;
    SettingFollows(value, keys, default);
  }

  /** A key missing anywhere along the path gives the default. */
  lemma SettingMissingKey(value: Json, keys: seq<string>, k: nat, default: Json, w: Json)
    requires k < |keys| && Follow(value, keys[..k]) == Some(w) && w.JDict? && !HasKey(w, keys[k])
    ensures Setting(value, keys, default) == default
  {
    FollowConcat(value, keys[..k], keys[k..]);
    assert keys[..k] + keys[k..] == keys;
    assert keys[k..][0] == keys[k] && keys[k..][1..] == keys[k + 1..];
    assert Follow(w, keys[k..]) == Follow(JNull, keys[k + 1..]);
    SettingFollows(value, keys, default);
  }

  /** `get_all_conferences`: the `conferences` section, `{}` when it is absent. */
  function AllConferences(conferences: Json): (r: Result<Json>)
    ensures r.Raised? <==> !conferences.JDict?
    ensures conferences.JDict? && !HasKey(conferences, "conferences") ==> r == Ok(JDict([]))
  {
    Get(conferences, "conferences", JDict([]))
  }

  /** `get_conference_config(key)`: the entry of one conference, `{}` for a key the section lacks. */
  function ConferenceConfig(conferences: Json, key: string): (r: Result<Json>)
    ensures r.Raised? <==> !conferences.JDict? || !AllConferences(conferences).value.JDict?
    ensures conferences.JDict? && !HasKey(conferences, "conferences") ==> r == Ok(JDict([]))
    ensures conferences.JDict? && AllConferences(conferences).value.JDict? && !HasKey(AllConferences(conferences).value, key)
      ==> r == Ok(JDict([]))
  {
    var all :- AllConferences(conferences);
    Get(all, key, JDict([]))
  }

  /**
   * For a conference the section lists, with a value that is not `None`,
   * its entry is the setting at the path `conferences`, `key` of the same
   * document.
   */
  lemma ConferenceConfigIsSetting(conferences: Json, key: string, default: Json)
    requires HasKey(conferences, "conferences") && HasKey(AllConferences(conferences).value, key)
    requires !ConferenceConfig(conferences, key).value.JNull?
    ensures Setting(conferences, ["conferences", key], default) == ConferenceConfig(conferences, key).value
  {
    var all := AllConferences(conferences).value;
    assert Field(conferences, "conferences", JNull) == all;
    var entry := ConferenceConfig(conferences, key).value;
    assert Field(all, key, JNull) == entry;
    assert ["conferences", key][1..] == [key];
    assert [key][1..] == [];
    assert Follow(all, [key]) == Some(entry);
    assert Follow(conferences, ["conferences", key]) == Some(entry);
    SettingFollows(conferences, ["conferences", key], default);
  }
}
