/** The key/value settings table of the history database (database.py). */
module Settings {

  type Settings = map<string, string>

  /** `get_setting(key, default)`: the stored value, or `default` when the key is absent. */
  function GetSetting(settings: Settings, key: string, default: string): (v: string)
    ensures key in settings ==> v == settings[key]
    ensures key !in settings ==> v == default
  {
    if key in settings then settings[key] else default
  }

  /** `set_setting(key, value)`: insert or replace. */
  function SetSetting(settings: Settings, key: string, value: string): (r: Settings)
    ensures r.Keys == settings.Keys + {key}
    ensures r[key] == value
    ensures forall k :: k in settings && k != key ==> r[k] == settings[k]
  {
    settings[key := value]
  }

  /** A value written is read back, whatever default is given. */
  lemma GetAfterSet(settings: Settings, key: string, value: string, default: string)
    ensures GetSetting(SetSetting(settings, key, value), key, default) == value
  {
  }

  /** Writing one key leaves every other key's reading unchanged. */
  lemma GetAfterSetOther(settings: Settings, key: string, value: string, other: string, default: string)
    requires other != key
    ensures GetSetting(SetSetting(settings, key, value), other, default)
            == GetSetting(settings, other, default)
  {
  }
}
