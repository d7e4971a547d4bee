/**
 * A boolean user setting persisted in the browser's key-value store (src/logic/Settings.ts). The store is
 * an object holding a string map; the setting holds its key and its current value.
 */
module Settings {
  import opened Wrappers

  /** The store key `setting_${key}`. */
  function StorageKey(key: string): (r: string)
    ensures |r| == |key| + 8 && r[8..] == key
  {
    "setting_" + key
  }

  /** `value.toString()` for a boolean. */
  function BoolString(b: bool): string
  {
    if b then "true" else "false"
  }

  /** The value a new setting starts with: `stored === 'true'` when something is stored, else the default. */
  function InitialValue(items: map<string, string>, key: string, defaultValue: bool): bool
  {
    var k := StorageKey(key);
    if k in items then items[k] == "true" else defaultValue
  }

  /** `localStorage`. */
  class Storage {
    var items: map<string, string>

    constructor(items: map<string, string>)
      ensures this.items == items
    {
      this.items := items;
    }
  }

  class BooleanSetting {
    const key: string
    var value: bool

    /** `new BooleanSetting(key, defaultValue)`, reading the store once. */
    constructor(key: string, defaultValue: bool, storage: Storage)
      ensures this.key == key && value == InitialValue(storage.items, key, defaultValue)
    {
      this.key := key;
      var k := StorageKey(key);
      var stored := if k in storage.items then Some(storage.items[k]) else None;
      value := if stored.Some? then stored.value == "true" else defaultValue;
    }

    /** The `value` getter. */
    function Value(): (r: bool)
      reads this
    {
      value
    }

    /** The `value` setter: publish the new value, then store its text under the setting's key. */
    method SetValue(newValue: bool, storage: Storage)
      modifies this, storage
      ensures Value() == newValue
      ensures storage.items == old(storage.items)[StorageKey(key) := BoolString(newValue)]
      ensures InitialValue(storage.items, key, true) == newValue && InitialValue(storage.items, key, false) == newValue
    {
      value := newValue;
      storage.items := storage.items[StorageKey(key) := BoolString(newValue)];
    }
  }

  /** After storing a value, a new setting with the same key reads that value whatever its default. */
  lemma SettingRoundTrip(items: map<string, string>, key: string, v: bool, defaultValue: bool)
    ensures InitialValue(items[StorageKey(key) := BoolString(v)], key, defaultValue) == v
  {
  }

  /** A stored string reads as true exactly when it is "true"; anything else stored reads as false. */
  lemma StoredValueReading(items: map<string, string>, key: string, defaultValue: bool)
    requires StorageKey(key) in items
    ensures InitialValue(items, key, defaultValue) <==> items[StorageKey(key)] == "true"
  {
  }

  /** Settings with different keys use different store entries, so setting one never changes another. */
  lemma StorageKeysDistinct(key1: string, key2: string, items: map<string, string>, v: bool, defaultValue: bool)
    requires key1 != key2
    ensures InitialValue(items[StorageKey(key1) := BoolString(v)], key2, defaultValue)
            == InitialValue(items, key2, defaultValue)
  {
    assert StorageKey(key1)[8..] != StorageKey(key2)[8..];
  }
}
