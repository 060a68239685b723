/** The storage plumbing of the new-tab page, with `chrome.storage.sync` and
    `localStorage` as abstract key-value maps. A write goes to sync storage
    unless the payload is too large or sync storage reports a quota error;
    then the payload is written as one blob under `newtab_data` in local
    storage instead. Any other sync error is rethrown. Payload sizes (the
    UTF-8 length of the JSON text) are supplied by the caller. */
module Storage {
  import opened Common
  import opened Text

  /** `STORAGE_LIMITS`. */
  const QuotaBytes := 102400
  const QuotaBytesPerItem := 8192
  const LocalStorageKey := "newtab_data"

  /** `STORAGE_KEYS` used here, and `CURRENT_VERSION`. */
  const SettingsKey := "settings"
  const ShortcutsKey := "shortcuts"
  const VersionKey := "version"
  const CurrentVersion := "1.0.0"

  /** Sync storage, and local storage holding whole payloads under string
      keys. */
  datatype Stores<V> = Stores(sync: map<string, V>, local: map<string, map<string, V>>)

  datatype WriteOutcome = Synced | FellBack | Thrown(message: string)

  datatype Written<V> = Written(stores: Stores<V>, outcome: WriteOutcome)

  /** A write error from sync storage counts as a quota error when its
      message contains `QUOTA`. */
  predicate IsQuotaError(message: string): (b: bool)
    ensures b ==> |message| >= |"QUOTA"|
    ensures StartsWith(message, "QUOTA") ==> b
  {
    ContainsLength(message, "QUOTA");
    Contains(message, "QUOTA")
  }

  /** The test looks for `QUOTA` anywhere in the message, so a quota message
      stays one whatever text surrounds it. */
  lemma QuotaErrorInContext(before: string, message: string, after: string)
    requires IsQuotaError(message)
    ensures IsQuotaError(before + message + after)
  {
    ContainsWidened(before, message, after, "QUOTA");
  }

  /** The test is case-sensitive: a message starting with `QUOTA` is a quota
      error, but the lower-case word alone is not. */
  lemma QuotaErrorIsCaseSensitive()
    ensures IsQuotaError("QUOTA_BYTES_PER_ITEM quota exceeded")
    ensures !IsQuotaError("quota")
  {
    assert StartsWith("QUOTA_BYTES_PER_ITEM quota exceeded", "QUOTA");
    assert !StartsWith("quota", "QUOTA") by {
      assert "quota"[0] != "QUOTA"[0];
    }
    ContainsLength("quota"[1..], "QUOTA");
  }

  /** One routed write of `payload` of `size` bytes against `limit`, with
      `syncError` the message sync storage rejects it with, if it does. */
  function Persist<V>(st: Stores<V>, payload: map<string, V>, size: nat, limit: nat, syncError: Option<string>): (w: Written<V>)
    ensures w.outcome == FellBack <==> size > limit || (syncError.Some? && IsQuotaError(syncError.value))
    ensures w.outcome == Synced <==> size <= limit && syncError.None?
    ensures w.outcome.Thrown? ==> syncError.Some? && w.outcome.message == syncError.value && w.stores == st
    // nothing written is lost: each payload key reads back from sync
    // storage or from the fallback blob, and the other store is untouched
    ensures w.outcome == Synced ==>
      && w.stores.local == st.local
      && (forall k :: k in payload ==> k in w.stores.sync && w.stores.sync[k] == payload[k])
      && (forall k :: k in st.sync && k !in payload ==> k in w.stores.sync && w.stores.sync[k] == st.sync[k])
    ensures w.outcome == FellBack ==>
      && w.stores.sync == st.sync
      && LocalStorageKey in w.stores.local && w.stores.local[LocalStorageKey] == payload
  {
    if size > limit then
      Written(st.(local := st.local[LocalStorageKey := payload]), FellBack)
    else if syncError.None? then
      Written(st.(sync := st.sync + payload), Synced)
    else if IsQuotaError(syncError.value) then
      Written(st.(local := st.local[LocalStorageKey := payload]), FellBack)
    else
      Written(st, Thrown(syncError.value))
  }

  /** `safeSyncStorage(key, value)`: the per-item limit applies. */
  function SafeSyncStorage<V>(st: Stores<V>, key: string, value: V, size: nat, syncError: Option<string>): (w: Written<V>)
    ensures w == Persist(st, map[key := value], size, QuotaBytesPerItem, syncError)
    ensures size > QuotaBytesPerItem ==> w.outcome == FellBack && w.stores.sync == st.sync
  {
    Persist(st, map[key := value], size, QuotaBytesPerItem, syncError)
  }

  /** Each fallback write replaces the whole blob, so a value that fell back
      earlier under another key is no longer in local storage afterwards. */
  lemma FallbackReplacesBlob<V>(st: Stores<V>, key1: string, v1: V, key2: string, v2: V)
    requires key1 != key2
    ensures var first := SafeSyncStorage(st, key1, v1, QuotaBytesPerItem + 1, None);
      var second := SafeSyncStorage(first.stores, key2, v2, QuotaBytesPerItem + 1, None);
      && first.stores.local[LocalStorageKey] == map[key1 := v1]
      && key1 !in second.stores.local[LocalStorageKey]
  {
  }

  // ----- Start-up -------------------------------------------------------

  /** The data `initializeStorage` looks at: the two keys from sync storage,
      or, when that read fails, the fallback blob (empty when there is none). */
  function InitialData<V>(st: Stores<V>, readFailed: bool): (data: map<string, V>)
    ensures !readFailed ==> forall k :: k in data <==> k in st.sync && (k == SettingsKey || k == ShortcutsKey)
    ensures !readFailed ==> forall k :: k in data ==> data[k] == st.sync[k]
    ensures readFailed && LocalStorageKey in st.local ==> data == st.local[LocalStorageKey]
    ensures readFailed && LocalStorageKey !in st.local ==> data == map[]
  {
    if !readFailed then
      map k | k in st.sync && (k == SettingsKey || k == ShortcutsKey) :: st.sync[k]
    else if LocalStorageKey in st.local then st.local[LocalStorageKey]
    else map[]
  }

  /** Whatever a routed write put in the fallback blob is exactly what a
      start-up whose sync read fails reads back. */
  lemma FallbackReadBack<V>(st: Stores<V>, payload: map<string, V>, size: nat, limit: nat, syncError: Option<string>)
    requires Persist(st, payload, size, limit, syncError).outcome == FellBack
    ensures InitialData(Persist(st, payload, size, limit, syncError).stores, true) == payload
  {
  }

  /** The defaults to write: settings and shortcuts, each only when the data
      read lacks it. */
  function InitialUpdates<V>(data: map<string, V>, defaultSettings: V, defaultShortcuts: V): (u: map<string, V>)
    ensures forall k :: k in u <==> (k == SettingsKey || k == ShortcutsKey) && k !in data
    ensures SettingsKey in u ==> u[SettingsKey] == defaultSettings
    ensures ShortcutsKey in u ==> u[ShortcutsKey] == defaultShortcuts
  {
    var s := if SettingsKey in data then map[] else map[SettingsKey := defaultSettings];
    if ShortcutsKey in data then s else s[ShortcutsKey := defaultShortcuts]
  }

  /** `initializeStorage`: nothing is written when both keys are present;
      otherwise the defaults are written with the whole-quota limit. */
  function InitializeStorage<V>(st: Stores<V>, readFailed: bool, defaultSettings: V, defaultShortcuts: V,
                                size: nat, syncError: Option<string>): (w: Written<V>)
    ensures InitialUpdates(InitialData(st, readFailed), defaultSettings, defaultShortcuts) == map[] ==> w == Written(st, Synced)
  {
    var updates := InitialUpdates(InitialData(st, readFailed), defaultSettings, defaultShortcuts);
    if updates == map[] then Written(st, Synced)
    else Persist(st, updates, size, QuotaBytes, syncError)
  }

  /** When sync storage could be read, start-up never overwrites a stored
      value, and after a successful write both keys are in sync storage. */
  lemma InitializeNeverOverwrites<V>(st: Stores<V>, defaultSettings: V, defaultShortcuts: V, size: nat, syncError: Option<string>)
    ensures var w := InitializeStorage(st, false, defaultSettings, defaultShortcuts, size, syncError);
      && (forall k :: k in st.sync && w.outcome != FellBack ==> k in w.stores.sync && w.stores.sync[k] == st.sync[k])
      && (w.outcome == Synced ==> SettingsKey in w.stores.sync && ShortcutsKey in w.stores.sync)
  {
    var data := InitialData(st, false);
    var updates := InitialUpdates(data, defaultSettings, defaultShortcuts);
    forall k | k in st.sync && (k == SettingsKey || k == ShortcutsKey) ensures k in data {
    }
  }

  /** When the sync read fails and no fallback blob exists, start-up takes
      both keys for missing and writes the defaults over whatever sync
      storage holds. */
  lemma FailedReadWritesDefaults<V>(st: Stores<V>, defaultSettings: V, defaultShortcuts: V, size: nat)
    requires LocalStorageKey !in st.local && size <= QuotaBytes
    ensures var w := InitializeStorage(st, true, defaultSettings, defaultShortcuts, size, None);
      && w.outcome == Synced
      && SettingsKey in w.stores.sync && w.stores.sync[SettingsKey] == defaultSettings
      && ShortcutsKey in w.stores.sync && w.stores.sync[ShortcutsKey] == defaultShortcuts
  {
    var updates := InitialUpdates(InitialData(st, true), defaultSettings, defaultShortcuts);
    assert SettingsKey in updates;
  }

  /** Start-up is idempotent: once it has written to sync storage, running it
      again with a successful read writes nothing. */
  lemma InitializeIdempotent<V>(st: Stores<V>, defaultSettings: V, defaultShortcuts: V, size: nat, syncError: Option<string>,
                                size2: nat, syncError2: Option<string>)
    requires InitializeStorage(st, false, defaultSettings, defaultShortcuts, size, syncError).outcome == Synced
    ensures var w := InitializeStorage(st, false, defaultSettings, defaultShortcuts, size, syncError);
      InitializeStorage(w.stores, false, defaultSettings, defaultShortcuts, size2, syncError2) == Written(w.stores, Synced)
  {
    var w := InitializeStorage(st, false, defaultSettings, defaultShortcuts, size, syncError);
    InitializeNeverOverwrites(st, defaultSettings, defaultShortcuts, size, syncError);
    var data := InitialData(w.stores, false);
    assert SettingsKey in data && ShortcutsKey in data;
    assert InitialUpdates(data, defaultSettings, defaultShortcuts) == map[];
  }

  /** Once start-up has fallen back to local storage, the blob holds only
      the defaults it wrote. A later start-up whose sync read fails finds
      those and takes exactly the other keys for missing: it writes nothing
      after a first start-up that wrote both, and a default for each key
      the first one found already stored. */
  lemma InitializeAfterFallback<V>(st: Stores<V>, readFailed: bool, defaultSettings: V, defaultShortcuts: V,
                                   size: nat, syncError: Option<string>)
    requires InitializeStorage(st, readFailed, defaultSettings, defaultShortcuts, size, syncError).outcome == FellBack
    ensures var w := InitializeStorage(st, readFailed, defaultSettings, defaultShortcuts, size, syncError);
      var first := InitialUpdates(InitialData(st, readFailed), defaultSettings, defaultShortcuts);
      var second := InitialUpdates(InitialData(w.stores, true), defaultSettings, defaultShortcuts);
      forall k :: k in second <==> (k == SettingsKey || k == ShortcutsKey) && k !in first
  {
    var first := InitialUpdates(InitialData(st, readFailed), defaultSettings, defaultShortcuts);
    var w := InitializeStorage(st, readFailed, defaultSettings, defaultShortcuts, size, syncError);
    assert InitialData(w.stores, true) == first;
  }

  /** `migrateStorage(currentVersion)`: the stored version is replaced by
      `currentVersion` when it differs or is missing. Returns the new sync map
      and whether a write happened. */
  function MigrateStorage<V(==)>(sync: map<string, V>, currentVersion: V): (r: (map<string, V>, bool))
    ensures r.1 <==> !(VersionKey in sync && sync[VersionKey] == currentVersion)
    ensures VersionKey in r.0 && r.0[VersionKey] == currentVersion
    ensures forall k :: k != VersionKey ==> (k in r.0 <==> k in sync) && (k in sync ==> r.0[k] == sync[k])
  {
    if VersionKey in sync && sync[VersionKey] == currentVersion then (sync, false)
    else (sync[VersionKey := currentVersion], true)
  }

  /** Migrating twice writes once. */
  lemma MigrateIdempotent<V>(sync: map<string, V>, currentVersion: V)
    ensures MigrateStorage(MigrateStorage(sync, currentVersion).0, currentVersion) == (MigrateStorage(sync, currentVersion).0, false)
  {
  }
}
