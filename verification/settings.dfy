/** The `Settings` class of settings.js as a state record: the settings
    held in memory and the object last written to the extension's local
    storage under the key "settings" (`None` when nothing is stored).
    Whether a storage call fails is a parameter; every operation returns
    the new state together with what the JavaScript method returns. */
module Settings {
  import opened Wrappers

  /** The values the settings hold: flags and strings. */
  datatype Value = Flag(flag: bool) | Str(text: string)

  /** A settings object: keys to values. */
  type Store = map<string, Value>

  const AutoDownload: string := "autoDownload"

  /** The defaults every instance starts from. */
  const Defaults: Store := map[
    "autoDownload" := Flag(true),
    "downloadFormat" := Str("mp4"),
    "downloadPath" := Str("ScreenRecordings"),
    "videoQuality" := Str("medium"),
    "recordAudio" := Flag(true),
    "convertToMp4" := Flag(true),
    "mp4Quality" := Str("high"),
    "deleteWebmAfterConvert" := Flag(true),
    "showRecordingIndicator" := Flag(true)
  ]

  /** The settings in memory and the settings in storage. */
  datatype State = State(current: Store, stored: Option<Store>)

  /** A new instance: a copy of the defaults in memory, whatever storage
      holds. */
  function Init(stored: Option<Store>): (s: State)
    ensures s.current.Keys == Defaults.Keys
    ensures forall k :: k in s.current ==> s.current[k] == Defaults[k]
    ensures s.stored == stored
  {
    State(Defaults, stored)
  }

  /** `{...base, ...over}`: the keys of both, the value from `over` where
      it has the key. */
  function Spread(base: Store, over: Store): (r: Store)
    ensures forall k :: k in r <==> k in base || k in over
    ensures forall k :: k in over ==> r[k] == over[k]
    ensures forall k :: k in base && k !in over ==> r[k] == base[k]
  {
    base + over
  }

  /** The new state of `load` and the settings it returns. */
  datatype Loaded = Loaded(state: State, result: Store)

  /** `load`: the stored settings over the defaults, when storage can be
      read and holds some; the settings in memory are kept otherwise. The
      result is the settings in memory afterwards. */
  function Load(s: State, readFails: bool): (r: Loaded)
    ensures r.result == r.state.current && r.state.stored == s.stored
    ensures readFails || s.stored.None? ==> r.state == s
    ensures !readFails && s.stored.Some? ==>
      && (forall k :: k in r.result <==> k in Defaults || k in s.stored.value)
      && (forall k :: k in s.stored.value ==> r.result[k] == s.stored.value[k])
      && (forall k :: k in Defaults && k !in s.stored.value ==> r.result[k] == Defaults[k])
  {
    if !readFails && s.stored.Some? then
      var current := Spread(Defaults, s.stored.value);
      Loaded(State(current, s.stored), current)
    else Loaded(s, s.current)
  }

  /** The new state of `save` or `reset` and the boolean it resolves to. */
  datatype Saved = Saved(state: State, result: bool)

  /** `save(newSettings)`: the new settings over the ones in memory, with
      "autoDownload" forced on, become the settings in memory before
      storage is written; a failed write leaves storage as it was, and the
      call resolves to whether the write succeeded. */
  function Save(s: State, n: Store, writeFails: bool): (r: Saved)
    ensures r.result == !writeFails
    ensures AutoDownload in r.state.current && r.state.current[AutoDownload] == Flag(true)
    ensures forall k :: k in r.state.current <==> k in s.current || k in n || k == AutoDownload
    ensures forall k :: k in n && k != AutoDownload ==> r.state.current[k] == n[k]
    ensures forall k :: k in s.current && k !in n && k != AutoDownload ==> r.state.current[k] == s.current[k]
    ensures r.state.stored == if writeFails then s.stored else Some(r.state.current)
  {
    var toSave := Spread(s.current, n)[AutoDownload := Flag(true)];
    Saved(State(toSave, if writeFails then s.stored else Some(toSave)), !writeFails)
  }

  /** `get(key)`: the value in memory, `undefined` when the key is absent. */
  function Get(s: State, key: string): (r: Option<Value>)
    ensures r.Some? <==> key in s.current
    ensures r.Some? ==> r.value == s.current[key]
  {
    if key in s.current then Some(s.current[key]) else None
  }

  /** `getAll()`: a copy of the settings in memory. */
  function GetAll(s: State): (r: Store)
    ensures r.Keys == s.current.Keys
    ensures forall k :: k in r ==> Get(s, k) == Some(r[k])
  {
    map k | k in s.current :: s.current[k]
  }

  /** `reset()`: the defaults become the settings in memory and are then
      saved; "autoDownload" is on in the defaults, so the settings in
      memory end as the defaults, whether or not the write succeeds. */
  function Reset(s: State, writeFails: bool): (r: Saved)
    ensures r.state.current == Defaults
    ensures r.result == !writeFails
    ensures r.state.stored == if writeFails then s.stored else Some(Defaults)
  {
    var cleared := State(Defaults, s.stored);
    var r := Save(cleared, cleared.current, writeFails);
    assert r.state.current == Defaults;
    r
  }

  // ---------------------------------------------------------------------
  // The invariant: every default key is present and auto download is on
  // ---------------------------------------------------------------------

  /** A settings object that has every default key and "autoDownload" on. */
  predicate Complete(m: Store)
  {
    && Defaults.Keys <= m.Keys
    && m[AutoDownload] == Flag(true)
  }

  /** Memory and storage both hold complete settings. */
  predicate Good(s: State)
  {
    Complete(s.current) && (s.stored.Some? ==> Complete(s.stored.value))
  }

  /** A new instance over complete stored settings is good. */
  lemma InitGood(stored: Option<Store>)
    requires stored.Some? ==> Complete(stored.value)
    ensures Good(Init(stored))
  {
  }

  /** Loading keeps the invariant. */
  lemma LoadGood(s: State, readFails: bool)
    requires Good(s)
    ensures Good(Load(s, readFails).state)
  {
  }

  /** Saving keeps the invariant, whatever is saved and whether or not the
      write succeeds. */
  lemma SaveGood(s: State, n: Store, writeFails: bool)
    requires Good(s)
    ensures Good(Save(s, n, writeFails).state)
  {
  }

  /** Resetting keeps the invariant. */
  lemma ResetGood(s: State, writeFails: bool)
    requires Good(s)
    ensures Good(Reset(s, writeFails).state)
  {
  }

  /** Complete settings read back from storage as they were written: the
      defaults beneath them show through nowhere. */
  lemma SpreadComplete(m: Store)
    requires Complete(m)
    ensures Spread(Defaults, m) == m
  {
  }

  /** What a successful save writes, a later load reads back unchanged. */
  lemma SaveThenLoad(s: State, n: Store)
    requires Good(s)
    ensures var saved := Save(s, n, false).state;
      Load(saved, false).state == saved
  {
    var saved := Save(s, n, false).state;
    SpreadComplete(saved.current);
  }

  /** A failed save still changes the settings in memory: the state differs
      from the one before exactly as a successful save's does, except in
      storage. */
  lemma FailedSaveChangesMemory(s: State, n: Store)
    ensures Save(s, n, true).state.current == Save(s, n, false).state.current
    ensures Save(s, n, true).state.stored == s.stored
  {
  }
}
