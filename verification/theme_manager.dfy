/**
 The light/dark theme manager of the page script.

 The manager keeps one theme in memory, mirrors it on the `data-theme`
 attribute of the document's root element, and persists it under a storage
 key in the origin's key-value store on a best-effort basis. The host APIs are
 inputs here: the store is a value that may refuse reads or writes, the root
 element is its attribute map, and the system dark-mode query is an optional
 boolean (absent when the host has no media-query API).
 */
module ThemeManager {
  import opened Wrappers

  /** The two themes; nothing else is ever applied. */
  datatype Theme = Light | Dark

  /** Storage key used when the caller gives none (or gives the empty string). */
  const DefaultStorageKey: string := "theme"

  /** Name of the root attribute that stylesheets key off. */
  const ThemeAttribute: string := "data-theme"

  /** Serialised form of a theme, used both on the root and in the store. */
  function Name(t: Theme): string
  {
    match t
    case Light => "light"
    case Dark => "dark"
  }

  /** Recognises exactly the two serialised names; every other string is ignored. */
  function Parse(s: string): (r: Option<Theme>)
    ensures r.Some? <==> (s == "light" || s == "dark")
  {
    if s == "light" then Some(Light)
    else if s == "dark" then Some(Dark)
    else None
  }

  lemma ParseName(t: Theme)
    ensures Parse(Name(t)) == Some(t)
  {
  }

  lemma NameParse(s: string, t: Theme)
    requires Parse(s) == Some(t)
    ensures Name(t) == s
  {
  }

  /** The theme a toggle switches to. */
  function Opposite(t: Theme): Theme
  {
    if t == Light then Dark else Light
  }

  lemma OppositeFlips(t: Theme)
    ensures Opposite(t) != t
    ensures Opposite(Opposite(t)) == t
    ensures Name(Opposite(t)) == (if Name(t) == "light" then "dark" else "light")
  {
  }

  // ---------------------------------------------------------------------------
  // The key-value store
  // ---------------------------------------------------------------------------

  /** The one failure kind: the store is disabled or access is denied. */
  datatype StoreError = StorageUnavailable

  /** The origin's key-value store, together with whether this view may read and write it. */
  datatype Store = Store(entries: map<string, string>, readable: bool, writable: bool)

  /** The value held under `key`, regardless of access rights. */
  function StoredAt(s: Store, key: string): Option<string>
  {
    if key in s.entries then Some(s.entries[key]) else None
  }

  /** A read: throws when the store is unreadable, otherwise the value or `null`. */
  function GetItem(s: Store, key: string): Result<Option<string>, StoreError>
  {
    if s.readable then Ok(StoredAt(s, key)) else Err(StorageUnavailable)
  }

  /** A write: throws when the store is unwritable, otherwise records the value. */
  function SetItem(s: Store, key: string, value: string): Result<Store, StoreError>
  {
    if s.writable then Ok(s.(entries := s.entries[key := value])) else Err(StorageUnavailable)
  }

  // ---------------------------------------------------------------------------
  // Manager state and its invariants
  // ---------------------------------------------------------------------------

  /**
   The state the manager acts on: its storage key, whether a toggle control was
   found (so that clicks reach it), the in-memory theme, the root element's
   attributes and the store.
   */
  datatype Manager = Manager(
    key: string,
    hasToggle: bool,
    theme: Theme,
    root: map<string, string>,
    store: Store)

  /** The root attribute shows the in-memory theme. */
  predicate Consistent(m: Manager)
  {
    ThemeAttribute in m.root && m.root[ThemeAttribute] == Name(m.theme)
  }

  /** Whenever the store accepts writes, it holds the in-memory theme under the key. */
  predicate Persisted(m: Manager)
  {
    m.store.writable ==> StoredAt(m.store, m.key) == Some(Name(m.theme))
  }

  predicate Invariant(m: Manager)
  {
    Consistent(m) && Persisted(m)
  }

  /** The root attributes other than the theme attribute are the same in both maps. */
  ghost predicate OtherAttributesKept(before: map<string, string>, after: map<string, string>)
  {
    && (forall a :: a in before && a != ThemeAttribute ==> a in after && after[a] == before[a])
    && (forall a :: a in after && a != ThemeAttribute ==> a in before)
  }

  /** The store's access rights and every entry except the one under `key` are unchanged. */
  ghost predicate OtherEntriesKept(before: Store, after: Store, key: string)
  {
    && after.readable == before.readable
    && after.writable == before.writable
    && forall k :: k != key ==> StoredAt(after, k) == StoredAt(before, k)
  }

  // ---------------------------------------------------------------------------
  // Operations
  // ---------------------------------------------------------------------------

  /** The storage key from the options: a missing or empty option falls back to the default. */
  function ResolveStorageKey(option: Option<string>): (key: string)
    ensures key != ""
    ensures option.Some? && option.value != "" ==> key == option.value
    ensures option == None || option == Some("") ==> key == DefaultStorageKey
  {
    match option
    case Some(k) => if k != "" then k else DefaultStorageKey
    case None => DefaultStorageKey
  }

  /** Whether the host reports a dark system preference; a host without the query says no. */
  function PrefersDark(matchMedia: Option<bool>): (dark: bool)
    ensures dark <==> matchMedia == Some(true)
  {
    match matchMedia
    case Some(matches) => matches
    case None => false
  }

  /**
   The initial theme from the store read and the system preference: a valid
   stored value wins; a missing, unrecognised or failed read falls through to
   the system preference, whose absence means light.
   */
  function InitialTheme(read: Result<Option<string>, StoreError>, matchMedia: Option<bool>): (t: Theme)
    ensures read == Ok(Some("light")) ==> t == Light
    ensures read == Ok(Some("dark")) ==> t == Dark
    ensures read != Ok(Some("light")) && read != Ok(Some("dark")) ==>
              (t == Dark <==> matchMedia == Some(true))
  {
    match read
    case Ok(Some(stored)) =>
      if Parse(stored).Some? then Parse(stored).value
      else if PrefersDark(matchMedia) then Dark else Light
    case _ =>
      if PrefersDark(matchMedia) then Dark else Light
  }

  /**
   Applies a theme: the root attribute and the in-memory theme are set, and the
   store write is attempted; a refused write leaves the store as it was.
   */
  function SetTheme(m: Manager, t: Theme): (r: Manager)
    ensures r.theme == t
    ensures Invariant(r)
    ensures r.key == m.key && r.hasToggle == m.hasToggle
    ensures OtherAttributesKept(m.root, r.root)
    ensures OtherEntriesKept(m.store, r.store, m.key)
    ensures !m.store.writable ==> r.store == m.store
  {
    var store := match SetItem(m.store, m.key, Name(t))
      case Ok(s) => s
      case Err(_) => m.store;
    m.(root := m.root[ThemeAttribute := Name(t)], theme := t, store := store)
  }

  /** Switches to the other theme. */
  function ToggleTheme(m: Manager): (r: Manager)
    ensures r.theme != m.theme
    ensures Invariant(r)
    ensures r.key == m.key && r.hasToggle == m.hasToggle
    ensures OtherAttributesKept(m.root, r.root)
    ensures OtherEntriesKept(m.store, r.store, m.key)
    ensures !m.store.writable ==> r.store == m.store
  {
    SetTheme(m, Opposite(m.theme))
  }

  /**
   The `storage` listener: only a change under this manager's key to one of the
   two theme names is applied; every other notification is ignored.
   */
  function OnStorage(m: Manager, key: Option<string>, newValue: Option<string>): (r: Manager)
    ensures key == Some(m.key) && newValue == Some("light") ==> r == SetTheme(m, Light)
    ensures key == Some(m.key) && newValue == Some("dark") ==> r == SetTheme(m, Dark)
    ensures !(key == Some(m.key) && (newValue == Some("light") || newValue == Some("dark"))) ==> r == m
  {
    if key == Some(m.key) && newValue.Some? && Parse(newValue.value).Some? then
      SetTheme(m, Parse(newValue.value).value)
    else
      m
  }

  /**
   Construction: the key is resolved from the options, the initial theme is
   resolved from the store and the system preference, and it is applied.
   */
  function Construct(storageKey: Option<string>, hasToggle: bool, root: map<string, string>,
                     store: Store, matchMedia: Option<bool>): (m: Manager)
    ensures m.key == ResolveStorageKey(storageKey) && m.hasToggle == hasToggle
    ensures m.theme == InitialTheme(GetItem(store, m.key), matchMedia)
    ensures Invariant(m)
    ensures OtherAttributesKept(root, m.root)
    ensures OtherEntriesKept(store, m.store, m.key)
  {
    var key := ResolveStorageKey(storageKey);
    var initial := Manager(key, hasToggle, Light, root, store);
    SetTheme(initial, InitialTheme(GetItem(store, key), matchMedia))
  }

  // ---------------------------------------------------------------------------
  // Events after construction
  // ---------------------------------------------------------------------------

  /**
   The store a notification's write went to: the persisted local store this
   manager uses, or a session store of a same-origin document. The listener
   does not look at it.
   */
  datatype StorageArea = LocalArea | SessionArea

  /**
   What reaches a constructed manager: a click on the toggle control, or a
   `storage` notification. A notification reports a write another document has
   already made to `area`: `key` is absent for a clear, and `newValue` is absent
   for a removal.
   */
  datatype Event =
    | ToggleClick
    | StorageChange(area: StorageArea, key: Option<string>, newValue: Option<string>)

  /** The persisted store after another view's write, as the notification reports it. */
  function ExternalWrite(s: Store, key: Option<string>, newValue: Option<string>): (r: Store)
    ensures r.readable == s.readable && r.writable == s.writable
    ensures key == None ==> r.entries == map[]
    ensures key.Some? ==> StoredAt(r, key.value) == newValue
    ensures forall k :: key.Some? && k != key.value ==> StoredAt(r, k) == StoredAt(s, k)
  {
    match key
    case None => s.(entries := map[])
    case Some(k) =>
      match newValue
      case None => s.(entries := s.entries - {k})
      case Some(v) => s.(entries := s.entries[k := v])
  }

  /** A notification that `key`'s listener acts on: this key, carrying a theme name. */
  predicate Recognised(e: Event, key: string)
  {
    e.StorageChange? && e.key == Some(key) && (e.newValue == Some("light") || e.newValue == Some("dark"))
  }

  /**
   A notification that changes the persisted record under `key` while the
   listener ignores it: a clear of the local store, a removal of the key from
   it, or a value written there that is not a theme name.
   */
  predicate Disturbs(e: Event, key: string)
  {
    && e.StorageChange?
    && e.area == LocalArea
    && (e.key == None || (e.key == Some(key) && !Recognised(e, key)))
  }

  /**
   One event. A click has no listener when no toggle control was found. A
   notification about the local store first carries the other view's write into
   the store; a session-store notification leaves the persisted store alone.
   Either way the listener then runs.
   */
  function Step(m: Manager, e: Event): (r: Manager)
    ensures r.key == m.key && r.hasToggle == m.hasToggle
    ensures r.store.readable == m.store.readable && r.store.writable == m.store.writable
    ensures Consistent(m) ==> Consistent(r)
    ensures e == ToggleClick && m.hasToggle ==> r.theme != m.theme
    ensures e.StorageChange? && !Recognised(e, m.key) ==> r.theme == m.theme && r.root == m.root
    ensures Recognised(e, m.key) ==> Name(r.theme) == e.newValue.value && Persisted(r)
    ensures e.StorageChange? && e.area == SessionArea && !Recognised(e, m.key) ==> r == m
  {
    match e
    case ToggleClick => if m.hasToggle then ToggleTheme(m) else m
    case StorageChange(area, key, newValue) =>
      var store := if area == LocalArea then ExternalWrite(m.store, key, newValue) else m.store;
      OnStorage(m.(store := store), key, newValue)
  }

  /** A sequence of events, handled one after another. */
  function Run(m: Manager, events: seq<Event>): Manager
    decreases |events|
  {
    if |events| == 0 then m else Run(Step(m, events[0]), events[1..])
  }

  // ---------------------------------------------------------------------------
  // Properties
  // ---------------------------------------------------------------------------

  /** A stored valid value wins over any system preference. */
  lemma StoredThemeWins(t: Theme, matchMedia: Option<bool>)
    ensures InitialTheme(Ok(Some(Name(t))), matchMedia) == t
  {
  }

  /** Without a valid stored value (missing, unrecognised or unreadable) the system preference decides. */
  lemma PreferenceDecidesOtherwise(read: Result<Option<string>, StoreError>, matchMedia: Option<bool>)
    requires read.Err? || read.value.None? || Parse(read.value.value).None?
    ensures InitialTheme(read, matchMedia) == (if PrefersDark(matchMedia) then Dark else Light)
  {
  }

  /** Applying the theme already shown and stored changes nothing. */
  lemma SetCurrentThemeIsIdentity(m: Manager)
    requires Invariant(m)
    ensures SetTheme(m, m.theme) == m
  {
  }

  /** After a successful write the store reads back the applied theme. */
  lemma SetThemeReadsBack(m: Manager, t: Theme)
    requires m.store.readable && m.store.writable
    ensures GetItem(SetTheme(m, t).store, m.key) == Ok(Some(Name(t)))
  {
  }

  /** Toggling twice restores the theme, the root attribute and the stored value. */
  lemma ToggleTwice(m: Manager)
    requires Invariant(m)
    ensures ToggleTheme(ToggleTheme(m)) == m
  {
  }

  /** Of two consecutive applications only the second is visible. */
  lemma SetThemeTwiceLastWins(m: Manager, t1: Theme, t2: Theme)
    ensures SetTheme(SetTheme(m, t1), t2) == SetTheme(m, t2)
  {
  }

  /** A matching notification to "dark" makes the manager dark, whatever it showed before. */
  lemma StorageDarkSwitchesToDark(m: Manager)
    ensures OnStorage(m, Some(m.key), Some("dark")).theme == Dark
    ensures Consistent(OnStorage(m, Some(m.key), Some("dark")))
  {
  }

  /** A click has no effect when the page has no toggle control. */
  lemma ClickWithoutToggleIgnored(m: Manager)
    requires !m.hasToggle
    ensures Step(m, ToggleClick) == m
  {
  }

  /**
   An event that does not disturb the record keeps the whole invariant; a
   disturbing one keeps the root in step with the theme.
   */
  lemma StepPreservesInvariant(m: Manager, e: Event)
    requires Invariant(m)
    ensures Consistent(Step(m, e))
    ensures !Disturbs(e, m.key) ==> Invariant(Step(m, e))
  {
  }

  /**
   Another view's write to the local store of any value that is not a theme
   name is ignored by the listener, so the store no longer holds the theme the
   page shows.
   */
  lemma ForeignValueLeavesStoreStale(m: Manager, v: string)
    requires Invariant(m) && m.store.writable && Parse(v).None?
    ensures Step(m, StorageChange(LocalArea, Some(m.key), Some(v))).theme == m.theme
    ensures Step(m, StorageChange(LocalArea, Some(m.key), Some(v))).root == m.root
    ensures !Persisted(Step(m, StorageChange(LocalArea, Some(m.key), Some(v))))
  {
  }

  /**
   A session-store notification does not touch the persisted store: the state
   changes only through the listener, so a theme name under the key is adopted
   and written to the local store, and anything else leaves the invariant intact.
   */
  lemma SessionChangeOnlyRunsListener(m: Manager, key: Option<string>, newValue: Option<string>)
    requires Invariant(m)
    ensures Step(m, StorageChange(SessionArea, key, newValue)) == OnStorage(m, key, newValue)
    ensures Invariant(Step(m, StorageChange(SessionArea, key, newValue)))
  {
  }

  /** A toggle click or a recognised notification puts the theme back into a writable store. */
  lemma StepRestoresPersisted(m: Manager, e: Event)
    requires (e == ToggleClick && m.hasToggle) || Recognised(e, m.key)
    ensures Persisted(Step(m, e))
  {
  }

  /** No event of the sequence disturbs the record under `key`. */
  predicate Undisturbed(events: seq<Event>, key: string)
  {
    forall i :: 0 <= i < |events| ==> !Disturbs(events[i], key)
  }

  /**
   After any sequence of events the root shows the in-memory theme; the store
   holds it too as long as no event disturbed the record.
   */
  lemma {:induction false} RunPreservesInvariant(m: Manager, events: seq<Event>)
    requires Invariant(m)
    ensures Consistent(Run(m, events))
    ensures Undisturbed(events, m.key) ==> Invariant(Run(m, events))
    ensures Run(m, events).key == m.key
    decreases |events|
  {
    if |events| > 0 {
      var next := Step(m, events[0]);
      if Disturbs(events[0], m.key) {
        RunKeepsConsistent(next, events[1..]);
      } else {
        StepPreservesInvariant(m, events[0]);
        assert Undisturbed(events, m.key) ==> Undisturbed(events[1..], m.key) by {
          if Undisturbed(events, m.key) {
            forall i | 0 <= i < |events[1..]|
              ensures !Disturbs(events[1..][i], m.key)
            {
              assert events[1..][i] == events[i + 1];
            }
          }
        }
        RunPreservesInvariant(next, events[1..]);
      }
    }
  }

  /** The root shows the in-memory theme after any sequence of events. */
  lemma {:induction false} RunKeepsConsistent(m: Manager, events: seq<Event>)
    requires Consistent(m)
    ensures Consistent(Run(m, events))
    ensures Run(m, events).key == m.key
    decreases |events|
  {
    if |events| > 0 {
      RunKeepsConsistent(Step(m, events[0]), events[1..]);
    }
  }

  /**
   Every state reachable from construction shows one of the two theme names on
   the root, and that name is the in-memory theme. As long as no other view
   disturbed the record, a readable, writable store also reads it back.
   */
  lemma ReachableStatesAgree(storageKey: Option<string>, hasToggle: bool, root: map<string, string>,
                             store: Store, matchMedia: Option<bool>, events: seq<Event>)
    ensures var m := Run(Construct(storageKey, hasToggle, root, store, matchMedia), events);
      && ThemeAttribute in m.root
      && (m.root[ThemeAttribute] == "light" || m.root[ThemeAttribute] == "dark")
      && m.root[ThemeAttribute] == Name(m.theme)
    ensures var m := Run(Construct(storageKey, hasToggle, root, store, matchMedia), events);
      Undisturbed(events, m.key) && m.store.readable && m.store.writable ==>
        GetItem(m.store, m.key) == Ok(Some(Name(m.theme)))
  {
    var m0 := Construct(storageKey, hasToggle, root, store, matchMedia);
    RunPreservesInvariant(m0, events);
    RunKeepsAccess(m0, events);
  }

  /** Events never change whether the store may be read or written. */
  lemma {:induction false} RunKeepsAccess(m: Manager, events: seq<Event>)
    ensures Run(m, events).store.readable == m.store.readable
    ensures Run(m, events).store.writable == m.store.writable
    decreases |events|
  {
    if |events| > 0 {
      RunKeepsAccess(Step(m, events[0]), events[1..]);
    }
  }

  /** With no stored record and a dark system preference, the page starts dark. */
  lemma NoRecordDarkPreference(storageKey: Option<string>, hasToggle: bool, root: map<string, string>,
                               store: Store)
    requires store.readable && ResolveStorageKey(storageKey) !in store.entries
    ensures Construct(storageKey, hasToggle, root, store, Some(true)).theme == Dark
    ensures Construct(storageKey, hasToggle, root, store, Some(true)).root[ThemeAttribute] == "dark"
  {
  }

  /** A stored "light" beats a dark system preference. */
  lemma StoredLightBeatsDarkPreference(hasToggle: bool, root: map<string, string>, store: Store)
    requires store.readable && StoredAt(store, DefaultStorageKey) == Some("light")
    ensures Construct(None, hasToggle, root, store, Some(true)).theme == Light
  {
  }

  /** An unreadable store falls back to the system preference. */
  lemma UnreadableStoreFallsBack(storageKey: Option<string>, hasToggle: bool, root: map<string, string>,
                                 store: Store, matchMedia: Option<bool>)
    requires !store.readable
    ensures Construct(storageKey, hasToggle, root, store, matchMedia).theme
         == (if matchMedia == Some(true) then Dark else Light)
  {
  }
}
