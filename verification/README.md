# vanilla-ui page script: theme manager and FAQ accordion

A Dafny model of the two pieces of decision logic in the page script `script.js`:

- **ThemeManager** (`theme_manager.dfy`). It handles a two-state light/dark theme. The initial theme comes from the stored preference, then from the system dark-mode preference, then defaults to light. The theme is shown on the root element's `data-theme` attribute. It is persisted under a storage key on a best-effort basis, flipped by the toggle control, and followed across views through `storage` notifications.
- **FAQ accordion click handler** (`faq_accordion.dfy`). This is the "one open" rule: a click on a question closes every other open item and toggles the clicked one.

The host APIs are inputs:

- `localStorage` is a `Store` value: an entry map plus whether this view may read it and whether it may write it. A read returns `Result<Option<string>, StoreError>`. A refused write is swallowed.
- The root element is its attribute map.
- `window.matchMedia` is an `Option<bool>`. `None` stands for a host without the API, which counts as "not dark".
- Whether the toggle control exists is a boolean.
- Incoming clicks and `storage` notifications are discrete `Event`s. A notification reports a write another same-origin document has already made (a set, a removal, or a clear with no key). It also names the storage area written: the persisted local store, or a session store. The listener at script.js:25-29 does not check the area. The model applies a local-store write to the persisted store before the listener runs. A session-store notification leaves the persisted store alone, so only the listener acts on it.

`wrappers.dfy` holds the `Option` and `Result` datatypes.

The state record is `Manager(key, hasToggle, theme, root, store)`. `theme` is a `Theme = Light | Dark`, so it can never be anything else. Two properties are tracked:

- `Consistent`: the root attribute equals the theme's name. Construction establishes it and every event keeps it.
- `Persisted`: whenever the store accepts writes, it holds that name under the key. Construction establishes it. Another view can break it by clearing the local store, removing the key from it, or writing there a value that is not a theme name, because the listener ignores those notifications. It therefore holds only as long as no such event has arrived, and the next toggle or recognised notification restores it.

## Model

| member | source | states |
|---|---|---|
| ThemeManager.Parse | script.js:13 | Exactly the strings "light" and "dark" are recognised as themes. |
| ThemeManager.ParseName | script.js:13 | Parsing the serialised name of a theme gives back that theme. |
| ThemeManager.NameParse | script.js:26-27 | A string accepted as a theme is exactly that theme's serialised name, so the value applied is the value received. |
| ThemeManager.OppositeFlips | script.js:41 | The toggle target differs from the current theme, flipping twice is the identity, and the names map light to dark and dark to light. |
| ThemeManager.ResolveStorageKey | script.js:4 | The key is never empty. A non-empty option is used as given. A missing or empty option gives the default "theme". |
| ThemeManager.InitialTheme | script.js:10-17 | A read of "light" or "dark" decides the theme. Any other read (missing, another string, or a throwing store) gives dark exactly when the system query exists and reports dark. |
| ThemeManager.StoredThemeWins | script.js:11-13 | A stored valid name wins over every system preference. |
| ThemeManager.PreferenceDecidesOtherwise | script.js:14-16 | A failed, empty or unrecognised read falls through to the system preference. |
| ThemeManager.SetTheme | script.js:32-38 | Afterwards the in-memory theme is the given one and the root attribute shows it. A writable store holds it under the key. An unwritable store is unchanged. Other root attributes and other store entries are untouched. |
| ThemeManager.SetThemeReadsBack | script.js:35-36 | After a write to a readable, writable store, reading the key gives the applied theme's name. |
| ThemeManager.SetCurrentThemeIsIdentity | script.js:32-38 | Re-applying the theme already shown and stored changes nothing observable. |
| ThemeManager.SetThemeTwiceLastWins | script.js:32-38 | Of two consecutive applications only the last one is visible in the state. |
| ThemeManager.ToggleTheme | script.js:40-43 | Toggling changes the theme, keeps the invariant, and touches nothing but the theme attribute and the stored key. On an unwritable store the failed write is swallowed and the store is unchanged. |
| ThemeManager.ToggleTwice | script.js:40-43 | Toggling twice restores the theme, the root attribute and the stored value. |
| ThemeManager.OnStorage | script.js:25-29 | A notification for this key carrying "light" or "dark" acts as applying that theme. Every other notification leaves the state unchanged. |
| ThemeManager.StorageDarkSwitchesToDark | script.js:25-28 | A matching notification carrying "dark" makes the manager dark, whatever theme it showed before. |
| ThemeManager.Construct | script.js:3-8 | After construction the key is the resolved option and the theme is the resolved initial theme. The theme is shown on the root and, if the store is writable, stored. |
| ThemeManager.PrefersDark | script.js:15 | The system preference counts as dark exactly when the media-query API exists and reports a match. |
| ThemeManager.Step | script.js:21-29 | An event keeps the key, the toggle binding, the store's access rights and the root's agreement with the theme. A click with a toggle control flips the theme. A notification the listener does not recognise leaves theme and root alone, and a session-store one of that kind changes nothing at all. A recognised one, from either area, shows and stores the carried theme. |
| ThemeManager.ClickWithoutToggleIgnored | script.js:21-23 | Without a toggle control no click listener is bound, so a click changes nothing. |
| ThemeManager.StepPreservesInvariant | script.js:19-30 | Every event keeps the root in step with the theme. An event that does not disturb the record under the key keeps the stored clause too. |
| ThemeManager.ForeignValueLeavesStoreStale | script.js:25-29 | When another view writes any non-theme value under the key to the local store, the listener ignores it. Theme and root are unchanged, and the store no longer holds the theme. |
| ThemeManager.SessionChangeOnlyRunsListener | script.js:25-29 | A session-store notification acts only through the listener, whose area check is missing. A theme name under the key is adopted and written to the persisted store. Anything else leaves the state unchanged, and the invariant holds either way. |
| ThemeManager.StepRestoresPersisted | script.js:25-29 | A toggle click or a recognised notification writes the theme back into a writable store, whatever came before. |
| ThemeManager.RunPreservesInvariant | script.js:19-30 | After any event sequence the root shows the theme. The store holds it too if no event disturbed the record. |
| ThemeManager.RunKeepsConsistent | script.js:19-30 | The root stays in step with the theme through any event sequence, including disturbing ones. |
| ThemeManager.RunKeepsAccess | script.js:32-38 | Events never change whether the store may be read or written. |
| ThemeManager.ReachableStatesAgree | script.js:6-43 | In every state reachable from construction, the root shows "light" or "dark" and that name is the in-memory theme. If no other view cleared the local store, removed the key from it or wrote a non-theme value there under the key, a readable, writable store also reads the theme back. |
| ThemeManager.NoRecordDarkPreference | script.js:10-20 | With no stored record and a dark system preference, the page starts dark and the root says "dark". |
| ThemeManager.StoredLightBeatsDarkPreference | script.js:11-13 | A stored "light" beats a dark system preference. |
| ThemeManager.UnreadableStoreFallsBack | script.js:11-16 | When the store read throws, construction still succeeds and the system preference decides. |
| FaqAccordion.HandleClick | script.js:186-203 | A click that misses every question changes nothing. A click on item i sets its class and `aria-expanded` to the negation of its previous `aria-expanded`. Every other item ends closed, and its `aria-expanded` is false if it had been open. Items that were not open are untouched. At most one item is open afterwards. |
| FaqAccordion.Dispatch | script.js:186-203 | The handler as written computes the item-by-item effect above. It first closes the open items other than the clicked one, one at a time, and then toggles the clicked item. |
| FaqAccordion.ClickKeepsSynced | script.js:194-202 | If every item's class agrees with its `aria-expanded` before a click, the same holds after it. |
| FaqAccordion.ClickOpensOrClosesOne | script.js:191-202 | On an accordion in step, clicking the open question closes every item, and clicking a closed question leaves exactly that item open. |
| FaqAccordion.ClickTwiceRestores | script.js:191-202 | Clicking one question twice restores the accordion when no other item was open. |
| FaqAccordion.StaleExpandedSurvives | script.js:194-198 | A click on one question leaves every other closed item's `aria-expanded` as it was, because only items with the open class are collapsed. A closed item still marked expanded therefore keeps the accordion out of step. |

## Left out

- The other classes and the start-up code (`MobileMenu`, `ScrollAnimations`, `SmoothScroll`, `NavbarScroll`, hero fade-ins, script.js:47-180). They only wire DOM, IntersectionObserver, scroll and timer events and contain no decision logic.
- The real `localStorage`, `matchMedia`, `document` and `addEventListener` calls. They are inputs: a `Store` value, an `Option<bool>` preference, a `hasToggle` flag and an event sequence.
- The `toggleId` option and the element lookup. The model takes only whether a toggle control was found.
- Changes in store availability over time. Whether the store may be read or written is fixed for a given `Store` value. A view whose access changes mid-session is modelled by a new `Store` value.
- ThemeManager.ReachableStatesAgree: the store clause assumes a writable store accepts every write. A one-off failure such as a quota error is swallowed by the page, so the store can also go stale that way. The model has no per-call write failure, so it does not cover that case.
- Cross-view delivery and timing. A notification is taken to arrive after the other view's write and before any other event of this view.
- A `matchMedia` call that itself throws (it sits outside the `try` at script.js:15). The model assumes the query returns or is absent.
- FAQ markup edge cases. A question outside any `.faq-item` makes `item` null and the handler throws at script.js:201. An open item without a question button only loses its class (optional call at script.js:197). Both are outside the model, which assumes every item has exactly one question.
- FaqAccordion: an `aria-expanded` attribute is reduced to a flag, true exactly when it reads "true". An absent attribute and any other string both read as false, exactly as the comparison at script.js:191 does.
