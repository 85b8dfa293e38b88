# Site script model

A Dafny model of `app.js`, the one shared script of a multi-page artist
website. The script is six immediately invoked blocks, and each becomes one
module of pure functions over an abstract DOM:

- **Theme** (`theme.dfy`): the `light` class on the root element, persisted
  under the storage key `theme`. It is applied at start-up and flipped by a
  toggle button or the `t` hotkey.
- **ActiveNav** (`active_nav.dfy`): `aria-current="page"` on the navigation
  links whose target file name is the current page's file name.
- **MobileMenu** (`mobile_menu.dfy`): the hamburger button that opens and
  closes the navigation panel. A click on a link inside the panel closes it.
- **SongToggles** (`song_toggles.dfy`): per-album show/hide buttons for the
  song lists. The lists start hidden.
- **Reveal** (`reveal.dfy`): the one-shot reveal-on-scroll observer callback.
- **ExternalLinks** (`external_links.dfy`): the `rel` hardening of links that
  open a new browsing context.

Supporting modules:

- `wrappers.dfy`: `Option`.
- `dom.dfy`: an element as an attribute map, a class set and a text.
- `js_strings.dfy`: the JavaScript string operations the script relies on:
  - `split` on a character, keeping empty fields;
  - `split(/\s+/)`, keeping a leading and a trailing empty field;
  - `join`;
  - `trim`, over the ECMAScript WhiteSpace and LineTerminator code points;
  - `toLowerCase`.

## Model

| member | source | states |
|---|---|---|
| JsStrings.Split | app.js:39 | `split("/")` always yields at least one field, no field contains the separator, and there is exactly one field iff the separator does not occur |
| JsStrings.JoinSplit | app.js:39 | joining the fields of a split with the separator gives back the original string |
| JsStrings.SplitJoin | app.js:39 | splitting a join of separator-free fields gives back the fields |
| JsStrings.SplitLastField | app.js:39 | the field `pop()` returns is the text after the final separator, or the whole string when there is none |
| JsStrings.LastFieldUnique | app.js:39 | that description of the last field determines it uniquely |
| JsStrings.Trim | app.js:135 | `trim()` returns the infix between the leading and trailing whitespace runs: it neither starts nor ends with whitespace, and it is empty iff the input is all whitespace |
| JsStrings.Join | app.js:135 | `join` of no fields is "", and otherwise the result starts with the first field |
| JsStrings.SplitWs | app.js:132 | `split(/\s+/)` yields at least one field, no field contains whitespace, the first field is empty iff the string is empty or starts with whitespace, and only the first and last fields can be empty |
| JsStrings.Collapse | app.js:132-135 | the reference for the space join of a split: no longer than the input, empty iff the input is, starting with whitespace iff the input does, with only single spaces as whitespace and never two whitespace characters in a row |
| JsStrings.JoinSplitWs | app.js:132-135 | joining the fields of `split(/\s+/)` with single spaces gives the input with each maximal whitespace run replaced by one space |
| JsStrings.SplitWsCharacterised | app.js:132 | the split is the only field sequence (at least one field, none with whitespace, interior fields non-empty) whose space join is the collapsed input, so `JoinSplitWs` determines every field's content |
| JsStrings.SplitWsLast | app.js:132 | the last field is empty iff the string is empty or ends with whitespace |
| JsStrings.SplitWsJoin | app.js:132-135 | splitting the space join of whitespace-free fields whose interior fields are non-empty gives back the fields |
| JsStrings.SplitWsEdges | app.js:132 | for a non-empty word `w` without whitespace: `""` splits into `[""]`, `w` into `[w]`, `" " + w` into `["", w]` and `w + " "` into `[w, ""]` |
| JsStrings.NonEmpty | app.js:132-135 | dropping empty fields keeps every non-empty token and yields no empty one |
| JsStrings.SplitWsPrefix | app.js:132 | a whitespace-free prefix glues onto the first field of the rest's split |
| JsStrings.WordsTrim | app.js:135 | trimming does not change the non-empty whitespace-separated words |
| JsStrings.WordsJoin | app.js:135 | the words of `fields.join(" ")` are the non-empty fields, in order, duplicates kept |
| JsStrings.SplitWsOfTrimmed | app.js:132 | a string with no whitespace at either end splits into its words with no empty field |
| JsStrings.LowerChar | app.js:32 | `toLowerCase` maps each ASCII capital to the matching small letter and fixes every other character |
| JsStrings.ToLower | app.js:32 | the lowered string has the same length, each ASCII capital becomes its small letter, every other character stays, and no ASCII capital is left |
| Dom.SetAttribute | app.js:48 | after `setAttribute` the attribute reads back as the value and nothing else changes |
| Dom.RemoveAttribute | app.js:50 | after `removeAttribute` the attribute reads back as absent and nothing else changes |
| Theme.Init | app.js:15-18 | start-up adds `light` iff the stored value is exactly "light"; it never removes a `light` class already present, writes no storage and touches no other class |
| Theme.InitTwice | app.js:15-18 | running start-up twice gives the same state as once |
| Theme.Toggle | app.js:21-24 | the `light` class flips, no other class changes, and storage then holds "light" or "dark" in agreement with the class |
| Theme.ToggleTwice | app.js:21-24 | two toggles restore the root's classes, and a consistent state with an explicit stored value is restored entirely; storage that held nothing ends up holding the current theme |
| Theme.ToggleTwiceStoresDark | app.js:21-24 | from an empty store, two toggles leave "dark" stored, so the store differs from the start |
| Theme.ToggleKeys | app.js:31-33 | exactly the keys "t" and "T" trigger the hotkey |
| Theme.Handle | app.js:26-33 | a toggle click or the hotkey flips the theme, changes no other root class and stores the new theme as "light" or "dark"; any other key changes nothing |
| Theme.RunParity | app.js:21-33 | after any sequence of events the theme is the start theme flipped once per toggling event |
| Theme.RunConsistent | app.js:21-33 | storage and root that agree keep agreeing under any events |
| ActiveNav.FileName | app.js:39 | `split("/").pop() \|\| "index.html"` is never empty and contains no `/`; an empty path or one ending in `/` gives "index.html", and otherwise the result is the text after the last `/` |
| ActiveNav.FileNameOfPlain | app.js:39 | a non-empty name without `/` is its own file name |
| ActiveNav.FileNameOfLastField | app.js:39 | a non-empty text after the final `/` is the file name |
| ActiveNav.FileNameIgnoresDirectory | app.js:39 | directories in front of a file name do not change it |
| ActiveNav.LinkTarget | app.js:44-46 | a link's target file name is never empty and contains no `/`; a missing href gives "index.html", and an href not ending in `/` gives the text after its last `/` |
| ActiveNav.MarkLink | app.js:47-51 | one link gets `aria-current="page"` when its target is the page's file name and loses the attribute otherwise; nothing else changes |
| ActiveNav.HighlightActiveNav | app.js:42-53 | a link gets `aria-current="page"` iff its href's file name (a missing href reads as "") equals the page's, and otherwise has no `aria-current`; nothing else on any link changes |
| ActiveNav.IsCurrentIgnoresMarker | app.js:44-51 | whether a link is current does not depend on the attribute the pass writes, so a second pass marks the same links |
| ActiveNav.HomeLinks | app.js:46 | a link with no href, an empty href or one ending in `/` is current iff the page is the home page |
| ActiveNav.SeveralCurrent | app.js:46-47 | links that name the page's file from different directories are all current, and a link naming another file is not |
| MobileMenu.Handle | app.js:61-76 | with either element missing nothing happens. A button click flips `data-open` and writes "true"/"false" to both attributes. A click on a link in the panel writes "false" to both. Any other panel click changes nothing. Only the two attributes ever change |
| MobileMenu.ToggleTwice | app.js:63-67 | two button clicks restore whether the menu is open |
| MobileMenu.LinkClickCloses | app.js:71-76 | a link click closes the menu whatever its state, and a button click just before it makes no difference |
| MobileMenu.RunSynced | app.js:63-76 | once the panel's `data-open` and the button's `aria-expanded` agree they keep agreeing, and every button or link click makes them agree |
| SongToggles.Setup | app.js:83-88 | a found list ends up hidden with nothing else changed; an already hidden list, or a button without a list, is left alone |
| SongToggles.SetupTwice | app.js:83-88 | start-up is idempotent |
| SongToggles.Click | app.js:90-100 | a click flips the list's `hidden` and sets the label and `aria-expanded` to agree with the new state; nothing else changes, and a button without a list does nothing |
| SongToggles.ClicksParity | app.js:90-100 | after `n` clicks the list is hidden iff it was hidden and `n` is even (or shown and `n` is odd), and from the first click on the label agrees |
| SongToggles.ClicksFromSetup | app.js:88-100 | from start-up, odd click counts show the list with "Hide Songs ▲" and `aria-expanded="true"`; positive even counts hide it with "View Songs ▼" and "false" |
| SongToggles.EvenClicksNeedNotRestoreLabel | app.js:88-100 | start-up never writes the label, so two clicks can leave a label different from the served one |
| SongToggles.SetupPage | app.js:82-88 | after start-up every list some button finds is hidden with nothing else on it changed, a list already hidden or found by no button is unchanged, and no button changes |
| SongToggles.ClickButton | app.js:90-101 | a click on a button that finds a list flips that list and makes this button's label and `aria-expanded` agree with it; no other button or list changes, and a button without a list does nothing |
| SongToggles.ClickButtonIsClick | app.js:90-100 | seen from the clicked button a page click is the single-card click, so the card lemmas hold for each button of a page |
| SongToggles.SharedListStaleLabel | app.js:83-100 | when two buttons find the same list, a click on one flips the list the other controls and leaves the other's label stale |
| Reveal.Start | app.js:115-125 | without observer support or with no candidates nothing is observed, otherwise every candidate is |
| Reveal.OnEntry | app.js:118-122 | a non-intersecting entry changes nothing; an intersecting one adds `in` to its target and unobserves it, touching nothing else |
| Reveal.OnBatch | app.js:117-122 | after a batch, an element is revealed iff it was before or an intersecting entry targeted it, and it is still observed iff it was and no intersecting entry targeted it |
| Reveal.RevealedStaysPut | app.js:120 | an entry for an already revealed element does not change the elements |
| Reveal.RunOneShot | app.js:117-125 | across any batches a revealed element stays revealed and the observed set only shrinks; if every unobserved element was revealed, that stays true |
| Reveal.StartLeftOnlyByReveal | app.js:115-125 | right after start-up every unobserved element has been revealed |
| ExternalLinks.AddMissing | app.js:133-134 | the two conditional pushes append exactly the missing tokens, `noopener` first, so both are present afterwards |
| ExternalLinks.MissingFacts | app.js:133-134 | the appended tokens are non-empty and whitespace-free, and empty fields do not affect which are missing |
| ExternalLinks.HardenRel | app.js:132-135 | the new `rel` is non-empty with no whitespace at either end, and it splits into the old non-empty tokens, in order with duplicates, followed by the missing ones, so it holds both `noopener` and `noreferrer` |
| ExternalLinks.HardenedHasNoEmptyToken | app.js:132-135 | the hardened value splits into non-empty tokens and misses neither token |
| ExternalLinks.HardenRelSecondPass | app.js:132-135 | a second pass adds no token |
| ExternalLinks.HardenRelStable | app.js:132-135 | from the second pass on the value is a fixed point |
| ExternalLinks.TrailingSpace | app.js:132-135 | `"w "` becomes `"w  noopener noreferrer"`, with a double space from the trailing empty field, and a second pass turns that into `"w noopener noreferrer"`: one pass is not a fixed point |
| ExternalLinks.KeepsDuplicates | app.js:132-135 | a duplicated token stays duplicated |
| ExternalLinks.TargetIgnoresCase | app.js:131 | the `a[target="_blank"]` selector matches `target="_BLANK"`, and neither `_self` nor a missing `target` |
| ExternalLinks.HardenLink | app.js:131-135 | a link whose `target` is `_blank` in any ASCII case gets the hardened `rel`, which keeps the old words in order and then the missing tokens (an absent `rel` reads as ""), and nothing else changes; any other link is untouched |
| ExternalLinks.HardenExternalLinks | app.js:130-137 | every link opening a new context gets exactly the hardened value of its old `rel`, ends up with both tokens, and changes only `rel`; every other link is unchanged |

## Behaviour worth knowing

The model follows the code in these places, where a prose reading of the
script would suggest otherwise:

- Toggling the theme twice restores the root but not the storage when
  nothing was stored: "dark" or "light" is then stored (`Theme.ToggleTwice`).
- Start-up only adds `light`. A `light` class already in the markup stays
  even when "dark" is stored (`Theme.Init`).
- Several navigation links can be marked current at once. Only file names
  are compared, and directories are ignored (`ActiveNav.SeveralCurrent`).
- The song buttons' label is written only on click. Two clicks hide the list
  again but leave the "View Songs ▼" label, not the one the page was served
  with (`SongToggles.EvenClicksNeedNotRestoreLabel`).
- Two toggle buttons in one album card find the same song list. A click on
  one shows or hides the list for both, but only the clicked button's
  label follows, so the other's label goes stale
  (`SongToggles.SharedListStaleLabel`).
- The `a[target="_blank"]` selector compares the value ASCII
  case-insensitively in an HTML document, so `target="_BLANK"` links are
  hardened too (`ExternalLinks.TargetIgnoresCase`).
- The `rel` hardening keeps duplicate tokens (`ExternalLinks.KeepsDuplicates`).
- A trailing whitespace run in `rel` leaves an empty field that survives the
  join as a double space. A second pass removes it, so the hardened value is
  only stable from the second pass on (`ExternalLinks.TrailingSpace`,
  `ExternalLinks.HardenRelStable`).

## Left out

- Element lookup: `querySelector`/`querySelectorAll`, selectors and `closest`. Each module takes the elements the selectors would find as input. For example, a song page gives for each button the position of the list its card holds, if any, and a menu click carries "inside a link" as a flag. The `a[target="_blank"]` match is modelled, as an ASCII case-insensitive comparison on the given links.
- Event registration: `addEventListener` is not modelled. Events arrive as sequences, applied in order.
- `localStorage` failures and exceptions, and the `try { … } catch` around each navigation link. No modelled operation throws.
- Reveal.Start: the observer's geometry is not modelled: the threshold 0.12, the root margin "0px 0px -40px 0px", and when the browser reports intersection. `"IntersectionObserver" in window` is the `supported` flag, and entries arrive as batches of (target, isIntersecting).
- JsStrings.LowerChar: `toLowerCase` is modelled on ASCII letters only. Full Unicode case mapping is not. This is enough to decide the `t` hotkey test, because no non-ASCII character lowercases to "t".
- Class order: classes are a set, because the script only adds, removes and tests classes.
- `location.pathname` and the candidate elements of the reveal observer are parameters.
- Markup and CSS are not part of this model.
