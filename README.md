# NewTab++ new-tab page: a Dafny model of its list and record logic

This project models the decision logic of the NewTab++ browser extension's
new-tab page (`src/newtab.js`) and of its alternative slot-based page
(`src/scripts/newtab.js`). The page's storage plumbing, DOM and network are
left out. The contracts state what the code promises.

What is modelled:

- **Search history**: a most-recent-first list of past queries. It is
  deduplicated case-insensitively, capped at 50 entries, filtered by
  case-insensitive prefix as the user types, and entries can be deleted from
  the dropdown.
- **Search dropdown**:
  - the rows shown: at most 8 history rows, then suggestions, none of which
    repeats the history;
  - the literal query offered as a suggestion;
  - the keyboard selection index: arrows, Enter, Escape, any other key;
  - the submit rule that turns a bare host name into an `https://` navigation.
- **Shortcut grid**: an ordered list of at most 20 shortcuts with unique ids.
  It supports the add/edit form, add, edit in place, delete by id and
  drag-to-reorder by splicing. Each operation is shown to keep the list
  invariant: the cap, unique ids and http(s) URLs. The letter drawn when no
  favicon is available is modelled too.
- **Favicon cache**: at most 100 hostnames. When the cache is full, the entry
  with the oldest timestamp is evicted. A quota error resets the cache to the
  single new entry.
- **Storage routing**:
  - a payload over the size limit, or one refused with a quota error, goes
    to the local-storage fallback key `newtab_data`;
  - start-up fills in default settings and shortcuts only where they are
    missing;
  - the version migration writes only when the stored version differs.
- **Settings dialog**: the working copy that the controls change, the upload
  check (an `image/` type and at most 1.5 MiB), and validation and write-back
  on save.
- **Slot editor** (`src/scripts/newtab.js`):
  - parsing of `url | title` inputs;
  - saving 20 inputs position by position;
  - reset to 20 empty slots, which is also the default when nothing is stored.

State that the page changes in place is modelled as classes whose methods are
proved against pure specification functions:

- `SearchHistory.History`
- `SearchBar.Selection`
- `Shortcuts.ShortcutList`
- `IconCache.Cache`
- `Settings.SettingsEditor`

The pure parts are functions and lemmas.

Foreign collaborators become parameters:

- the WHATWG URL parser is `Web.UrlParser`, a function that rejects a string
  or yields its protocol and hostname;
- the JSON byte size of a payload is `size`;
- `Date.now()` is `now`;
- `crypto.randomUUID()` is `freshId`;
- the messages of failed storage writes are `Option<string>`;
- the outcome of the background-image load probe is `imageLoads`;
- the user's answer to a confirmation dialog is `confirmed`.

Points where the code behaves differently from what its surface suggests (the model follows the code):

- The shortcut form (src/newtab.js:815-836) checks both fields. Each error
  display first clears every earlier one, so when both the title and the URL
  are wrong, only the URL error stays on screen.
  `Shortcuts.SubmitShortcutForm` reports that single error.
- `migrateStorage` falls back to `{ version: "0.0.0" }` only when the read
  yields nothing, which cannot happen for an object result. A missing version
  is therefore simply absent, and it is replaced like any other stale one.
- A start-up that falls back writes only the missing defaults into the
  local blob. A later start-up whose sync read fails therefore takes every
  key it did not write for missing, and writes its default again
  (`Storage.InitializeAfterFallback`).
- The slot editor accepts any URL whose protocol starts with `http`, not only
  `http:` and `https:` (`SlotEditor.IsHttpLike`).

## Model

| member | source | states |
|---|---|---|
| `Text.Trim` | src/newtab.js:204 | The result is the slice of the input left after cutting only whitespace from both ends, and it has no whitespace at either end. It is empty exactly when the input is all whitespace. A string already trimmed is its own trim. |
| `Text.TrimPadded` | src/scripts/newtab.js:26 | `trim` cuts a single blank glued to either side of a trimmed string back off. |
| `Text.Split` | src/scripts/newtab.js:26 | Splitting on the bar character yields at least one piece, and no piece contains the separator. |
| `Text.JoinSplit` | src/scripts/newtab.js:26 | Joining the pieces of a split with the separator gives the original string back. |
| `Text.SplitJoin` | src/scripts/newtab.js:26 | Pieces free of the separator survive a join followed by a split unchanged. |
| `Text.SplitWithoutSeparator` | src/scripts/newtab.js:26 | A string without the separator splits into itself alone. |
| `Text.SplitAtFirstSeparator` | src/scripts/newtab.js:26 | The first separator ends the first piece, and the rest is split on its own. |
| `Text.UpperCharIsUpper` | src/newtab.js:147 | Upper-casing leaves no lower-case letter, keeps a non-blank character non-blank, and changes a character only up to case. |
| `Web.IsValidUrl` | src/newtab.js:156-163 | A valid URL is one the URL constructor accepts, with a protocol starting with `http`. Every parsed URL whose protocol is `http:` or `https:` is valid. |
| `SearchHistory.Saved` | src/newtab.js:175-188 | The saved list is the first `min(n, 50)` entries of the history, in order. |
| `SearchHistory.FirstMatchIndex` | src/newtab.js:192 | Returns the first index whose query equals the new one up to case, or -1 exactly when no entry matches. |
| `SearchHistory.WithoutFirstMatch` | src/newtab.js:193-195 | Splicing out the first match loses at most one entry and adds none. |
| `SearchHistory.Unmatched` | src/newtab.js:190-201 | Reference definition: exactly the entries that do not match the query up to case, in order. |
| `SearchHistory.Recorded` | src/newtab.js:190-201 | After recording, the history holds 1 to 50 entries, with the new query and timestamp first; every other entry was in the old history. |
| `SearchHistory.WithoutFirstMatchAt` | src/newtab.js:192-195 | Removing the first match equals the splice at the index `findIndex` returns, or leaves the history unchanged when that index is -1. |
| `SearchHistory.WithoutFirstMatchIsUnmatched` | src/newtab.js:190-201 | On a history without case-insensitive duplicates, removing the first match removes every match, keeping the other entries in order. |
| `SearchHistory.UnmatchedOfUnmatched` | src/newtab.js:190-201 | Dropping the matches from a list with no matching entry changes nothing. |
| `SearchHistory.UnmatchedKeepsDistinct` | src/newtab.js:190-201 | Dropping the matches keeps a history free of case-insensitive duplicates. |
| `SearchHistory.SavedKeepsDistinct` | src/newtab.js:180-182 | Truncating to 50 keeps the history free of case-insensitive duplicates. |
| `SearchHistory.RecordedIsMostRecentFirst` | src/newtab.js:190-201 | On a history without case-insensitive duplicates, recording `q` gives `q` first, then the old entries that do not match `q`, in their old order, cut to 50. No other entry matches `q`, and the history stays free of duplicates. |
| `SearchHistory.WithoutFirstMatchIgnoresCase` | src/newtab.js:192 | Queries that differ only in case remove the same entry. |
| `SearchHistory.RecordTwice` | src/newtab.js:190-201 | Recording a query and then the same query again (up to case) gives the same history as recording only the second time. |
| `SearchHistory.MatchesPrefix` | src/newtab.js:207 | The `slice(0, query.length)` comparison holds exactly when the lower-cased entry starts with the lower-cased query. |
| `SearchHistory.KeepPrefixed` | src/newtab.js:207 | The filter keeps exactly the entries that match the prefix and loses nothing else. |
| `SearchHistory.FilterSearchHistory` | src/newtab.js:203-208 | A blank query returns the history unchanged. Any other query returns exactly the entries whose query starts with it, up to case. |
| `SearchHistory.KeepPrefixedAppend` | src/newtab.js:207 | The filter preserves order: filtering a concatenation is concatenating the filtered parts. |
| `SearchHistory.FilterIdempotent` | src/newtab.js:203-208 | Filtering twice with the same query equals filtering once. |
| `SearchHistory.KeepPrefixedIdempotent` | src/newtab.js:207 | The prefix filter is idempotent. |
| `SearchHistory.WithoutQuery` | src/newtab.js:275 | Removes exactly the entries whose query equals the deleted text (case-sensitively). |
| `SearchHistory.WithoutQueryAppend` | src/newtab.js:275 | The delete preserves order: deleting from a concatenation is concatenating what is left of each part. |
| `SearchHistory.WithoutQueryAbsent` | src/newtab.js:275 | Deleting a query that no entry has leaves the history unchanged. |
| `SearchHistory.WithoutQueryAt` | src/newtab.js:275 | When exactly one entry, at index `k`, has the deleted query, the delete splices out index `k` and keeps every other entry in order. |
| `SearchHistory.WithoutQueryKeepsDistinct` | src/newtab.js:275 | The delete keeps a history free of case-insensitive duplicates. |
| `SearchHistory.DeleteShownEntry` | src/newtab.js:273-276 | As written, deleting a shown item keeps only stored entries other than it. When text is typed, it keeps only entries that start with that text. |
| `SearchHistory.DeleteShownEntryIsDeleteOfShown` | src/newtab.js:273-276 | The delete as written is the corrected delete applied to the list filtered by the typed text, instead of to the stored history. |
| `SearchHistory.DeleteShownEntryKeepsShown` | src/newtab.js:273-276 | Within the cap of 50, the delete as written keeps every shown entry with another query. It loses only what the typed text had hidden. |
| `SearchHistory.DeleteWhileTypingLosesHistory` | src/newtab.js:273-276 | Take history `apple, banana` with `a` typed and delete `apple`. As written, `banana` is lost; the corrected delete keeps it. |
| `SearchHistory.DeleteHistoryEntry` | src/newtab.js:273-276 | Corrected delete: the result holds only stored entries with another query. Within the cap of 50, every such entry is kept. |
| `SearchHistory.History.constructor` | src/newtab.js:165-173 | The page starts from the stored history. |
| `SearchHistory.History.Add` | src/newtab.js:190-201 | The findIndex/splice/unshift/truncate sequence leaves exactly `Recorded(old history)`. It keeps the history free of case-insensitive duplicates. |
| `SearchHistory.History.Delete` | src/newtab.js:273-276 | The stored history becomes the corrected `DeleteHistoryEntry` of the old one. It stays free of case-insensitive duplicates. |
| `SearchBar.FreshSuggestions` | src/newtab.js:287-289 | Keeps exactly the suggestions that do not equal any history entry up to case. |
| `SearchBar.DisplayedItems` | src/newtab.js:229-289 | At most 8 rows are shown. The first `min(n, 8)` rows are the history in order. The rest are the suggestions cut to the slots left, `8 - min(n, 8)`, and only then cleared of those that repeat a history entry up to case, order kept. With 8 or more history entries, no suggestion is shown. |
| `SearchBar.ImmediateSuggestions` | src/newtab.js:1427-1445 | On input, the literal query is offered exactly when the query is non-empty and no history entry matches it. An empty query shows no suggestion row. The handler passes the query already trimmed (line 1420), so empty means blank as typed. |
| `SearchBar.HasExactMatch` | src/newtab.js:1438-1440 | An entry of the matching history, or a suggestion, equal to the query up to case makes it an exact match. No exact match is possible when both lists are empty. |
| `SearchBar.HasExactMatchIgnoresCase` | src/newtab.js:1438-1440 | Queries that differ only in case have the same exact-match answer. |
| `SearchBar.FinalSuggestions` | src/newtab.js:1438-1441 | The fetched suggestions, with the query put first exactly when neither the matching history nor the suggestions contain it up to case. |
| `SearchBar.LiteralQueryOffered` | src/newtab.js:1438-1442 | With fewer than 8 history matches and no exact match, the row right after the history is the literal query. |
| `SearchBar.JsRemainder` | src/newtab.js:1462 | JavaScript `%`: the result takes the sign of the dividend, lies within the divisor's range, and differs from the dividend by a multiple of the divisor. |
| `SearchBar.NextIndex` | src/newtab.js:1460-1500 | ArrowDown always lands on a row, one step on modulo the row count. ArrowUp from -1 or 0 goes to the last row and otherwise one row up; it lands on a row exactly when the old index is at most n. Escape gives -1. Another key clears a selection. Enter keeps the index. |
| `SearchBar.ArrowDownStep` | src/newtab.js:1462 | ArrowDown moves to the next row, and from the last row wraps to the first. |
| `SearchBar.ArrowsAreInverse` | src/newtab.js:1460-1474 | On a selected row, ArrowDown then ArrowUp (and the reverse) returns to it. |
| `SearchBar.PressDownCompose` | src/newtab.js:1462 | `a + b` ArrowDown presses equal `a` presses followed by `b`. |
| `SearchBar.PressDownWalks` | src/newtab.js:1462 | Before the last row is reached, each ArrowDown moves exactly one row. |
| `SearchBar.PressDownFullCircle` | src/newtab.js:1462 | With n rows, n ArrowDown presses return to the same row. |
| `SearchBar.KeyEffectOf` | src/newtab.js:1457-1500 | ArrowDown, and ArrowUp from an index up to the row count, put the newly selected row's text in the input. ArrowUp from beyond the row count reads past the end. Enter with no row selected (index -1) does nothing, so the form submits on its own. Enter on a shown row submits that row's text. Enter at a stale index past the last row is swallowed: the submission is prevented and nothing is submitted. Escape hides the dropdown. Another key clears the highlight exactly when a row was selected. |
| `SearchBar.Selection.constructor` | src/newtab.js:1352 | The selection starts at -1. |
| `SearchBar.Selection.Reset` | src/newtab.js:1426 | Focus, input and blur reset the selection to -1. |
| `SearchBar.Selection.KeyDown` | src/newtab.js:1457-1502 | Without rows nothing happens. Otherwise the new index is `NextIndex` and the effect is `KeyEffectOf`, including the swallowed Enter at a stale index. The index stays at -1 or above. |
| `SearchBar.LooksLikeHost` | src/newtab.js:1384 | A query that looks like a bare host has a dot and no space. A query that already starts with `http` never does. |
| `SearchBar.HostPrefixedOnce` | src/newtab.js:1384-1386 | Once `https://` is put in front of a bare host, the result no longer looks like a bare host, so the prefix is added only once. |
| `SearchBar.SubmitSearch` | src/newtab.js:1373-1392 | Blank input is cleared. Otherwise the target is the trimmed query, with `https://` in front when it looks like a bare host. The page navigates exactly to a valid http(s) target and searches otherwise. |
| `Shortcuts.IndexOfId` | src/newtab.js:876 | Returns the first index with the id, or -1 exactly when the id is absent. |
| `Shortcuts.SubmitShortcutForm` | src/newtab.js:815-836 | The form is rejected exactly when the trimmed title is empty or the trimmed URL is not a valid http(s) URL. The URL error wins when both fields fail. A non-empty shortcut id makes the request an edit. |
| `Shortcuts.WithAdded` | src/newtab.js:838-862 | At 20 or more shortcuts the list is unchanged. Otherwise exactly one entry with the new id, title and URL is appended, and earlier entries are unchanged. |
| `Shortcuts.AddKeepsInvariant` | src/newtab.js:850-858 | Adding a valid URL under a fresh id keeps the cap, unique ids and valid URLs. |
| `Shortcuts.Edited` | src/newtab.js:864-886 | An absent id changes nothing. Otherwise only the found entry changes: its title and URL are replaced, and every id and position stays. |
| `Shortcuts.EditKeepsInvariant` | src/newtab.js:876-882 | Editing with a valid URL keeps the list invariant. |
| `Shortcuts.Removed` | src/newtab.js:923 | Keeps exactly the entries with another id. |
| `Shortcuts.RemovedCount` | src/newtab.js:917-926 | With unique ids, deleting a present id removes exactly one entry, and deleting an absent id changes nothing. |
| `Shortcuts.RemovedAbsent` | src/newtab.js:923 | Deleting an id that no shortcut has leaves the list unchanged. |
| `Shortcuts.RemovedAt` | src/newtab.js:923 | With unique ids, deleting a present id splices out exactly the entry `findIndex` locates; the other shortcuts keep their grid order. |
| `Shortcuts.RemovedKeepsUnique` | src/newtab.js:923 | Deleting keeps the ids unique. |
| `Shortcuts.RemoveKeepsInvariant` | src/newtab.js:923 | Deleting keeps the list invariant. |
| `Shortcuts.Moved` | src/newtab.js:936-937 | Splicing an entry out and back in keeps the length and the multiset of entries (a permutation). |
| `Shortcuts.MovedAt` | src/newtab.js:936-937 | Position k of the moved list holds the entry from `MovedSource(k)`. The dragged entry lands at the target index and the range between shifts by one toward the dragged entry's old place. Entries outside the range stay, and the source map is injective. |
| `Shortcuts.Reordered` | src/newtab.js:929-937 | The list is unchanged when the ids are equal or either is absent. Otherwise it is a permutation with the dragged entry at the target's index before removal. |
| `Shortcuts.ReorderKeepsInvariant` | src/newtab.js:929-938 | Reordering keeps the list invariant. |
| `Shortcuts.InitialCharacter` | src/newtab.js:143-148 | A missing or blank title gives `?`. Otherwise the result is one upper-case, non-blank character, equal up to case to the first non-blank character. |
| `Shortcuts.ShortcutList.constructor` | src/newtab.js:840-849 | The handlers start from the stored shortcut list. |
| `Shortcuts.ShortcutList.Add` | src/newtab.js:838-862 | Refuses at the cap. Otherwise the list becomes `WithAdded` of the old list. |
| `Shortcuts.ShortcutList.Edit` | src/newtab.js:864-886 | The list becomes `Edited` of the old list. |
| `Shortcuts.ShortcutList.Delete` | src/newtab.js:917-926 | When the id is present and the user confirms, the list becomes `Removed` of the old list; otherwise it is unchanged. |
| `Shortcuts.ShortcutList.Reorder` | src/newtab.js:929-937 | The in-place splice leaves exactly `Reordered` of the old list. |
| `IconCache.FindOldest` | src/newtab.js:93-100 | The scan over the keys finds nothing exactly when the cache is empty. Otherwise it finds a key whose timestamp is minimal. |
| `IconCache.WithIcon` | src/newtab.js:92-108 | After an insertion the hostname holds the new entry, and no key other than the hostname is new. |
| `IconCache.CacheStaysBounded` | src/newtab.js:92-108 | A cache of at most 100 non-empty keys stays within 100. Below the cap nothing is lost. At the cap exactly the oldest key goes, and every other entry survives. |
| `IconCache.Cache.constructor` | src/newtab.js:90-91 | The cache starts from the stored map. |
| `IconCache.Cache.CacheIcon` | src/newtab.js:86-125 | An unparsable URL or a non-quota write error leaves the cache unchanged. A successful write stores `WithIcon` for some oldest key. A quota error leaves only the new entry, or an empty cache when the retry fails as well. |
| `Storage.IsQuotaError` | src/newtab.js:61 | A quota error has a message at least as long as `QUOTA`, and a message starting with `QUOTA` is one. The same test is used at lines 111, 512, 1063 and 1080. |
| `Storage.QuotaErrorInContext` | src/newtab.js:61 | The test finds `QUOTA` anywhere, so a quota message stays one whatever text surrounds it. |
| `Storage.QuotaErrorIsCaseSensitive` | src/newtab.js:61 | `QUOTA_BYTES_PER_ITEM quota exceeded` is a quota error; the lower-case word `quota` alone is not. |
| `Storage.Persist` | src/newtab.js:50-67 | The payload falls back exactly when it is over the limit or refused with a quota error, and is synced exactly when it is within the limit and accepted. Other errors are rethrown with nothing changed. A synced payload merges into sync storage, leaving the other keys alone. A fallback replaces the local blob and leaves sync storage alone. |
| `Storage.SafeSyncStorage` | src/newtab.js:50-67 | A write uses the 8192-byte per-item limit; a payload over it never reaches sync storage. |
| `Storage.FallbackReplacesBlob` | src/newtab.js:54-55 | Two oversized writes under different keys leave only the second in the local blob. |
| `Storage.FallbackReadBack` | src/newtab.js:489-494 | A payload that fell back is exactly what a start-up with a failed sync read reads back. |
| `Storage.InitialData` | src/newtab.js:488-494 | When the read succeeds, start-up looks exactly at the settings and shortcuts keys of sync storage. When it fails, start-up looks at the fallback blob, or at nothing when there is none. |
| `Storage.InitialUpdates` | src/newtab.js:495-501 | A default is written for exactly the keys that are missing, each with its own default. |
| `Storage.InitializeStorage` | src/newtab.js:487-520 | With both keys present, nothing is written. |
| `Storage.InitializeNeverOverwrites` | src/newtab.js:495-512 | After a successful read, no stored value is overwritten. After a synced write, both keys are present. |
| `Storage.FailedReadWritesDefaults` | src/newtab.js:489-501 | When the read fails and there is no fallback blob, the defaults are written over whatever sync storage holds. |
| `Storage.InitializeIdempotent` | src/newtab.js:495-502 | A second start-up after a synced one writes nothing. |
| `Storage.InitializeAfterFallback` | src/newtab.js:488-517 | After a start-up that fell back, a start-up with a failed sync read takes for missing exactly the keys the first one did not write. |
| `Storage.MigrateStorage` | src/newtab.js:480-485 | A write happens exactly when the stored version is missing or differs. Afterwards the version is current, and every other key is untouched. |
| `Storage.MigrateIdempotent` | src/newtab.js:480-485 | Migrating again writes nothing. |
| `Settings.ValidateUploadedFile` | src/newtab.js:1280-1288 | A file is accepted exactly when its type starts with `image/` and its size is at most 1572864 bytes. The type error takes precedence. |
| `Settings.SaveErrorsAsWritten` | src/newtab.js:1017-1038 | As written, there are no errors exactly when an image background has a non-blank, valid, loading URL and an upload background has a new or already stored upload. At most one error is reported. The URL error is reported exactly for an image background whose trimmed URL is blank or invalid; the load error only for a valid URL that does not load; the upload error only for an upload background. |
| `Settings.SaveErrors` | src/newtab.js:1017-1038 | Corrected check: re-saving an image background with a blank URL field keeps the stored image. Otherwise it matches the as-written check. |
| `Settings.ResavingImageBackground` | src/newtab.js:1071-1076 | A saved image background stores an empty value. Saving it again unchanged is refused as written and accepted by the corrected check. |
| `Settings.Settled` | src/newtab.js:1039-1076 | The saved record differs from the working copy only in its value. A colour background always has a colour, and an unset one becomes black. Image and upload backgrounds store an empty value. |
| `Settings.SettledIdempotent` | src/newtab.js:1039-1076 | Settling a settled record changes nothing. |
| `Settings.WriteFailureMessage` | src/newtab.js:1063-1065 | The message starts with "Storage quota exceeded." exactly when the error is a quota error. The wallpaper URL's messages are at lines 1080-1082. |
| `Settings.WriteFailureMessagesDiffer` | src/newtab.js:1063-1082 | The upload and the wallpaper URL fail with different messages for the same error. |
| `Settings.SettingsEditor.constructor` | src/newtab.js:1005-1008 | The dialog starts with the working copy and the original both equal to the stored settings. |
| `Settings.SettingsEditor.SelectBackgroundType` | src/newtab.js:1150-1156 | Sets the type; choosing the default clears the value. |
| `Settings.SettingsEditor.PickColor` | src/newtab.js:1157-1160 | Switches to a colour background with the picked colour. |
| `Settings.SettingsEditor.EnterImageUrl` | src/newtab.js:1161-1170 | Stores the trimmed text. The error flag is cleared only when an image error was showing. |
| `Settings.SettingsEditor.ChooseFile` | src/newtab.js:1171-1191 | A file that passes `ValidateUploadedFile` and is read becomes the pending upload and switches to an upload background. Otherwise nothing changes. |
| `Settings.SettingsEditor.Save` | src/newtab.js:1009-1101 | Models the corrected check (`SaveErrors`), not the code as written: an image background saved again with a blank field keeps the stored image and writes nothing to local storage. The save is rejected exactly when validation errors exist, and then nothing is stored. A failed local write reports the matching message, keeps the working copy, and shows the image error exactly on the image path. A successful save returns `Settled(working copy)` and records the background in local storage. A new image URL stored there is a valid one. |
| `SlotEditor.IsHttpLike` | src/scripts/newtab.js:28-29 | A string that passes the slot editor's check parses, and every URL that `isValidUrl` accepts passes it. |
| `SlotEditor.HttpLikeAdmitsOtherSchemes` | src/scripts/newtab.js:28-29 | The converse fails: a parsed `httpx:` URL passes the slot editor's check but not `isValidUrl`. |
| `SlotEditor.ParseInput` | src/scripts/newtab.js:24-34 | Empty input is an empty slot. Otherwise a record exists exactly when the trimmed first piece passes the URL check. The URL is that piece, the title is the trimmed second piece or empty, and later pieces are ignored. |
| `SlotEditor.SlotTextPieces` | src/scripts/newtab.js:108 | The displayed text (url, blank, bar, blank, title) splits into exactly two pieces. |
| `SlotEditor.SlotTextPiecesTrimmed` | src/scripts/newtab.js:26 | Trimming those two pieces gives the URL and the title back. |
| `SlotEditor.ParseSlotText` | src/scripts/newtab.js:24-34 | Parsing the displayed text of a well-formed record gives back the record. |
| `SlotEditor.HandleSave` | src/scripts/newtab.js:127-133 | One slot per input, in input order, each the parse of its input. |
| `SlotEditor.Rendered` | src/scripts/newtab.js:99-108 | One input per slot. |
| `SlotEditor.SaveUntouched` | src/scripts/newtab.js:127-130 | Opening the editor and saving it untouched stores the same slots. |
| `SlotEditor.EmptySlots` | src/scripts/newtab.js:40 | Exactly 20 empty slots. |
| `SlotEditor.HandleReset` | src/scripts/newtab.js:135-141 | Something is written exactly when the user confirms, and then it is 20 empty slots. |
| `SlotEditor.LoadShortcuts` | src/scripts/newtab.js:36-51 | Returns the stored values, with 20 empty slots and the short grid for absent keys. |
| `SlotEditor.ResetLoadsDefault` | src/scripts/newtab.js:137 | A reset page loads exactly like one that never stored shortcuts. |

## Left out

- DOM rendering, modals, focus, CSS classes, the clock, the favicon fetch and
  the remote suggestion fetch (`background.js`): these are presentation and
  network, not list logic.
- Debounce and blur timers, and interleaving of concurrent async handlers:
  these are timing and concurrency.
- The storage reads themselves: each handler is modelled from the list it
  has read, and read failures are modelled only where the code branches on
  them (`initializeStorage`). JavaScript falsiness of stored values is not
  modelled; a key is either absent or present.
- `toLowerCase`/`toUpperCase` are modelled on ASCII letters only, because
  Unicode case mapping is not modelled (for example, `ß` upper-cases to two
  letters). `trim` uses the full ECMAScript whitespace set.
- `IconCache.FindOldest`: the model does not fix which of several keys with
  the same minimal timestamp is chosen, because the `for...in` key order of
  JavaScript objects is not modelled.
- `IconCache.Cache.CacheIcon`: the model does not cover a failure of the
  `remove` call in the quota path or a failed read of the cache, because both
  only reach the error log.
- `Settings.SettingsEditor.Save`: the model assumes the local-storage write
  and the following `remove` fail or succeed together. Failures of the
  removals for default and colour backgrounds are not modelled, because the
  code only logs them. The background is applied to the page and the record
  is written with `safeSyncStorage`; the model stops at returning the record.
- `SearchHistory.History.Add`, `SearchHistory.History.Delete`: the new state
  assumes the write to `chrome.storage.local` lands, because the code only
  logs a failed write (src/newtab.js:183-187) and the stored history then
  stays as it was.
- `Shortcuts.ShortcutList.Add`, `Shortcuts.ShortcutList.Edit`,
  `Shortcuts.ShortcutList.Reorder`: the new list is the list the handler
  writes. When `safeSyncStorage` falls back to local storage
  (src/newtab.js:53-56, 61-63), sync storage keeps the old list. The grid
  is then redrawn from sync storage, so the change may not show. This
  interplay of two stores is not modelled.
- `Storage.Persist`: the `FellBack` outcome assumes `localStorage.setItem`
  succeeds. The code does not catch a failure of that call
  (src/newtab.js:55, 63, 506, 514), and the model does not cover it.
- `Shortcuts.InitialCharacter`: Dafny strings are sequences of code points,
  while JavaScript strings are UTF-16 code units. For a title that starts
  with a character outside the Basic Multilingual Plane, `text.trim()[0]`
  is a lone surrogate, not the character the model returns.
- `Storage.InitializeStorage`: its own contract states only the no-write case.
  What it writes is stated by `Storage.Persist` and the start-up lemmas.
- `getCachedIcon`, `getFaviconUrl`, `applyBackground` and the cancel path of
  the settings dialog are left out: they read or display state without
  deciding anything the model keeps.
- `openSettings` in `src/scripts/newtab.js` iterates the object that
  `loadShortcuts` returns as if it were an array. `SlotEditor.Rendered`
  models the intended filling of the inputs (line 108), not that iteration.
- Reversing a reorder is not stated to undo it, because that holds only for
  adjacent entries.

## Findings

| source | as written | input that shows it | evidently intended | confidence | as-written member | corrected member |
|---|---|---|---|---|---|---|
| src/newtab.js:273-276 | The delete button of a history row removes the row from the list the dropdown was drawn from, and saves that list. That list is the stored history already filtered by the typed text. | Stored history `apple, banana`, `a` typed, delete `apple`: the stored history becomes empty. | Remove only the deleted query from the full stored history. | high, not executed | `SearchHistory.DeleteWhileTypingLosesHistory` | `SearchHistory.DeleteHistoryEntry` |
| src/newtab.js:1017-1022 | Saving an image background moves its URL to local storage and stores an empty value in the settings. Reopening the dialog and saving again, without retyping the URL, fails with "Please enter a valid URL.", so no other setting can be changed. | Stored settings with `backgroundType: "image"` and `backgroundValue: ""`; open the dialog and press Save. | Keep the stored image when none is entered, as the upload check does for a stored upload. | medium, not executed | `Settings.ResavingImageBackground` | `Settings.SaveErrors` |
