# DXCode virtual file system — a Dafny model

DXCode is a browser code editor. Its `main.js` keeps every open file in an
in-memory virtual file system (VFS). This is an insertion-ordered `Map` from
file name to editor buffer, plus the name of the active file. The VFS is
saved to an IndexedDB object store on Cmd/Ctrl+S. On page load it is read
back, or three default files are seeded instead. This project models that
core as pure functions over immutable values and proves its invariants:

- `wrappers.dfy`: `Option`, which stands for JavaScript's `null`/`undefined`.
- `strings.dfy` (`Strings`): `name.split('.').pop()` as `LastSegment`, and
  `String.prototype.trim` as `Trim`, with JavaScript's whitespace set written out.
- `language.dfy` (`Language`): `getLanguage`, the extension → language table.
- `file_system.dfy` (`FileSystem`): the state (`Vfs`: entries in insertion
  order and an optional active name), the invariant `Valid` (distinct names,
  active file present), `createFile`, `setActiveFile`, typing into the active
  buffer as `EditActive`, `Map.has` as `HasName`, and `Map.get` as `Find`.
- `persistence.dfy` (`Persistence`): the store as a map from name to text,
  `saveProject`, `createInitialFiles`, `loadProject`, and the start-up and
  save/load round-trip lemmas.
- `views.dfy` (`Views`): what `updateUI` derives (list rows, preview button)
  and the `codeData` snapshot `openPreview` gathers.
- `session.dfy` (`Session`): the new-file prompt handler, and the page as a
  sequence of events: the start-up load finishing (at any point, since
  `loadProject` is asynchronous), new files, selections, typing, saves and
  previews, with the invariant kept across any run.

Behaviours of `main.js` the model follows as written:

- After seeding the defaults, the active file is `script.js`, not
  `index.html`. `index.html` is created with `activate=false`. `style.css`
  and then `script.js` are each activated.
- A duplicate name in `createFile` only logs a warning. No error value is
  returned, and the VFS is unchanged.
- When the `getAll` request fails, `loadProject` has no handler. There is no
  fallback to the defaults, and the VFS stays as it was
  (`LoadOutcome.RequestFailed`).
- There is no delete, rename or per-edit save operation.
- The new-file handler tests the raw prompt answer before trimming it. An
  answer made only of blanks therefore creates a file whose name is `""`.
- `loadProject` returns at its first `await`, and the handlers are registered
  straight after. A file the user creates before the load finishes stays first
  in the Map, so it, not the first stored record, becomes active; on an empty
  store the defaults are appended after it.
- An empty VFS saves an empty store. The next start-up then seeds the
  defaults, so the round trip holds only for a non-empty VFS.

Environment inputs are parameters:
- when the start-up load finishes, relative to the user's actions;
- whether the database opened, for save and load;
- what `getAll` returned, as a record list in the store's enumeration order;
- the prompt's answer.

## Model

| member | source | states |
|---|---|---|
| `Strings.LastDot` | main.js:92 | The position found holds a dot and no dot follows it. It is -1 exactly when the name has no dot at all. |
| `Strings.LastSegment` | main.js:92 | What `pop()` returns has no dot and is no longer than the name. |
| `Strings.LastSegmentOfDotless` | main.js:92 | A name without a dot is its own segment, so a file called `css` is looked up as `css`. |
| `Strings.LastSegmentOfDotted` | main.js:92 | For `p + "." + e` with a dot-free `e`, the segment is `e`, whatever dots `p` holds. |
| `Strings.LastSegmentAfter` | main.js:92 | Given the position of the last dot, the segment is everything after it. |
| `Strings.LastSegmentIsIf` | main.js:92 | A name that is `ext`, or ends with a dot followed by a dot-free `ext`, has `ext` as its segment. |
| `Strings.LastSegmentIsOnlyIf` | main.js:92 | A name whose segment is `ext` is `ext` itself or ends with a dot followed by `ext`. |
| `Strings.LastSegmentIs` | main.js:92 | The segment equals a dot-free `ext` if and only if the name is `ext` or ends with a dot followed by `ext`. |
| `Strings.TrimStartIndex` | main.js:327 | The leading run of JavaScript whitespace ends at the returned position. |
| `Strings.TrimEndIndex` | main.js:327 | The trailing run of JavaScript whitespace starts at the returned position. |
| `Strings.Trim` | main.js:327 | The trimmed name is no longer than the answer and neither starts nor ends with whitespace. It is empty exactly when the answer is all whitespace. |
| `Strings.TrimOfTrimmed` | main.js:327 | A name without surrounding whitespace is unchanged by trimming. |
| `Strings.TrimDropsSurroundingWhitespace` | main.js:327 | Whitespace around a text that neither starts nor ends with whitespace is removed, and the text is kept whole. |
| `Language.GetLanguage` | main.js:91-100 | Each of html, css, javascript, xml and json is returned exactly when the last segment is html, css, js, xml or json. Plaintext is returned exactly when the segment is anything else. |
| `Language.GetLanguageTag` | main.js:91-100 | Stated on the returned strings: "javascript" exactly for `js`, each other tag for its own extension, and "plaintext" for every extension outside the table. |
| `Language.TagsDistinct` | main.js:93-99 | The six tag strings differ, so each names one language. |
| `Language.LanguageOfExtension` | main.js:93-99 | The `switch` falls to plaintext exactly for an extension outside the table; `ExtensionTable` gives each other case. |
| `Language.ExtensionTable` | main.js:93-99 | The switch maps each known extension to its tag, and only that extension. |
| `Language.LanguageOfDottedName` | main.js:91-100 | `stem.ext` takes the language of `ext`, whatever the stem. |
| `Language.LanguageOfDotlessName` | main.js:91-100 | A dotless name is looked up whole in the table. |
| `Language.UpperCaseExtensionIsPlainText` | main.js:93-99 | Matching is case-sensitive: `foo.JS` is plaintext. |
| `Language.UnknownExtensionIsPlainText` | main.js:99 | `foo.unknownext` is plaintext. |
| `Language.EmptyExtensionIsPlainText` | main.js:92 | `foo.` has an empty extension and is plaintext. |
| `Language.LastOfManyDotsCounts` | main.js:92 | Only the last dot counts: `a.b.json` is JSON. |
| `Language.DotlessNameIsItsOwnExtension` | main.js:92 | A file called `css` is CSS. |
| `FileSystem.HasNameAppend` | main.js:111 | After `Map.set` of a new entry, a name is present exactly when it was before or is the new entry's. |
| `FileSystem.Names` | main.js:173 | `Array.from(keys())` lists every name once, at its entry's position, in insertion order. |
| `FileSystem.Find` | main.js:170-172 | `Map.get(name)` finds nothing exactly when no entry has the name. Otherwise the found text is that of an entry with the name. |
| `FileSystem.FindEntry` | main.js:15 | With distinct names, looking up an entry's name yields that entry's text. |
| `FileSystem.FindAppend` | main.js:111 | `Map.set` of a new key leaves every earlier lookup unchanged and adds one. |
| `FileSystem.SetActiveFile` | main.js:121-127 | Entries never change. An absent name changes nothing. A present name ends up active, whether or not it already was. The invariant is kept. |
| `FileSystem.CreateFile` | main.js:103-119 | The name is present afterwards. A duplicate changes neither entries nor active file. A fresh name appends exactly one entry with the given text. It becomes active if and only if `activate` is set; otherwise the active file is untouched. Names stay distinct and the active file stays valid. |
| `FileSystem.CreateFileHasName` | main.js:103-111 | After a create, a name is present exactly when it was present before or is the created one. |
| `FileSystem.PrefixTrans` | main.js:103-119 | Entries that only grow at the end, step after step, keep the first entries in place. |
| `FileSystem.HasNameKeptByPosition` | main.js:15 | When names stay at their positions, every name present before is still present. |
| `FileSystem.Replace` | main.js:44 | Replacing one buffer's text keeps the number of files and every name at its position. |
| `FileSystem.EditActive` | main.js:121-126 | Typing changes only the buffer the editor shows, the active file's. Names, their order and the active file are kept, nothing changes without an active file, and the invariant is kept. |
| `FileSystem.FindReplace` | main.js:44 | After a buffer's text is replaced, its name finds the new text if it is present, and every other lookup is unchanged. |
| `FileSystem.EditActiveLookup` | main.js:121-126 | After typing, the active file's lookup gives the typed text, and every other file's lookup is unchanged. |
| `FileSystem.CreateFileLookup` | main.js:103-111 | After a create, a fresh name maps to the given text and every other name's text is unchanged. |
| `Persistence.PutAll` | main.js:43-46 | The puts store exactly the old keys plus the entries' names. Unwritten keys keep their text. With distinct names, each entry's text is under its name. |
| `Persistence.SaveProject` | main.js:35-53 | When the database opens, the store afterwards holds exactly the VFS's names, each with its text in the VFS. When it does not open, the store is unchanged. |
| `Persistence.CreateInitialFiles` | main.js:80-84 | Afterwards a name is present exactly when it was present before or is one of the three defaults. The active file is `script.js` if that was created, else `style.css` if that was created, else unchanged. The invariant is kept. |
| `Persistence.FirstKey` | main.js:68 | `keys().next().value` is absent only for an empty VFS. Otherwise it is an existing name. |
| `Persistence.CreateAll` | main.js:64-67 | Creating each record without activation keeps the active file and the existing entries as a prefix. A non-empty record list leaves a non-empty VFS. The invariant is kept. |
| `Persistence.CreateAllHasRecords` | main.js:64-67 | Every record's name is present after loading, whether it was new or already there. |
| `Persistence.CreateAllFresh` | main.js:64-67 | Distinct records not already present are appended exactly, in the order given. |
| `Persistence.LoadProject` | main.js:55-78 | A failed `getAll` request leaves the VFS alone. Any non-empty record list leaves the first entry active. Files already present stay in front. The invariant is kept. |
| `Persistence.LoadAfterEarlyFiles` | main.js:62-68 | When files exist before the load finishes, the first of them, not the first record, ends up active. |
| `Persistence.LoadKeepsValid` | main.js:55-78 | Loading any record list into the empty VFS gives a valid VFS. |
| `Persistence.BootstrapDefaults` | main.js:69-77 | With a failed open or an empty store, start-up yields exactly `index.html`, `style.css` and `script.js` in that order, with `script.js` active. |
| `Persistence.InitialFilesFromEmpty` | main.js:80-84 | Seeding the empty VFS gives exactly `index.html`, `style.css`, `script.js` in that order, with `script.js` active, and a valid VFS. |
| `Persistence.SeedIndex` | main.js:81 | The first seeding step adds `index.html` alone, with nothing active. |
| `Persistence.SeedStyle` | main.js:82 | The second step appends `style.css` and makes it active. |
| `Persistence.SeedScript` | main.js:83 | The third step appends `script.js` and makes it active, and the three names are distinct. |
| `Persistence.BootstrapFromRecords` | main.js:62-68 | With a non-empty store, start-up yields exactly its records, in the returned order, with no default file, and the first record's name active. |
| `Persistence.RecordsAreEntries` | main.js:43-45 | The records read back after a save are exactly the VFS's (name, text) pairs. |
| `Persistence.RecordsOfFaithfulStore` | main.js:41-67 | Records enumerating a store that holds exactly the VFS's names and texts are exactly the VFS's entries. |
| `Persistence.SameEntriesSameStore` | main.js:41-46 | Two valid VFSs with the same (name, text) pairs save to the same store. |
| `Persistence.SameEntriesSameNames` | main.js:41-68 | Two VFSs with the same (name, text) pairs hold the same names. |
| `Persistence.SaveLoadRoundTrip` | main.js:41-68 | A non-empty valid VFS is saved, then loaded back in any enumeration order. The result is valid, has the same (name, text) pairs, and saves to the same store. |
| `Persistence.SaveEmptyReloadsDefaults` | main.js:41-71 | Saving an empty VFS and starting again yields the defaults, not an empty VFS. |
| `Views.FileList` | main.js:141-147 | There is one row per file, in insertion order, with its name. A row is marked active exactly when its name is the active file. |
| `Views.ExactlyOneActiveRow` | main.js:141-147 | In a valid VFS exactly one row is marked when a file is active, and it carries that name. No row is marked when none is active. |
| `Views.ActiveExtension` | main.js:138 | The extension the button tests never contains a dot. |
| `Views.PreviewButtonVisible` | main.js:138-139 | The preview button shows exactly when a file is active and its language is HTML. |
| `Views.PreviewButtonBySuffix` | main.js:138-139 | The button shows exactly when the active name is `html` or ends in `.html`. |
| `Views.OrElse` | main.js:170-172 | The or-fallback keeps non-empty text. A missing or empty text gives the fallback. |
| `Views.PreviewSnapshot` | main.js:169-174 | The HTML part is never empty. It is either the not-found page or the text of `index.html`. CSS and JS are empty or the text of `style.css` and `script.js`. `fileNames` lists every name in insertion order. |
| `Views.EmptyIndexShowsNotFound` | main.js:170 | An `index.html` that exists but is empty is previewed as the not-found page. |
| `Views.SnapshotCarriesEntries` | main.js:169-174 | In a valid VFS the snapshot carries the non-empty text of each default file. Every file's name is in `fileNames`. |
| `Session.NewFileFromPrompt` | main.js:324-329 | A cancelled or empty answer changes nothing. Otherwise the trimmed name is created empty and activated, unless it already exists. The invariant is kept. |
| `Session.BlankAnswerCreatesEmptyName` | main.js:326-327 | An answer of blanks creates and activates a file named `""`. |
| `Session.Begin` | main.js:15-16 | The page opens with an empty, valid VFS, no active file, and the load still pending. |
| `Session.Start` | main.js:320-321 | When the load finishes before any user action, page load gives a valid VFS, whatever the database answered, and leaves the store as found. |
| `Session.Step` | main.js:320-337 | Only a save changes the store. Saves and previews leave the VFS alone. The load applies once, to whatever the VFS holds by then. Every name stays at its position, and every event but typing keeps existing entries as they were. Typing puts the text in the active file. After an available save the store holds exactly the VFS's names. The invariant is kept. |
| `Session.Run` | main.js:324-337 | No run of events shrinks the VFS. |
| `Session.RunTwo` | main.js:324-337 | Two events in a row are one step after the other. |
| `Session.StartIsLoadFirst` | main.js:321 | Finishing the load before anything else gives exactly the start-up state. |
| `Session.EarlyNewFileStaysActive` | main.js:55-68 | A file created while the load is pending stays active after stored records are loaded. |
| `Session.SaveAfterEditStoresText` | main.js:41-46 | A save after typing stores the typed text under the active file's name. |
| `Session.EditStep` | main.js:121-126 | Typing keeps a valid VFS valid and puts the text under the active file. |
| `Session.SaveStep` | main.js:35-53 | An available save replaces the store with the VFS's records and changes nothing else. |
| `Session.SavedTextOf` | main.js:43-45 | A save of a valid VFS stores under each name the text a lookup of it finds. |
| `Session.RunKeepsValid` | main.js:15-16 | Any sequence of events keeps the names distinct and the active file an existing entry. |
| `Session.SessionKeepsValid` | main.js:320-342 | From page load on, the invariant holds after any sequence of events, whenever the load finishes. |
| `Session.RunKeepsNames` | main.js:103-127 | No event removes a file: every name present before a run is present after it. |

## Left out

- `sw.js`: service-worker install and cache-first fetch are Cache API and network I/O, with no logic to state.
- Monaco editor objects (`createModel`, `setModel`, `onDidChangeLanguage`, `getValue`): each buffer is modelled as its text, and typing as an event that replaces the active file's text. Undo history and cursor state are not modelled.
- IndexedDB transactions: `openDB`, `onupgradeneeded`, `clear`/`put` ordering and `tx.oncomplete` are modelled as one whole-store replacement or read. A transaction that fails partway is not modelled. The store's enumeration order is a parameter.
- The `getAll` record list is taken as given. The object store's key path makes its keys distinct. The records' order (key order in IndexedDB) is not modelled; the round trip is proved for every order.
- Console logging, `console.warn` on a duplicate name, and `console.error` on a failed save.
- Preview window construction: `window.open`, the popup-blocked alert, `document.write`, the HTML template, the regular-expression replacement of the `style.css` link, and `eval` of user code. Only the `codeData` snapshot is modelled.
- ZIP export (JSZip, FileSaver, the empty-project alert), `prompt`/`alert` dialogs, DOM element creation, click handlers and keyboard-shortcut registration. The prompt's answer and the events are inputs.
- Strings are Dafny strings of Unicode scalar values, not UTF-16 code units. Names or buffer texts holding unpaired surrogates (from pasted text or a stored record, say) cannot be represented, so the lookup, save/load and typing results hold for well-formed texts only.
- Session.Step: what the start-up load reads is a parameter of its event. It is not tied to the store's contents at that moment, so a save that lands before `getAll` runs is not reflected in what is loaded.
