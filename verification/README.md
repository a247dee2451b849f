# NAH-K hotstring engine and note-tree rules in Dafny

NAH-K is a desktop note-taking application. Its notes are Markdown files in a
folder tree. A rule document, `MyHotkeys.ahk`, holds AutoHotkey-style hotstrings
(`::btw::by the way`). While the user types in a note, the editor expands a
trigger into its replacement as soon as a space or a newline follows it.

This project models the pure logic of that application as Dafny functions over
immutable values and proves properties about it:

- **Rule store** (`rule_store.dfy`). The plain object `state.ahkHotstrings` is
  modelled as a sequence of unique-key properties in creation order.
  - Assignment follows JavaScript semantics: an overwritten key keeps its
    place, and `__proto__` creates nothing.
  - `Object.entries` order is modelled exactly: canonical array-index keys
    first, in ascending numeric order, then the other keys in creation order.
- **Rule parser** (`hotstring_parser.dfy`). `parseAhk` splits the document at
  `\n` and matches each line against `^::(.+?)::(.*)$`. The lazy group, the `.`
  that refuses line terminators and the last-line-wins assignment are all
  modelled.
- **Expansion step** (`expansion.dfy`). `handleAhkExpansion` takes the store,
  the current path, the input event, the buffer and the cursor. It gives either
  "unchanged" or a rewritten buffer with a collapsed cursor.
- **Note tree** (`note_tree.dfy`). This covers:
  - the search for the rule document (`findAhk`);
  - the reload of the store (`loadAhkHotstrings`);
  - the path `renderTree` records for the toolbar's rule-document button.
- **Editor rules** (`editor_rules.dfy`). This covers:
  - the file name of a new note;
  - the title shown for an opened file;
  - the title-commit (rename) decision;
  - the quote and parenthesis pairing in the rule document.
- **Drop decision** (`tree_drop.dfy`). This is what the sidebar's drop handler
  does: a sibling reorder, a refusal, or a move. It includes the parent/name
  split of paths and the list surgery of the reorder.
- **Main process** (`main_process.dfy`). This covers:
  - the directory-listing filter and the two sort comparators of `getFileTree`;
  - the extension rule of `create-file`;
  - the target path of `move-entry`.

`wrappers.dfy` holds `Option`. `js_string.dfy` holds the JavaScript string
operations the code uses: `startsWith`, `endsWith`, `indexOf`, `lastIndexOf`,
`split`, `trim`, truthiness and `Array.prototype.indexOf`.

I/O is replaced by parameters:

- `read` stands for reading the rule document.
- `subtree` stands for the recursive listing of a sub-folder.
- `collate` stands for `localeCompare`.
- The platform path separator is an explicit argument.

Two facts about the code that the model keeps:

- With the rule `btw` -> `by the way`, typing a space after `I think btw`
  (buffer `I think btw `, cursor 12) gives the buffer `I think by the way `
  with the cursor at 19 (`Expansion.ExpandExample`).
- After a save of the rule document the store is reparsed, but
  `loadAhkHotstrings` is called without `await` (modules/editor.js:23 and
  179), so the reparse is not atomic with the save. The model claims
  nothing about that ordering.

## Model

| member | source | states |
|---|---|---|
| JsString.Split | modules/editor.js:101 | `split('\n')` gives at least one piece, no piece holds the separator, and joining the pieces with it gives the input back |
| JsString.SplitJoin | modules/editor.js:101 | splitting a join of separator-free pieces gives exactly those pieces (split is the inverse of join) |
| JsString.Trim | modules/editor.js:35 | `trim()` returns the slice of the input that has only white space outside it and no white space at either end |
| JsString.TrimPadded | modules/editor.js:35 | `trim()` of a text with no white space at its ends, padded with white space on either side, is exactly that text |
| JsString.TrimIdempotent | modules/editor.js:241 | trimming a trimmed title changes nothing |
| RuleStore.Lookup | modules/editor.js:107 | a key has a value exactly when it is one of the object's keys, and the value is that property's |
| RuleStore.Put | modules/editor.js:107 | `obj[t] = v`: `__proto__` is ignored; otherwise `t` reads back as `v`, every other key reads as before, an existing key keeps its place, and a new key goes last |
| RuleStore.AssignNew | modules/editor.js:107 | assigning a key the object does not have appends exactly that property |
| RuleStore.PutKeepsUnique | modules/editor.js:107 | assignment never creates a second property with the same key |
| RuleStore.Entries | modules/editor.js:119 | `Object.entries` lists exactly the object's properties, each as often as it occurs (the order is stated by `EntriesOrder`) |
| RuleStore.EntriesOrder | modules/editor.js:119 | `Object.entries` lists every property once, array-index keys first in strictly ascending numeric order, then the other keys in creation order |
| RuleStore.EntriesInCreationOrder | modules/editor.js:119 | without array-index keys, entries come in creation order |
| RuleStore.EntriesExample | modules/editor.js:119 | a key `42` created after `btw` is still enumerated first |
| RuleStore.NumeralRoundTrip | modules/editor.js:119 | a canonical numeral key is the decimal rendering of the number it denotes |
| RuleStore.IndexValueInjective | modules/editor.js:119 | two different array-index keys denote different numbers, so the numeric order is strict |
| HotstringParser.ParseLine | modules/editor.js:103-106 | a line that does not start with `::` or still ends in `\r` defines no rule, and a rule found has a non-empty trigger (its exact groups are stated by `ParseLineSound` and `ParseLineComplete`) |
| HotstringParser.ParseLineSound | modules/editor.js:103-106 | a parsed line is `::t::r` with a non-empty trigger, no line terminator, and no `::` that would end a shorter trigger |
| HotstringParser.ParseLineComplete | modules/editor.js:103-106 | every match of the pattern is found, with the same trigger and replacement groups |
| HotstringParser.ParseLineNone | modules/editor.js:103-104 | a line the parser rejects matches the pattern in no way |
| HotstringParser.CarriageReturnLine | modules/editor.js:103 | a line that keeps the `\r` of a CRLF ending defines no rule |
| HotstringParser.CrlfDocument | modules/editor.js:101-103 | in a CRLF document only the last line, which has no `\r`, can define a rule |
| HotstringParser.ParseLines | modules/editor.js:102-108 | each line adds at most one property, so the store has no more entries than there are lines (its contents are stated by `ParseLinesMissing` and `ParseLinesLastWins`) |
| HotstringParser.Parse | modules/editor.js:99-109 | the store has at most one entry per `\n`-separated line, and an empty document gives an empty store |
| HotstringParser.ParseLinesWellFormed | modules/editor.js:100-109 | a parsed store has unique, non-empty keys and never the key `__proto__` |
| HotstringParser.LookupIsEntryOf | modules/editor.js:100-109 | the parsed store's entry for a trigger equals the replacement on the last line defining it, found by reading the document from its end, and there is none for `__proto__` |
| HotstringParser.ParseLinesMissing | modules/editor.js:100-109 | a trigger is missing from the store exactly when no line defines it (or it is `__proto__`), so nothing from an earlier store survives |
| HotstringParser.ParseLinesLastWins | modules/editor.js:102-107 | a trigger maps to `r` exactly when the last line defining it has replacement `r` |
| HotstringParser.ParseLinesKeyOrder | modules/editor.js:102-107 | the store's keys are the defined triggers in order of first definition, so a redefinition changes the value but not the place |
| HotstringParser.DistinctRuleLines | modules/editor.js:99-109 | N rule lines with distinct triggers give exactly those N rules, in line order, with verbatim replacements |
| HotstringParser.EmptyDocument | modules/editor.js:99-101 | an empty document gives an empty store |
| Expansion.FindFirst | modules/editor.js:119-120 | the scan returns the first entry whose trigger ends the text, or reports that none does |
| Expansion.Substitute | modules/editor.js:121-129 | the rewrite keeps the text before the trigger and the text from the cursor on, puts the replacement and the typed character between them, and moves the cursor by the replacement's length minus the trigger's |
| Expansion.ExpandWith | modules/editor.js:119-130 | the buffer is left alone exactly when no entry's trigger ends the text before the typed character; otherwise the rewrite is the substitution of the first entry whose trigger does |
| Expansion.Expand | modules/editor.js:113-134 | nothing changes unless the path ends in `.md`, the event is `insertText` and the data is a space or newline; then the buffer changes exactly when some entry's trigger ends the text before the typed character, and the rewrite commits the first such entry |
| Expansion.ExpansionReplacesTrigger | modules/editor.js:120-129 | every rewrite of a parsed store replaces a stored trigger, sitting right before the typed character, by its replacement; the text before it and after the cursor is kept, and the cursor lands after replacement and typed character |
| Expansion.TypedTriggerExpands | modules/editor.js:116-129 | typing a boundary right after a stored trigger that no other trigger also ends turns `before + t + data + after` into `before + r + data + after`, cursor after `r + data` |
| Expansion.ExpandPicksFirst | modules/editor.js:119-130 | the first matching entry is the one committed; later entries are not consulted |
| Expansion.ExpandOrderIndependent | modules/editor.js:119-120 | when no trigger ends another, any enumeration order of the rules expands alike |
| Expansion.RuleDocumentNeverExpands | modules/editor.js:114 | the rule document (`.ahk`) is never expanded into |
| Expansion.NonBoundaryNeverExpands | modules/editor.js:116 | a typed text other than one space or one newline never rewrites the buffer |
| Expansion.ExpandExample | modules/editor.js:118-129 | `I think btw ` with cursor 12 and rule `btw` becomes `I think by the way ` with cursor 19 |
| Expansion.NoMatchExample | modules/editor.js:118-120 | `hello wor ` is left unchanged by the rule `btw` |
| NoteTree.FindAhk | modules/editor.js:81-90 | a found node is named `MyHotkeys.ahk` |
| NoteTree.FindAhkIsFirstInPreorder | modules/editor.js:81-90 | `findAhk` returns the first `MyHotkeys.ahk` of the depth-first pre-order, and null exactly when there is none |
| NoteTree.LoadHotstrings | modules/editor.js:92-96 | without a rule document the store is untouched; otherwise it is the parse of that document's text |
| NoteTree.ReloadForgetsOldRules | modules/editor.js:92-100 | after a reload a trigger has an entry exactly when a line of the rule document defines it |
| NoteTree.RenderTree | modules/file-tree.js:18-23 | the recorded path is the previous one or the path of a visited node named `MyHotkeys.ahk` |
| NoteTree.Shown | modules/file-tree.js:18-179 | no sidebar item is built for a node named `MyHotkeys.ahk` |
| NoteTree.ShownIsVisitedWithoutRuleDocuments | modules/file-tree.js:18-179 | the nodes that get a sidebar item are exactly the visited nodes other than rule documents, in visiting order |
| NoteTree.RenderTreeRecordsLast | modules/file-tree.js:19-23 | `renderTree` leaves the path of the last `MyHotkeys.ahk` it visits |
| NoteTree.RenderTreeDisagreesWithFindAhk | modules/file-tree.js:20-22 | with two rule documents, the recorded path and the document `findAhk` reads differ |
| NoteTree.RenderTreeFirstAgreesWithFindAhk | modules/file-tree.js:20-22 | recording the first rule document met names exactly the one `findAhk` finds |
| EditorRules.KeepTitleChars | modules/editor.js:36 | the cleaned text is no longer than the input and holds only `[A-Za-z0-9 _-]` characters |
| EditorRules.KeepTitleCharsSingle | modules/editor.js:36 | one character is kept exactly when it is in `[A-Za-z0-9 _-]` |
| EditorRules.KeepTitleCharsConcat | modules/editor.js:36 | cleaning a concatenation is cleaning each part and concatenating, so the kept characters stay in their order |
| EditorRules.KeepTitleCharsExample | modules/editor.js:36 | `a.b` is cleaned to `ab` |
| EditorRules.KeepTitleCharsCounts | modules/editor.js:36 | the cleaning keeps every `[A-Za-z0-9 _-]` character as often as it occurs and drops every other character |
| EditorRules.TitleOf | modules/editor.js:35-36 | the title is `Untitled` when the trimmed, cleaned line is empty, else the first `min(50, length)` characters of that cleaned line |
| EditorRules.TitleOfExample | modules/editor.js:35-36 | the line `  a.b ` is trimmed, cleaned and gives the title `ab` |
| EditorRules.NewNoteFilename | modules/editor.js:35-37 | a new note's file name is the title of the note's first line (the text before the first `\n`) plus `.md`, so it has at most 53 characters |
| EditorRules.NewNoteFilenameFirstLine | modules/editor.js:35 | lines after the first do not affect the file name |
| EditorRules.NewNoteFilenameOfTitle | modules/editor.js:35-37 | a first line that is already a clean title of at most 50 characters becomes the file name as it is, plus `.md` |
| EditorRules.TitleOfUntitled | modules/editor.js:36 | a first line without title characters gives `Untitled` |
| EditorRules.StripNoteExtension | modules/editor.js:56 | the shown title plus `.md` is the file name of a note, and any other file name is shown whole |
| EditorRules.StripNoteExtensionRoundTrip | modules/editor.js:56 | a note named `stem.md` is shown as `stem` |
| EditorRules.LastSegment | modules/editor.js:242 | the original name is the text after the last `/` or `\`, with no separator in it |
| EditorRules.Rename | modules/editor.js:237-259 | nothing happens without a file or folder; a blank title puts the shown title back; the name is kept exactly when the trimmed title equals the shown one; otherwise the open file, else the selected folder, is renamed to the trimmed title, with `.md` appended exactly when a `.md` file gets a title without it |
| EditorRules.RenameKeepsNoteExtension | modules/editor.js:245-259 | committing a non-blank title without `.md` that differs from the shown one renames a note, appending `.md`, and the renamed note is then shown with exactly the typed title |
| EditorRules.RenameToShownTitleKeepsName | modules/editor.js:252-254 | committing the title `openFile` put up renames nothing |
| EditorRules.AutoPair | modules/editor.js:189-201 | only in `.ahk` files and only for `"` and `(`: the selection is replaced by the pair, the cursor sits between its halves, and the length becomes `len - (end - start) + 2` |
| EditorRules.UnpairRestores | modules/editor.js:199-201 | deleting the inserted pair leaves the text with the selection removed, so nothing else was inserted |
| EditorRules.PairingExcludesExpansion | modules/editor.js:190 | pairing and expansion never act on the same file |
| EditorRules.NewNoteNameSurvivesCreate | main.js:184 | `create-file` keeps the name `createNewNote` asks for |
| TreeDrop.ZoneOf | modules/file-tree.js:97-111 | a file is split at half its height into a top and a bottom mark and never gets the middle mark; a folder is marked top in its upper quarter, bottom in its lower quarter, and middle in between |
| TreeDrop.FileDropAmongSiblingsReorders | modules/file-tree.js:97-142 | dropping onto a file of the dragged entry's own folder always reorders, wherever the pointer is over the file |
| TreeDrop.SeparatorOf | modules/file-tree.js:133 | the separator is `\` exactly when the target path holds one, and `/` otherwise |
| TreeDrop.ParentOf | modules/file-tree.js:134-135 | without a separator the parent is empty; with one, the path starts with the parent followed by the separator |
| TreeDrop.NameOf | modules/file-tree.js:136 | the name is the longest end of the path without a separator: it is the whole path or follows a separator |
| TreeDrop.SplitOfJoin | modules/file-tree.js:134-136 | a folder path, a separator and a separator-free name split back into exactly that folder and that name |
| TreeDrop.ParentNameSplit | modules/file-tree.js:133-136 | a path with a separator is its parent, the separator and its name; the name has no separator; without one the parent is empty and the name is the path |
| TreeDrop.Reorder | modules/file-tree.js:139-151 | the new order has one entry more than the siblings without the dragged name (its contents and place are stated by `ReorderKeepsOthers` and `ReorderPlacesNextToTarget`) |
| TreeDrop.Without | modules/file-tree.js:140 | the filter removes every occurrence of the dragged name |
| TreeDrop.ReorderKeepsOthers | modules/file-tree.js:139-148 | after a reorder the dragged name occurs once, and removing it gives the other names in their old order |
| TreeDrop.ReorderPlacesNextToTarget | modules/file-tree.js:141-151 | the dragged name lands just before the target on a top drop, just after it on a bottom drop, and last when the target is absent |
| TreeDrop.ReorderPermutes | modules/file-tree.js:139-148 | with the dragged name among distinct names, the new order is a permutation of the old |
| TreeDrop.DropAsWritten | modules/file-tree.js:131-169 | no action without a dragged path or onto itself; a reorder exactly for a top or bottom drop between siblings, saving for the dragged entry's parent the siblings' names reordered next to the target; a refusal exactly for a folder target whose path starts with the dragged path; otherwise a move into the target folder or the target file's parent |
| TreeDrop.DropGuardCounterexamples | modules/file-tree.js:163-166 | the prefix guard refuses the sibling `/n/ab` when dragging `/n/a`, yet asks to move `/n/a` into itself when dropped on `/n/a/x.md` |
| TreeDrop.Drop | modules/file-tree.js:131-169 | with the intended guard, a move never targets the dragged entry or a folder inside it, and the refusal happens exactly then; a reorder saves the same order as the handler as written |
| TreeDrop.DropCorrectedExamples | modules/file-tree.js:158-166 | the intended guard moves `/n/a` into its sibling `/n/ab` and refuses the drop onto `/n/a/x.md` |
| MainProcess.JoinPath | main.js:109 | `path.join(dir, name)` is the folder, one separator and the name, in that order |
| MainProcess.Basename | main.js:200 | the base name is the longest end of the path without a separator: it is the whole path or follows a separator |
| MainProcess.BasenameOfJoin | main.js:200-202 | the base name of `join(dir, name)` is `name` |
| MainProcess.ListEntries | main.js:106-133 | `_folder_order.json` is never listed, listed files end in `.md` or `.ahk`, and every listed path is the folder joined with the name |
| MainProcess.ListEntriesMembership | main.js:106-133 | a node is listed exactly when a kept entry of that name exists: a folder for a directory, a file for a `.md` or `.ahk` non-directory, nothing for failed stats |
| MainProcess.CustomCompare | main.js:136-150 | a name listed in the order file precedes an unlisted one; two listed names compare by their positions in the order; two unlisted ones put a folder first and otherwise collate their names |
| MainProcess.DefaultCompareAsWritten | main.js:152-156 | as written: a folder ranks below every folder, a file ranks above every folder, and against a file the names are collated whatever the first entry is |
| MainProcess.DefaultCompare | main.js:152-156 | the intended order: a folder precedes a file, and entries of the same kind compare by collating their names |
| MainProcess.SortListing | main.js:135-157 | the sorted listing holds exactly the listed nodes, each as often as before (the order is stated by `CustomOrderListing` and `DefaultOrderListing`) |
| MainProcess.DefaultCompareAsWrittenInconsistent | main.js:152-156 | the default comparator as written ranks each of two folders below the other, and ranks a folder and a file both above each other when the folder's name collates later |
| MainProcess.ComparatorsAntisymmetric | main.js:136-156 | with an antisymmetric collation, the custom comparator and the intended default comparator give opposite signs when their arguments are swapped |
| MainProcess.SortLocallySorted | main.js:136-156 | sorting with an antisymmetric comparator leaves every neighbour pair in order |
| MainProcess.SortKeySorted | main.js:136-156 | a comparator that respects a key sorts by that key |
| MainProcess.CustomOrderListing | main.js:135-150 | with a custom order, listed names come before unlisted ones, listed names follow their order, and unlisted folders come before unlisted files |
| MainProcess.DefaultOrderListing | main.js:151-156 | without a custom order (intended comparator), folders come before files |
| MainProcess.WithNoteExtension | main.js:184 | the created name ends in `.md` or `.ahk`; it is the given name exactly when that already ends in one of them, else the name plus `.md` |
| MainProcess.WithNoteExtensionIdempotent | main.js:184 | adding the extension twice is adding it once |
| MainProcess.MoveTarget | main.js:199-208 | the new path is the given folder, or the notes root when none is given, joined with the entry's base name; nothing moves exactly when that equals the old path |
| MainProcess.MoveIntoOwnFolderIsNoop | main.js:199-208 | moving an entry into the folder it is in does nothing |

## Left out

- Electron windows, the tray, the single-instance lock and the AutoHotkey process (main.js:20-84, 218-249) are left out. They are OS and process glue.
- File-system and IPC calls are parameters of the functions or are left out. This covers reading the rule document, listing a sub-folder, and the results of `renameFile`, `moveEntry` and `saveOrder`.
- The `save-file` copy of the rule document and the AutoHotkey reload are left out, because they are I/O.
- Save timing, debounce timeouts and the asynchronous reparse after a save of the rule document are left out. The model makes no claim that a save and the reparse happen atomically.
- DOM rendering, drag-over highlighting and title-width measurement are left out. So are the `modal.js`, `dom.js` and `renderer.js` UI code, and the alerts.
- TreeDrop.ZoneOf: the pointer offset and the row height are exact reals. A file row is split into halves and a folder row into quarters, as in the source, but floating-point rounding and the browser's layout that produce the two numbers are not modelled.
- Strings are sequences of characters. JavaScript counts UTF-16 code units, so offsets differ from the application's for characters outside the Basic Multilingual Plane.
- Expansion.Expand: which `inputType` the Enter key produces is browser behaviour. Only the condition the code tests is modelled.
- MainProcess.SortListing: `Array.prototype.sort` is modelled as a stable insertion sort. For a consistent comparator every stable sort gives this result.
- MainProcess.SortListing: the default comparator as written is inconsistent (see Findings), so the engine's order with it is implementation-defined and is not modelled. The listing uses the intended comparator.
- MainProcess.CustomCompare: `localeCompare` is the `collate` parameter. Locale-specific collation is not modelled.
- MainProcess.CustomCompare: the order file's parsed JSON is taken to be an array of strings, and an empty array selects the default order. In the source, a parse error and any value without a positive `length` (a number, a boolean, `{}`) also select the default order. Three other JSON values are not modelled:
  - `null` makes `customOrder.length` throw at main.js:135, so the listing request fails;
  - a non-empty JSON string takes the custom branch, and `String.prototype.indexOf` ranks names by where they occur as substrings of it;
  - an object with a positive numeric `length` takes the custom branch and throws at main.js:137 once two entries are compared, because it has no `indexOf`.
- EditorRules.Rename: the model stops at the rename decision. The `rename-file` channel that `renameFile` invokes (preload.js:15) has no handler in main.js, so in the program as shipped every rename request is rejected, and the handling after it (modules/editor.js:261-271) is not modelled.
- MainProcess.JoinPath: `path.join` and `path.basename` are modelled for normalised folder paths and plain names. The `.`, `..` and trailing-separator normalisation of Node's path module is not modelled.
- NoteTree.LoadHotstrings: the rule document's text comes from the `read` parameter. `read-file` returning an empty string for a missing file is part of that parameter.

## Findings

| source | as written | input that shows it | evidently intended | confidence | as-written member | corrected member |
|---|---|---|---|---|---|---|
| main.js:153 | `if (a.type === 'folder' && b.type !== 'file') return -1;` | two folders compare -1 both ways round; a folder `b` and a file `a.md` compare positive both ways round under a collation that puts `a.md` first | `b.type !== 'folder'`, so that folders precede files and otherwise names decide | high, not executed | MainProcess.DefaultCompareAsWrittenInconsistent | MainProcess.DefaultOrderListing |
| modules/file-tree.js:163 | `node.type === 'folder' && node.path.startsWith(draggedPath)` | dragging `/n/a` onto the sibling folder `/n/ab` is refused; dragging `/n/a` onto the note `/n/a/x.md` asks to move `/n/a` into `/n/a` | refuse exactly when the destination folder is the dragged path or lies under the dragged path plus a separator, for any kind of target | medium, not executed | TreeDrop.DropGuardCounterexamples | TreeDrop.Drop |
| modules/file-tree.js:20-21 | every `MyHotkeys.ahk` met overwrites `state.ahkFilePath`, so the last one wins, while `findAhk` (modules/editor.js:81-90) reads the first | a folder `a` holding `MyHotkeys.ahk`, listed before a root `MyHotkeys.ahk`: the toolbar button opens the root one, while the engine parses the one in `a` | the button opens the document the engine reads, which means recording the first one met | medium, not executed | NoteTree.RenderTreeDisagreesWithFindAhk | NoteTree.RenderTreeFirstAgreesWithFindAhk |
