# cheeter — a verified model of the daemon's core

cheeter shows a PDF cheat sheet for whatever application is in front. The
daemon `cheeterd` does the work. It keeps an index of the sheet directory
and a table of explicit mappings loaded from `mappings.tsv`. It also keeps
an X11 backend, which grabs a global hotkey and reports the active
application. When the hotkey fires or a `TOGGLE` control command arrives,
the daemon does four things:

- builds an application key from the active window (`exe:<basename>`,
  else `class:<WM_CLASS>`, else `unknown`);
- looks the key up in the mappings;
- if the key has no mapping, looks up the lower-cased name after the
  first ':' in the sheet index;
- toggles the viewer with the sheet it found, or with no sheet.

The client `cheeter` turns one command-line word into one control command
and reports the outcome in its exit status.

The model is written in Dafny. Its modules follow the program's components
rather than its files: `src/backend/x11/x11_backend.c` is split into three
modules (hotkey, `/proc` and backend), and two modules model library
helpers that have no source file of their own. The program's objects
become classes and its pure computations become functions:

- `SheetIndex`: `class Index`, with the directory scan and basename lookup.
- `MappingStore`: `class Store`, covering load, get, set and save of the
  tab-separated file. The file's text is an input to load and an output of
  save.
- `Resolver`: the two-step sheet resolution.
- `X11Hotkey`: hotkey parsing, the lock-insensitive key test and the four
  grab masks.
- `X11Process`: the `/proc/<pid>/environ` window-id scan and the
  deepest-child walk over a `/proc` snapshot.
- `X11Backend`: `class X11Backend`, with init, the event filter, the
  active-application query and cleanup.
- `Daemon`: `class Daemon`, covering main's set-up, `handle_toggle`,
  `on_ipc_command` and hotkey delivery. The UI is represented by the list of
  sheets it was asked to toggle and by a quit flag.
- `Client`: the client's `main`.
- `Ascii`, `Backend` and `Wrappers`: the glib string helpers the code relies
  on, the `AppIdentity` record, and `Option`.

The outside world becomes explicit inputs:

- a directory listing, or none when the directory cannot be opened;
- a file's text, or none when it cannot be opened;
- whether the mappings file can be opened for writing;
- whether GDK has an X11 display;
- the keysym-to-keycode table;
- a `Desktop` value: the active window, its `WM_CLASS`, `_NET_WM_PID` and
  title, a `/proc` snapshot and the readable `/proc/<pid>/exe` targets.

Integer masks are modelled as sets of bit positions. Bitwise OR becomes
union, and AND-NOT becomes set difference.

The C buffer sizes are kept explicitly:

- `fgets` reads at most 1023 characters per line;
- `fread` of the environment reads at most 4096 bytes;
- `readlink` returns at most 1023 characters.

Behaviours of the code worth noting, each modelled as the code has it:

- A scan adds to the existing index rather than replacing it.
  `Index.ScanDir` prepends to the list and inserts into the table, and an
  entry with an existing basename overwrites it.
- Save rewrites the mappings file in place, with no temporary file and no
  rename.
- Cleanup removes the event filter and drops the private state, but it never
  calls `XUngrabKey`, so the grabs stay.
- A hotkey string without a recognised key still makes `init` succeed, with
  no grab.
- The environment scan stops at the first entry that starts with
  `WINDOWID=<id>`, even when that entry is longer. A `WINDOWID=1234` entry
  therefore hides a later `WINDOWID=123` (`X11Process.LongerIdHidesExact`).
- When two sheet files differ only in case, the one enumerated later wins,
  in the table and so in every lookup
  (`SheetIndex.DuplicateBasenameLaterWins`, `SheetIndex.FindAfterScanLaterWins`).
- The window class goes into the application key verbatim, so "Firefox" and
  "firefox" are different keys to the mapping table
  (`Daemon.ClassCaseMatters`).

## Model

| member | source | states |
|---|---|---|
| Ascii.Lower | src/index/index_scan.c:51 | g_ascii_strdown keeps the length and lower-cases each character; the result has no upper-case ASCII letter |
| Ascii.LowerIdempotent | src/mapping/resolve.c:38 | lower-casing an already lower-cased name changes nothing |
| Ascii.IndexOf | src/mapping/resolve.c:30 | strchr: the index found holds the character and no earlier index does; none means the character does not occur |
| Ascii.Split | src/backend/x11/x11_backend.c:96 | g_strsplit gives no piece for the empty string and at least one for any other, and no piece contains the separator |
| Ascii.SplitJoin | src/backend/x11/x11_backend.c:96 | joining the split tokens with the separator gives back the hotkey string |
| Ascii.Decimal | src/backend/x11/x11_backend.c:197 | printf's "%lu" gives at least one character, all decimal digits |
| Ascii.DecimalValue | src/backend/x11/x11_backend.c:197 | the digits printed have the number as their decimal value, with no leading zero |
| Ascii.DecimalInjective | src/backend/x11/x11_backend.c:197 | two numbers print the same if and only if they are equal |
| Ascii.DecimalExamples | src/backend/x11/x11_backend.c:197 | 0, 123 and 1234 print as "0", "123" and "1234" |
| SheetIndex.IsSheetFile | src/index/index_scan.c:45 | defines the sheet test, a case-sensitive ".pdf" suffix; ScannedExactlySheets and LookupIsExact use it |
| SheetIndex.EntryFor | src/index/index_scan.c:46-51 | defines the entry for a sheet file, its joined path and its lower-cased stem; EntryForShape states its properties |
| SheetIndex.EntryForShape | src/index/index_scan.c:46-51 | the entry's basename is the file name without ".pdf", lower-cased character by character; its path ends with the file name |
| SheetIndex.Index.constructor | src/index/index_scan.c:16-25 | a new index has an empty table and an empty list |
| SheetIndex.Index.ScanDir | src/index/index_scan.c:35-63 | an unopenable directory leaves the index unchanged; otherwise every ".pdf" entry is prepended to the list and inserted into the table under its basename, on top of what was there |
| SheetIndex.Index.Find | src/index/index_scan.c:65-69 | the lookup finds an entry exactly when the basename is a table key; the entry found is the one the table files under that basename, has that basename and is in the list |
| SheetIndex.ScanKeepsConsistent | src/index/index_scan.c:54-55 | prepending each scanned entry to the list and filing it in the table keeps the two in agreement: every key holds an entry with that basename that is in the list, and every listed basename is a key |
| SheetIndex.ScannedExactlySheets | src/index/index_scan.c:44-51 | an entry is scanned if and only if it is the entry of some listed name ending in ".pdf" |
| SheetIndex.ScannedCount | src/index/index_scan.c:43-58 | the number of entries scanned is the number of listed names ending in ".pdf" |
| SheetIndex.ReversedAt | src/index/index_scan.c:54 | prepending one by one lists the entries in reverse enumeration order |
| SheetIndex.ReversedLength | src/index/index_scan.c:54 | prepending keeps the number of scanned entries |
| SheetIndex.InsertedHas | src/index/index_scan.c:55 | after the inserts, a basename is a key if and only if it was one before or some scanned entry has it |
| SheetIndex.InsertedElsewhere | src/index/index_scan.c:55 | a basename no scanned entry has keeps its old entry |
| SheetIndex.InsertedLastWins | src/index/index_scan.c:55 | for a basename, the last scanned entry with it is the one the table holds |
| SheetIndex.FindAfterScanLaterWins | src/index/index_scan.c:55-68 | after a scan, looking up a basename finds the last scanned entry with it |
| SheetIndex.ScanKeepsBasenames | src/index/index_scan.c:55 | a rescan never removes a basename |
| SheetIndex.ScannedPair | src/index/index_scan.c:44-51 | a two-name listing scans exactly the names ending in ".pdf", in order |
| SheetIndex.DuplicateBasenameLaterWins | src/index/index_scan.c:50-55 | "Vim.pdf" then "vim.pdf" both map to "vim"; the table keeps the second and the list holds both |
| SheetIndex.LookupIsExact | src/index/index_scan.c:44-68 | "MyApp.pdf" is found as "myapp" and not as "MyApp"; "notes.PDF" is not indexed |
| MappingStore.FgetsLines | src/mapping/mappings_store.c:22-23 | every line read is non-empty and at most 1023 characters long |
| MappingStore.FgetsCut | src/mapping/mappings_store.c:22 | one fgets call takes at least one character, at most 1023, and no more than the text holds |
| MappingStore.FgetsCutFacts | src/mapping/mappings_store.c:22 | what one call returns has no newline before its end, and ends in a newline or fills the buffer unless it reaches the end of the text |
| MappingStore.FgetsLinesCover | src/mapping/mappings_store.c:22-23 | the lines read put together give back the whole text; none holds a newline before its last character; every line but the last ends in a newline or is 1023 characters long |
| MappingStore.FgetsLinesConcat | src/mapping/mappings_store.c:22-23 | the lines read put together give back the whole text, an unterminated last line included |
| MappingStore.FgetsLinesNewlines | src/mapping/mappings_store.c:22-23 | no line read holds a newline before its last character |
| MappingStore.FgetsLinesStop | src/mapping/mappings_store.c:22-23 | every line read but the last ends in a newline or fills the buffer |
| MappingStore.UnterminatedLineRead | src/mapping/mappings_store.c:22-23 | a short text with no newline is read as one line |
| MappingStore.UnterminatedEntryLoads | src/mapping/mappings_store.c:22-40 | a file holding "key<TAB>value" with no final newline loads that one entry |
| MappingStore.ParseLine | src/mapping/mappings_store.c:25-40 | defines one line's entry: the trailing newline dropped, the key before the first tab, the value up to the next tab, none without a tab; ParseLineTabs, LineForParses and ExtraColumnDropped state its properties |
| MappingStore.ParseLineTabs | src/mapping/mappings_store.c:32-40 | a line gives an entry if and only if it holds a tab; neither the key nor the value then contains a tab |
| MappingStore.Store.Load | src/mapping/mappings_store.c:7-47 | a NULL path or an unopenable file gives an empty table; otherwise the table parsed from the file; the path is recorded either way |
| MappingStore.Store.Get | src/mapping/mappings_store.c:76-78 | a value is found if and only if the key is in the table, and it is the key's value |
| MappingStore.Store.Save | src/mapping/mappings_store.c:49-66 | text is written if and only if there is a path and the file opens; it is one line per entry in some order, and for a well-formed table it loads back as the same table |
| MappingStore.Store.Set | src/mapping/mappings_store.c:80-85 | the key now has the new value and every other key keeps its value; the whole new table is saved as above |
| MappingStore.FgetsConcat | src/mapping/mappings_store.c:22-23 | reading back text made of whole lines, each short enough and newline-terminated, yields exactly those lines |
| MappingStore.LineFor | src/mapping/mappings_store.c:63 | defines the line save writes for an entry, key, tab, value and newline; LineForParses and LineForProper state that it reads and parses back |
| MappingStore.LineForParses | src/mapping/mappings_store.c:32-42 | a written line parses back to its key and value |
| MappingStore.ExtraColumnDropped | src/mapping/mappings_store.c:37-40 | a legacy third column is dropped and the first two fields are kept |
| MappingStore.ParseLinesOfLines | src/mapping/mappings_store.c:42 | loading the lines written for a list of keys files exactly those keys, each under its value |
| MappingStore.LineForProper | src/mapping/mappings_store.c:22 | a written line of a plain entry is a single fgets result |
| MappingStore.RoundTrip | src/mapping/mappings_store.c:49-66 | whatever order save writes the entries in, the text loads back as the table it came from when the table is well formed |
| MappingStore.ParseLinesLastWins | src/mapping/mappings_store.c:42 | the last line for a key decides its value |
| MappingStore.ParseLinesStep | src/mapping/mappings_store.c:42 | one more line adds at most the key it carries |
| MappingStore.CarriedKeyIsFiled | src/mapping/mappings_store.c:32-42 | a key carried by any line ends up in the table |
| MappingStore.UncarriedKeyIsAbsent | src/mapping/mappings_store.c:32-42 | a key no line carries is not in the table |
| MappingStore.ParseLinesKeys | src/mapping/mappings_store.c:32-43 | a key is in the loaded table if and only if some line with a tab carries it |
| Resolver.NameQuery | src/mapping/resolve.c:30-38 | the query is all lower case and no longer than the key, and is the whole key lower-cased when the key has no ':' |
| Resolver.NameQueryAfterScheme | src/mapping/resolve.c:30-38 | for every key "<scheme>:<rest>" whose scheme has no ':', the query is exactly `rest` lower-cased |
| Resolver.Resolve | src/mapping/resolve.c:11-50 | no key gives nothing; a mapped key gives its mapping whatever the index holds; an unmapped key gives a sheet if and only if its query is an indexed basename, and then the path of the entry the table files under that basename |
| Resolver.ResolvedFromTables | src/mapping/resolve.c:19-47 | a resolved path is always either a mapped value or the path of an indexed sheet |
| Resolver.QueryAfterFirstColon | src/mapping/resolve.c:30-35 | "a:b:c" queries "b:c", "exe:Foo" queries "foo", "unknown" queries itself |
| Resolver.HeuristicFallback | src/mapping/resolve.c:27-46 | an unmapped "exe:Foo" resolves to the sheet indexed as "foo" |
| Resolver.QueryIgnoresCase | src/mapping/resolve.c:38 | keys whose names after the scheme agree up to ASCII case resolve by the same query |
| Daemon.TrimTrailingSlashes | src/cheeterd.c:247 | trimming leaves a prefix of the path that does not end in '/', and everything removed was '/' |
| Daemon.AfterLastSlash | src/cheeterd.c:247 | the last component is a suffix of the path and contains no '/' |
| Daemon.Basename | src/cheeterd.c:247 | g_path_get_basename never returns an empty string; for a path not ending in '/' it returns a suffix without '/' |
| Daemon.BasenameOfJoin | src/cheeterd.c:247 | the basename of "dir/name" is name |
| Daemon.AfterLastSlashOfJoin | src/cheeterd.c:247 | the text after the last '/' of "dir/name" is name |
| Daemon.AppKey | src/cheeterd.c:239-258 | the key has the "exe:" prefix if and only if there is an executable path; it has "class:" if and only if there is a class but no path; it is "unknown" if and only if there is no identity or neither field; after "exe:" comes the basename of the path, after "class:" the class verbatim |
| Daemon.AppKeyIgnoresTitle | src/cheeterd.c:246-254 | the window title never affects the key |
| Daemon.AppKeyKeepsClass | src/cheeterd.c:250-251 | with no executable path, two identities get the same key if and only if their classes are equal |
| Daemon.ClassCaseMatters | src/cheeterd.c:250-251 | the classes "Firefox" and "firefox" give different keys |
| Daemon.AppKeyQuery | src/cheeterd.c:246-260 | the name resolved for an identity is the lower-cased executable basename, else the lower-cased class, else "unknown" |
| Daemon.Dispatch | src/cheeterd.c:42-55 | toggle if and only if the command starts with "TOGGLE"; status if and only if it starts with "STATUS"; quit if and only if it starts with "QUIT" |
| Daemon.PrefixFirstChar | src/cheeterd.c:44-51 | a command starts with a prefix only if their first characters agree, so the three prefixes exclude each other |
| Daemon.DispatchExamples | src/cheeterd.c:42-55 | "TOGGLE now" toggles; "SEARCH", "toggle" and "" are ignored |
| Daemon.Daemon.Start | src/cheeterd.c:147-203 | the index holds one scan of the sheet directory and the store the loaded mappings; the backend exists if and only if X11 support is built in; with a display it holds the parsed hotkey and its grabs and the filter is installed; without one it holds nothing |
| Daemon.Daemon.HandleToggle | src/cheeterd.c:229-273 | the UI is toggled exactly once, with the sheet resolved for the key of the active application as the backend reports it; the index, store, backend and quit flag are unchanged |
| Daemon.Daemon.OnIpcCommand | src/cheeterd.c:42-55 | a TOGGLE command toggles as above; QUIT sets the quit flag and toggles nothing; STATUS and anything else change nothing |
| Daemon.Daemon.OnXEvent | src/backend/x11/x11_backend.c:72-78 | an event toggles the UI exactly once when the filter runs the callback for it, and otherwise changes nothing |
| Client.IpcCommand | src/cheeter.c:27-38 | a command is produced if and only if the word is one of toggle, search, status and quit; it lower-cases to the word and has no lower-case letter, so it is the word in upper case |
| Client.ClientMain | src/cheeter.c:18-60 | the exit status is 0 or 1; a command is sent if and only if there is a known first argument; otherwise usage is printed with status 1; status 0 if and only if a command was sent and the daemon replied; a failed send reports a connection error; a reply prints the daemon's response when there is one and nothing otherwise |
| Client.ClientWordsReachDaemon | src/cheeter.c:27-34 | toggle, status and quit reach the daemon's matching actions; search is sent but ignored |
| Client.CaseSensitiveWords | src/cheeter.c:19-38 | "Toggle", "TOGGLE" and a missing argument are usage errors with status 1 and nothing sent |
| X11Hotkey.ModifierBits | src/backend/x11/x11_backend.c:99-107 | a token sets at most one named modifier: Super sets Mod4, Control or Ctrl sets Control, Shift sets Shift, Alt sets Mod1, each compared without regard to ASCII case |
| X11Hotkey.ParseHotkey | src/backend/x11/x11_backend.c:87-116 | the modifiers are the union over all tokens; the key code is that of the last token that names a key, else 0; no string gives 0 and no modifiers |
| X11Hotkey.ModsHaveNamedBit | src/backend/x11/x11_backend.c:97-107 | a modifier bit is set if and only if some token names it |
| X11Hotkey.ModsOnlyNamedBits | src/backend/x11/x11_backend.c:99-107 | parsed modifiers use only Shift, Control, Mod1 and Mod4, never Lock or Mod2 |
| X11Hotkey.ModsAppend | src/backend/x11/x11_backend.c:97-107 | the modifiers of two token lists together are the union of each list's modifiers |
| X11Hotkey.ModsIgnoreOrder | src/backend/x11/x11_backend.c:97-107 | modifier order and repetition do not matter |
| X11Hotkey.CodeLastKeyWins | src/backend/x11/x11_backend.c:108-112 | the last token naming a key decides the key code |
| X11Hotkey.CodeWithoutKeyToken | src/backend/x11/x11_backend.c:89-112 | without a key token the key code stays 0 |
| X11Hotkey.CleanState | src/backend/x11/x11_backend.c:65 | the cleaned state has no Lock or Mod2 bit, and with them added back it is the original state |
| X11Hotkey.KeyMatches | src/backend/x11/x11_backend.c:62-72 | defines the filter's test, equal keycode and equal cleaned state; GrabbedIffMatched and GrabsAreWhatFilterConsumes relate it to the grabs |
| X11Hotkey.GrabMasks | src/backend/x11/x11_backend.c:156-163 | the four modifier masks grabbed, the hotkey's modifiers with and without Lock and Mod2 |
| X11Hotkey.GrabbedIffMatched | src/backend/x11/x11_backend.c:156-163 | for lock-free modifiers, a key press matches one of the four grabs if and only if the filter's cleaned comparison accepts it |
| X11Hotkey.CtrlToken | src/backend/x11/x11_backend.c:101-103 | "Ctrl" and "CTRL" set Control |
| X11Hotkey.AltToken | src/backend/x11/x11_backend.c:106-107 | "Alt" and "alt" set Mod1 |
| X11Hotkey.HToken | src/backend/x11/x11_backend.c:108-112 | "h" is no modifier |
| X11Hotkey.HotkeyExample | src/backend/x11/x11_backend.c:86-116 | "Ctrl+Alt+h" parses to Control and Mod1 with the key code of h |
| X11Hotkey.HotkeyExampleReordered | src/backend/x11/x11_backend.c:97-107 | "alt+CTRL+h" gives the same modifiers as "Ctrl+Alt+h" |
| X11Hotkey.ParsedModsHaveNoLocks | src/backend/x11/x11_backend.c:153-154 | the parsed modifiers never hold Lock or Mod2 |
| X11Process.Needle | src/backend/x11/x11_backend.c:197 | the needle is longer than its nine-character prefix and contains no NUL |
| X11Process.NeedleText | src/backend/x11/x11_backend.c:197 | the needle is "WINDOWID=" followed by the decimal digits of the window id |
| X11Process.NeedleInjective | src/backend/x11/x11_backend.c:197 | different windows have different needles |
| X11Process.NeedleExamples | src/backend/x11/x11_backend.c:197 | window 123 gives "WINDOWID=123" and window 1234 gives "WINDOWID=1234" |
| X11Process.EnvironBuffer | src/backend/x11/x11_backend.c:191-192 | the buffer holds the first 4096 bytes of the environment, or all of it when shorter |
| X11Process.FirstWithPrefix | src/backend/x11/x11_backend.c:202-214 | the scan stops at the first entry that starts with the needle; none means no entry does |
| X11Process.MatchIsExactEntry | src/backend/x11/x11_backend.c:203-213 | a match needs a non-zero window, a readable environment and an entry equal to the needle |
| X11Process.ExactEntryMatches | src/backend/x11/x11_backend.c:203-213 | an exact entry that no earlier entry shadows is a match |
| X11Process.LongerIdHidesExact | src/backend/x11/x11_backend.c:202-214 | for window 123, an earlier entry equal to the needle of window 1234 hides a later exact entry; in the other order the exact entry matches |
| X11Process.MatchWindowId | src/backend/x11/x11_backend.c:180-222 | the byte scan of the environment reports a match exactly when the first entry starting with the needle is the needle itself, for a non-zero window and a readable environment |
| X11Process.ScanEnviron | src/backend/x11/x11_backend.c:201-219 | the scan over the bytes read reports a match exactly when the first NUL-separated entry starting with the needle is the needle itself |
| X11Process.EntryEnd | src/backend/x11/x11_backend.c:215-218 | the inner loop stops at the first NUL at or after the start, or at the end of the bytes |
| X11Process.ScanEntry | src/backend/x11/x11_backend.c:203-218 | at one entry, strncmp either decides the answer or the scan moves past the entry's NUL without changing what the remaining entries decide |
| X11Process.EntriesMatchSkip | src/backend/x11/x11_backend.c:215-218 | an entry without the needle's prefix is skipped |
| X11Process.EntriesMatchHead | src/backend/x11/x11_backend.c:203-213 | an entry with the needle's prefix decides the result: a match exactly when the entry is the needle |
| X11Process.MatchEntry | src/backend/x11/x11_backend.c:203-213 | the byte test at an entry's start, the needle followed by NUL or by the end of the bytes, is the entry-level match |
| X11Process.SkipEntry | src/backend/x11/x11_backend.c:215-218 | advancing past an entry's NUL moves the entry-level scan to the next entry |
| X11Process.SkipLastEntry | src/backend/x11/x11_backend.c:215-218 | a last entry without the needle, running to the end of the bytes, leaves no match |
| X11Process.SkipInnerEntry | src/backend/x11/x11_backend.c:215-218 | an entry without the needle that ends in a NUL hands the answer to the entries after that NUL |
| X11Process.PrefixStartsAt | src/backend/x11/x11_backend.c:203 | an entry that starts with the needle passes strncmp at its position |
| X11Process.FirstChild | src/backend/x11/x11_backend.c:248-289 | the first child found is a child of the current process, neither itself nor the daemon; none means there is no child |
| X11Process.FirstClaimingChildIsClaiming | src/backend/x11/x11_backend.c:270-279 | the claiming child found has the window's id in its environment; none means no child does |
| X11Process.FirstClaimingChildFound | src/backend/x11/x11_backend.c:270-279 | a claiming child found is an entry that claims the window |
| X11Process.FirstClaimingChildNone | src/backend/x11/x11_backend.c:270-279 | no claiming child is found if and only if no entry claims the window |
| X11Process.ChildChoice | src/backend/x11/x11_backend.c:248-297 | defines one level's choice, the first claiming child while unlocked with a window, else the first child; ChildChoiceFacts states its properties and PickChild is proved equal to it |
| X11Process.ChildChoiceFacts | src/backend/x11/x11_backend.c:248-297 | the chosen child is a child; none is chosen only when there is no child; a locked branch stays locked and takes the first child; an unlocked branch with a window takes a claiming child when there is one, and locks |
| X11Process.FirstChildPrefix | src/backend/x11/x11_backend.c:287-288 | a child found early in the directory pass stays the first child |
| X11Process.FirstClaimingChildPrefix | src/backend/x11/x11_backend.c:270-278 | a claiming child found early in the pass is the first claiming child |
| X11Process.ExamineEntry | src/backend/x11/x11_backend.c:251-272 | reports exactly whether the entry is a child of the current process (not itself, not the daemon) and, when asked, whether that child claims the window |
| X11Process.PickChild | src/backend/x11/x11_backend.c:230-298 | one readdir pass picks the child and the lock state of the level's choice |
| X11Process.ChildIsLower | src/backend/x11/x11_backend.c:300-302 | a chosen child sits strictly lower in the process tree than its parent |
| X11Process.WalkEnd | src/backend/x11/x11_backend.c:225-308 | defines where the walk ends, descending by ChildChoice until no child is chosen; WalkEndsAtLeaf and WalkDescends state its properties |
| X11Process.DeepestChildOf | src/backend/x11/x11_backend.c:225-308 | defines get_deepest_child's result, the walk's end or 0 when it never left the start; DeepestChildZero states when it is 0 |
| X11Process.DeepestChild | src/backend/x11/x11_backend.c:225-308 | the walk returns the end of the chosen branch, or 0 when it never left the start |
| X11Process.WalkEndsAtLeaf | src/backend/x11/x11_backend.c:300-305 | with /proc listable, the walk ends at a process that has no child |
| X11Process.WalkDescends | src/backend/x11/x11_backend.c:300-307 | the walk ends where it started or at a positive pid strictly lower in the tree |
| X11Process.DeepestChildZero | src/backend/x11/x11_backend.c:307 | the result is 0 exactly when /proc cannot be listed or the start process has no child |
| X11Backend.HotkeyGrabs | src/backend/x11/x11_backend.c:156-163 | key code 0 gives no grab; otherwise four grabs of the key code, one per lock-variant mask |
| X11Backend.ExePathOf | src/backend/x11/x11_backend.c:368-385 | defines the executable reported for a pid, that of the deepest child when there is one, else the pid's own, when its exe link can be read; GetActiveApp is proved to report it |
| X11Backend.ReadlinkText | src/backend/x11/x11_backend.c:376-380 | the executable path read is a prefix of the link target: the whole target when it fits in 1023 characters, else its first 1023 |
| X11Backend.X11Backend.constructor | src/backend/x11/x11_backend.c:419-426 | a new backend has no private state, no filter and no grabs |
| X11Backend.X11Backend.Init | src/backend/x11/x11_backend.c:120-176 | init succeeds if and only if there is an X11 display; without one the private state is dropped and nothing is grabbed; with one the parsed hotkey is stored, its modifiers hold no lock bit, the four grabs are made when the key code is non-zero and the filter is installed |
| X11Backend.X11Backend.Cleanup | src/backend/x11/x11_backend.c:402-417 | with private state, the filter is removed and the state dropped; without, nothing changes; grabs are never released |
| X11Backend.X11Backend.FilterEvent | src/backend/x11/x11_backend.c:51-82 | an event is consumed if and only if the filter is installed, there is private state, it is a key press and its code and cleaned state equal the hotkey's; the callback runs if and only if the event is consumed and a callback was given |
| X11Backend.X11Backend.GetActiveApp | src/backend/x11/x11_backend.c:310-400 | no private state gives no identity; no active window gives an identity with every field empty; otherwise the window's class and title, the executable of its deepest child process (else of its own process), and never a desktop id; no positive pid gives no executable |
| X11Backend.GrabsAreWhatFilterConsumes | src/backend/x11/x11_backend.c:156-173 | after init with a key code, the filter consumes a key press exactly when its code and state are one of the grabs |

## Left out

- Sockets and the control protocol's transport (`ipc_server.c`, `ipc_client.c`) are not part of this model. The client's send outcome is an input, and the daemon's `on_ipc_command` receives the command text directly.
- The GTK viewer and `ui_manager.c` are not part of this model. Toggling is recorded as the list of sheets passed to the UI, and quitting as a flag.
- Configuration loading, the data, config and socket paths (`paths.c`), option parsing, the socket probe for a running daemon and `g_mkdir_with_parents` are left out. The sheet directory and the mappings path are inputs to `Daemon.Daemon.Start`.
- The SIGTERM handler and the GTK main loop are left out; they only stop the process.
- The Wayland mock backend is not part of this model. `Daemon.Daemon.Start` models an X11-or-nothing build.
- Logging and memory freeing are left out; they have no effect on results.
- The X server, `/proc`, `readlink` and `XStringToKeysym`/`XKeysymToKeycode` are inputs:
  - the `Desktop` value and the keysym-to-keycode map;
  - a key name missing from that map stands for `NoSymbol`.
- X11Process.DeepestChild: the `/proc` snapshot is fixed for the whole walk. Processes appearing or exiting between passes are not modelled.
- The process table must come with a ghost rank showing it has no cycle. The C loop would not terminate on a cyclic parent chain, which a real kernel never produces.
- X11Process.MatchWindowId: where `strncmp` would read past the bytes `fread` returned (uninitialised stack bytes in C), the model counts a mismatch.
- X11Process.ProcEntry: `atoi` on a `/proc` name and the `sscanf` of a parent pid are taken as already-decoded integers. Pids are positive, as `/proc` names are.
- X11Backend.X11Backend.GetActiveApp: the `unsigned long` `_NET_WM_PID` value is taken as the integer it converts to in `pid_t`. The 32-bit truncation is not modelled.
- Window ids are unbounded naturals rather than `unsigned long`.
- Masks are sets of bit positions, not 32-bit integers. Only the bits the code uses occur.
- Strings are sequences of characters. A C string's embedded NUL is not modelled, except in the environ buffer, where NUL separates entries.
- MappingStore.Store.Save: the hash table's iteration order is left open. The written text is one line per entry in some order. A failed `fprintf` is not modelled.
- SheetIndex.JoinPath inserts one '/' unless the directory is empty or already ends in '/'. `g_build_filename` also collapses several trailing separators of the directory ("dir//") and leading separators of the name; those cases are not modelled.
- X11Backend.X11Backend.Init: `XSetErrorHandler`, the atoms and `XSync` are left out. A second `init` on the same backend would add the GDK filter a second time; the model records only that a filter is installed.
- X11Backend.X11Backend.Cleanup does not release the grabs, because the code does not.
