# CS2 real-time demo radar: a Dafny model of its deterministic core

The program watches a Counter-Strike 2 demo file that the game keeps writing. Each time the file changes, it re-parses the demo and draws a radar image: one dot per living player and a marker for a dropped bomb. It serves that image, the list of players and a "select a player" endpoint over HTTP. Its sequential logic sits inline in `main.go`, and this project models it:

- **`SteamLibrary`**: `parseLibraryFolders`, which reads the Steam library folders out of the text of `libraryfolders.vdf`.
- **`Prompt`**: the start-up normalisation of what the operator types. This covers:
  - the yes/no answer;
  - the install path, with backslashes turned into slashes and quotes removed;
  - the demo file name, which always gets a `.dem` extension;
  - the map name, which defaults to `de_mirage`.
- **`Roster`**: the `playersData` records and the comparison handed to `sort.SliceStable`. The sort is an insertion sort in place on an array, proved against a functional specification. The module also holds the 12-byte label truncation and the team colour `switch`.
- **`Radar`**: the server state, as a class with three fields:
  - `playersData`;
  - `highlightID`;
  - `lastMapImg`, reduced to what the image shows of each player and of the bomb: which dots are drawn, in which order, with which fill colour, label and selection ring, and whether the C4 marker is drawn. Where things are drawn is not modelled.

  Its two updates are `processDemo` and the `/select` handler. The demo parser's output is a value: the playing participants and an optional bomb, with an optional carrier.
- **`Strconv`**: `strconv.Atoi` as used by `/select`, with 64-bit range checking. Its partner is the decimal formatter it inverts.
- **`Text`**: the parts of Go's `strings` package that the core calls:
  - `TrimSpace` with `unicode.IsSpace`;
  - `Split` on one character;
  - `Contains`;
  - the three `ReplaceAll` forms;
  - `ToLower`, as the comparisons can observe it.
- **`Seqs`**: order-preserving filter-map, which both the library parser and the dot list use.

Strings read from the operator or from the file are sequences of Unicode code points. Player names are sequences of bytes, because the label rule counts and cuts bytes.

## Model

| member | source | states |
|---|---|---|
| SteamLibrary.ParseLibraryFolders | main.go:231-251 | A read error gives no paths; otherwise the result is the entries of the content's `\n`-separated lines, in line order |
| SteamLibrary.LineEntry | main.go:239-247 | A line's entry, when present, holds no backslash |
| SteamLibrary.LineEntryShape | main.go:239-242 | A line contributes exactly when its trimmed text contains `"path"` and at least three quotes (four or more fields) |
| SteamLibrary.LibraryPathsByLine | main.go:237-249 | One path per contributing line and none from other lines; the k-th path is the entry of the k-th contributing line |
| SteamLibrary.LibraryPathsHaveNoBackslash | main.go:244-245 | No returned path contains a backslash |
| SteamLibrary.SlashPath | main.go:244-245 | After the two rewrites no backslash is left, a path without backslashes is unchanged, and the path never grows |
| SteamLibrary.SlashEscapedSeparator | main.go:244-245 | Backslash-free path elements joined by escaped separators (`\\` each) come out joined by single `/`, one per separator |
| SteamLibrary.SlashSingleSeparators | main.go:244-245 | Backslash-free path elements joined by single `\` (no inner element empty) come out joined by `/`: each lone backslash is kept by the first rewrite and turned into `/` by the second |
| SteamLibrary.EntryOfPathLine | main.go:239-246 | A line `"path" <gap> "<value>"`, indented or followed by white space, contributes its value with slashes |
| Prompt.DeclinesExactly | main.go:64-68 | The detected path is refused exactly when the trimmed answer is `n` or `no` in some letter case |
| Prompt.InstallPath | main.go:59-78 | Keeps the detected path unless it is refused or empty, and otherwise uses the trimmed manual entry; the result has no `\` and no `"` |
| Prompt.CleanPath | main.go:77-78 | No `\` or `"` is left, only the quotes are removed (length drops by their count), and a clean path is unchanged |
| Prompt.CleanPathIdempotent | main.go:77-78 | Cleaning twice is cleaning once |
| Prompt.DemSuffixCases | main.go:84 | A name has the `.dem` extension exactly when its last four characters are `.` and `d`, `e`, `m`, each in either case |
| Prompt.AddDemSuffix | main.go:84-86 | The result ends in `.dem` in any case; a name already ending so is unchanged; otherwise `.dem` is appended |
| Prompt.DemoFileName | main.go:81-86 | The trimmed name with its extension ends in `.dem` |
| Prompt.DemoFileNameTrimmed | main.go:82-86 | The demo file name has no white space at either end |
| Prompt.DemoFileNameIdempotent | main.go:82-86 | Applying the name rule twice equals applying it once |
| Prompt.JoinElements | main.go:88 | The directory, then one `\` exactly when both parts are non-empty and the directory does not end in a drive colon or a separator, then the name |
| Prompt.JoinPath | main.go:88 | The joined path has no `/`; it is the directory and the name with their `/` turned into `\`, with one `\` between them exactly when the join adds one |
| Prompt.JoinPathElements | main.go:88 | When a separator is added, the `\`-separated elements of the joined path are the directory's followed by the name's |
| Prompt.JoinPathLast | main.go:88 | A file name without separators is the last element of the joined path |
| Prompt.JoinPathDrive | main.go:88 | After a drive colon the name follows with no separator, so the path stays relative to that drive |
| Prompt.JoinPathSuffix | main.go:88 | Joining keeps the `.dem` extension of the name |
| Prompt.DemoPath | main.go:88-89 | The joined demo path has no backslash and keeps the `.dem` ending of the name |
| Prompt.DemoPathSlashes | main.go:88-89 | The watched path is the joined elements with every separator, of either kind, written as `/`, so the `\` the join writes are undone |
| Prompt.WatchedDemoPath | main.go:81-89 | The watched path always ends in `.dem` and uses only forward slashes |
| Prompt.MapName | main.go:92-96 | A blank entry gives `de_mirage`; any other entry gives its trimmed text; the result is never empty |
| Prompt.MapNameIdempotent | main.go:93-96 | Feeding the chosen map name back through the rule keeps it |
| Strconv.Atoi | main.go:113 | A successful parse yields a value in the signed 64-bit range |
| Strconv.AtoiItoa | main.go:113 | Every 64-bit integer is parsed back from its decimal form |
| Strconv.AtoiOutOfRange | main.go:113 | A decimal form outside the 64-bit range is refused |
| Strconv.AtoiRejectsNonDigit | main.go:113 | A character that is neither a digit nor a leading sign makes the parse fail |
| Strconv.AtoiRejectsEmpty | main.go:112-113 | The empty string, which `Get` returns for a missing `id`, and a lone sign are refused |
| Strconv.AtoiShape | main.go:113 | Only an optional sign followed by digits can parse |
| Strconv.AtoiLeadingZero | main.go:113 | Leading zeros do not change the value |
| Strconv.AtoiPlus | main.go:113 | A leading `+` is accepted and does not change the value |
| Strconv.AtoiNegativeLeadingZero | main.go:113 | Leading zeros after a `-` do not change the value |
| Radar.Server.Select | main.go:111-116 | `highlightID` takes the parsed id when `Atoi` succeeds and is unchanged otherwise |
| Radar.Server.ProcessDemo | main.go:270-376 | Without a radar image nothing changes; otherwise `playersData` becomes the stably sorted records of all playing participants and the frame shows their dots and the bomb marker |
| Radar.Server.constructor | main.go:39-45 | Starts with no players, highlight 0 and no image |
| Radar.Scan | main.go:284-352 | The loop gives one record per participant and one dot per living participant |
| Radar.PublishedRoster | main.go:284-372 | The published roster is a permutation of the participants' records, dead ones included; it is sorted by (team, userId); equal keys keep the parser's order |
| Radar.EveryParticipantListed | main.go:292-302 | Every playing participant, alive or dead, has its record in the roster |
| Radar.DotsOfAlive | main.go:300-351 | The k-th dot is the k-th living participant's, filled opaque in its team's colour, with its label, ringed exactly when its user id is the highlight |
| Radar.AliveIndicesExact | main.go:300-302 | A participant gets a dot exactly when it is alive |
| Radar.BombMarkerCases | main.go:277-282 | The C4 marker is drawn iff a bomb exists and nobody carries it |
| Roster.LessOrder | main.go:367-372 | The comparison is irreflexive, asymmetric and transitive, and two records are unordered by it exactly when they share team and user id |
| Roster.Insert | main.go:367-372 | Inserting a record into the sorted prefix adds exactly one record |
| Roster.SortedRoster | main.go:367-372 | The sorted roster has as many records as the input |
| Roster.SortPlayers | main.go:367-372 | The array is sorted in place into the sorted roster of its old contents |
| Roster.InsertAt | main.go:367-372 | One insertion pass places `a[i]` into the sorted prefix and leaves the rest of the array alone |
| Roster.SortedRosterSorted | main.go:367-372 | The result is ordered by team, then by user id |
| Roster.SortedRosterPermutes | main.go:367-372 | The result is a permutation of the input |
| Roster.SortedRosterStable | main.go:367-372 | Records with equal (team, userId) keep their relative order |
| Roster.StableSortUnique | main.go:367-372 | Any sorted, key-order-preserving arrangement of the records equals the modelled result, so `SliceStable`'s algorithm makes no difference |
| Roster.InsertSorted | main.go:367-372 | Inserting into a sorted roster keeps it sorted |
| Roster.InsertWithKey | main.go:367-372 | Insertion appends the record after those with its own key and disturbs no other key's records |
| Roster.SortExample | main.go:367-372 | Team-2 users 7 then 3, followed by team-3 user 1, come out as 3, 7, 1 |
| Roster.StableExample | main.go:367-372 | Two records with one key keep their order when a lower team is placed before them |
| Roster.Label | main.go:333-336 | At most 14 bytes; a name of at most 12 bytes is unchanged; a longer one becomes its first 12 bytes and `..` |
| Roster.LabelIdempotent | main.go:333-336 | Truncating a label again changes nothing |
| Roster.LabelPrefix | main.go:333-336 | A label starts with the name's first bytes, up to 12 of them |
| Roster.TeamColor | main.go:315-321 | Team 2 is RGBA{220,60,60,255}, team 3 is RGBA{60,100,220,255}, any other team the zero colour, which alone is transparent |
| Roster.TeamColorDistinguishes | main.go:315-321 | Two teams get the same colour exactly when they are equal or both are neither 2 nor 3 |
| Roster.DotColor | main.go:315-327 | A dot is filled with the team colour's red, green and blue at full opacity, so a player of neither team is drawn opaque black |
| Roster.DotColorDistinguishes | main.go:315-327 | Two teams' dots are filled alike exactly when the teams are equal or both are neither 2 nor 3 |
| Text.TrimSpace | main.go:239 | The result has no white space at either end and is empty exactly for all-white-space input |
| Text.TrimSpaceOfPadded | main.go:239 | White space around a text with non-space ends is removed exactly |
| Text.TrimSpaceIdempotent | main.go:82 | Trimming twice is trimming once |
| Text.Split | main.go:237 | There is at least one part, and no part contains the separator |
| Text.SplitParts | main.go:237-241 | `Split` gives one more part than there are separators, and joining the parts gives the input back |
| Text.SplitJoin | main.go:241-243 | Splitting the join of separator-free parts gives those parts |
| Text.RemoveChar | main.go:78 | The character is gone, all others are kept with their counts, and text without it is unchanged |
| Text.RemoveCharConcat | main.go:78 | Removal works piece by piece, so with `RemoveChar`'s contract the other characters keep their order |
| Text.ReplaceChar | main.go:245 | Each occurrence is replaced and every other character is kept in place |
| Text.CollapseDoubleBackslash | main.go:244 | Text without a backslash is unchanged and the result never grows |
| Text.CollapseAfterPlain | main.go:244 | A backslash-free prefix passes through the `\\` rewrite unchanged |
| Text.CollapsePair | main.go:244 | A leading `\\` pair becomes one `/` and the rewrite goes on after it |
| Text.CollapseJoin | main.go:244 | Backslash-free parts joined by `\\` pairs come out joined by single `/` |
| Text.CollapseLone | main.go:244 | A backslash not followed by another is kept, and the rewrite goes on after it |
| Text.CollapseJoinLone | main.go:244 | Backslash-free parts joined by single `\`, with no inner part empty, pass through the `\\` rewrite unchanged |
| Text.ReplaceJoin | main.go:245 | Replacing the separator of a join whose parts do not hold it gives the join with the new separator |
| Text.ContainsInfix | main.go:240 | A text contains every pattern that occurs in it, at its start, middle or end |
| Text.ContainsLonger | main.go:240 | No text contains a pattern longer than itself |
| Text.Lower | main.go:64 | Lower-casing keeps the length and maps each character on its own, turning only `A`-`Z` into `a`-`z` |
| Text.LowerTrimSpace | main.go:64 | Lower-casing commutes with trimming |

## Left out

- The HTTP server is not modelled: the handlers `/`, `/map` and `/players`, JSON encoding, `ListenAndServe` and `openBrowser` are network and process plumbing. `/select` is modelled from the already-decoded `id` value; URL query decoding is out of scope.
- `detectCS2Path` and `getSteamPathFromRegistry` are left out. They read the Windows registry and probe directories with `os.Stat`, which is OS-dependent I/O. `InstallPath` takes the detected path as a parameter.
- `os.ReadFile` in `parseLibraryFolders` is modelled as its outcome: `None` for an error, otherwise the content.
- SteamLibrary.ParseLibraryFolders: the file is read as raw bytes and converted with `string(content)`, which may hold invalid UTF-8. The model takes the content as a sequence of code points, so invalid byte sequences are not modelled. `TrimSpace` would treat each such byte as a non-space character.
- Reading from standard input is not modelled. Each line the operator types is a parameter.
- The mod-time polling loop, its sleeps and the clock are left out; see `main.go:135-162`.
- The demo parser (`NewParser`, `ParseToEnd` and its ignored error) is an external library. Its output is the `GameState` value. `GetMapRadar` becomes the `hasRadar` flag. `GetMapMetadata` supplies the `TranslateScale` transform, which goes with the positions below.
- Positions, `TranslateScale`, all `gg` drawing, fonts, text measurement and PNG encoding are floating-point graphics in a foreign library. The frame records what is drawn, not where. The fixed colours of the dots' black outline, the selection rings, the name text and the C4 marker are not recorded: they do not depend on the data except through the selection flag and the bomb flag.
- `recover()` is left out. So is the unsynchronised sharing of `playersData`, `highlightID` and `lastMapImg` between the HTTP goroutines and the main loop: there is no sequential contract for them.
- Radar.Server.constructor: `playersData` starts as Go's nil slice, which JSON encodes as `null`. The model starts it as the empty sequence.
- Prompt.JoinPath: `filepath.Join` on Windows ends with `filepath.Clean`. Of that clean-up the model keeps only the rewrite of every `/` into `\`. It leaves out the collapsing of repeated separators, the removal of `.` and `..` elements and of a trailing separator, and volume-name handling. `JoinElements` models the Windows joining rules that come before it: an empty part adds nothing, and no separator is added after a drive colon or an existing separator. Leading separators of the name are kept, where `Join` would merge them into one. The rows for `JoinElements`, `JoinPath`, `JoinPathElements`, `JoinPathLast` and `JoinPathDrive` describe the join with that reduced clean-up.
- Text.Lower: `strings.ToLower` is modelled on ASCII letters only. It is only compared against `n`, `no` and `.dem`, and no non-ASCII character lowers to any of those letters. Invalid UTF-8 in what the operator types is not modelled.
- Roster.SortPlayers: `sort.SliceStable`'s own algorithm (insertion sort on blocks, then in-place merging) is not modelled. The model uses insertion sort. `Roster.StableSortUnique` shows that any stable sort by this comparison gives the same result.
- Strconv.Atoi: the range is that of a 64-bit `int`. A build for a 32-bit platform such as windows/386 would refuse values outside the signed 32-bit range, and that build is not modelled.
- Roster.PlayerData: the team is stored as an `int` in the record. The parser's one-byte `Team` type is not modelled separately.
