# PathHinter in Dafny

PathHinter is a console line reader for paths. While the user types, it
lists the matching sub-directories and offers the first one. It shows the
rest of that suggestion dimmed next to the input. Tab, the arrow keys and
Backspace accept, browse and edit the suggestion. This project models the
logic behind that prompt and proves properties of the model:

- `completion.dfy` (module `Completion`) covers the keystroke loop of
  `PathHint.ReadLine`.
  - The five locals of the loop are a `State` record: `userInput`,
    `suggestion`, `hintSource`, `suggestionIndex` and `readLine`. C# `null`
    is `None`, so a null suggestion differs from an empty one.
  - One iteration is the function `Step`, built from `HandleKey` (the key
    branches), `AutoSuggest` (the first-hint rule), `NextReadLine` (the
    returned-line rule) and `HintText` (the dimmed text, which can throw).
  - `Run` folds `Step` over a finite sequence of keys. It ends in one of
    three ways: Enter returns a line, an iteration throws, or the keys run
    out.
  - The method `ReadLine` runs the loop imperatively on the same locals and
    is proved equal to `Run`.
  - The outside world is an `Env` value: the directory lister
    (`DisplayFolders`), `Directory.Exists`, the input regular expression
    and the platform.
- `path_hint.dfy` (module `PathHint`) covers the pure path helpers:
  - `GetStyle` and `SimulateBackspace`;
  - `ToWinDir` (`/c/dir` to `C:\dir`) and `ToUnixDir` (the way back);
  - `SanitizePath`;
  - the last-segment needle filter the directory lister applies to child
    directories.
- `navigation.dfy` (module `Navigation`) covers `F.NavigateBounds`, the
  up/down step of the browsing index, exactly as written. Up from 0 lands on
  `Length - 2`, and down from the last index lands on 1.
- `table_builder.dfy` (module `TableBuilder`) covers `DrawAsTable`: the
  row-major grid layout of the hint list. It returns the lines instead of
  printing them.
- `dotnet.dfy` (module `DotNet`) holds the .NET members these rely on:
  - nullable values and the exceptions thrown;
  - ASCII case mapping;
  - `Substring`, `Replace`, `PadRight` with their throwing conditions.

Exceptions are explicit `Failure` values. Every `Failure` in the model
matches a throw in the code. The directory lister may throw as well, for
example `DirectoryNotFoundException` when the parent of a partly typed path
is missing. Its oracle therefore returns a `Result`, and every key that lists
the hints again passes the lister's exception on and ends `ReadLine`.

### Behaviour of the code that a reader might not expect

The model follows the code in each of these cases:

- Tab on an input that does not start with `/` is not ignored. It falls
  through to the typing branch and appends a tab character whenever the
  input filter accepts it (`TabWithoutSlashIsTyped`).
- Up or Down with an empty but non-null hint list does not leave things
  alone. The index stays at 0 and `hintSource[0]` throws (`BrowseKeys`,
  `BrowseEmptyListThrows`).
- The dimmed-text `Substring` at line 126 throws once the input is longer
  than the returned line. For example, browsing back to a hint shorter than
  the input does this (`ShortSuggestionThrows`).
- A suggestion is only recomputed when it is empty or null. After editing,
  Enter can therefore return a suggestion that no longer extends the input
  (`StaleSuggestionReturned`).
- `ToUnixDir` does not always remove every `:`. A leading colon survives as
  the "drive letter" when a letter follows it (`ToUnixDirLeadingColon`); one
  followed by a non-letter is removed (`ToUnixDirColonDigit`). An input made
  only of colons throws.
- `NavigateBounds` on two entries does not stay put. From either in-range
  index, Up gives 0 and Down gives 1 (`NavigatedTwoEntries`).

## Model

| member | source | states |
|---|---|---|
| Completion.ReadLine | PathHinter/PathHint.cs:49-134 | the imperative loop over the keys returns exactly what the step-by-step run `Run(Initial(), keys)` defines: the returned line on Enter, the first exception thrown, or the state left when the keys run out |
| Completion.Iteration | PathHinter/PathHint.cs:66-126 | one pass of the loop body on the locals equals `Step`: key branch, auto-suggestion, the returned-line rule and the throwing hint-text `Substring` |
| Completion.ApplyKey | PathHinter/PathHint.cs:66-109 | the if/else-if chain of key branches equals `HandleKey`, including the null and out-of-range failures of lines 94 and 101 |
| Completion.MustResetSuggestions | PathHinter/PathHint.cs:158-173 | the suggestion and its index are reset to "" and 0 exactly when the directory test (on the Windows form of a Linux-style path on a Windows host) succeeds, and are returned unchanged otherwise |
| Completion.FirstMatch | PathHinter/PathHint.cs:113 | `FirstOrDefault` gives null iff no hint is strictly longer than the input and starts with it; otherwise the first such hint in list order |
| Completion.AutoSuggest | PathHinter/PathHint.cs:111-113 | only the suggestion changes; a non-empty suggestion is kept; an empty or null one becomes the first extending hint, or null when the list is null or has none |
| Completion.HintText | PathHinter/PathHint.cs:125-126 | the dimmed text throws iff the input is non-empty and longer than the returned line; otherwise the line is its first characters, as many as the input has, followed by the text, and it is "" for an empty input |
| Completion.ErasingKeys | PathHinter/PathHint.cs:66-105 | Backspace and Left arrow have the same effect; they throw exactly when the lister throws on the shortened input, with the lister's exception; otherwise the last character is dropped (nothing on empty), hints relisted in Linux style, index reset to 0, suggestion and returned line untouched |
| Completion.RightArrowTakesOneCharacter | PathHinter/PathHint.cs:96-105 | Right arrow throws NullReference on a null suggestion and IndexOutOfRange when the suggestion is not longer than the input, and otherwise throws exactly when the lister throws on the extended input; on success it has appended the suggestion's next character, relisted the hints and reset the index; on an extending suggestion whose next prefix the lister accepts, the input becomes that prefix |
| Completion.TypedCharacter | PathHinter/PathHint.cs:106-109 | a character key is appended iff the input filter accepts it, and nothing else in the state changes |
| Completion.TypedWithSuggestion | PathHinter/PathHint.cs:106-126 | a whole iteration for an accepted character under a pending suggestion: the suggestion stays, the line becomes the input once it outgrows the previous line, and the iteration throws when the kept suggestion is shorter than the input |
| Completion.TypedWithoutHints | PathHinter/PathHint.cs:106-126 | a whole iteration for an accepted character with a null hint list and no suggestion: the suggestion becomes null and the line is the input |
| Completion.TabWithoutSlashIsTyped | PathHinter/PathHint.cs:73-109 | Tab on an input not starting with `/` behaves exactly like typing a tab character |
| Completion.TabOnPath | PathHinter/PathHint.cs:73-88 | Tab on a path throws only when no suggestion is pending and the lister throws, with the lister's exception; otherwise hints are relisted (in the caller's style) only without a pending suggestion; one hint replaces the input, several replace it by the suggestion, none leave it; a pending suggestion is cleared with index 0 iff its directory exists, else both are kept |
| Completion.TabKeepsInput | PathHinter/PathHint.cs:73-88 | unless the suggestion is the empty string, Tab on a path empties the input only by taking a lone empty hint |
| Completion.BrowseKeys | PathHinter/PathHint.cs:89-95 | Up/Down with a null list clear the suggestion; with an empty list they throw IndexOutOfRange; from an in-range index they move to the `NavigateBounds` index, which stays in range, and select that hint, leaving input, list and line alone |
| Completion.StepSettles | PathHinter/PathHint.cs:111-126 | after a completed iteration the returned line is the input or the suggestion, never shorter than a non-empty input, and the suggestion is never the empty string |
| Completion.RunSettles | PathHinter/PathHint.cs:64-133 | from a settled state every run stays settled, and Enter returns `Returned` of the final state |
| Completion.ReadLineReturns | PathHinter/PathHint.cs:115-133 | the line ReadLine returns is empty iff the input is empty; otherwise it is the input or the suggestion and at least as long as the input |
| Completion.AcceptSuggestion | PathHinter/PathHint.cs:96-133 | with the suggestion on the line and a lister that does not throw on its longer prefixes, pressing Right until the input has caught up and then Enter returns the suggestion |
| Completion.CompleteUsr | PathHinter/PathHint.cs:64-133 | with `/usr` and `/user` matching the typed needle and `/usr/bin` inside `/usr`, the keys `/`, `u`, `s`, Tab, Right, Enter return `/usr`, with the children of `/usr` as the last hint list |
| Completion.StaleSuggestionReturned | PathHinter/PathHint.cs:111-133 | with the same hints, `/`, `u`, `s`, Tab, Backspace, `x`, Enter return `/usr` although the input is `/ux` |
| Completion.ShortSuggestionThrows | PathHinter/PathHint.cs:89-126 | with hints `/` and `/abc`, Backspace, `/`, `a`, Down, Up throws ArgumentOutOfRange from the hint text |
| Completion.TypedText | PathHinter/PathHint.cs:106-126 | with every character accepted, no hint list and nothing suggested, typing a non-empty text appends it, leaves the suggestion null, puts the input on the line and never calls the lister |
| Completion.ListerExceptionPropagates | PathHinter/PathHint.cs:66-72 | with `/n` missing, typing `/n/x` then Backspace relists `/n/`, whose DirectoryNotFound ends ReadLine before Enter |
| Completion.BrowseEmptyListThrows | PathHinter/PathHint.cs:89-95 | when no child of `/` starts with `q`, typing `/qq`, Backspace (an empty, non-null list) then Down throws IndexOutOfRange |
| Navigation.NavigateBounds | PathHinter/F.cs:13-30 | returns the final `ref` index; null or at most one entry leaves it; otherwise up from 0 gives Length-2, up from i gives i-1, down from the last or beyond gives 1, down from i gives i+1; from an in-range index the result stays in range |
| Navigation.NavigatedInRange | PathHinter/F.cs:18-27 | from an in-range index of any array the step stays in range |
| Navigation.NavigatedTwoEntries | PathHinter/F.cs:18-27 | with two entries, from either in-range index, the index is 0 after Up and 1 after Down |
| PathHint.HasDriveMarker | PathHinter/PathHint.cs:333 | true iff `:\` occurs at some position of the path |
| PathHint.GetStyle | PathHinter/PathHint.cs:331-336 | Windows iff the path contains `:\`, so "" is Linux |
| PathHint.SimulateBackspace | PathHinter/PathHint.cs:180-183 | "" stays ""; otherwise the result is the input's prefix one character shorter |
| PathHint.ToWinDir | PathHinter/PathHint.cs:279-299 | `/` gives "" (the caught exception); any other input keeps its length and loses every `/`; `/x...` becomes the upper-cased `x`, `:`, the rest, with `/` turned into `\`; other inputs only have `/` turned into `\` |
| PathHint.ToWinDirIdempotent | PathHinter/PathHint.cs:279-299 | converting twice gives the same as converting once |
| PathHint.ToUnixDir | PathHinter/PathHint.cs:307-324 | it throws only ArgumentException or IndexOutOfRange, and succeeds iff the input is non-empty, does not start with `a` or `A` and has a character other than `:`; "" throws IndexOutOfRange; ArgumentException iff the first character lower-cases to `a`; IndexOutOfRange iff the input is all colons; without a leading colon the result has no `:` or `\`; an input starting with neither a letter nor `:` only loses its colons and has `\` turned into `/`; a letter-initial input gives `/`, the lower-cased letter, the rest without colons and with `/` |
| PathHint.ToUnixDirLeadingColon | PathHinter/PathHint.cs:314-321 | `:c` converts to `/:`, keeping a colon |
| PathHint.ToUnixDirColonDigit | PathHinter/PathHint.cs:314-323 | `:1` converts to `1`: the colon goes, and the non-letter left in front gets no drive prefix |
| PathHint.WinUnixRoundTrip | PathHinter/PathHint.cs:279-324 | for a lower-case drive other than `a` and a rest without `:` or `\`, ToWinDir gives `X:` plus the rest with `\`, and ToUnixDir turns that back into the original path |
| PathHint.ToWinDirOfDrive | PathHinter/PathHint.cs:283-290 | `/` plus a lower-case letter plus a rest becomes the upper-case letter, `:` and the rest with `/` turned into `\` |
| PathHint.ToUnixDirOfDrive | PathHinter/PathHint.cs:309-321 | a drive letter other than `a`, `:` and a colon-free tail become `/`, the lower-case letter and the tail with `\` turned into `/` |
| PathHint.ToWinDirTmp | PathHinter/PathHint.cs:283-292 | `/c/tmp` converts to `C:\tmp` |
| PathHint.ToUnixDirTmp | PathHinter/PathHint.cs:309-323 | `C:\tmp` converts to `/c/tmp` |
| PathHint.SanitizePath | PathHinter/PathHint.cs:266-272 | throws ArgumentException iff the parent is empty; otherwise the result holds no `\` and no `/` |
| PathHint.SanitizeChild | PathHinter/PathHint.cs:266-272 | a child `parent + separator + name` with a separator-free name reduces to the name when the parent does not occur again after its own end |
| PathHint.SanitizeRepeatedName | PathHinter/PathHint.cs:266-272 | a child whose name repeats its parent (`/usr/usr` under `/usr`) reduces to "" |
| PathHint.LastSegment | PathHinter/PathHint.cs:215 | the last piece of `Split(sep)`: a separator-free suffix of the string, preceded by the separator unless it is the whole string |
| PathHint.FilterKeepsMatches | PathHinter/PathHint.cs:224-228 | a directory is kept by the needle filter iff it is listed and its lower-cased last segment starts with the needle |
| PathHint.FilterKeepsOrder | PathHinter/PathHint.cs:224-228 | the filtered directories are a subsequence of the listed ones, in the lister's order |
| PathHint.FilterFirst | PathHinter/PathHint.cs:224-228 | the filter decides the first directory on its own (kept iff it matches) and goes on with the rest, also when more directories follow |
| PathHint.FilterDistributes | PathHinter/PathHint.cs:224-228 | filtering a concatenation is filtering each part and concatenating, so every entry, repeated or not, is kept or dropped on its own |
| DotNet.ToUpper | PathHinter/PathHint.cs:285 | (ASCII) a lower-case letter maps to its upper-case letter, anything else to itself |
| DotNet.ToLower | PathHinter/PathHint.cs:309 | (ASCII) an upper-case letter maps to its lower-case letter, anything else to itself |
| DotNet.LowerString | PathHinter/PathHint.cs:215 | keeps the length and lower-cases every character |
| DotNet.Substring | PathHinter/PathHint.cs:113 | throws ArgumentOutOfRange unless both bounds lie inside the string; otherwise returns the `length` characters found between the parts before and after |
| DotNet.ReplaceChar | PathHinter/PathHint.cs:290 | keeps the length and replaces exactly the characters equal to `from` |
| DotNet.RemoveChar | PathHinter/PathHint.cs:315 | removes exactly the occurrences of the character: the result is a subsequence of the input, in its order, shorter by the number of occurrences, without the character, holding every other character of the input; unchanged when it is absent, empty iff every character was it |
| DotNet.ReplaceStringAbsent | PathHinter/PathHint.cs:269 | `Replace` leaves a string without occurrences of the old value unchanged |
| DotNet.Spaces | PathHinter/TableBuilder.cs:38 | `n` characters, all spaces |
| DotNet.PadRight | PathHinter/TableBuilder.cs:38 | the string followed by spaces, up to the width and never truncated |
| TableBuilder.DrawAsTable | PathHinter/TableBuilder.cs:16-46 | an empty list throws InvalidOperation (from `Max`); otherwise the lines are `Table` of the items with `windowWidth / maxLength` columns of width `longest + padding` |
| TableBuilder.DrawRows | PathHinter/TableBuilder.cs:26-42 | the outer loop yields exactly `ceil(count / columns)` lines, line `i` being row `i` padded and joined |
| TableBuilder.DrawLine | PathHinter/TableBuilder.cs:28-39 | the inner loop builds line `i` from the items `i*columns ..< min((i+1)*columns, count)`, each padded, skipping indices past the end |
| TableBuilder.LongestLength | PathHinter/TableBuilder.cs:20 | no item is longer than the result, and some item has exactly that length |
| TableBuilder.Columns | PathHinter/TableBuilder.cs:22 | at least one column fits when the width is at least one cell |
| TableBuilder.ColumnsFit | PathHinter/TableBuilder.cs:22 | the columns together are never wider than the window |
| TableBuilder.CeilDivBounds | PathHinter/TableBuilder.cs:23 | the rows hold every item, and for a non-empty list there is at least one row and the last row is not empty |
| TableBuilder.GridShape | PathHinter/TableBuilder.cs:26-41 | every line but the last holds exactly `columns` items; the last holds between 1 and `columns` |
| TableBuilder.GridReassembles | PathHinter/TableBuilder.cs:26-41 | reading the rows in order gives back the list: every item once, in order |
| TableBuilder.LineLength | PathHinter/TableBuilder.cs:37-38 | with no item wider than the width a line is exactly width times its item count long |
| TableBuilder.LineCell | PathHinter/TableBuilder.cs:30-38 | with no item wider than the width, cell `k` of a line occupies `[k*width, (k+1)*width)` and is item `k` padded with spaces |
| TableBuilder.CellsFit | PathHinter/TableBuilder.cs:20-38 | with a non-negative padding no item on any row is wider than `maxLength`, so padding never truncates |
| TableBuilder.TableFitsWindow | PathHinter/TableBuilder.cs:20-38 | with a non-negative padding every line of the table fits the window width |

## Left out

- Console output is not modelled: the prompt `text`, the echo of the input,
  the colours, `ClearCurrentConsoleLine` and the final `WriteLine`. Only the
  dimmed-text `Substring`, which can throw, is kept.
- Strings and `KeyChar` are sequences of Unicode scalar values, not the
  UTF-16 code units of .NET. On text outside the Basic Multilingual Plane,
  such as an emoji, the model counts one element where the code counts two.
  `SimulateBackspace` then removes the whole character where the code leaves
  a lone high surrogate. The same applies to the Right arrow's
  `suggestion[userInput.Length]`, the length tests of the auto-suggestion,
  the returned-line rule and the hint text, and `PadRight` in `DrawAsTable`.
  A key stream carrying surrogate `KeyChar`s cannot be written as keys of
  the model.
- `Console.ReadKey` becomes a finite sequence of keys. A stream with no
  Enter ends in a `Waiting` outcome, because a finite model cannot block.
- The `input != default` test is not modelled. A key read from the console
  is taken never to be the all-zero `ConsoleKeyInfo`.
- `DisplayFolders` is an oracle in `Env` that returns hints or an exception.
  The model does not derive which paths make `Directory.GetDirectories` or
  `ToUnixDir` throw inside the lister; it passes on whatever the oracle
  gives. This leaves out the drive list,
  `Directory.GetDirectories`, `Path.GetDirectoryName`, the 50-entry y/n
  prompt and the table it prints. The y/n prompt reads from the same
  console as the loop, so the model's keys are the keys that reach the
  loop, after any answered by that prompt. Its string pieces are modelled
  separately: `SanitizePath`, `LastSegment` and the needle filter.
- `Directory.Exists`, `Environment.OSVersion` and the regular expression are
  oracles in `Env`, because they are filesystem, platform and foreign
  library code. The input pattern is taken to be a valid regular
  expression: `Regex.IsMatch` throws `ArgumentException` on a malformed one,
  which the total `accepts` oracle does not capture.
- The lister and `Directory.Exists` are fixed functions for a whole
  `ReadLine`. In the program the filesystem can change between keys, and the
  50-entry y/n prompt can be answered differently for the same path.
- Case mapping and `char.IsLetter` cover ASCII only. `StartsWith` is
  ordinal, with no culture rules.
- UpdateHints: no contract of its own. It is a one-line call to the lister
  plus the index reset, and the key lemmas state its effect.
- Floating point in `DrawAsTable` is replaced by exact integer floor and
  ceiling division.
- DrawAsTable: requires `1 <= longest + padding <= windowWidth`. With a
  width too small for one column, the code divides a `double` by zero and
  casts infinity or NaN to `int`, and what that gives depends on the .NET
  runtime. With a negative cell width (a negative padding larger than the
  longest item) and a positive window, the code prints no lines at all,
  since the columns and then the rows come out at most 0; the model does not
  cover that case either.
- DrawAsTable: takes a list of strings rather than any `T` with `ToString`.
  It returns the lines instead of printing them after an empty line.
