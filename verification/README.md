# Daum게임 스타터 privilege toggle, modelled in Dafny

`index.js` is a small Windows console tool. It finds the "Daum게임 스타터"
launcher in the machine-wide uninstall lists of the registry and reads the
path of its icon, which is the launcher's executable. It then reads the
per-user compatibility layers of that executable. A menu lets the user
switch the `RunAsInvoker` layer on, which makes the launcher start without
the UAC elevation prompt, or switch it back off.

The model has one module per concern:

- `Wrappers`: the `Option` type.
- `JsText`: the JavaScript string operations the tool relies on:
  - `trim` and `trimStart`, with ECMAScript's whitespace set.
  - `split('\r\n')`.
  - `includes`.
  - `replace(/"/g, '')`.
  - ASCII case folding for the `i` flag.
- `RegOutput`: how the tool reads `reg query` output:
  - The first line that names a `HKEY_LOCAL_MACHINE` key.
  - The capture of `/DisplayIcon\s+REG_SZ\s+(.+)/i`. This includes the
    leftmost-match scan and the backtracking of the second `\s+`.
- `StarterLocator`: `getStarterInfo`. The registry is an oracle
  `Registry = RegQuery -> Reply`, and a reply is a failure or the command's
  standard output. `Locate` is the specification. The method
  `GetStarterInfo` is the loop over the two roots, proved against it.
- `CompatFlags`: the `Layers` key as a class `LayerStore`:
  - Its fields are a map from executable path to layer data, and whether
    writes are let through.
  - `Query`, `Add` and `Delete` stand for `reg query /v`, `reg add` and
    `reg delete`.
  - `CheckPrivilegeSetting`, `ApplyPrivilege` and `RemovePrivilege` are
    module-level methods that take a `LayerStore`. `IsPrivilegeSet` is what
    the check reports.
- `Menu`: the menus the tool builds. It also holds `parseInt` (whitespace,
  sign, the `0x` prefix, the digit run, `NaN`) and the selection rule
  `options[parseInt(answer) - 1]`.
- `App`: `showMenu` and the `while (true)` loop of `startApp`, as methods.
  - The console is a sequence of typed lines.
  - `Session` is the specification of a whole run over those lines. It
    returns how the run ends and the `Layers` values it leaves.
  - After apply or remove, the pause consumes one line.
  - A run whose input ends before "exit" stops with `InputExhausted`.

A matching key without a `DisplayIcon REG_SZ` value does not make the
starter installed: index.js:38-47 skips that root and tries the next one
(`KeyWithoutIconIsSkipped`).

One behaviour follows from the regular expression as written, and the model
states it rather than smoothing it over. An empty `DisplayIcon` value at the
end of the output still matches: `\s+` crosses the line ends and backtracks
onto the last blank. So the starter is reported installed with an empty
icon path (`EmptyValueMatchesLastBlank`). The settings check then treats
that empty path as "not set" (`EmptyPathNeverOffersRemoval`).

## Model

| member | source | states |
|---|---|---|
| JsText.TrimStart | index.js:108 | `trimStart`: drops leading whitespace; never longer than its input, and `TrimStartSpec` characterises it exactly |
| JsText.TrimEnd | index.js:31 | `trimEnd`: drops trailing whitespace; never longer than its input, and `TrimEndSpec` characterises it exactly |
| JsText.Trim | index.js:31-41 | `trim` as `trimEnd` after `trimStart`; `TrimSpec`, `TrimOfTrimmed` and `TrimOfBlank` characterise it |
| JsText.TrimStartSpec | index.js:108 | `trimStart` keeps a suffix, every character it drops is whitespace, and what it keeps is empty or starts with a non-whitespace character |
| JsText.TrimEndSpec | index.js:31 | `trimEnd` keeps a prefix, every character it drops is whitespace, and what it keeps is empty or ends with a non-whitespace character |
| JsText.TrimSpec | index.js:34 | `trim` returns a slice of the input with whitespace on both sides, and the slice is empty or starts and ends with a non-whitespace character |
| JsText.TrimOfTrimmed | index.js:34 | a string that starts and ends with a non-whitespace character trims to itself |
| JsText.TrimOfBlank | index.js:41 | a string of whitespace trims to the empty string |
| JsText.Includes | index.js:61 | `includes` is true exactly when the text occurs at some position |
| JsText.IncludesInfix | index.js:61 | text placed anywhere inside a string is found |
| JsText.IncludesWithin | index.js:61 | what a part includes, the whole includes |
| JsText.IncludesSplit | index.js:61 | when two parts meet at a character the needle lacks, an occurrence in the whole is an occurrence in one of the parts |
| JsText.OccurrenceChars | index.js:61 | every character an occurrence covers belongs to the needle |
| JsText.IncludesNeedsChar | index.js:61 | text missing one of the needle's characters does not include it |
| JsText.SplitCrLf | index.js:30 | `split('\r\n')`: always at least one piece; `SplitPiecesHaveNoCrLf` and `SplitJoin` fix the pieces uniquely |
| JsText.SplitPiecesHaveNoCrLf | index.js:30 | no piece holds the separator, and the first piece is a prefix of the text |
| JsText.SplitJoin | index.js:30 | joining the pieces with `\r\n` gives back the original text |
| JsText.SplitWithoutSeparator | index.js:30 | text without a separator splits into itself alone |
| JsText.SplitFirstLine | index.js:30 | `line + "\r\n" + rest` splits into `line` followed by the pieces of `rest` |
| JsText.RemoveAll | index.js:41 | `replace(/"/g, '')` leaves no quote behind and never lengthens the text |
| JsText.RemoveAllAppend | index.js:41 | deleting a character distributes over concatenation, so everything else keeps its order |
| JsText.RemoveAllAbsent | index.js:41 | deleting a character that does not occur changes nothing |
| RegOutput.IsKeyLine | index.js:31 | the `find` predicate: the trimmed line starts with `HKEY_LOCAL_MACHINE` |
| RegOutput.FirstKeyLine | index.js:31 | `lines.find(...)` as an index inside the searched range; `FirstKeyLineIsFirst` shows it is the first key line |
| RegOutput.FirstKeyLineIsFirst | index.js:31 | `find` returns the first key line, every line before it is not one, and it returns nothing only when no line is one |
| RegOutput.TargetKey | index.js:30-34 | a reported key starts with `HKEY_LOCAL_MACHINE` |
| RegOutput.TargetKeyIsFirstKeyLine | index.js:30-34 | the reported key is the trimmed first line of the output that is a key line |
| RegOutput.TargetKeyNoneIffNoKeyLine | index.js:30-33 | no key is reported exactly when no line of the output is a key line |
| RegOutput.TargetKeyOfListing | index.js:27-34 | output laid out as `reg query /s /f` prints it (an empty line, then the key) reports that key, trimmed |
| RegOutput.WhiteSpaceRunMaximal | index.js:36 | the greedy `\s+` takes all the whitespace there is and stops before a non-whitespace character or at the end |
| RegOutput.LineRunMaximal | index.js:36 | `(.+)` takes no line terminator and stops at one or at the end |
| RegOutput.DataOffsetGreatest | index.js:36 | the backtracking point is the longest prefix of the run after which `.` can match, and there is none when no prefix works |
| RegOutput.DataOffsetIs | index.js:36 | the backtracking point is unique |
| RegOutput.MatchAt | index.js:36 | one attempt of `/DisplayIcon\s+REG_SZ\s+(.+)/i` at a start position: a success begins with `DisplayIcon` in some letter case; `MatchAtCapture`, `ValueLineMatch` and `EmptyValueMatchesLastBlank` give its capture |
| RegOutput.FindIconMatch | index.js:36 | `iconStdout.match(re)[1]`: the capture of the leftmost matching position (`FindIconMatchLeftmost`, `FirstMatchDecides`) |
| RegOutput.MatchAtCapture | index.js:36 | a capture is never empty and never holds a line terminator |
| RegOutput.LeftmostIsLeftmost | index.js:36 | a left-to-right scan returns the result of the first position that succeeds, and nothing when none does |
| RegOutput.LeftmostDecides | index.js:36 | when no position before `p` succeeds and `p` does, the scan returns the result at `p` |
| RegOutput.FindIconMatchLeftmost | index.js:36 | `match` returns the capture of the leftmost matching position, and nothing only when no position matches |
| RegOutput.FirstMatchDecides | index.js:36 | the first position that matches decides the capture |
| RegOutput.VerbatimMatch | index.js:36 | a word found verbatim also matches under the `i` flag |
| RegOutput.WhiteSpaceRunIs | index.js:36 | a whitespace block that ends where the whitespace ends is the whole `\s+` run |
| RegOutput.LineRunIs | index.js:36 | a block without line terminators that ends at one, or at the end, is the whole `(.+)` run |
| RegOutput.ValueLineMatch | index.js:36 | a value line as `reg query /v` prints it matches, with its whole data as the capture |
| RegOutput.IconOfValueListing | index.js:35-36 | the output of `reg query /v DisplayIcon` for a present value gives back that value's data |
| RegOutput.EmptyValueMatchesLastBlank | index.js:36-41 | an empty value at the end of the output still matches with a one-blank capture, so the icon path is empty |
| RegOutput.IconPathOf | index.js:41 | the icon path holds no quote character |
| RegOutput.QuotedPathUnquoted | index.js:41 | a path in quotes comes back without them |
| StarterLocator.ProbeRoot | index.js:25-48 | a path one root yields holds no quote character |
| StarterLocator.Locate | index.js:23-51 | the result is installed exactly when it carries a path, and that path holds no quote |
| StarterLocator.LocateFirstSuccess | index.js:24-43 | the first root that yields a path decides the result, whatever later roots hold |
| StarterLocator.LocateInstalledIff | index.js:23-51 | the starter is reported installed exactly when some root yields a path |
| StarterLocator.LocateNothingFound | index.js:50 | when no root yields a path the result is `{installed: false, iconPath: null}` |
| StarterLocator.KeyWithoutIconIsSkipped | index.js:33-47 | a key with no icon value, or whose icon query fails, leaves that root out of the result |
| StarterLocator.FailedSearchIsSkipped | index.js:27-47 | a root whose search fails or prints no key line is left out of the result |
| StarterLocator.GetStarterInfo | index.js:23-51 | the loop over the uninstall roots returns exactly `Locate` over them, in their listed order |
| CompatFlags.LayerStore.Query | index.js:60 | the assumed reply of `reg.exe` to `reg query /v`, not code of the tool: a failure exactly when the value is absent, otherwise the key and the value line |
| CompatFlags.LayerStore.Add | index.js:72 | when the write is let through, the value is created or overwritten with the data; otherwise nothing changes |
| CompatFlags.LayerStore.Delete | index.js:85 | the value is removed when the write is let through and the value exists; otherwise nothing changes and the call fails |
| CompatFlags.CheckPrivilegeSetting | index.js:56-65 | the reported setting is `IsPrivilegeSet`: false for a null or empty path or a failed query, otherwise whether the output contains `RunAsInvoker` |
| CompatFlags.ApplyPrivilege | index.js:70-78 | the path's value becomes exactly `~ RunAsInvoker`, replacing its previous layers; a refused write changes nothing |
| CompatFlags.RemovePrivilege | index.js:83-91 | the path's value is deleted with all its layers; a refused or failing delete changes nothing |
| CompatFlags.IsPrivilegeSet | index.js:56-65 | what `checkPrivilegeSetting` returns on a given `Layers` key: false for a null or empty path or a missing value, otherwise whether the query output includes `RunAsInvoker` (`PrivilegeSetIff`) |
| CompatFlags.ListingIncludesMarkerIff | index.js:60-61 | the query output contains `RunAsInvoker` exactly when the value name or the value data contains it |
| CompatFlags.IncludesFramed | index.js:61 | text framed by fixed parts that lack one of the needle's characters includes the needle exactly when one of the two variable parts does |
| CompatFlags.PrivilegeSetIff | index.js:56-65 | the setting counts as set exactly when the path is non-empty, has a value, and its name or data contains `RunAsInvoker` |
| CompatFlags.SetAfterApply | index.js:61-72 | after a successful apply, the check reports the setting as set |
| CompatFlags.ClearAfterRemove | index.js:61-85 | after a successful remove, the check reports the setting as unset and every other path reports as before |
| CompatFlags.ApplyIdempotent | index.js:72 | applying twice leaves the key as applying once |
| CompatFlags.MarkerInPathCountsAsSet | index.js:60-61 | a path whose own name contains `RunAsInvoker` counts as set once it has any value |
| Menu.MenuFor | index.js:132-154 | every menu ends with "exit" |
| Menu.MenuOffers | index.js:132-154 | "exit" is last and appears nowhere else; apply is offered exactly when the starter is installed and unset, remove exactly when it is installed and set; a one-entry menu means not installed |
| Menu.DecimalString | index.js:106 | a menu number is a non-empty run of decimal digits without a leading zero |
| Menu.DecimalStringValue | index.js:106-108 | reading a menu number's digits gives the number back |
| Menu.DigitRunOfDigits | index.js:108 | `parseInt` reads the whole digit run and stops at the first non-digit |
| Menu.TrimStartAfterBlank | index.js:108 | `parseInt` skips exactly the leading whitespace |
| Menu.ParseInt | index.js:108 | `parseInt(answer)` without a radix, `NaN` as `None`: leading whitespace skipped, one sign, then the unsigned part (`ParseDecimal`, `ParseIntNoDigits`, `ParseIntHex`) |
| Menu.ParseUnsigned | index.js:108 | the unsigned part of `parseInt`: a `0x`/`0X` prefix switches to base 16, then the longest digit run is read, none giving `NaN` (`ParseUnsignedDecimal`) |
| Menu.ParseDecimal | index.js:108 | an answer that is blanks, a number in decimal, then something that does not continue the number, parses to that number |
| Menu.ParseUnsignedDecimal | index.js:108 | a number's decimal digits followed by a non-digit parse to that number, and a leading `0` is not taken as the start of `0x` |
| Menu.ParseIntNoDigits | index.js:108 | an answer with no digit where the number should start, such as an empty line, is `NaN` |
| Menu.ParseIntHex | index.js:108 | `0x2` parses to 2, as with `parseInt` without a radix |
| Menu.DecodeSelection | index.js:108-110 | a selected index always lies inside the menu |
| Menu.DecodeSelectionIff | index.js:108-110 | entry `i` is chosen exactly when the answer parses to `i + 1` and `i` is on the menu |
| Menu.TypedNumberPicksEntry | index.js:106-110 | typing the number printed next to an entry chooses that entry |
| Menu.ZeroIsInvalid | index.js:108-112 | the answer `0` chooses nothing |
| Menu.Choose | index.js:108-112 | a chosen action is one of the menu's entries |
| App.Perform | index.js:70-91 | the `Layers` values after the chosen entry's command; every value for another path is unchanged |
| App.MenuShown | index.js:132-154 | the menu of one pass: the setting is read only when the starter is installed (`MenuOffers`) |
| App.Session | index.js:122-158 | the whole run over the typed lines: how it ends and the `Layers` values it leaves; `StartApp` is proved equal to it, and `NotInstalledNeverWrites`, `OnlyStarterValueChanges` and `UnreadableAnswersChangeNothing` state its properties |
| App.ShowMenu | index.js:103-117 | an answer that chooses nothing changes nothing and the next answer is read; "exit" is reported; apply or remove runs on the path, then the pause consumes a line |
| App.Pass | index.js:123-158 | one pass of the loop either ends the session as `Session` says or continues at a later answer, with `Session` of the rest unchanged |
| App.StartApp | index.js:122-160 | the run ends as `Session` says on the starter `Locate` finds, and leaves the `Layers` values `Session` computes |
| App.SkipStep | index.js:110-113 | an answer that chooses nothing leads to the next pass with the same values |
| App.ExitStep | index.js:134-135 | choosing "exit" ends the session with the values as they are |
| App.ActStep | index.js:144-151 | choosing apply or remove runs that command, consumes the pause line, and the session goes on |
| App.LastActStep | index.js:77-97 | when the pause finds no line, the session stops with the command's effect in place |
| App.NotInstalledNeverWrites | index.js:132-137 | without the starter, no value is ever written |
| App.OnlyStarterValueChanges | index.js:139-157 | every `Layers` value other than the one for the starter's icon path ends the session as it began |
| App.UnreadableAnswersChangeNothing | index.js:108-113 | a session of answers that are neither 1 nor 2 changes nothing and never exits |
| App.ApplyThenExit | index.js:139-157 | answering 1, the pause, then 2 on an unset starter exits with the setting applied |
| App.ApplyThenRemove | index.js:139-157 | answering 1 twice, with pauses, then 2 exits with the path's value gone, including any layers it listed before |
| App.EmptyPathNeverOffersRemoval | index.js:57 | an empty icon path never counts as set, so the menu only ever offers apply |

## Left out

- Running the commands is not modelled. This covers `exec`, the `chcp 65001` code-page switch and the `/reg:64` view. The registry is an oracle from command to reply, and writes go through `LayerStore`.
- Shell quoting is not modelled: paths are interpolated into a command line without escaping, and the model passes them as values.
- Console output is left out: the banner, `console.clear`, the status lines, the menu labels and the success and failure messages. Only which entries are offered, and in which order, is modelled.
- The one-second `setTimeout` after an invalid choice is left out; the model goes straight to the next pass.
- Readline is a sequence of lines. A real run waits for more input forever; the model stops with `InputExhausted` when the lines run out. `rl.close()` has no counterpart.
- The uninstall lists are assumed not to change while the tool runs, so every pass finds the same starter. The `Layers` key does change, and each pass reads it again.
- Why `reg add` or `reg delete` is refused (permissions, policy) is not modelled. `LayerStore.writable` stands for it, and it does not change during a run.
- `reg query` output is modelled only as far as the tool reads it. `LayerStore.Query` prints the layout of a present `REG_SZ` value. The icon query is any text the oracle returns.
- Menu.ParseInt: `parseInt` returns a double, so answers with more than 15 or so digits lose precision. The model reads them exactly, and either way they are far outside the menu.
- Apply overwrites the whole value, dropping any other layers the executable had, and remove deletes the value with all its layers. The model states this as the code does it and does not change it.
