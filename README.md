# SolutionExplorerFileSelector path trimming, in Dafny

The Visual Studio extension SolutionExplorerFileSelector has one command. It
selects the active document's node in Solution Explorer. To find that node it
turns the document's absolute path into a lookup key relative to the solution:

- `GetSolutionName` takes the solution file name (`Solution.FileName`). It
  removes every `".sln"`, splits on `'\'` and takes the last segment: the solution
  file's base name (`C:\repo\Foo.sln` gives `Foo`). `GetItemName` relies on
  the document's path containing a folder of that name.
- `GetItemName` takes the active document's path (`ActiveDocument.FullName`)
  and splits it on `'\'`. It scans the segments with a flag that is set at the
  first segment equal to the solution name and never cleared. It keeps every
  segment while the flag is set and joins the kept segments with `'\'`.

This project models those two computations and the .NET string helpers they
use. The two host reads become string parameters (`fullName`,
`solutionFileName`).

Files:

- `wrappers.dfy` (module `Wrappers`): `Option`, and `LastOrDefault`, where
  `None` stands for the null that `Enumerable.LastOrDefault` returns on an
  empty sequence.
- `dotnet_strings.dfy` (module `DotNetStrings`): `String.Split(char)` with
  empty entries kept, `String.Join(string, ...)` and ordinal
  `String.Replace(string, string)` on `seq<char>`. It also holds the facts
  about them: the split/join round trips, how split and replace behave around
  a separator, and the last segment of a split.
- `file_selector_command.dfy` (module `FileSelectorCommand`): `SolutionName`
  is a function, because `GetSolutionName` is an expression chain. `GetItemName`
  is a method with the source's `foreach` loop, flag and growing list. It is
  proved equal to the specification function `ItemName`. `ItemName` is built on
  `FromFirstMatch`, the segments from the first match on, and the lemmas state
  the properties of the result.

`GetSolutionName` does not strip only the extension: it removes every
`".sln"` anywhere in the file name, including inside directory names. Removal is a
single left-to-right pass, so the result can still contain `".sln"`
(`ReplaceCanLeaveOccurrence`).

## Model

| member | source | states |
|---|---|---|
| `Wrappers.LastOrDefault` | SolutionExplorerFileSelector/SolutionExplorerFileSelectorCommand.cs:155 | the result is null (`None`) exactly when the sequence is empty |
| `DotNetStrings.Split` | SolutionExplorerFileSelector/SolutionExplorerFileSelectorCommand.cs:153 | `Split` always returns at least one segment, even for the empty string |
| `DotNetStrings.SplitSeparatorFree` | SolutionExplorerFileSelector/SolutionExplorerFileSelectorCommand.cs:153 | no segment of a split contains the separator |
| `DotNetStrings.SplitCount` | SolutionExplorerFileSelector/SolutionExplorerFileSelectorCommand.cs:131 | `Split` returns exactly one more segment than the string has separators, so empty entries are kept |
| `DotNetStrings.JoinSplit` | SolutionExplorerFileSelector/SolutionExplorerFileSelectorCommand.cs:131-145 | joining the segments of a split with the separator gives back the original string |
| `DotNetStrings.SplitJoin` | SolutionExplorerFileSelector/SolutionExplorerFileSelectorCommand.cs:145 | splitting a join gives back the segments, when there is at least one segment and none contains the separator |
| `DotNetStrings.SplitConcat` | SolutionExplorerFileSelector/SolutionExplorerFileSelectorCommand.cs:153 | splitting `a + sep + b` gives the segments of `a` followed by the segments of `b` |
| `DotNetStrings.SplitNoSeparator` | SolutionExplorerFileSelector/SolutionExplorerFileSelectorCommand.cs:153 | a string without the separator splits into exactly itself |
| `DotNetStrings.Join` | SolutionExplorerFileSelector/SolutionExplorerFileSelectorCommand.cs:145 | `String.Join` with the separator between neighbours; `JoinSplit`, `SplitJoin` and `JoinAppend` characterise it as the inverse of `Split` that adds one separator between neighbouring segments |
| `DotNetStrings.JoinAppend` | SolutionExplorerFileSelector/SolutionExplorerFileSelectorCommand.cs:145 | joining two non-empty segment lists puts exactly one separator between their joins |
| `DotNetStrings.JoinStartsWithFirst` | SolutionExplorerFileSelector/SolutionExplorerFileSelectorCommand.cs:145 | a join begins with its first segment, and a separator follows when more segments follow |
| `DotNetStrings.JoinSplitTail` | SolutionExplorerFileSelector/SolutionExplorerFileSelectorCommand.cs:131-145 | every tail of a split's segments joins to a textual suffix of the string, preceded by a separator, and the suffix is the whole string only for the full list |
| `DotNetStrings.SplitLastIsTail` | SolutionExplorerFileSelector/SolutionExplorerFileSelectorCommand.cs:153-155 | the last segment has no separator and is the text after the string's last separator, or the whole string when there is none |
| `DotNetStrings.Replace` | SolutionExplorerFileSelector/SolutionExplorerFileSelectorCommand.cs:152 | replacing with the empty string never lengthens the string |
| `DotNetStrings.ReplaceKeepsOtherChars` | SolutionExplorerFileSelector/SolutionExplorerFileSelectorCommand.cs:152 | a character in neither the old nor the new value is present after the replace exactly when it was present before, so removing `".sln"` neither adds nor removes a separator |
| `DotNetStrings.ReplaceNoOccurrence` | SolutionExplorerFileSelector/SolutionExplorerFileSelectorCommand.cs:152 | a string that does not contain the old value is left unchanged |
| `DotNetStrings.ReplaceAround` | SolutionExplorerFileSelector/SolutionExplorerFileSelectorCommand.cs:152 | an occurrence never spans a character the old value lacks, so the replace works on both sides of such a character independently |
| `DotNetStrings.ReplaceTrailing` | SolutionExplorerFileSelector/SolutionExplorerFileSelectorCommand.cs:152 | a value whose first character does not recur in it, appended to a string that does not contain it, is replaced at the end and nowhere else |
| `DotNetStrings.ReplaceCanLeaveOccurrence` | SolutionExplorerFileSelector/SolutionExplorerFileSelectorCommand.cs:152 | one pass over `"..slnsln"` leaves `".sln"`: the pass is not idempotent |
| `FileSelectorCommand.SolutionName` | SolutionExplorerFileSelector/SolutionExplorerFileSelectorCommand.cs:148-156 | `LastOrDefault` never falls back to null, because the split has at least one segment |
| `FileSelectorCommand.SolutionNameIsLastSegment` | SolutionExplorerFileSelector/SolutionExplorerFileSelectorCommand.cs:152-155 | the solution name has no separator, and it is the text after the last separator of the file name with every `".sln"` removed, or that whole text when it has no separator |
| `FileSelectorCommand.SolutionNameOfSolutionFile` | SolutionExplorerFileSelector/SolutionExplorerFileSelectorCommand.cs:152-155 | for any file name `<dir>\<name>.sln`, where `<name>` holds no separator and no `".sln"`, the solution name is `<name>` |
| `FileSelectorCommand.SolutionNameCanBeEmpty` | SolutionExplorerFileSelector/SolutionExplorerFileSelectorCommand.cs:152-155 | a file name `".sln"`, or any file name that ends with a separator, gives the empty solution name |
| `FileSelectorCommand.FromFirstMatch` | SolutionExplorerFileSelector/SolutionExplorerFileSelectorCommand.cs:136-143 | nothing is kept exactly when no segment equals the name, and a non-empty result starts with the name |
| `FileSelectorCommand.FromFirstMatchIsTail` | SolutionExplorerFileSelector/SolutionExplorerFileSelectorCommand.cs:136-143 | the kept segments are a tail of the path segments, in their original order |
| `FileSelectorCommand.FromFirstMatchAt` | SolutionExplorerFileSelector/SolutionExplorerFileSelectorCommand.cs:136-143 | the kept segments are exactly the segments from the first one equal to the name |
| `FileSelectorCommand.FromFirstMatchAppend` | SolutionExplorerFileSelector/SolutionExplorerFileSelectorCommand.cs:136-143 | once a match has been seen, every later segment is appended in order, including later segments equal to the name; before the first match nothing is kept |
| `FileSelectorCommand.FromFirstMatchStep` | SolutionExplorerFileSelector/SolutionExplorerFileSelectorCommand.cs:136-143 | one loop step: the flag is set afterwards exactly when it was set before or the segment matches, and the segment is appended exactly when the flag is then set |
| `FileSelectorCommand.ItemName` | SolutionExplorerFileSelector/SolutionExplorerFileSelectorCommand.cs:127-146 | the value `GetItemName` returns; `ItemNameSegments` and `ItemNameIsSuffix` characterise it as the textual suffix of the path made of the segments from the first match on |
| `FileSelectorCommand.ItemNameSegments` | SolutionExplorerFileSelector/SolutionExplorerFileSelectorCommand.cs:131-145 | the item name joins the path segments from the first one equal to the solution name, and splitting it gives exactly those segments |
| `FileSelectorCommand.ItemNameEmpty` | SolutionExplorerFileSelector/SolutionExplorerFileSelectorCommand.cs:132-145 | with no matching segment the item name is empty; for a non-empty solution name the item name is empty exactly when no segment matches |
| `FileSelectorCommand.ItemNameIsSuffix` | SolutionExplorerFileSelector/SolutionExplorerFileSelectorCommand.cs:131-145 | the item name is a textual suffix of the full path, so it is no longer than the path |
| `FileSelectorCommand.ItemNameWholePath` | SolutionExplorerFileSelector/SolutionExplorerFileSelectorCommand.cs:131-145 | when the first segment matches, the item name is the full path unchanged |
| `FileSelectorCommand.ItemNameStartsWithName` | SolutionExplorerFileSelector/SolutionExplorerFileSelectorCommand.cs:138-145 | when a segment matches, the item name begins with the solution name, followed by a separator or by the end of the string |
| `FileSelectorCommand.ItemNameMatchesWholeSegments` | SolutionExplorerFileSelector/SolutionExplorerFileSelectorCommand.cs:138 | in `<root>\<folder>\<file>`, collection starts at `<folder>` exactly when `<folder>` equals the solution name, and the result is then `<folder>\<file>` |
| `FileSelectorCommand.ItemNameIsCaseSensitive` | SolutionExplorerFileSelector/SolutionExplorerFileSelectorCommand.cs:138 | the folder `foo` does not match the solution name `Foo`, so `C:\foo\a.cs` gives the empty item name |
| `FileSelectorCommand.ItemNameOfEmptySolutionName` | SolutionExplorerFileSelector/SolutionExplorerFileSelectorCommand.cs:134-145 | an empty solution name matches the empty segment of a doubled separator, and the item name is everything from that separator on |
| `FileSelectorCommand.GetItemName` | SolutionExplorerFileSelector/SolutionExplorerFileSelectorCommand.cs:127-146 | the method's result equals `ItemName` of the path and the solution name. The loop invariant states that the flag is set exactly when a match has been seen, so it is never reset |

## Left out

- `Execute` is not modelled. It looks the key up with Solution Explorer's `GetItem`, selects the item and logs through `TraceLogger`. These are host automation calls whose behaviour is not visible.
- `InitializeAsync`, the constructor and `Instance` are not modelled. They cover asynchronous service acquisition, the switch to the UI thread and command registration, which is host plugin lifecycle.
- The `ThreadHelper.ThrowIfNotOnUIThread` checks are not modelled. They are threading assertions owned by the host.
- The static `dte`/`dte2` handles are not modelled. Their two string outputs, `ActiveDocument.FullName` and `Solution.FileName`, are plain parameters.
- Null references are not modelled. If no document or solution is open, the source dereferences null unguarded. The model assumes both strings are present.
- `DotNetStrings.Replace` requires a non-empty old value. .NET throws for an empty one, but the command always passes the constant `".sln"`.
- Strings are sequences of Unicode scalar values (Dafny `char`), not UTF-16 code units. Splitting on `'\'`, removing `".sln"` and ordinal `==` behave the same on well-formed text, but a lone surrogate in a path cannot be represented and `|...|` counts scalar values, not code units.
