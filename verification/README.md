# Duplicate records and path helpers of `web-base-lib`, in Dafny

This project models the utility module `src/utils/index.ts` of the
`web-base-lib` TypeScript library and proves properties of that model.

**Duplicate detection and removal.** `findDuplicateValues(array)` and
`findDuplicateItems(array, field)` scan an array for values (or `field`
values) that occur more than once. They return one `DuplicateItem` record per
such position, sorted by index:

- each record holds the element, its index, and whether it is the first or
  the last occurrence of its group;
- a record's `remove()` splices its element out of the caller's array;
- after a removal, every live record behind the removed one moves one place
  down, so its index still points at its element.

The model has two classes, both over `seq` fields:

- `Duplicates.DuplicateItem`;
- `Duplicates.DuplicateContainer`, which stands for the TypeScript
  `BaseDuplicateContainer` and its two subclasses. The value and field modes
  are one class with a key function `key: T -> K`: the identity for
  `findDuplicateValues`, and `item => item[field]` for `findDuplicateItems`.

The container keeps some ghost state:

- the scanned array (`original`);
- the scan position of each element still in the array (`survivors`);
- for each record, the position it was created for (`origin`).

Its invariant, `Valid`, rests on the pure predicate `Duplicates.Consistent`:

- the live array is the scanned array with some recorded positions removed,
  in order;
- every live record's index points at its own element;
- each record's `first`/`last` flag says whether it is the leftmost or
  rightmost position of its group.

The scan and the removal are proved against value-level specifications in
`DuplicateScan` (`DuplicatePositions`, `IsFirst`, `IsLast`) and
`Duplicates.RemoveFlags`.

**Path and array helpers.** These are modelled as functions over `string`, or
as methods where the source loops:

- `removeStartSlash`, `removeEndSlash`, `removeBothEndsSlash` and
  `removeStartDirChars` strip anchored character runs;
- `splitFilePath` cuts a path at its last `/`;
- `splitHierarchicalPaths` lists every ancestor of some paths, in order;
- `summarizeFamilyPaths` keeps the paths no other path extends;
- `splitArrayChunk` cuts an array into pieces of a given size.

`null`/`undefined` arguments are `Optional.None`. The regular expressions,
`String.prototype.split`, `Array.prototype.join` and the `<` order on strings
are defined character by character in `Strings`.

Modules and files:

| module | file |
|---|---|
| `Optional` | `optional.dfy` |
| `Strings` | `strings.dfy` |
| `PathUtils` | `paths.dfy` |
| `ArrayChunk` | `chunks.dfy` |
| `DuplicateScan` | `duplicate_spec.dfy` (pure specification of the scan) |
| `Duplicates` | `duplicates.dfy` (the classes) |

## Model

| member | source | states |
|---|---|---|
| Strings.StripLeading | src/utils/index.ts:13 | `path.replace(/^\/*/, '')` generalised to any character: the result is the input minus its maximal leading run of `c`; the removed prefix is all `c` and the result does not start with `c` |
| Strings.StripTrailing | src/utils/index.ts:22 | `path.replace(/\/*$/, '')` generalised: the input minus its maximal trailing run of `c` |
| Strings.LeadingStripUnique | src/utils/index.ts:13 | the maximal-leading-run characterisation determines the result uniquely |
| Strings.TrailingStripUnique | src/utils/index.ts:22 | the maximal-trailing-run characterisation determines the result uniquely |
| Strings.StripLeadingIdempotent | src/utils/index.ts:13 | stripping a leading run twice is stripping it once |
| Strings.StripTrailingIdempotent | src/utils/index.ts:22 | stripping a trailing run twice is stripping it once |
| Strings.StripLeadingKeepsNoTrailing | src/utils/index.ts:31 | stripping the leading run keeps a string that does not end with `/` from ending with `/` (why `removeBothEndsSlash` leaves neither end) |
| Strings.Split | src/utils/index.ts:51 | `s.split(sep)` has at least one piece and no piece holds the separator |
| Strings.Join | src/utils/index.ts:55 | `parts.join(sep)` starts with the first piece |
| Strings.JoinSplit | src/utils/index.ts:51 | joining the pieces of `s.split(sep)` with `sep` gives back `s` |
| Strings.SplitJoin | src/utils/index.ts:55 | splitting the join of separator-free pieces gives back the pieces |
| Strings.JoinSnoc | src/utils/index.ts:55 | a join of two or more pieces is the join of all but the last, the separator and the last piece |
| Strings.JoinHasSep | src/utils/index.ts:54-55 | the join of separator-free pieces holds the separator exactly when there are at least two pieces |
| Strings.SplitSnoc | src/utils/index.ts:51-55 | splitting `a + sep + b` with separator-free `b` gives the pieces of `a` then `b` |
| Strings.PrefixesComparable | src/utils/index.ts:105-107 | two prefixes of one string are prefixes of each other one way or the other (the `startsWith` reasoning of `pushMaxPathToArray`) |
| Strings.PrefixTransitive | src/utils/index.ts:105-107 | `startsWith` is transitive |
| Strings.LexLess | src/utils/index.ts:81-83 | a proper prefix is `<` the longer string, and no string is `<` one of its own prefixes |
| Strings.LexLessIrreflexive | src/utils/index.ts:81-83 | no string is `<` itself |
| Strings.LexLessTransitive | src/utils/index.ts:81-83 | `<` on strings is transitive |
| Strings.LexLessTotal | src/utils/index.ts:81-83 | of two different strings one is `<` the other, so the comparator sorts strictly |
| Strings.LexLessAsymmetric | src/utils/index.ts:81-83 | `a < b` excludes `b < a` |
| PathUtils.RemoveStartSlash | src/utils/index.ts:11-14 | `''` for a null, undefined or empty path; otherwise the path minus its maximal run of leading slashes |
| PathUtils.RemoveEndSlash | src/utils/index.ts:20-23 | `''` for a missing or empty path; otherwise the path minus its maximal run of trailing slashes |
| PathUtils.RemoveBothEndsSlash | src/utils/index.ts:29-32 | the result neither starts nor ends with `/` and is a contiguous middle piece of the path with only slashes cut on either side |
| PathUtils.StripsLeaveMiddle | src/utils/index.ts:31 | cutting the trailing run and then the leading run leaves a middle piece with slashes on both sides of it |
| PathUtils.RemoveStartSlashIdempotent | src/utils/index.ts:11-14 | `removeStartSlash(removeStartSlash(p)) == removeStartSlash(p)` |
| PathUtils.RemoveEndSlashIdempotent | src/utils/index.ts:20-23 | `removeEndSlash` is idempotent |
| PathUtils.RemoveBothEndsSlashIdempotent | src/utils/index.ts:29-32 | `removeBothEndsSlash` is idempotent |
| PathUtils.DirCharsStrip | src/utils/index.ts:43 | a leading strip of `.` followed by a leading strip of `/` is one strip of a dot run then a slash run, both maximal |
| PathUtils.RemoveStartDirChars | src/utils/index.ts:41-44 | `''` for a missing or empty path; otherwise the path minus a maximal leading run of `.` and then a maximal run of `/` (when no slashes were stripped, the result does not start with `.` either) |
| PathUtils.RemoveStartDirCharsExamples | src/utils/index.ts:34-44 | the documented examples: `'./aaa'`, `'../aaa'` and `'/aaa'` all become `'aaa'`, and a missing path becomes `''` |
| PathUtils.SplitFilePath | src/utils/index.ts:50-58 | the file name (the last piece of `filePath.split('/')`) holds no `/` |
| PathUtils.SplitFilePathJoins | src/utils/index.ts:50-58 | the file name holds no `/`; a path with a `/` is `dirPath + '/' + fileName`; a path without one is all file name with an empty `dirPath` |
| PathUtils.SplitFilePathOfJoin | src/utils/index.ts:50-58 | conversely, `splitFilePath(dir + '/' + name)` with a slash-free `name` gives back `name` and `dir` |
| PathUtils.NonEmptyParts | src/utils/index.ts:73 | `filter(item => !!item)` keeps exactly the non-empty pieces of the input (every one of them and nothing else), and all of them when none is empty |
| PathUtils.NonEmptyPartsExact | src/utils/index.ts:73 | the filter keeps each non-empty piece as often as it occurs, drops every empty one, and keeps the pieces in their order |
| PathUtils.Segments | src/utils/index.ts:73 | the segments of a path are non-empty and slash-free |
| PathUtils.SegmentsOfSplit | src/utils/index.ts:73 | the segments of a path are exactly the non-empty pieces of `path.split('/')`, with their multiplicities and in their order |
| PathUtils.SplitHierarchicalPaths | src/utils/index.ts:68-84 | the result holds exactly the ancestors (`segments.slice(0, i + 1).join('/')`) of the non-null, non-empty paths, strictly ascending under `<`, so each once |
| PathUtils.AddAncestors | src/utils/index.ts:73-77 | the inner loop adds to the set exactly the ancestors `segments.slice(0, i + 1).join('/')` of one path |
| PathUtils.SortStrings | src/utils/index.ts:81-83 | `Array.from(set).sort(...)`: the set's members, strictly ascending |
| PathUtils.HierarchyIsNormalised | src/utils/index.ts:71-77 | every listed path is non-empty and has no empty segment |
| PathUtils.HierarchyHasInputs | src/utils/index.ts:71-77 | a given path with no empty segment is listed itself |
| PathUtils.HierarchyHasParents | src/utils/index.ts:71-77 | the directory (`splitFilePath(x).dirPath`) of every listed path is empty or listed too |
| PathUtils.HierarchyOrdered | src/utils/index.ts:80-83 | the listing sorted by `<` is in directory-hierarchy order: the directory of every listed path comes before it |
| PathUtils.PushMaxPath | src/utils/index.ts:102-113 | the list is extended by `newPath` exactly when no entry is its prefix or extension; otherwise the list is unchanged or exactly one entry, a proper prefix of `newPath`, is replaced by `newPath`, and every changed position held a proper prefix of `newPath`; `newPath` and every old entry have an extension in the result; the no-family property is kept |
| PathUtils.SummarizeFamilyPaths | src/utils/index.ts:101-120 | no result entry is a prefix of another; every input path has an extension in the result; the result is drawn from the input and never longer |
| ArrayChunk.ChunkPrefixInvariant | src/utils/index.ts:167-173 | after the `reduce` callback has seen indices `0..n-1`, the accumulator cuts the covered prefix into `size`-sized pieces |
| ArrayChunk.ChunkPrefix | src/utils/index.ts:167-173 | the `reduce` accumulator after indices `0..n-1` holds at most `n` pieces, and from the first index on its first piece is `array.slice(0, size)` |
| ArrayChunk.SplitArrayChunk | src/utils/index.ts:166-174 | the pieces concatenate to the array, none is empty or longer than `size`, and all but the last have exactly `size` elements |
| ArrayChunk.SplitArrayChunkCorrect | src/utils/index.ts:166-174 | the pieces equal the reference definition `Chunked` |
| ArrayChunk.ChunkingUnique | src/utils/index.ts:166-174 | there is only one way to cut a sequence into such pieces |
| DuplicateScan.Keys | src/utils/index.ts:251 | `array.map(item => item[field])`: the key of each element, position by position |
| DuplicateScan.IndexOf | src/utils/index.ts:228 | `indexOf(x, from)`: `-1` exactly when `x` does not occur from `from` on, otherwise the first position at or after `from` holding `x` |
| DuplicateScan.IndexOfFirst | src/utils/index.ts:219-221 | `indexOf(item) == index` exactly when `index` is the first occurrence of its value |
| DuplicateScan.RepeatedValues | src/utils/index.ts:252-254 | the filter keeps exactly the values found at a position that is not their first occurrence |
| DuplicateScan.Distinct | src/utils/index.ts:255 | `Array.from(new Set(...))` has the same members and no repeats |
| DuplicateScan.DuplicateValues | src/utils/index.ts:252-255 | the values the scan goes through are values of the array, each listed once |
| DuplicateScan.DuplicateValuesAreRepeated | src/utils/index.ts:252-255 | a value is scanned for exactly when it occurs at a duplicated position |
| DuplicateScan.DuplicateValueOccurs | src/utils/index.ts:237-238 | every scanned value has at least one position, so `myDuplicates[0]` exists |
| DuplicateScan.Occurrences | src/utils/index.ts:260-271 | the positions the `do … while` loop visits for one value hold that value, in ascending order |
| DuplicateScan.OccurrencesComplete | src/utils/index.ts:260-271 | the loop finds every position holding the value |
| DuplicateScan.OccurrencesFirstLast | src/utils/index.ts:273-274 | in a group's list, the record flagged first is exactly the one at the leftmost position and the record flagged last exactly the one at the rightmost |
| DuplicateScan.DuplicatesBelow | src/utils/index.ts:277-279 | the reported positions are exactly the duplicated ones, strictly ascending |
| DuplicateScan.AscendingUnique | src/utils/index.ts:277-279 | two strictly ascending lists with the same members are equal, so the sorted record list is determined |
| DuplicateScan.GroupFirstLast | src/utils/index.ts:186-188 | every duplicated group has exactly one first and exactly one last position, and they differ |
| DuplicateScan.NoRepeatsNoPositions | src/utils/index.ts:219-222 | an array without repeated values (the empty one included) gives no records |
| DuplicateScan.DocumentedExample | src/utils/index.ts:286-293 | `['a','b','c','a','d','c']` gives positions 0, 2, 3, 5 with the documented first/last flags |
| Duplicates.Drop | src/utils/index.ts:205 | `array.splice(t, 1)`: one element shorter, the elements before `t` stay and those after move one place down |
| Duplicates.Shifted | src/utils/index.ts:207-208 | a record's index drops by at most one, and it drops exactly when the record is live and behind the spliced position, where it stays at or behind that position |
| Duplicates.RemoveFlags | src/utils/index.ts:206-211 | the records' mutable fields after `remove`: live records behind the target's index move one place down, all others keep their index; only the target becomes removed; `first`/`last` never change |
| Duplicates.RemoveFlagsExample | src/utils/index.ts:206-211 | after removing the record at index 0 of the documented example, the later `'a'` is at 2 and the later `'c'` at 4 |
| Duplicates.RemoveKeepsConsistent | src/utils/index.ts:204-212 | removing a live record keeps the invariant: the target's index is in range, and after the splice and the flag update every live record still points at its element |
| Duplicates.LiveIndexFormula | src/utils/index.ts:204-212 | in a consistent state, a live record's index is the position it was scanned at minus the number of removed records scanned at a lower position |
| Duplicates.DuplicateItem.constructor | src/utils/index.ts:177-188 | a record starts with the given container, value and index, and `first`, `last` and `removed` false |
| Duplicates.DuplicateItem.Remove | src/utils/index.ts:190-192 | delegates to its container's `remove` with the same effect |
| Duplicates.InsertByIndex | src/utils/index.ts:277-279 | one insertion step of the sort keeps the list ascending by index and a permutation |
| Duplicates.SortByIndex | src/utils/index.ts:277-279 | `duplicates.sort(...)` by index: a permutation, strictly ascending by index |
| Duplicates.SortedOrigins | src/utils/index.ts:277-279 | after the sort, the records' positions are exactly the duplicated positions in ascending order |
| Duplicates.DuplicateContainer.FindGroup | src/utils/index.ts:257-271 | the `do … while` loop for one value appends one fresh, unflagged record per position holding the value, in ascending order |
| Duplicates.DuplicateContainer.ScanGroup | src/utils/index.ts:257-274 | adds the group's records and flags the leftmost `first` and the rightmost `last` |
| Duplicates.DuplicateContainer.ScanAll | src/utils/index.ts:257-275 | the loop over the duplicated values builds one record per duplicated position, with flags set |
| Duplicates.DuplicateContainer.SortRecords | src/utils/index.ts:277-279 | after the sort, the container is valid and its records are the duplicated positions in order, with their elements and flags |
| Duplicates.DuplicateContainer.constructor | src/utils/index.ts:215-281 | both container constructors, `DuplicateValueContainer` (215-244, identity key) and `DuplicateItemContainer` (247-281, `field` key): the records are exactly the positions whose key occurs elsewhere, ascending; each holds the whole element at its index, `first`/`last` say whether it is the leftmost/rightmost of its group, none is removed, and the container is valid |
| Duplicates.DuplicateContainer.Remove | src/utils/index.ts:204-212 | the array loses exactly the target's element; live records behind it move one place down; the others keep their index; only the target becomes removed; `first`/`last` are untouched; the container stays valid |
| Duplicates.DuplicateContainer.RemoveAt | src/utils/index.ts:205-211 | the state changes of `remove` (splice, loop, flag) with the same effect, given the consistent state they lead to |
| Duplicates.DuplicateContainer.UpdateRecords | src/utils/index.ts:206-211 | the loop and the final flag change the records' fields exactly as `RemoveFlags` says |
| Duplicates.DuplicateContainer.ShiftBehind | src/utils/index.ts:206-210 | the `for … of` loop moves exactly the live records behind the target one place down |
| Duplicates.DuplicateContainer.LiveRecordsHoldValues | src/utils/index.ts:204-212 | in a valid container, through any number of removals, every live record's index is in range and the live array holds the record's value there |
| Duplicates.DuplicateContainer.LiveRecordsIndex | src/utils/index.ts:204-212 | in a valid container, through any number of removals, every live record's index equals its original index minus the number of removed records with a lower original index |
| Duplicates.FindDuplicateValues | src/utils/index.ts:297-299 | the records of the positions whose value occurs more than once, ascending, with their values, `first`/`last` flags and `removed` false, sharing one valid container over the array; the records and the container are newly allocated |
| Duplicates.FindDuplicateItems | src/utils/index.ts:323-325 | the same with equality of the `field` value; each record holds the whole element, not the field value; the records and the container are newly allocated |

## Left out

- `sleep`, `shuffleArray`, `nonNullable`, `notEmpty`, `pickProps` and `arrayToDict` are not part of this model. They are a timer, randomness, and dynamic property access.
- The constants modules and the compiled `dist/` copies of the utilities are not part of this model. The constants hold no logic, and `dist/` is generated from the TypeScript source.
- Aliasing is not modelled: the live array is a `seq` field of the container, while in the source it is the caller's own array, which `remove` splices in place.
- PathUtils.PushMaxPath returns the new list instead of assigning `array[i]` or pushing into the caller's array.
- Duplicates.DuplicateContainer.Remove requires that the target is not yet removed. A second `remove()` of the same record re-splices at a stale index, and that misuse is not modelled.
- Duplicates.DuplicateContainer.Remove does not cover an array changed behind the container's back; the invariant assumes only `remove` changes it.
- ArrayChunk.SplitArrayChunk requires `size > 0`. With `size` 0, `index % size` is `NaN`; with a fractional size it does not stay integral. Neither case is modelled.
- Element equality is Dafny equality, not JavaScript `===`. In particular, `NaN` is not modelled: `indexOf(NaN)` is `-1`, so the source leaves that group empty and fails at `myDuplicates[0]`.
- The field read `item[field]` is a total function `T -> K`. Missing fields and getters that throw are not modelled.
- In value mode the source stores the scanned value rather than `array[fromIndex]`. Under Dafny equality the two are the same element, so the model stores the element in both modes.
- `Array.prototype.sort` is an insertion sort in the model. The indices being sorted are distinct, so every correct sort gives the same result (`DuplicateScan.AscendingUnique`).
- `Strings.LexLess` orders strings by Unicode scalar value, while JavaScript's `<` compares UTF-16 code units. The two can differ only for characters above U+FFFF.
- The source's `Set<string>` in `splitHierarchicalPaths` is a Dafny `set`, which has no insertion order. The result is sorted afterwards, so nothing observable depends on that order.
- The inner loop of `splitHierarchicalPaths` is its own method, `PathUtils.AddAncestors`.
- The constructor and `remove` are split into helper methods (`FindGroup`, `ScanGroup`, `ScanAll`, `SortRecords`, `RemoveAt`, `UpdateRecords`, `ShiftBehind`). These follow the source's loops.
