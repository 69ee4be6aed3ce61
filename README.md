# Font splitter, modelled in Dafny

The program splits a TrueType font into web-font subsets by character
frequency. It loads a table of `character<TAB>count` (or `character,count`)
lines, collects the characters the font's cmap maps (minus the null
character and every character whose Unicode general category starts with
"C"), ranks them by descending frequency with a stable sort, cuts the ranking
into G contiguous groups at the boundaries `i * total // G`, and for every
non-empty group whose subsetting succeeds writes one `@font-face` rule whose
`unicode-range` value lists the group's code points merged into runs
(`U+XXXX` or `U+XXXX-YYYY`, joined by `", "`, the descriptor syntax of
section 4.5 of CSS Fonts Module Level 4).

The model follows the program's pieces, one module each:

- `Text`: the `str` operations the loader relies on (`isspace`, `strip`,
  `split`, `join`).
- `Numerals`: `{n:04X}` / `{i:03d}` formatting and `int()` on a string.
- `Sorting`: `list.sort()` on integers, as an in-place insertion sort on an array.
- `UnicodeRange`: `create_unicode_range`, as a method over an array that it
  sorts in place, specified by the run structure `Runs` and its rendering.
- `RangeSyntax`: a reader for the descriptor text, used to show that the
  written value denotes exactly the group.
- `RangeExamples`: the worked values of the descriptor.
- `FrequencyTable`: `load_frequency_data` over a sequence of lines.
- `FontInspector`: the filter, dedupe and sort of `get_chars_from_font`.
- `Ranking`: pairing with frequencies and the stable descending sort.
- `Partition`: the `for i in range(args.groups)` slicing loop.
- `SubsetEmitter`: the emit loop's skip logic and the rules it keeps.
- `FontSplitter`: the body of `main`, composed from the above.

External collaborators are parameters. The Unicode database test
`unicodedata.category(c).startswith('C')` is `isControlLike: char -> bool`.
For group `i`, `subsetSucceeds(i)` says whether the whole `try` block of the
emit loop (font_splitter.py:163-205) completes. That block runs the
`pyftsubset` call, the `os.path.getsize` lookup and the progress line, and
any of them can raise. The frequency file is given as its lines, and the
font as the key sequences of its cmap subtables.

Three behaviours of the code that its docstrings and comments do not spell
out, and that the model keeps:

- A line is split on every tab (or every comma), as `str.split` does
  (font_splitter.py:30-33). Fields after the second are ignored.
- `int()` accepts a sign (font_splitter.py:41), so negative frequencies are
  stored. A character with a negative frequency ranks below the characters
  absent from the table, which get 0.
- A group count of zero or less is not rejected (font_splitter.py:143). The
  `range` is empty, so no groups are produced.

`str.strip()` (font_splitter.py:25) and `int()` (font_splitter.py:41) skip
different white space. `strip()` removes the separators U+001C..U+001F, but
`int()` does not skip them. `int()` also refuses a number of more than 4300
digits, Python's default limit on integer string conversion. The model has
both rules, as `IsIntSpace` and `MaxStrDigits`.

## Model

| member | source | states |
|---|---|---|
| `UnicodeRange.CreateUnicodeRange` | font_splitter.py:66-92 | sorts the caller's array in place into `SortedSeq` of its old contents, and returns the rendering of the maximal-consecutive runs of the sorted points; empty input gives the empty string |
| `UnicodeRange.Runs` | font_splitter.py:72-90 | every run has `first <= last`, there are no more runs than points, and there are no runs exactly when there are no points |
| `UnicodeRange.RenderRun` | font_splitter.py:80-90 | a run's text starts with `U+`, has at least six characters, holds `-` exactly when the run spans more than one point, and holds no comma or space |
| `UnicodeRange.RenderRuns` | font_splitter.py:92 | the joined text is empty exactly when there are no runs |
| `UnicodeRange.UnicodeRangeOf` | font_splitter.py:66-92 | the descriptor is the empty string exactly when there are no code points |
| `UnicodeRange.RunsCover` | font_splitter.py:71-92 | a point is covered by some run exactly when it occurs in the input |
| `UnicodeRange.RunsShape` | font_splitter.py:73-90 | the first run starts at the first point and the last run ends at the last point |
| `UnicodeRange.RunsSeparated` | font_splitter.py:76-85 | for strictly ascending points the runs are ascending with a gap of at least one uncovered point between neighbours, so no two could be merged |
| `UnicodeRange.RunsAscending` | font_splitter.py:76-85 | for sorted points with repeats the runs are still in order (a repeat opens a new run rather than merging) |
| `RangeSyntax.ParseRenderedRuns` | font_splitter.py:80-92 | the text written for a list of runs (`U+XXXX`, `U+XXXX-YYYY`, joined by `", "`) reads back as exactly that list |
| `RangeSyntax.DescriptorDenotesGroup` | font_splitter.py:66-92 | the descriptor reads back as well-formed runs that cover exactly the input points, and that are separated when the input has no repeats |
| `RangeExamples.MergedAndSingle` | font_splitter.py:76-92 | `[65, 66, 67, 90]` gives `U+0041-0043, U+005A` |
| `RangeExamples.SinglePadded` | font_splitter.py:87-88 | `[5]` gives `U+0005` (zero-padded to four hex digits) |
| `RangeExamples.DuplicateNotCollapsed` | font_splitter.py:76-85 | `[65, 65]` gives `U+0041, U+0041`: a repeated point is not `end + 1` and opens a second run |
| `RangeExamples.SingleA` | font_splitter.py:87-88 | `[65]` gives `U+0041` |
| `Numerals.Hex4` | font_splitter.py:81 | `{n:04X}`: at least four upper-case hex digits that read back as `n`, with no leading zero beyond the padding |
| `Numerals.ValueOfDigits` | font_splitter.py:81 | the shortest digit string of `n` in any base from 2 to 16 reads back as `n` |
| `Numerals.ValueZerosPrefix` | font_splitter.py:81 | zero padding does not change the value a digit string denotes |
| `Numerals.ParseInt` | font_splitter.py:41 | a value is produced only when the text, stripped of the white space `int()` skips, is an optional sign followed by digits and underscores and ends in a digit; a negative value comes only from a leading `-` |
| `Numerals.IntRoundTrip` | font_splitter.py:41 | `int(str(n)) == n` for every integer of at most 4300 digits, negative ones included; a longer one is refused |
| `Numerals.ParseUnsigned` | font_splitter.py:41 | plain decimal digits read as their value when there are at most 4300 of them, and are refused otherwise |
| `Numerals.ParseSigned` | font_splitter.py:41 | `int()` reads a sign followed by at most 4300 decimal digits as the signed value, and refuses more digits |
| `Numerals.InfoSeparatorRefused` | font_splitter.py:25-41 | `"\x1c5"` strips to `"5"`, yet `int("\x1c5")` is refused: `int()` does not skip the separators that `strip()` removes |
| `Text.Strip` | font_splitter.py:25 | the stripped line neither starts nor ends with a `str.isspace` character |
| `Text.StripAround` | font_splitter.py:25 | stripping removes exactly the blanks around a core that neither starts nor ends with a blank, for any set of blanks |
| `Text.TrimLeftRemovesBlanks` | font_splitter.py:25 | what the left strip removes is all blanks |
| `Text.TrimRightRemovesBlanks` | font_splitter.py:25 | what the right strip removes is all blanks |
| `Text.Split` | font_splitter.py:30-33 | `split(sep)` yields at least one field, and no field holds `sep` |
| `Text.SplitJoin` | font_splitter.py:30-33 | `split(sep)` yields one field exactly when `sep` does not occur; no field contains `sep`; joining the fields with `sep` gives the line back |
| `Text.SplitFirst` | font_splitter.py:30-33 | the first field is the text before the first separator, the remaining fields come from what follows it |
| `Text.SplitNone` | font_splitter.py:30-33 | without a separator the line is its only field |
| `Sorting.SortInPlace` | font_splitter.py:71 | `codes.sort()`: the array ends ascending, a permutation of its old contents, equal to `SortedSeq` of them |
| `Sorting.SortedUnique` | font_splitter.py:71 | two ascending permutations of the same multiset are equal, so any correct sort agrees with the model's |
| `Sorting.SortedDistinct` | font_splitter.py:71 | sorting distinct points gives a strictly ascending sequence |
| `Sorting.SortedFixed` | font_splitter.py:71 | sorting an already ascending sequence changes nothing |
| `FrequencyTable.ClassifyLine` | font_splitter.py:25-45 | a line is skipped exactly when it strips to nothing or to a comment; it is too short exactly when it is neither and has no tab and no comma; otherwise its first field is the text before the first separator, and it is stored under that field when its second field parses as an integer and reported as invalid when it does not |
| `FrequencyTable.LoadFrequencyData` | font_splitter.py:17-47 | the loop's table is the last-write-wins fold of the per-line outcomes, and its warnings are the per-line diagnostics in file order |
| `FrequencyTable.TableKeys` | font_splitter.py:35-45 | a key is in the table exactly when some line was accepted for it; blank, comment, short and non-integer lines never reach the table |
| `FrequencyTable.TableLastWins` | font_splitter.py:42 | the stored count for a key is the one on the last accepted line for that key |
| `FrequencyTable.WarningsExact` | font_splitter.py:35-45 | a warning is printed exactly for each short or non-integer line, carrying its 1-based line number |
| `FrequencyTable.WarningsInFileOrder` | font_splitter.py:24-45 | warnings carry line numbers within the file, strictly increasing, so at most one per line and in file order |
| `FrequencyTable.FieldsDecide` | font_splitter.py:39-45 | a line is decided by its first two fields: a non-integer second field is rejected, otherwise the first field maps to its value |
| `FrequencyTable.TabEntryIgnoresExtraFields` | font_splitter.py:30-42 | with a tab in the line, `key<TAB>count<TAB>extra` stores `count` under `key` and ignores the rest; a count of more than 4300 digits is reported as invalid |
| `FrequencyTable.CommaEntry` | font_splitter.py:32-42 | without a tab, `key,count` stores `count` under `key`; a count of more than 4300 digits is reported as invalid |
| `FrequencyTable.NoSeparatorSkipped` | font_splitter.py:35-37 | a one-character line such as `A` is reported as too short and skipped |
| `FontInspector.Keeps` | font_splitter.py:55-60 | a key contributes a character only when it is a non-null Unicode scalar value, and such a key contributes exactly when its character is not control-like |
| `FontInspector.GetCharsFromFont` | font_splitter.py:49-64 | the result is strictly ascending (so no duplicates) and holds exactly the characters that some subtable maps, other than `\0` and the control-like ones |
| `FontInspector.KeptFromTablesIff` | font_splitter.py:53-62 | the set built by the nested loops is exactly the mapped characters that pass the filter |
| `FontInspector.SortedChars` | font_splitter.py:64 | `sorted(list(chars))` lists exactly the set's members in strictly ascending order |
| `FontInspector.AscendingUnique` | font_splitter.py:64 | an ascending listing of a set is unique |
| `Ranking.FrequencyOf` | font_splitter.py:132 | `freq_data.get(char, 0)`: the stored count when the one-character key is present, and non-zero only for a present key |
| `Ranking.Pairs` | font_splitter.py:130-133 | one entry per font character, in order, carrying its table frequency or 0 when absent |
| `Ranking.PairWithFrequency` | font_splitter.py:130-133 | the appending loop builds exactly those pairs |
| `Ranking.SortByFrequency` | font_splitter.py:136 | the sorted list is non-increasing in frequency and as long as its input |
| `Ranking.SortByFrequencyInPlace` | font_splitter.py:136 | the in-place stable insertion sort leaves the array as `SortByFrequency` of its old contents |
| `Ranking.RankCharacters` | font_splitter.py:130-136 | the ranking block returns the stable descending sort of the pairs |
| `Ranking.SortedPermutes` | font_splitter.py:136 | the sorted list is a permutation of the pairs |
| `Ranking.SortedStable` | font_splitter.py:136 | for every frequency, the entries of that frequency keep their relative order |
| `Ranking.StableOrderUnique` | font_splitter.py:136 | two descending lists with the same per-frequency subsequences are equal, so the ranking is deterministic |
| `Ranking.TiesAscendingFromClasses` | font_splitter.py:131-136 | when the entries of every frequency are in ascending character order, any two entries of equal frequency are in ascending character order |
| `Ranking.RankedListFacts` | font_splitter.py:130-136 | the ranked list is descending, a permutation of the pairs, holds each font character with its frequency, and lists ties in ascending code-point order |
| `Partition.BoundaryFloor` | font_splitter.py:144-145 | `i * total // G` is the largest `b` with `b * G <= i * total` |
| `Partition.BoundaryStep` | font_splitter.py:144-145 | consecutive boundaries differ by `total // G`, or one more when `G` does not divide `total` |
| `Partition.BoundaryEnds` | font_splitter.py:144-145 | the first boundary is 0 and the last is `total` |
| `Partition.BoundaryMonotone` | font_splitter.py:144-145 | boundaries never decrease |
| `Partition.GroupAt` | font_splitter.py:144-146 | every group holds `floor(total / G)` or `ceil(total / G)` characters |
| `Partition.PartitionedFlatten` | font_splitter.py:143-147 | the first `n` groups joined in order are the ranked characters up to boundary `n`: nothing is lost or repeated |
| `Partition.PartitionedSliced` | font_splitter.py:143-147 | group `i` is the slice of the ranked characters between boundaries `i` and `i + 1` |
| `Partition.PartitionGroups` | font_splitter.py:140-147 | G groups for G >= 1 and none for G <= 0; group `i` is the slice between boundaries `i` and `i + 1`; joined in order the groups give back the ranked characters |
| `Partition.EarlierGroupsRankHigher` | font_splitter.py:136-147 | every entry of an earlier group has at least the frequency of every entry of a later group |
| `Partition.TenInTwo` | font_splitter.py:143-146 | ten ranked characters in two groups split five and five at index 5 |
| `SubsetEmitter.SubsetFileName` | font_splitter.py:156 | the subset file name is the fixed prefix, then three or more decimal digits that read back as the group index, then `.woff2` |
| `SubsetEmitter.CodesOf` | font_splitter.py:193 | `[ord(char) for char in group]`: one code per character, in order |
| `SubsetEmitter.RuleFor` | font_splitter.py:156-202 | a rule's source path ends with its group's subset file name, and its unicode-range is empty exactly when the group is |
| `SubsetEmitter.EmitRules` | font_splitter.py:152-209 | the loop's rules are the fold that skips empty groups and failed subsets and keeps every other group's rule, in group order |
| `SubsetEmitter.EmittedExactly` | font_splitter.py:152-209 | the emitting groups are exactly the non-empty groups whose subsetting succeeded, in strictly ascending index order |
| `SubsetEmitter.RulesFollowGroups` | font_splitter.py:152-205 | rule `k` of the stylesheet is the rule of the `k`-th emitting group |
| `SubsetEmitter.OneFailureLosesOneRule` | font_splitter.py:163-209 | with all groups non-empty and exactly one subsetting failure, G - 1 rules are kept |
| `SubsetEmitter.RuleDescribesGroup` | font_splitter.py:193-202 | a kept rule's unicode-range is non-empty and reads back as runs covering exactly the group's characters, separated when the group has no repeated character |
| `SubsetEmitter.SingleGroupRule` | font_splitter.py:152-205 | the single group `A` yields one rule, for `subsets/AlibabaPuHuiTi-subset-000.woff2`, with unicode-range `U+0041` |
| `SubsetEmitter.SubsetFileNamesDistinct` | font_splitter.py:156 | different groups write different files |
| `SubsetEmitter.JoinPath` | font_splitter.py:157 | `os.path.join` ends with the file name |
| `FontSplitter.SplitFont` | font_splitter.py:121-209 | G groups (none for G <= 0) that together list every kept font character exactly once, in non-increasing frequency with ties in code-point order; group `i` is the slice of that ranking between boundaries `i` and `i + 1`; and the rules the emit loop keeps for them |
| `FontSplitter.RankedChars` | font_splitter.py:130-147 | the ranked characters are the font characters, each once, in non-increasing table frequency, ties in code-point order |

## Left out

- Argument parsing, the `--groups` default of 80, the `os.path.isfile` checks with `sys.exit(1)`, and `os.makedirs` (font_splitter.py:95-119) are command-line and filesystem plumbing.
- Opening the font with `TTFont` and `font.close()` (font_splitter.py:51, 63) belong to a foreign library. The model starts from the cmap subtables' keys.
- `unicodedata.category` is the Unicode database. It is the parameter `isControlLike`. Surrogates, whose category is always `Cs`, are dropped without consulting it.
- The `pyftsubset` subprocess and its options (font_splitter.py:163-186) are an external tool. Whether the whole `try` block succeeds for a group is the parameter `subsetSucceeds`.
- `os.path.getsize` and the progress and size printouts (font_splitter.py:121-128, 189-190) are I/O and floating point, diagnostic only. They can make the `try` block fail, and that is covered by `subsetSucceeds`. Warnings of the loader are modelled as values rather than printed.
- The stylesheet text and file (font_splitter.py:196-203, 211-219) are left out, apart from the parts of a rule that depend on the group: the subset path and the unicode-range value.
- `Numerals.ParseInt`: `int()` is modelled on ASCII digits only. Python also accepts the decimal digits of other scripts, and the model rejects those lines.
- `Numerals.ParseInt`: the digit limit is fixed at Python's default of 4300. A process can change it through `sys.set_int_max_str_digits` or the `PYTHONINTMAXSTRDIGITS` environment variable, and the program does neither.
- `FrequencyTable.LoadFrequencyData`: opening and decoding the file are not modelled. The file arrives as its lines, so a decoding error is not modelled either.
- `os.path.join` is modelled for POSIX relative names only.
