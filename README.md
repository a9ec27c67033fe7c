# columnize, modelled in Dafny

columnize is a small Go library that turns lines of delimiter-separated
fields into text whose columns line up. This project models it and proves
properties of the model:

- The configuration has four fields: the delimiter, the glue between output
  columns, the prefix of every line, and a placeholder for empty fields.
  A user configuration is merged field by field over the defaults.
- Each line is split on the delimiter, and each field is trimmed of white
  space. A blank field is replaced by the placeholder when one is set.
- A width table records, for each column, the largest visible length of any
  element in it. Visible length ignores ANSI colour codes
  (ESC `[` … `m`).
- Each line gets a format string. It starts with the prefix. Every element
  but the last gets a left-justified `%-Ns` verb and then the glue. The last
  element gets `%s` and a newline. When an element holds colour codes, `N`
  is widened by their length.
- The renderings of all lines are concatenated, and one trailing newline is
  dropped.

Modules:

- `wrappers.dfy`: `Option`.
- `gostrings.dfy` (`GoStrings`): the functions of Go's `strings` package
  that the library calls: `Split`, `TrimSpace` and `Contains`. Also `Index`
  and `Count`, which Go's `strings.Split` uses internally, and `Join`. Join
  is the model's inverse of `Split`, there to state the round trip; the
  library never calls it. Each has the lemmas the rest of the model needs.
- `gofmt.dfy` (`GoFmt`): format strings as lists of directives (literal
  text, `%-Ns`, `%s`) and `fmt.Sprintf` over them.
- `colorcodes.dfy` (`ColorCodes`): the colour-code pattern, its removal,
  `containsColorCode`, `colorCodeLen` and `removeColorCode`.
- `columnize.dfy` (`Columnize`): the library itself. The loops of the
  source (`GetElementsFromLine`, `GetWidthsFromLines`, `GetStringFormat`
  and `Format`) and the copy-then-overwrite of `MergeConfig` are methods
  proved against specification functions.
- `examples.dfy` (`ColumnizeExamples`): concrete inputs and the outputs the
  model gives for them.

Pointers become values in the model. A nil `*Config` argument is `None`.

## Model

| member | source | states |
|---|---|---|
| Columnize.DefaultConfig | columnize.go:24-30 | The defaults are delimiter `\|`, glue of two spaces, and empty prefix and placeholder. |
| Columnize.Merge | columnize.go:105-127 | Each field of `b` that is non-empty replaces the same field of `a`; the other fields keep `a`'s value. With no `b` the result is `a`. |
| Columnize.MergeConfig | columnize.go:105-127 | The copy-then-overwrite method returns exactly the field-by-field merge. |
| Columnize.MergeKeepsSet | columnize.go:113-124 | A merge never turns a non-empty field into an empty one. |
| Columnize.MergedDefaultsUsable | columnize.go:134 | Any configuration merged over the defaults has a non-empty delimiter and a non-empty glue. |
| Columnize.MergeAssociative | columnize.go:105-127 | Merging `b` and then `c` over `a` equals merging over `a` once with `c` already merged over `b`. |
| Columnize.MergeIdempotent | columnize.go:105-127 | Merging the same override a second time changes nothing. |
| Columnize.GetElementsFromLine | columnize.go:34-44 | The loop returns the elements of the line: one per field of the split, in order, each trimmed or replaced by the placeholder. |
| Columnize.ElementsCount | columnize.go:36 | A line has one more element than it has non-overlapping occurrences of the delimiter, so it always has at least one. |
| Columnize.ElementsTrimmed | columnize.go:37-40 | Element `k` is field `k` trimmed. A blank field becomes the placeholder when one is set. An element is empty only when no placeholder is set. |
| Columnize.Observe | columnize.go:53-61 | After seeing one line, the table is as long as the longer of the table and the line. Each column is at least its old value and at least the line's length there. Each column equals one of the two. |
| Columnize.ObserveStep | columnize.go:55-60 | One step of the inner loop appends the length when the table has no column for it, raises the column when the length is larger, and otherwise keeps the table. |
| Columnize.GetWidthsFromLines | columnize.go:48-64 | The nested loops return the width table of the lines' visible element lengths. |
| Columnize.TableLength | columnize.go:51-62 | No row is longer than the table, some row is exactly as long, and no rows give an empty table. |
| Columnize.TableBound | columnize.go:51-62 | Every row fits under the table: no entry exceeds its column. |
| Columnize.TableAttained | columnize.go:51-62 | Every column of the table is some row's entry for that column. |
| Columnize.WidthsLength | columnize.go:48-64 | The table has as many columns as the line with the most elements. It is empty when there are no lines. |
| Columnize.WidthsBound | columnize.go:48-64 | Every column is at least the visible length of every element in it. |
| Columnize.WidthsAttained | columnize.go:48-64 | Every column is exactly the visible length of some line's element in that column. |
| Columnize.PadWidthCodes | columnize.go:93-97 | The field width is always the column width plus the element's invisible characters. The marker test only short-cuts the case where there are none. |
| Columnize.GetStringFormat | columnize.go:84-101 | The loop builds the format string from the prefix and one pair of directives per element that has a column. |
| Columnize.FormatShape | columnize.go:86-98 | The format string starts with the prefix. Every element but the last gets `%-Ns` with its field width, then the glue. The last element gets `%s`, then a newline. |
| Columnize.FormatVerbs | columnize.go:89-99 | When the table has a column for every element, the format string has exactly one verb per element. |
| Columnize.RenderLinePrefix | columnize.go:84-101 | `RenderLine`, the Sprintf of one line, starts with the prefix and is at least as long as the prefix and all the elements together: no element is cut. |
| Columnize.RenderLineCells | columnize.go:140-141 | Sprintf of the format string gives the prefix, then each non-last element padded and glued, then the last element as it is and a newline. |
| Columnize.RenderLineEnds | columnize.go:91 | A rendered line ends in a newline. |
| Columnize.PaddedVisible | columnize.go:94-96 | An element padded to its field width shows exactly the column's width in visible characters. |
| Columnize.ColumnsAlign | columnize.go:131-142 | In Format's output, every element but the last on each line has a column and shows exactly that column's width. |
| Columnize.RenderedSnoc | columnize.go:138-142 | Rendering one more line appends that line's rendering to the output so far. |
| Columnize.TrimNewline | columnize.go:145-147 | One trailing newline is removed, and only when it is there. |
| Columnize.Effective | columnize.go:134 | The merged configuration has a non-empty delimiter and glue. |
| Columnize.Table | columnize.go:135 | Every line fits the width table Format uses. |
| Columnize.Format | columnize.go:131-150 | The method returns the concatenated renderings of all lines, with the trailing newline dropped. |
| Columnize.SimpleFormat | columnize.go:153-155 | SimpleFormat is Format with no configuration. |
| Columnize.FormatEmpty | columnize.go:131-150 | No lines format to the empty string. |
| Columnize.ConcatLines | columnize.go:141-147 | Newline-terminated strings, concatenated, are their bodies joined by newlines plus one final newline. |
| Columnize.RenderingsEnd | columnize.go:141 | Every line's rendering ends in a newline. |
| Columnize.FormattedIsJoin | columnize.go:138-147 | For at least one line, the output is the lines' renderings without their newlines, joined by newlines, in input order. |
| ColorCodes.CodeEndFirstM | columnize.go:176 | Past `ESC [` and one more character, the pattern ends at the first `m`, and fails only when no `m` follows. |
| ColorCodes.MatchAt | columnize.go:176 | A match found at index `i` is at least four characters long (ESC, `[`, one character, `m`) and lies inside the string. MatchAtExact states that it finds exactly the pattern's matches. |
| ColorCodes.MatchAtExact | columnize.go:176 | The matcher reports length `n` at index `i` exactly when the `n` characters there are ESC, `[`, at least one non-`m`, then `m`. |
| ColorCodes.StripFrom | columnize.go:177 | The scan for ReplaceAllString keeps no more characters than remain from its start index. StripFromLength and SkippedFrom account for the rest. |
| ColorCodes.StripFromLength | columnize.go:177 | Every character is either kept or part of a removed colour code. |
| ColorCodes.ReplaceColorCodes | columnize.go:176-177 | The kept characters and the removed codes add up to the input's length. |
| ColorCodes.RemoveColorCode | columnize.go:173-180 | The result is never longer than the input, and without the marker it is the input unchanged. |
| ColorCodes.ColorCodeLen | columnize.go:167-170 | The invisible length plus the visible length is the whole length. |
| ColorCodes.ContainsColorCodeExact | columnize.go:158-164 | `ContainsColorCode` holds exactly when ESC `[` occurs at some index of the string. When it does not hold, the colour-code pattern matches at no index. |
| ColorCodes.MatchAtMarker | columnize.go:161 | Every colour code begins with the marker `ESC [`. |
| ColorCodes.RemoveColorCodeIsReplace | columnize.go:173-180 | The marker test is only a shortcut: the result always equals replacing every match. |
| ColorCodes.ColorCodeLenIsSkipped | columnize.go:167-170 | colorCodeLen is the total length of the codes the pattern removes. |
| ColorCodes.StripAppendInert | columnize.go:177 | Appending characters that cannot start or end a code appends them to the stripped text. |
| ColorCodes.RemoveColorCodeAppendInert | columnize.go:173-180 | Appending such characters, such as padding spaces, appends them to the visible text. |
| ColorCodes.NoEscapePlain | columnize.go:158-180 | A string without an escape character has no marker, shows as it is, and has no invisible length. |
| GoStrings.Index | columnize.go:36 | The result is the leftmost occurrence of the separator, or none when it occurs nowhere. |
| GoStrings.ContainsOccurs | columnize.go:158-164 | `strings.Contains` holds exactly when the substring occurs at some index. |
| GoStrings.CountOccurrences | columnize.go:36 | The occurrences `Count` counts do not overlap, so together they take at most the string's length. The count is zero exactly when the separator does not occur. |
| GoStrings.Split | columnize.go:36 | `strings.Split` with a non-empty separator always gives at least one piece. |
| GoStrings.SplitLeftmost | columnize.go:36 | The split cuts at the leftmost occurrence. There is one piece exactly when the separator does not occur. Otherwise the first piece ends where the separator first occurs, and the other pieces are the split of the text after it. |
| GoStrings.SplitJoin | columnize.go:36 | Joining the split pieces with the separator gives the input back. |
| GoStrings.SplitPiecesFree | columnize.go:36 | No piece of a split contains the separator. |
| GoStrings.SplitCount | columnize.go:36 | A split has one more piece than there are non-overlapping occurrences of the separator. |
| GoStrings.TrimSpace | columnize.go:37 | The result is the input without its leading and trailing white space: it neither starts nor ends with white space, and it is the slice between the two runs. |
| GoStrings.TrimSpaceFixed | columnize.go:37 | A string that already has no white space at either end is unchanged. |
| GoStrings.TrimSpaceIdempotent | columnize.go:37 | Trimming twice equals trimming once. |
| GoFmt.PadRight | columnize.go:94-96 | `%-Ns` keeps the argument as a prefix and fills up to `N` with spaces, never truncating. |
| GoFmt.SprintfPair | columnize.go:91-96 | A verb and a literal render to the padded (or plain) argument followed by the literal. |
| GoFmt.SprintfLength | columnize.go:141 | `Sprintf` never cuts anything. Its output is at least as long as the literal text and the arguments together, and exactly that long when no verb pads. |
| GoFmt.SprintfAppend | columnize.go:141 | Rendering two format strings one after another equals rendering their concatenation. |
| ColumnizeExamples.SimpleLine | columnize.go:153-155 | `a\|b\|c` formats to `a  b  c`. |
| ColumnizeExamples.TwoLines | columnize.go:131-150 | `a\|bb\|c` and `aaa\|b\|c` format to `a    bb  c`, newline, `aaa  b   c`. |
| ColumnizeExamples.ColoredWord | columnize.go:173-180 | A red word wrapped in colour codes shows as the word alone. |
| ColumnizeExamples.StripOnce | columnize.go:176-177 | One pass over `ESC ESC[1m[2m` leaves `ESC[2m`, which is itself a colour code: the removal is not idempotent. |
| ColumnizeExamples.ReformatTrims | columnize.go:131-150 | Formatting is not idempotent. `a\|` formats to `a` followed by the two-space glue, because the empty last element leaves the glue at the end of the line. Formatting that output again gives `a`, because the single field is trimmed. |

## Left out

- GoFmt.Sprintf: the prefix and the glue are pasted into the format string
  in the source, so a `%` in either is read by Go as a verb. The model keeps
  them as literal text. It is exact only when neither contains `%`.
- GoFmt.Sprintf: it requires as many arguments as the format has verbs.
  Go's `%!s(MISSING)` and `%!(EXTRA …)` outputs are not modelled. Format
  always meets the requirement (FormatVerbs).
- Bytes and runes: Go's `len` counts bytes, while `%-Ns` pads by runes.
  The model counts characters, one column each. Widths agree with Go for
  ASCII text only.
- GoStrings.TrimSpace: white space is the ASCII set (space, `\t`, `\n`,
  `\v`, `\f`, `\r`). Go's Unicode white space, such as U+0085 and U+00A0,
  is not modelled.
- GoStrings.Split: the separator must be non-empty. Go splits at every
  UTF-8 sequence for an empty separator. The merge never leaves an empty
  delimiter (MergedDefaultsUsable), so Format cannot reach that case.
- ColorCodes.ReplaceColorCodes: the `regexp` package is not modelled. The
  pattern `ESC\[[^m]+m` is matched by a hand-written left-to-right scanner.
  Like `ReplaceAllString`, it takes the leftmost match and skips it whole.
  Its agreement with the RE2 engine is by construction, not proved.
- Elements are `[]interface{}` in the source. They are strings in the
  model, so the non-string branch of `containsColorCode` (line 163) is not
  modelled.
- Columnize.MergeConfig: a nil `a` panics at line 106, because it is
  dereferenced before the nil test on line 109. The model's base
  configuration is always present, and the only caller passes the
  defaults.
- The commented-out variant of `getStringFormat` (lines 69-82) is not part
  of this model.
- Columnize.ColumnsAlign: alignment is stated per padded element, in
  visible characters. Where columns start in a whole displayed line is
  not stated, and it does not always line up. Take an element holding ESC
  `[3` with no closing `m`. Its visible length is 3 and it is padded to its
  column. But when the next element starts with `m`, stripping the whole
  line removes everything from the ESC through that `m`, glue included.
- Columnize.Format: reformatting the output is not idempotent, and no
  lemma claims it is. The glue after an empty last element and the padding
  at either edge of a line are trimmed away when the output is split again
  (ReformatTrims). The case where it does hold is not stated.
- Go's 64-bit `int` is modelled as unbounded. Widths cannot overflow in
  practice.
- GoFmt.PadRight: Go's `fmt` refuses a width above a fixed limit of its own
  and prints an error marker instead of padding. The model pads to any
  width, so it agrees with Go only for widths below that limit.
