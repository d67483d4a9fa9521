# CS current-source dataset convertor — Dafny model

`convertor_final_cleaned.py` turns a circuit-simulator dump into one device
record per simulated input set. The dump is a table. It is cut into
`num_inputs` contiguous blocks of `len(df) // num_inputs` rows each. In each
block:

- The first cell holds a header `Parameters: R=…, w1=…, VG=…`.
- The later rows name measured outputs ("Output") with their values
  ("Nominal").

Header parameters and measurements are merged into a fixed-shape record:

- Resistance and the two widths take the measurement when there is one, then
  the header parameter, then `""`.
- Lengths and voltages come from the header alone, defaulting to `""`.
- Speed, gain and power come from the measurements alone. Speed and gain
  default to `""`. Power is negated, or `""` when it is falsy.

The records are then cleaned twice:

1. Rows whose gate-voltage *text* sorts before the drain-voltage text are
   removed.
2. Both voltages are converted to numbers by `convert_to_float`, which scales
   the SI suffixes `m`, `u` and `n` and yields `None` when a value cannot be
   read. The rows whose numeric gate voltage is below the numeric drain
   voltage are removed.

The model follows the script's structure:

| file | module | what it holds |
|---|---|---|
| `text.dfy` | `Text` | Python's `strip`, `startswith`, `endswith`, `replace(pat, "")`, `split(sep)`, `split("=", 1)` and string `<` over `seq<char>` |
| `numbers.dfy` | `Numbers` | `float(str)` on decimal literals and `convert_to_float` |
| `table.dfy` | `Table` | the cells and rows of the dump |
| `lastwins.dfy` | `LastWins` | filling a dictionary entry by entry, where a later key overwrites an earlier one |
| `results.dfy` | `Results` | a loop that stops at the first exception |
| `filters.dfy` | `Filters` | `df[~mask]` as an order-preserving filter |
| `extract.dfy` | `Extract` | header parsing, the measured-output scan, record assembly and the block loop; the loops are methods proved equal to specification functions |
| `cleaning.dfy` | `Cleaning` | the two cleaning passes and the whole pipeline `Convert` |

The header parser, the measured-output scan and the block loop are loops in
the script. Each is a `method` with a `for`/`while` loop: `ParseHeader`,
`ScanMeasured`, `ExtractRecords`. Each method's `ensures` ties its result to a
specification function: `ParamsOf`, `MeasuredOf`, `Extracted`. The lemmas
state the script's promises about those functions. `convert_to_float` and the
filters are expressions, so they are modelled as functions with lemmas.

The exceptions the model covers are values of `Extract.Error`:

- `NoBlocks`: the `ZeroDivisionError` when `num_inputs` is 0.
- `EmptyBlock(i)`: the `IndexError` of `iloc[0, 0]` on an empty block.
- `HeaderNotText(i)`: the `AttributeError` of `.startswith` on a non-text header cell.
- `PowerNotNumeric(i)`: the `ValueError` of `float()` on an unreadable "Power" text.

All four are returned as a `Failure`, never excluded by a precondition.

The power field is `""` only for a *falsy* "Power": a missing key, `""`, or a
numeric 0. A "Power" *text* such as `"0"` is truthy, so it is negated and
becomes the number `-0.0` (`PowerRule`, `PowerZeroText`).

## Model

| member | source | states |
|---|---|---|
| Text.LexLess | convertor_final_cleaned.py:72 | Python's `<` on strings: lexicographic by code point, with a proper prefix first; its order properties are the three lemmas below |
| Text.RemoveAll | convertor_final_cleaned.py:26 | `replace(pat, "")`: non-overlapping occurrences removed left to right; the result is no longer than the input; `RemoveAllFirst` states what happens at an occurrence, and lines 85-89 use the one-character case (`RemoveAllChar`) |
| Text.StartsWith | convertor_final_cleaned.py:25 | `str.startswith`: the prefix fits and equals the text's first characters; `StartsWithConcat` shows this holds exactly when the text is the prefix followed by some rest |
| Text.EndsWith | convertor_final_cleaned.py:84-88 | `str.endswith` for one character: the text is non-empty and its last character is `c`; `EndsWithConcat` shows this holds exactly when the text is some text followed by `c` |
| Text.StartsWithConcat | convertor_final_cleaned.py:25 | a text starts with a prefix exactly when it is that prefix followed by some rest |
| Text.EndsWithConcat | convertor_final_cleaned.py:84-88 | a text ends with `c` exactly when it is some text followed by `c` |
| Table.Truthy | convertor_final_cleaned.py:54 | Python truthiness of a cell: NaN is truthy, while `""` and 0 are falsy |
| Numbers.ParseNum | convertor_final_cleaned.py:91 | `float(str)` on decimal literals, with `None` for the `ValueError`; characterised by the `Parse…` and `NoDigits…` lemmas |
| Numbers.SuffixScale | convertor_final_cleaned.py:85-89 | the multipliers 1e-3, 1e-6 and 1e-9 for `m`, `u` and `n` |
| Numbers.ConvertToFloat | convertor_final_cleaned.py:81-94 | `convert_to_float`; characterised by the `Convert…` lemmas |
| LastWins.Store | convertor_final_cleaned.py:28-33 | a dictionary filled entry by entry, with absent entries skipped; characterised by the `Store…` lemmas |
| Results.Collect | convertor_final_cleaned.py:17-60 | a loop that appends one result per step and stops at the first exception; characterised by the `Collect…` lemmas |
| Extract.Unprefixed | convertor_final_cleaned.py:25-26 | the prefix-stripped header is no longer than the header, and a header without the prefix is left unchanged |
| Extract.Items | convertor_final_cleaned.py:29 | the comma-separated items of the unprefixed header |
| Extract.ParamsOf | convertor_final_cleaned.py:24-33 | the parameter dictionary of a header; characterised by `ParamsKeys` and `ParamsLastWins` |
| Extract.MeasuredOf | convertor_final_cleaned.py:36-41 | the measured-output dictionary of a block; characterised by `MeasuredKeys` and `MeasuredLastWins` |
| Extract.Param | convertor_final_cleaned.py:47-53 | `params.get(key, "")` |
| Extract.MeasuredOr | convertor_final_cleaned.py:45-56 | `measured.get(key, fallback)` |
| Extract.PowerField | convertor_final_cleaned.py:54 | power fails only with `PowerNotNumeric` on a "Power" text; a numeric result comes only from a truthy measured "Power"; `PowerRule` gives the whole rule |
| Extract.BuildRecord | convertor_final_cleaned.py:44-58 | the record of one block; characterised by `MeasuredOverridesHeader`, `HeaderOnlyFields`, `MeasuredOnlyFields` and `BuildRecordFails` |
| Extract.Block | convertor_final_cleaned.py:21 | `df.iloc[start:start + k]` |
| Extract.BlockRecord | convertor_final_cleaned.py:21-58 | what one block yields: `EmptyBlock` when it has no rows, `HeaderNotText` when its first cell is not text, otherwise the record built from its header and measurements |
| Extract.BlockResult | convertor_final_cleaned.py:17-21 | the outcome of block `i`; `BlockRows` states which rows it reads |
| Extract.Extracted | convertor_final_cleaned.py:13-60 | the outcome of the block loop: `NoBlocks` for zero blocks, otherwise the collected block outcomes |
| Cleaning.StringKeep | convertor_final_cleaned.py:72 | the string mask: the gate text does not sort before the drain text |
| Cleaning.Annotate | convertor_final_cleaned.py:96-97 | a record with the `convert_to_float` values of its gate and drain voltages |
| Cleaning.NumLess | convertor_final_cleaned.py:100 | `<` on the numeric columns, false when either side is missing |
| Cleaning.NumericKeep | convertor_final_cleaned.py:100 | the numeric mask |
| Cleaning.NumericPass | convertor_final_cleaned.py:96-100 | the second cleaning pass; characterised by the `NumericPass…` lemmas |
| Cleaning.Cleaned | convertor_final_cleaned.py:14-100 | the script's final rows, or the exception that stops it; characterised by `CleanedRows` |
| Text.Strip | convertor_final_cleaned.py:30 | the stripped text is no longer than the input and, when non-empty, begins and ends with a non-whitespace character |
| Text.TrimLeftSplit | convertor_final_cleaned.py:33 | `lstrip` removes a run of whitespace, and what is left does not start with whitespace |
| Text.TrimRightSplit | convertor_final_cleaned.py:33 | `rstrip` removes a run of whitespace, and what is left does not end with whitespace |
| Text.StripInfix | convertor_final_cleaned.py:30 | `strip` keeps an infix of the input, with only whitespace before and after it |
| Text.StripUnpadded | convertor_final_cleaned.py:30 | a text with no whitespace at either end is unchanged by `strip` |
| Text.StripIdempotent | convertor_final_cleaned.py:33 | stripping twice is the same as stripping once |
| Text.StripKeeps | convertor_final_cleaned.py:30-31 | a non-space character such as `=` is in the stripped item exactly when it is in the raw item |
| Text.StripUnique | convertor_final_cleaned.py:30 | whitespace padding around a core with no outer whitespace strips to that core |
| Text.StripPadded | convertor_final_cleaned.py:26 | extra whitespace around a text does not change its `strip` |
| Text.StripAroundSeparator | convertor_final_cleaned.py:30-33 | stripping `key=value` trims only the left of the key and the right of the value |
| Text.StripTrimLeft | convertor_final_cleaned.py:33 | stripping a left-trimmed text gives the same result as stripping the text |
| Text.StripTrimRight | convertor_final_cleaned.py:33 | stripping a right-trimmed text gives the same result as stripping the text |
| Text.RemoveAllAbsent | convertor_final_cleaned.py:26 | `replace(pat, "")` leaves a text without `pat` unchanged |
| Text.RemoveAllFirst | convertor_final_cleaned.py:26 | the text before the first occurrence of the pattern is kept, that occurrence is dropped, and the removal goes on after it |
| Text.DropChar | convertor_final_cleaned.py:85 | reference deletion: the result holds no occurrence of the character and is no longer than the input |
| Text.RemoveAllChar | convertor_final_cleaned.py:85 | `replace(c, "")` for a one-character pattern deletes every occurrence of `c` and keeps the rest in order |
| Text.DropCharAppend | convertor_final_cleaned.py:85 | deleting a character from a concatenation deletes it from each part |
| Text.DropCharAbsent | convertor_final_cleaned.py:85 | deleting an absent character changes nothing |
| Text.SplitOn | convertor_final_cleaned.py:29 | `split(",")` yields at least one piece, and no piece contains a comma |
| Text.JoinSplit | convertor_final_cleaned.py:29 | joining the pieces with the separator gives back the original header text |
| Text.SplitPrefix | convertor_final_cleaned.py:29 | a separator-free prefix joins the first piece |
| Text.SplitJoin | convertor_final_cleaned.py:29 | joining separator-free pieces and splitting again gives the pieces back |
| Text.FirstIndex | convertor_final_cleaned.py:32 | the index found holds `=`, and no earlier position does |
| Text.SplitFirst | convertor_final_cleaned.py:32 | `split("=", 1)` gives a key with no `=` and a value such that `item == key + "=" + value` |
| Text.SplitFirstAfter | convertor_final_cleaned.py:32 | in `p=q` with no `=` in `p`, the split is `(p, q)`, even when `q` contains `=` |
| Text.LexLessIrreflexive | convertor_final_cleaned.py:72 | no voltage text sorts before itself, so equal voltages are kept |
| Text.LexLessTransitive | convertor_final_cleaned.py:72 | string `<` is transitive |
| Text.LexLessTotal | convertor_final_cleaned.py:72 | any two distinct texts are ordered exactly one way |
| Numbers.DigitSpan | convertor_final_cleaned.py:91 | the longest digit prefix: all digits, followed by a non-digit or the end |
| Numbers.NatString | convertor_final_cleaned.py:91 | a decimal numeral: non-empty, all digits, with the given value |
| Numbers.NoDigitsNoNumber | convertor_final_cleaned.py:91-94 | the modelled `float()`, on decimal literals, rejects a text without any digit |
| Numbers.NoDigitsUnsigned | convertor_final_cleaned.py:91-94 | the modelled `float()` rejects an unsigned literal without any digit |
| Numbers.ParseNatString | convertor_final_cleaned.py:91 | `float(str(n)) == n` |
| Numbers.ParseNegNatString | convertor_final_cleaned.py:91 | `float("-" + str(n)) == -n` |
| Numbers.ParseUnsignedDigits | convertor_final_cleaned.py:91 | a non-empty run of digits reads as its decimal value |
| Numbers.DigitSpanAll | convertor_final_cleaned.py:91 | in an all-digit text the digit prefix is the whole text |
| Numbers.MantissaWhole | convertor_final_cleaned.py:91 | digits without a fraction part read as their integer value |
| Numbers.ParseHundredth | convertor_final_cleaned.py:54 | `float("0.01") == 0.01` |
| Numbers.HundredthMantissa | convertor_final_cleaned.py:54 | the digits `0.01` have the value 0.01 |
| Numbers.ConvertPlain | convertor_final_cleaned.py:90-91 | the decimal notation of a natural number converts to that number |
| Numbers.ConvertUnsuffixed | convertor_final_cleaned.py:90-91 | any text ending in none of `m`, `u`, `n` is read whole by `float()`, unchanged |
| Numbers.ConvertNonText | convertor_final_cleaned.py:92 | a numeric cell is returned as it is; a blank (NaN) cell has no value |
| Numbers.ConvertSuffix | convertor_final_cleaned.py:84-89 | a text ending in `m`, `u` or `n` is read with every copy of that letter deleted, then scaled by 1e-3, 1e-6 or 1e-9 |
| Numbers.ConvertSuffixed | convertor_final_cleaned.py:84-89 | a numeral followed by one or more copies of a suffix converts to the numeral's value times the suffix's multiplier |
| Numbers.DropSuffixCopies | convertor_final_cleaned.py:85 | deleting the suffix letter from a numeral followed by its copies gives back the numeral |
| Numbers.Repeat | convertor_final_cleaned.py:85 | `k` copies of a character |
| Numbers.DropRepeat | convertor_final_cleaned.py:85 | deleting a character from copies of it leaves nothing |
| Numbers.ConvertNoDigits | convertor_final_cleaned.py:81-94 | under the modelled `float()`, a text without a digit converts to `None` with or without a suffix: the `except` branch |
| Numbers.DropCharDigits | convertor_final_cleaned.py:85 | deleting a letter adds no digit |
| Numbers.ConvertMilliExample | convertor_final_cleaned.py:84-85 | `"5m"` converts to 0.005 |
| Numbers.ConvertMicroExample | convertor_final_cleaned.py:86-87 | `"3u"` converts to 0.000003 |
| Numbers.ConvertNanoExample | convertor_final_cleaned.py:88-89 | `"2n"` converts to 0.000000002 |
| Numbers.ConvertPlainExamples | convertor_final_cleaned.py:90-94 | `"7"` converts to 7 and `"abc"` to `None` |
| LastWins.StoreSnoc | convertor_final_cleaned.py:31-33 | storing one more entry writes it over the dictionary, or skips it when it is absent |
| LastWins.StoreKeys | convertor_final_cleaned.py:28-33 | a key is stored exactly when some present entry carries it |
| LastWins.StoreLastWins | convertor_final_cleaned.py:33 | the stored value is that of the last entry for the key |
| LastWins.StoreSkipsAbsent | convertor_final_cleaned.py:31 | an item without `=` has no effect wherever it appears |
| Results.CollectSnoc | convertor_final_cleaned.py:17-60 | one more block's outcome is appended only when every earlier block succeeded |
| Results.CollectStops | convertor_final_cleaned.py:17-60 | once a block has raised, the later blocks do not matter |
| Results.CollectSuccess | convertor_final_cleaned.py:17-60 | the loop succeeds exactly when every block succeeds, and it then yields every block's record in order |
| Results.CollectFirstFailure | convertor_final_cleaned.py:17-60 | a failed loop reports the error of the first failing block, and all earlier blocks succeeded |
| Filters.Filter | convertor_final_cleaned.py:72 | the result is no longer than the input, and every row in it passes the mask |
| Filters.FilterSubseq | convertor_final_cleaned.py:72 | the filter only deletes rows: survivors keep their order |
| Filters.FilterMembers | convertor_final_cleaned.py:72 | a row survives exactly when it is in the input and passes the mask |
| Filters.FilterMaximal | convertor_final_cleaned.py:72 | every order-preserving selection of passing rows is contained in the filter's result |
| Filters.SubseqTrans | convertor_final_cleaned.py:72-100 | a selection of a selection is a selection of the original |
| Filters.SubseqLength | convertor_final_cleaned.py:72-100 | a selection is no longer than its source |
| Filters.SubseqFull | convertor_final_cleaned.py:72 | a selection as long as its source equals it |
| Filters.FilterUnique | convertor_final_cleaned.py:72 | the filter's result is the one maximal selection of passing rows |
| Filters.FilterAllKept | convertor_final_cleaned.py:72 | when every row passes, nothing is removed |
| Filters.FilterIdempotent | convertor_final_cleaned.py:72 | applying the same mask again removes nothing more |
| Filters.Map | convertor_final_cleaned.py:96-97 | `apply`: same length, with element `i` the function's value on input `i` |
| Extract.ItemEntry | convertor_final_cleaned.py:30-33 | an item is skipped exactly when it has no `=`; otherwise its key has no `=`, and key and value are both stripped |
| Extract.ParseHeader | convertor_final_cleaned.py:24-33 | the header loop's dictionary equals `ParamsOf(header)` |
| Extract.EntriesSnoc | convertor_final_cleaned.py:29-33 | one more item adds its entry at the end |
| Extract.EntriesKeys | convertor_final_cleaned.py:29-33 | a key is in the dictionary exactly when some item defines it |
| Extract.ItemEntryPair | convertor_final_cleaned.py:30-33 | the item `key=value` (no `=` in the key) gives `(key.strip(), value.strip())`; the value may contain `=` |
| Extract.ParamsKeys | convertor_final_cleaned.py:24-33 | a parameter is defined exactly when some comma-separated item of the unprefixed header defines it |
| Extract.ParamsLastWins | convertor_final_cleaned.py:28-33 | a parameter's value is that of the last item defining it |
| Extract.UnprefixedPlain | convertor_final_cleaned.py:25-29 | a header without the prefix is split as it stands, without being stripped |
| Extract.UnprefixedHeader | convertor_final_cleaned.py:25-29 | a header that starts with `Parameters:` is split from the rest, with every further copy of `Parameters:` removed and the result stripped |
| Extract.UnprefixedOnce | convertor_final_cleaned.py:25-29 | when the rest does not contain `Parameters:` again, it is simply stripped and split |
| Extract.UnprefixedRepeat | convertor_final_cleaned.py:25-29 | a header that repeats the prefix loses that copy too: the text before it is kept and the removal goes on after it, before the strip and the split |
| Extract.ScanMeasured | convertor_final_cleaned.py:36-41 | the scan loop's dictionary equals `MeasuredOf(block)` |
| Extract.MeasuredKeys | convertor_final_cleaned.py:36-41 | a name is measured exactly when some row after the first carries it; the first row is never read |
| Extract.MeasuredLastWins | convertor_final_cleaned.py:36-41 | a name's measured value is the Nominal cell of the last row naming it |
| Extract.MeasuredOverridesHeader | convertor_final_cleaned.py:45-48 | resistance and both widths take the measurement if present, else the header parameter, else `""`; both widths share the one "width" measurement |
| Extract.HeaderOnlyFields | convertor_final_cleaned.py:47-53 | lengths and voltages depend only on the header: they are the `l1`, `l2`, `VG`, `VD`, `VS` and `VB` parameters, or `""` |
| Extract.MeasuredOnlyFields | convertor_final_cleaned.py:54-57 | speed, gain and power ignore the header; speed and gain are the measured values or `""`; topology is the fixed tag |
| Extract.PowerRule | convertor_final_cleaned.py:54 | power is `""` exactly when "Power" is missing, `""` or the number 0; a non-zero number is negated; a blank (NaN) cell, which is truthy, stays NaN; a non-empty text is read by `float()` and negated, or raises |
| Extract.PowerExample | convertor_final_cleaned.py:54 | a measured "Power" of `"0.01"` gives the number -0.01 |
| Extract.PowerZeroText | convertor_final_cleaned.py:54 | a measured "Power" text `"0"` gives the number zero, not `""` |
| Extract.BuildRecordFails | convertor_final_cleaned.py:44-58 | building a record fails exactly when the power field does |
| Extract.RowsPerInput | convertor_final_cleaned.py:14 | `n * k <= len(df) < n * k + n`: floor division |
| Extract.BlockResults | convertor_final_cleaned.py:17-21 | one outcome per block |
| Extract.BlockResultsAt | convertor_final_cleaned.py:18-21 | the block the loop slices out at `start = i * k` is the `i`-th block |
| Extract.ExtractBlock | convertor_final_cleaned.py:21-58 | one pass of the loop body equals `BlockRecord(subset, i)` |
| Extract.ExtractRecords | convertor_final_cleaned.py:13-60 | the loop's result equals `Extracted(table, numInputs)` |
| Extract.BlockRows | convertor_final_cleaned.py:18-21 | block `i` is the rows `[i*k, i*k + k)` with `k = len(df) // num_inputs` |
| Extract.ExtractedRecords | convertor_final_cleaned.py:17-60 | a successful extraction yields exactly `num_inputs` records, with block `i`'s record at position `i` |
| Extract.ExtractedFailure | convertor_final_cleaned.py:17-60 | a failed extraction reports the exception of the first failing block |
| Extract.RemainderIgnored | convertor_final_cleaned.py:14-21 | rows after the last full block are never read |
| Extract.SameBlock | convertor_final_cleaned.py:18-21 | tables that agree on the first `n * k` rows yield the same block `i` |
| Extract.TooFewRows | convertor_final_cleaned.py:14-24 | with fewer rows than blocks, block 0 is empty, and indexing it raises |
| Cleaning.StringPass | convertor_final_cleaned.py:72 | the result is an order-preserving selection of the records, and in none of them does the gate text sort before the drain text |
| Cleaning.StringPassMembers | convertor_final_cleaned.py:72 | a record survives exactly when it is an input whose gate text does not sort before its drain text |
| Cleaning.StringPassMaximal | convertor_final_cleaned.py:72 | every order-preserving selection of passing records is contained in the result |
| Cleaning.StringPassIdempotent | convertor_final_cleaned.py:72 | running the string pass again removes nothing |
| Cleaning.RecordsOfAnnotated | convertor_final_cleaned.py:96-97 | adding the numeric columns leaves the records themselves unchanged |
| Cleaning.NumericPassMaps | convertor_final_cleaned.py:96-100 | filtering the annotated rows is annotating the records that pass |
| Cleaning.NumericPassSelects | convertor_final_cleaned.py:96-100 | the numeric pass keeps exactly the records that pass the numeric mask, unchanged and in order; each carries `convert_to_float` of its own gate and drain texts |
| Cleaning.NumericPassMembers | convertor_final_cleaned.py:100 | a record survives exactly when it is an input and its numeric gate voltage is not below its numeric drain voltage |
| Cleaning.UnreadableKept | convertor_final_cleaned.py:93-100 | a record whose gate or drain voltage converts to `None` is never removed |
| Cleaning.NumericPassIdempotent | convertor_final_cleaned.py:100 | running the numeric pass again on its survivors gives the same rows |
| Cleaning.NumericDropsExample | convertor_final_cleaned.py:96-100 | gate `"1m"` and drain `"2m"` fail the numeric mask |
| Cleaning.StringPassDropsNumericallyValid | convertor_final_cleaned.py:72-100 | gate `"7"` and drain `"8m"` fail the string mask but pass the numeric mask |
| Cleaning.OnlyNumericPassDrops | convertor_final_cleaned.py:72-100 | gate `"9m"` and drain `"10m"` pass the string mask but fail the numeric mask |
| Cleaning.Convert | convertor_final_cleaned.py:14-100 | the whole pipeline's result equals the cleaned output `Cleaned(table, numInputs)` |
| Cleaning.CleanedRows | convertor_final_cleaned.py:17-100 | the final rows number at most `num_inputs`, are extracted records in block order, and pass both masks |

## Left out

- Reading the input CSV, writing the three output CSVs and the progress prints (lines 4–7, 63–69, 75–78, 103–106) are I/O. The model starts from the table already read and ends with the final rows.
- Extract.ExtractRecords: the fixed `num_inputs = 37044` (line 13) is a parameter `numInputs: nat`. It is a natural number, so a negative count is not modelled.
- Table.Row: only the first cell, "Output" and "Nominal" of a row are modelled. "Output" is taken to be text or null. A numeric "Output" cell, which the script would also use as a dictionary key, is not modelled.
- Numbers.ConvertToFloat: numbers are mathematical reals, not IEEE doubles. Rounding of `float()` and of the products `* 1e-3`, `* 1e-6`, `* 1e-9` is not modelled.
- A NaN is folded into `None`, because both compare false with everything. Under that fold, a missing Nominal cell stays `Blank` and converts to `None`.
- Numbers.ParseNum: `float()` is modelled on decimal literals with an optional sign, fraction and exponent, and surrounding whitespace. The spellings `inf`, `nan`, `infinity` and digit underscores are not modelled, and the parser returns `None` for them. So a "Power" text `"inf"` makes the model fail with `PowerNotNumeric`, where the script stores `-inf`. A drain voltage `"inf"` converts to `None`, so the numeric pass keeps its row, where the script drops it. Such a row reaches the numeric pass only when its gate text does not sort before `"inf"` and `float()` still reads it, for example `"\u00a05"` (5 after a no-break space).
- Numbers.ParseNum: surrounding whitespace is stripped as `str.strip()` strips it. Python's `float()` does not skip the ASCII separators `\x1c`–`\x1f`, so it rejects `"\x1c1"`, which the model reads as 1. Non-ASCII decimal digits such as `"٣"`, which `float()` accepts, are rejected by the model.
- Python's float text for a negated number (`-0.0` versus `0.0`) is not distinguished: reals have a single zero.
- Cleaning.NumericPass: pandas' dtype inference on the new columns is not modelled. A missing number compares false whether the column is float or object.
- Cleaning.StringPass: the string mask assumes both voltage columns hold text. They always do, since they come from the header dictionary or the `""` default.
- The DataFrame's column order and index labels are not modelled. Rows are a sequence of records.
- A table without an "Output" or "Nominal" column makes `subset.iloc[idx]["Output"]` (lines 38–39) raise `KeyError`. `Table.Row` always has both cells, so the model cannot express such a table.
- The prediction script in the repository is not part of this model.
