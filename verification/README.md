# PDF417 codeword pipeline in Dafny

This project models how the PHP PDF417 library (namespace `Le\PDF417`) turns a string into a
PDF417 barcode. The model covers every step up to the pixel grid:

- **Chain splitting.** `DataEncoder` cuts the input into chains. As intended, each chain is a maximal run of characters whose preferred encoder is the same. The code as written differs on a chain that is the single character "0": it drops that chain or merges it into the next one (see "## Findings"). The model keeps both versions, and the assembler uses the intended one.
- **Numeric compaction.** `NumberEncoder` turns groups of up to 44 digits, each prefixed with the marker digit 1, into base-900 codewords.
- **Byte compaction.** `ByteEncoder` turns 6 bytes into 5 base-900 codewords. A trailing piece shorter than 6 bytes is copied one codeword per byte.
- **Mode latches.** The switch codewords are 900 (text), 901 or 924 (byte) and 902 (numeric). The first chain carries one only when it is not text; every later chain carries one.
- **Assembly.** `PDF417` adds a length descriptor, padding with 900 up to whole rows, and the error-correction words. It then lays the codewords out in rows of `columns`, framing each row with the start pattern, a left row indicator, a right row indicator and the stop pattern.
- **Pixel grid.** `BarcodeData::getPixelGrid` writes every pattern out as its binary digits.

The text-compaction algorithm, the Reed-Solomon computation and the cluster
table are not part of this model. Their sources are `TextEncoder`,
`Util/ReedSolomon` and `Util/Codes`. Each one is a parameter of the model:

- `TextEncoder.Compactor` gives the text encoder's `canEncode` and its codewords for a chain.
- `ReedSolomon.Solver` is the `compute` function. `ReedSolomon.WellBehaved` states the one thing the assembler relies on: `2^(level+1)` words, each at most 928.
- `Codes.Table` maps a cluster and a codeword to a pattern.

Every exception the code throws becomes an `Err` of `Results.Result`.

Modules, one per file:

- `Results`, `Arith`, `Seqs` and `Radix` hold the result type, arithmetic helpers, sequence helpers and positional notation (the bcmath arithmetic on unbounded naturals).
- `Basics` holds bytes, digits and the optional leading switch codeword.
- `NumberEncoder`, `ByteEncoder`, `TextEncoder` and `DataEncoder` are the encoders.
- `ReedSolomon` and `Codes` are the parameters described above.
- `Barcode` models `BarcodeData` and its pixel grid.
- `PDF417` is the assembler.
- `Vectors` holds the examples from the repository's tests, stated as lemmas.

Where a comment in the code and the code disagree, the model follows the
code:

- **Column count.** The comment at src/PDF417.php:41 says 3 to 30 columns. `MIN_COLUMNS` is 1, and `setColumns` accepts 1 to 30.
- **Length descriptor.** It counts itself, the data and the padding, but not the error-correction codewords (src/PDF417.php:194-197). The 150-codeword end-to-end test, whose first codeword is 142 at security level 2, agrees with the code.

## Model

| member | source | states |
|---|---|---|
| NumberEncoder.CanEncode | src/Encoder/NumberEncoder.php:20-23 | accepts a string exactly when it is one character long and `encode` accepts it |
| NumberEncoder.SwitchCode | src/Encoder/NumberEncoder.php:25-28 | the codeword that `encode` puts first for every digit run when asked for the switch codeword |
| NumberEncoder.EncodeChunk | src/Encoder/NumberEncoder.php:74-87 | the codewords are base-900 digits without a leading zero whose value is the number written as the digit 1 followed by the group's digits |
| NumberEncoder.ChunkRoundTrip | src/Encoder/NumberEncoder.php:74-87 | the marker digit makes a group recoverable: decoding its codewords in base 10 and dropping the marker gives the group back, leading zeros included |
| NumberEncoder.ChunkWidth | src/Encoder/NumberEncoder.php:59-69 | a group of at most 44 digits takes at most 15 codewords and a full group exactly 15, so a decoder can find group boundaries |
| NumberEncoder.Encode | src/Encoder/NumberEncoder.php:38-72 | fails with the non-numeric error exactly when the data is not a non-empty run of digits; otherwise 902 comes first when requested and every other codeword is below 900 |
| NumberEncoder.EncodeRoundTrip | src/Encoder/NumberEncoder.php:49-71 | decoding the codewords after the switch codeword in groups of 15 gives back the digit string |
| NumberEncoder.SwitchCodeLeads | src/Encoder/NumberEncoder.php:55-57 | requesting the switch codeword adds exactly 902 in front and changes nothing else, success included |
| ByteEncoder.CanEncode | src/Encoder/ByteEncoder.php:28-32 | accepts a string only when it is one character long, and every such character, whatever its value, is copied as the one codeword `ord` gives |
| ByteEncoder.SwitchCode | src/Encoder/ByteEncoder.php:34-37 | 924 exactly when the codewords end without bytes copied one per codeword, otherwise 901 |
| ByteEncoder.EncodeChunk | src/Encoder/ByteEncoder.php:82-100 | 6 bytes become exactly 5 base-900 digits whose value is the bytes read as a big-endian base-256 number |
| ByteEncoder.GroupRoundTrip | src/Encoder/ByteEncoder.php:82-100 | converting the 5 codewords of a chunk back to 6 base-256 digits gives the chunk |
| ByteEncoder.EncodeIncompleteChunk | src/Encoder/ByteEncoder.php:108-117 | one codeword per byte, each below 256 |
| ByteEncoder.RawBytesOfBytes | src/Encoder/ByteEncoder.php:108-117 | the copied codewords read back as bytes are the trailing piece itself |
| ByteEncoder.Encode | src/Encoder/ByteEncoder.php:39-73 | with the switch codeword requested the first codeword is the byte latch `getSwitchCode` chooses for the whole data |
| ByteEncoder.EncodeLength | src/Encoder/ByteEncoder.php:46-72 | the output has 5 codewords per whole 6-byte chunk, one per trailing byte, and one more for a requested switch codeword |
| ByteEncoder.EncodeRange | src/Encoder/ByteEncoder.php:56-72 | every codeword after the switch codeword is below 900 |
| ByteEncoder.EncodeRoundTrip | src/Encoder/ByteEncoder.php:34-72 | a decoder told which latch was chosen (924 for a multiple of 6 bytes, else 901) recovers the data from the codewords |
| ByteEncoder.SwitchCodeLeads | src/Encoder/ByteEncoder.php:52-54 | requesting the switch codeword adds exactly that one codeword in front |
| TextEncoder.Encode | src/Encoder/EncoderInterface.php:16-25 | fails exactly when the text compaction fails; otherwise the compacted chain, with 900 in front when the switch codeword is asked for |
| DataEncoder.FirstAcceptingPreference | src/DataEncoder.php:114-118 | the loop over the encoders in preference order picks the number encoder for a digit, else the text encoder if it accepts the character, else the byte encoder |
| DataEncoder.GetEncoder | src/DataEncoder.php:108-122 | never fails; with binary forced it is the byte encoder; otherwise the chosen encoder accepts the character, every more preferred one rejects it, and it is the number encoder exactly for digits |
| DataEncoder.SplitToChains | src/DataEncoder.php:77-106 | (corrected) the chains join back to the data, none is empty, neighbours have different encoders and every character is in a chain of the encoder `getEncoder` picks for it |
| DataEncoder.WellSplitUnique | src/DataEncoder.php:77-106 | two splits with those properties are equal, so the corrected split is determined by them |
| DataEncoder.ChainSwitchLeads | src/DataEncoder.php:56-64 | for every chain, asking its encoder for the switch codeword adds exactly that encoder's switch codeword in front |
| DataEncoder.Encode | src/DataEncoder.php:46-68 | succeeds exactly when every chain encodes; the result, with the text latch put back in front when the first chain is text, is every chain's codewords with its own latch, in order |
| DataEncoder.EncodeSplitLatched | src/DataEncoder.php:50-65 | for any split, only the first chain's switch codeword is left out, and only when that chain is text |
| DataEncoder.NumberChainIsDigits | src/DataEncoder.php:108-118 | a number chain of a well-formed split only arises without forced binary and is a run of decimal digits, so the number encoder accepts it |
| DataEncoder.EncodeFailsOnlyInText | src/DataEncoder.php:46-68 | encoding fails exactly when the text compaction of some text chain fails |
| DataEncoder.SplitToChainsAsWritten | src/DataEncoder.php:77-106 | (as written) no chain it returns is empty or the single character "0" |
| DataEncoder.EncodeAsWritten | src/DataEncoder.php:46-68 | (as written) succeeds exactly when every chain of the as-written split encodes; the result, with the text latch put back in front when the first chain is text, is those chains' codewords with their own latches, in order |
| DataEncoder.AsWrittenAgreesUnlessLoneZero | src/DataEncoder.php:77-106 | the as-written split equals the corrected one exactly when no chain of the corrected split is the single character "0"; then the codewords are equal too |
| DataEncoder.AsWrittenMergesZero | src/DataEncoder.php:88-98 | as written, "0A" is the single text chain "0A", and "A0B" gives two neighbouring text chains "A" and "0B", which is not a well-formed split |
| DataEncoder.AsWrittenDropsLoneZero | src/DataEncoder.php:90-103 | as written, the input "0" yields no chain and no codewords, so the data is lost |
| DataEncoder.AsWrittenDropsTrailingZero | src/DataEncoder.php:90-103 | as written, the split of "A0" is the text chain "A" alone |
| DataEncoder.AsWrittenAgreesWithoutZero | src/DataEncoder.php:77-106 | on data without the character "0" the code as written splits and encodes exactly as the corrected split |
| PDF417.SetColumns | src/PDF417.php:73-83 | succeeds exactly for 1 to 30 columns, stores the value and leaves the other settings alone; otherwise the error names the given value |
| PDF417.SetSecurityLevel | src/PDF417.php:96-106 | succeeds exactly for levels 0 to 8, stores the value and leaves the other settings alone; otherwise the error names the given value |
| PDF417.SetForceBinary | src/PDF417.php:118-121 | sets the flag and leaves columns and security level alone |
| PDF417.Padding | src/PDF417.php:250-265 | fewer than `columns` words, all 900, that complete the last row of data, correction and length descriptor, and no shorter padding does |
| PDF417.EncodeData | src/PDF417.php:177-205 | fails exactly when the data encoder fails; otherwise the length descriptor, the data codewords, padding up to the descriptor's count, then the solver's correction of exactly those first words, filling whole rows |
| PDF417.EncodeDataFillsRows | src/PDF417.php:186-204 | with a conforming solver the total is the length descriptor plus 2^(level+1) and a multiple of the column count |
| PDF417.LeftCodeWord | src/PDF417.php:209-228 | within the declared row, column and level limits the left indicator is a codeword of the table and carries the row group `rowNum / 3` in its multiple of 30 |
| PDF417.RightCodeWord | src/PDF417.php:230-248 | the same for the right indicator |
| PDF417.IndicatorFields | src/PDF417.php:209-248 | within the declared limits both indicators are codewords of the table and carry the row group `rowNum / 3` in their multiple of 30 |
| PDF417.LeftIndicatorsDecode | src/PDF417.php:209-228 | the left indicators of any three rows of a row group give back the rows, columns and security level |
| PDF417.RightIndicatorsDecode | src/PDF417.php:230-248 | the right indicators of the three rows give back the same rows, columns and security level |
| PDF417.EncodeRow | src/PDF417.php:140-164 | fails exactly when an indicator or codeword is outside the table; otherwise start, left indicator, codewords, right indicator and stop, in the row's cluster |
| PDF417.EncodeRows | src/PDF417.php:139-164 | succeeds exactly when every row is encodable, with one encoded row per grid row, in order |
| PDF417.Encode | src/PDF417.php:128-174 | fails exactly when the data encoder fails or a row is not encodable; otherwise keeps the codewords of `encodeData` and the settings, with one row of patterns per `array_chunk` row |
| PDF417.Assemble | src/PDF417.php:134-173 | the row loop succeeds exactly when every row is encodable, and keeps the codewords, the columns, the level and one row of patterns per row of codewords |
| PDF417.EncodeRowCount | src/PDF417.php:135-136 | the row count is the number of codewords divided by the columns, rounded up |
| PDF417.EncodeLayout | src/PDF417.php:134-164 | row k holds codewords k times columns onward, up to the next row, between its indicators, in cluster k mod 3 |
| PDF417.EncodeFullRows | src/PDF417.php:135-164 | with a conforming solver every row has exactly columns plus 4 patterns |
| PDF417.EncodeRowsExact | src/PDF417.php:135-136 | with a conforming solver, rows times columns is the number of codewords |
| PDF417.EncodeWithinLimits | src/PDF417.php:22-25 | with codewords in the table and at most 90 rows, `encode` cannot fail |
| PDF417.StartStopWidths | src/PDF417.php:27-28 | the start pattern is 17 modules wide, the stop pattern 18 |
| PDF417.PixelRowsEquallyWide | src/BarcodeData.php:16-32 | with 17-module patterns every pixel row is 17 times (columns plus 4), plus 1, modules wide |
| Codes.GetCode | tests/CodesTest.php:11-35 | a lookup succeeds exactly for clusters 0 to 2 and codewords 0 to 928, and fails naming the cluster and the word |
| Codes.GetCodes | src/PDF417.php:152-154 | looks up every word of a row in order, and fails exactly when one is above 928 |
| Barcode.Bits | src/BarcodeData.php:22-26 | `decbin`: at least one digit, a leading 1 for a positive value, the single digit 0 for zero |
| Barcode.BitsRoundTrip | src/BarcodeData.php:22-26 | the bits read back as a binary number give the pattern value |
| Barcode.BitsWidth | src/BarcodeData.php:22-26 | a value of k significant bits is drawn k modules wide |
| Barcode.PixelRow | src/BarcodeData.php:19-27 | a pixel row is as wide as the binary digits of its patterns added up |
| Barcode.PixelGrid | src/BarcodeData.php:16-32 | one pixel row per pattern row, each the bits of its patterns in order and as wide as their binary digits added up |
| Barcode.PixelRowAppend | src/BarcodeData.php:19-27 | the pixels of two pattern sequences side by side are the two pixel rows side by side |
| Vectors.NumberCanEncodeExamples | tests/Encoder/NumberEncoderTest.php:11-75 | each of the ten digits can be encoded; "", "a", "abc" and "123" cannot; the switch codeword is always 902; "foo" is rejected as non-numeric |
| Vectors.NumberEncodeExample | tests/Encoder/NumberEncoderTest.php:48-59 | "01234" gives 902, 112, 434 with the switch codeword and 112, 434 without |
| Vectors.TextThenNumbersExample | tests/DataEncoderTest.php:17-20 | "ABC123" gives 1, 89, 902, 1, 223 when text compaction turns "ABC" into 1, 89 |
| Vectors.NumbersThenTextExample | tests/DataEncoderTest.php:22-25 | "123ABC" gives 902, 1, 223, 900, 1, 89 |
| Vectors.ByteLatchExample | tests/DataEncoderTest.php:27-30 | a lone vertical tab gives 901, 11 |
| Vectors.ByteChunkExample | tests/DataEncoderTest.php:32-35 | six vertical tabs give 924, 18, 455, 694, 754, 291 |
| Vectors.LoneZeroKept | src/DataEncoder.php:90-103 | with the corrected split, "0" gives 902, 10 |
| Vectors.SettingsExamples | tests/PDF417Test.php:10-56 | defaults are 6 columns at level 2; 20 columns and level 6 are stored; 1000 is rejected for both |
| Vectors.IndicatorExamples | src/PDF417.php:209-248 | the indicators of a 25-row, 6-column, level-2 barcode: left 8, 6, 5 and right 5, 8, 6 in the first row group |
| Vectors.EndToEndShape | tests/PDF417Test.php:59-70 | a default barcode of 150 codewords has length descriptor 142 and 25 rows, whatever the text compaction and solver |

## Left out

- **Parameters instead of code.** The text-compaction algorithm (`TextEncoder`), the Reed-Solomon computation (`Util/ReedSolomon`) and the cluster table contents (`Util/Codes`) are not part of this model. They are parameters, so the end-to-end codewords and patterns of tests/PDF417Test.php:68-100 and the pattern values of tests/CodesTest.php:13-19 are not reproduced. `Vectors.EndToEndShape` states what follows from the shape alone.
- **Renderers and tooling.** The renderers (`src/Renderer`) and `rector.php` are outside the codeword pipeline.
- **PHP type checks.** The checks that throw "Expected first parameter to be a string" and the "must be numeric" cases of tests/PDF417Test.php:26-48 cannot arise with Dafny's types. Exception message texts are not modelled; each error keeps only its kind and the values it names.
- NumberEncoder.Encode: rejects a digit run followed by a newline, which PCRE's `$` at src/Encoder/NumberEncoder.php:45 lets through. Number chains built by the data encoder never contain a newline.
- NumberEncoder.CanEncode: rejects a digit followed by a newline, such as "5\n", which PCRE's `$` at src/Encoder/NumberEncoder.php:22 lets through. The data encoder only asks about single characters, so this cannot arise from it.
- DataEncoder.Encode: uses the corrected split of the "## Findings" row, not the as-written one of src/DataEncoder.php:48. The two splits differ exactly on data whose corrected split has a chain that is the single character "0", such as "0", "A0", "0A" or "A0B" (`DataEncoder.AsWrittenAgreesUnlessLoneZero`). On all other data the codewords are the same. On data where the splits differ, the results may still agree, for instance when both fail because a text chain cannot be compacted. `DataEncoder.EncodeAsWritten` models the code as written.
- PDF417.EncodeData: takes its data codewords from `DataEncoder.Encode`, so it follows the corrected split. It can differ from src/PDF417.php:184 only on the data described in the line above, whose splits differ; on all other data the data codewords are the same. For example, for "0" the model's data codewords are 902, 10, while the code as written has none and pads instead.
- PDF417.Encode: inherits the corrected split through `PDF417.EncodeData`, so it can differ from src/PDF417.php:128-174 only on the same data.
- **Empty input.** On empty input, src/DataEncoder.php:52 reads `$chains[0][1]` of an empty array. PHP only warns there and `encode` returns an empty array, so the model gives `Ok([])` without a warning.
- **Unenforced limits.** The row and codeword limits `MIN_ROWS`, `MAX_ROWS` and `MAX_CODE_WORDS` (src/PDF417.php:22-25) are declared but not enforced by the code, and the model does not enforce them either. `PDF417.EncodeWithinLimits` states what the row limit would guarantee.
- PDF417.LeftCodeWord and PDF417.RightCodeWord: they require `rowNum < rows` and at least one column. The code only calls them for rows of the grid. What they promise about the indicator holds only within the declared limits, which the code does not enforce.
- **Unreachable exception.** The exception at the end of `getEncoder` (src/DataEncoder.php:120-121) cannot be reached, because the byte encoder accepts every character. `DataEncoder.GetEncoder` proves it never fails.
- **Getters and constructor.** The getters of src/PDF417.php:65-114 are field reads of `PDF417.Config`, and the constructor of `DataEncoder` is the `DataEncoder.Encoder` value.
- **Arithmetic.** bcmath arithmetic on decimal strings is modelled on unbounded naturals, and PHP's `intval` of a non-negative quotient as Dafny's division.

## Findings

| source | as written | input that shows it | evidently intended | confidence | as-written member | corrected member |
|---|---|---|---|---|---|---|
| src/DataEncoder.php:90-103 | a pending chain is saved only if `!empty($chain)`, and PHP's `empty("0")` is true | "0" gives no codewords; "A0" loses its final "0"; "0A" becomes one text chain, and "A0B" gives two neighbouring text chains, so the "0" goes through text compaction after a redundant 900 | save every chain holding at least one character, so "0" gives 902, 10 | high, not executed | DataEncoder.AsWrittenMergesZero | DataEncoder.SplitToChains |
