# SimpleJavaTools in Dafny

A Dafny model of the three small pieces of sequential logic in SimpleJavaTools, with proofs about them.

- **The table-driven test harness** (`test/Test.java`), in module `Harness` (`harness.dfy`).
  - `assertEqual` and `assertMPEqual` check that the input and expected tables have the same length and look the method under test up by reflection.
  - They then invoke it once per row, in index order, and compare each result with its expected value: element by element when the expected value is an array, with `equals` otherwise.
  - The first mismatch halts the run. When every row matches, the success line is printed.
  - Reflection is replaced by parameters:
    - `classFound`: whether `Class.forName` finds the class;
    - `resolve(row)`: whether `getMethod` and `newInstance` succeed for the parameter types of the first row;
    - `f`: what `Method.invoke` does with one row.
  - Printing and `System.exit` are replaced by the `Outcome` a run ends in. The run is stated once, as the function `Run`. The method `AssertEqual` keeps the source's nested loops, and its contract ties its outcome to `Run`.
  - A ghost out-parameter `calls` records the rows passed to `Method.invoke`, so each method's contract also says which rows were invoked.
- **The bit-string packer** (`stdio/BinaryStringOut.java`, `writeBits`), in module `BitPacker` (`bit_packer.dfy`).
  - A line is held as Java holds a String read by the line reader: a sequence of UTF-16 code units, so a character beyond U+FFFF counts as two units.
  - Each line read from standard input must have a length, in units, that is a multiple of 8. Otherwise the run stops, reporting that line.
  - An accepted line is packed into a freshly zero-filled byte array, most significant bit first. Only the character `'1'` gives a one bit.
  - The array is then written to the output stream.
  - Standard input is a `seq<Line>` (a `Line` being a sequence of 16-bit code units), the output stream a `seq<bv8>`, and the byte buffer an `array<bv8>`. `bv8` is Java's byte as a bit pattern: `<<=` and `+=` on a byte keep the low 8 bits.
  - The spec function `Pack` gives the bytes written and the index of the rejected line, if any.
- **The chat-history filter** (`stdio/WechatMsgProcess.java`, `skipLines`), in module `ChatFilter` (`chat_filter.dfy`).
  - It drops empty lines and lines starting with five U+2014 EM DASH characters.
  - Of the remaining lines it writes every second one, starting with the second (the message lines). Each written line is followed by a line separator.
  - The input file is the sequence of lines a line reader returns. The output is the text written to the output file, with the separator as a parameter.

`wrappers.dfy` holds a shared `Option` type.

## Model

| member | source | states |
|---|---|---|
| Harness.AssertEqual | SimpleJavaTools/src/main/java/test/Test.java:40-78 | The nested loops of assertEqual end in exactly the outcome `Run` gives. The rows invoked are exactly 0, 1, ..., in order, each once: none before the lookup succeeds, all of them on success, and rows 0..i when the run halts at row i. |
| Harness.CompareFromVerdict | SimpleJavaTools/src/main/java/test/Test.java:54-63 | From index j of an expected array, four cases, each an if-and-only-if. The row passes when every remaining element equals the output element at the same index. A non-array output is a caught exception. An output array that ends first, and agrees up to its end, is an uncaught exception. An unequal element within both arrays is a mismatch. |
| Harness.CompareArray | SimpleJavaTools/src/main/java/test/Test.java:53-63 | The same four if-and-only-ifs for a whole expected array. In particular an empty expected array passes against any output. |
| Harness.CompareIgnoresExtraElements | SimpleJavaTools/src/main/java/test/Test.java:54-56 | Output elements beyond the length of the expected array never change the verdict. |
| Harness.ScanAllPassed | SimpleJavaTools/src/main/java/test/Test.java:50-71 | The row loop completes exactly when every row passes. |
| Harness.ScanHaltsAt | SimpleJavaTools/src/main/java/test/Test.java:50-70 | The row loop halts at the first row that does not pass, with the outcome for that row's verdict: FailedAt for a mismatch, Errored for a caught exception, Escaped for an uncaught one. |
| Harness.ScanFirstFailure | SimpleJavaTools/src/main/java/test/Test.java:50-70 | The row loop either completes, or halts at some row that does not pass after rows that all passed. |
| Harness.ScanShape | SimpleJavaTools/src/main/java/test/Test.java:50-70 | The row loop ends in AllPassed or in a halt at an existing row. It never ends in a pre-invocation outcome. |
| Harness.RunAllPassed | SimpleJavaTools/src/main/java/test/Test.java:42-71 | The success line is reached exactly when the lengths agree, the class and method are found, the table is not empty and every row passes. |
| Harness.RunHaltsAtFirstFailure | SimpleJavaTools/src/main/java/test/Test.java:50-77 | The run halts at row i exactly when the lookup succeeds, every earlier row passed and row i does not. Which of the three halting outcomes it is follows the verdict on row i. |
| Harness.RunBeforeInvoking | SimpleJavaTools/src/main/java/test/Test.java:42-49 | Each an if-and-only-if: a length mismatch comes first (validateLengths), then a class not found, then an empty table (the uncaught index error on `inputs[0]`), then a method not found. No other outcome invokes zero rows, and a run is never a cast failure. |
| Harness.AssertEqualList | SimpleJavaTools/src/main/java/test/Test.java:119-125 | The List overload behaves exactly as the array form on the lists in order, and invokes the same rows. |
| Harness.AssertEqualMap | SimpleJavaTools/src/main/java/test/Test.java:95-100 | The Map overload is the array form on the keys and their values in iteration order. It never reports a length mismatch, and it invokes each key at most once. |
| Harness.AssertMPEqual | SimpleJavaTools/src/main/java/test/Test.java:168-209 | The multi-parameter array form is the same run, with each row spread as the method's arguments and the parameter count taken from the first row. It invokes the same rows as the single-parameter form. |
| Harness.MPArityMismatch | SimpleJavaTools/src/main/java/test/Test.java:173-182 | Parameter types come from the first row only: the first row of a different length ends the run with a caught exception at that row, when every row before it passed. |
| Harness.AssertMPEqualListAsWritten | SimpleJavaTools/src/main/java/test/Test.java:144-149 | As written: when the list's toArray does not return an Object[][] (as with ArrayList), the run ends in CastFailed before any row is invoked. Otherwise it is the array form. |
| Harness.AssertMPEqualList | SimpleJavaTools/src/main/java/test/Test.java:144-149 | As intended: the List overload is the array form on the lists in order, and never a cast failure. |
| Harness.AssertMPEqualMapAsWritten | SimpleJavaTools/src/main/java/test/Test.java:226-231 | As written: for every map the run ends in CastFailed and invokes no row. |
| Harness.AssertMPEqualMap | SimpleJavaTools/src/main/java/test/Test.java:226-231 | As intended: the Map overload is the array form on the keys and values in iteration order. It is never a length mismatch or a cast failure. |
| Harness.SquareExample | SimpleJavaTools/src/main/java/test/Test.java:50-70 | A squaring method over 1..4 passes against 1, 4, 9, 16 and fails at row 3 against 1, 4, 9, 17. |
| Harness.AddMapExample | SimpleJavaTools/src/main/java/test/Test.java:226-231 | For the two-parameter map {[1, 2]: 3, [3, 4]: 7} and an adding method, the intended run passes. |
| BitPacker.WriteBits | SimpleJavaTools/src/main/java/stdio/BinaryStringOut.java:23-35 | The line loop writes exactly the bytes `Pack` gives, and reports exactly the rejected line `Pack` gives. |
| BitPacker.FillBuffer | SimpleJavaTools/src/main/java/stdio/BinaryStringOut.java:28-33 | The in-place loop over a fresh zero-filled array leaves the array holding exactly the packed line, byte k coming from characters 8k to 8k+7. |
| BitPacker.FillStep | SimpleJavaTools/src/main/java/stdio/BinaryStringOut.java:31-32 | Reading character i shifts its bit into byte i/8 alone. Every other byte keeps the value of the characters read so far. |
| BitPacker.PackLine | SimpleJavaTools/src/main/java/stdio/BinaryStringOut.java:29 | A line of length L packs into exactly L/8 bytes. |
| BitPacker.PackLineAt | SimpleJavaTools/src/main/java/stdio/BinaryStringOut.java:29-33 | Byte k of a packed line is accumulated from characters 8k to 8k+7 exactly. |
| BitPacker.Pack | SimpleJavaTools/src/main/java/stdio/BinaryStringOut.java:23-27 | A rejected index is the index of an existing line. |
| BitPacker.PackRejectsFirstBadLine | SimpleJavaTools/src/main/java/stdio/BinaryStringOut.java:24-27 | Two if-and-only-ifs: the run completes exactly when every line's length is a multiple of 8, and it is rejected at line k exactly when k is the first line whose length is not. |
| BitPacker.PackConcat | SimpleJavaTools/src/main/java/stdio/BinaryStringOut.java:23-34 | Lines are processed in order. The output for a + b is that of a followed, when a was accepted entirely, by that of b. Otherwise it is that of a alone. |
| BitPacker.BadLineHalts | SimpleJavaTools/src/main/java/stdio/BinaryStringOut.java:24-27 | A bad line after accepted lines halts the run there. Neither it nor any later line writes anything, and it is the line reported. |
| BitPacker.PackByteCount | SimpleJavaTools/src/main/java/stdio/BinaryStringOut.java:24-34 | The number of bytes written is the sum of \|line\| / 8 over the lines before the rejected one, or over all lines when none is rejected. |
| BitPacker.SurrogatesCountTwice | SimpleJavaTools/src/main/java/stdio/BinaryStringOut.java:24-32 | Lengths count UTF-16 units. Six zeros plus one character beyond U+FFFF form a line of length 8, accepted and written as one zero byte. Seven zeros plus that character form a line of length 9, which is rejected. |
| BitPacker.EmptyLineWritesNothing | SimpleJavaTools/src/main/java/stdio/BinaryStringOut.java:24-34 | Inserting an empty line anywhere leaves the bytes written unchanged. It only moves a later rejected index by one. |
| BitPacker.ShiftAddValue | SimpleJavaTools/src/main/java/stdio/BinaryStringOut.java:31-32 | A byte shifted left with a bit added is, as a number, twice the byte plus the bit, modulo 256. |
| BitPacker.AccumulateValue | SimpleJavaTools/src/main/java/stdio/BinaryStringOut.java:30-33 | The byte accumulated from any string is the binary number its bits form, most significant first, modulo 256. |
| BitPacker.ByteValue | SimpleJavaTools/src/main/java/stdio/BinaryStringOut.java:30-33 | Eight characters accumulate to exactly the binary number their bits form, with no bit lost. |
| BitPacker.PackLineByte | SimpleJavaTools/src/main/java/stdio/BinaryStringOut.java:29-33 | Byte k of a line is the sum of bit(line[8k+j]) * 2^(7-j) over j < 8. |
| BitPacker.OnlyOnesMatter | SimpleJavaTools/src/main/java/stdio/BinaryStringOut.java:32 | Strings of the same length with their '1' characters in the same places accumulate to the same byte: every other character is a zero bit. |
| BitPacker.OnlyOnesMatterInLine | SimpleJavaTools/src/main/java/stdio/BinaryStringOut.java:32 | The same for whole lines: they pack to the same bytes. |
| BitPacker.RenderBitsRoundTrip | SimpleJavaTools/src/main/java/stdio/BinaryStringOut.java:30-33 | Packing the rendering of the lowest n bits of a byte gives back exactly those bits. |
| BitPacker.ByteRoundTrip | SimpleJavaTools/src/main/java/stdio/BinaryStringOut.java:30-33 | Packing a byte's 8-character rendering gives the byte back. |
| BitPacker.RenderRoundTrip | SimpleJavaTools/src/main/java/stdio/BinaryStringOut.java:29-33 | Any byte sequence, rendered most significant bit first at 8 characters per byte, gives an accepted line that packs back to the same bytes. |
| BitPacker.WriteRenderedLine | SimpleJavaTools/src/main/java/stdio/BinaryStringOut.java:23-34 | A run given the rendered line writes exactly the original bytes and completes. |
| ChatFilter.SkipLines | SimpleJavaTools/src/main/java/stdio/WechatMsgProcess.java:20-29 | The loop writes exactly the message lines, each followed by one separator. |
| ChatFilter.ReadStep | SimpleJavaTools/src/main/java/stdio/WechatMsgProcess.java:23-28 | Reading one more line keeps it unless it is skipped. It is written exactly when it is kept and an odd number of lines were kept before it. |
| ChatFilter.KeptIsFilter | SimpleJavaTools/src/main/java/stdio/WechatMsgProcess.java:23 | The kept lines are the input lines that are not empty and not date lines, in input order, each once. An input line is kept if and only if it is not skipped. |
| ChatFilter.WrittenCount | SimpleJavaTools/src/main/java/stdio/WechatMsgProcess.java:20-28 | The number of lines written is half the number of input lines that are neither empty nor date lines, rounded down. |
| ChatFilter.WrittenIsSubsequence | SimpleJavaTools/src/main/java/stdio/WechatMsgProcess.java:21-29 | The output is a subsequence of the input: each written line is an input line at an index, and the indices increase. |
| ChatFilter.WrittenNotSkipped | SimpleJavaTools/src/main/java/stdio/WechatMsgProcess.java:23-26 | No written line is empty or starts with the date marker. |
| ChatFilter.KeptConcat | SimpleJavaTools/src/main/java/stdio/WechatMsgProcess.java:21-23 | The skip rule looks at one line at a time: the kept lines of a + b are those of a followed by those of b. |
| ChatFilter.SkippedLineIgnored | SimpleJavaTools/src/main/java/stdio/WechatMsgProcess.java:23 | Inserting an empty or date line anywhere changes nothing written: it does not flip the user/message parity. |
| ChatFilter.SplitTerminated | SimpleJavaTools/src/main/java/stdio/WechatMsgProcess.java:25-26 | Lines each followed by one single-character separator, which none contains, split back into exactly those lines. |
| ChatFilter.OutputLines | SimpleJavaTools/src/main/java/stdio/WechatMsgProcess.java:25-26 | Each written line is followed by exactly one line terminator. Reading the output back line by line gives exactly the written lines, for a one-character separator that no input line contains. |

## Left out

- Reflection itself: `Class.forName`, `getMethod` and `newInstance` are the parameters `classFound` and `resolve`, and `Method.invoke` is the function `f`. The tested method's behaviour cannot be seen.
- Printing, `printStackTrace` and `System.exit` are not modelled. The outcome of a run says which message would be printed; the exact text, including the whole `expected` array printed at `Test.java:66`, is not modelled.
- Null values: `Value` has no null. The model does not capture these cases:
  - a null expected value, expected element or first-row argument throws an uncaught NullPointerException;
  - a null result from the tested method is a mismatch against a scalar expected value (`e.equals(null)` is false, `Test.java:64`);
  - against an expected array, a null result makes `Array.get` throw an uncaught NullPointerException (`Test.java:56`).
- Harness.AssertEqualMap, Harness.AssertMPEqualMap: the iteration order of the map is the parameter `order`. Matching orders for `keySet()` and `values()` are a library guarantee.
- Harness.AssertMPEqual: type mismatches between a row and the method's parameter types are part of `f` (a caught exception). Only a wrong argument count is modelled explicitly.
- File names, opening and closing files, the `main` methods and their argument checks (`BinaryStringOut.java:44-46` still reads `args[0]` after printing the usage line) are not modelled.
- BitPacker.WriteBits: the output file is opened with `CREATE` but without truncation, so bytes of an earlier, longer file remain after the ones written. The model gives only the bytes written.
- ChatFilter.SkipLines: the output file is opened with `CREATE` but without truncation, so the tail of an earlier, longer `wechat-out.txt` remains after the text written. The model gives only the text written.
- BitPacker.WriteBits: decoding standard input's bytes into characters (the platform charset) is not modelled. A line is the UTF-16 code units the reader returns.
- BitPacker.WriteBits, ChatFilter.SkipLines: I/O errors (the `IOException` handlers) are not modelled.
- ChatFilter.SkipLines: the platform line separator written by `newLine` is the parameter `sep`.
- Java's `byte` is signed; the model keeps its bit pattern as `bv8`, which is what `write` puts in the file.

## Findings

| source | as written | input that shows it | evidently intended | confidence | as-written member | corrected member |
|---|---|---|---|---|---|---|
| SimpleJavaTools/src/main/java/test/Test.java:228 | `keySet().toArray()` returns an `Object[]`, and casting it to `Object[][]` throws ClassCastException, which the method does not catch | any map, e.g. `{[1, 2]: 3, [3, 4]: 7}` with an adding method | the keys become the rows of the array form, as in the single-parameter Map overload | not executed | Harness.AssertMPEqualMapAsWritten | Harness.AssertMPEqualMap |
| SimpleJavaTools/src/main/java/test/Test.java:146 | `inputs.toArray()` on an `ArrayList` returns an `Object[]`, and the cast to `Object[][]` throws ClassCastException, which the method does not catch | an `ArrayList` holding the row `[1, 2]` | the list's rows become the rows of the array form, as in the single-parameter List overload | not executed | Harness.AssertMPEqualListAsWritten | Harness.AssertMPEqualList |
