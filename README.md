# charsets — a verified model of the byte-table printer

`charsets.py` prints one table. Its header row is `Byte` followed by the
labels of a small encoding registry (`8859`, `win`, `437`, `850`, `utf-8`).
Then comes one row for each byte value 0..255. A row holds `hex(x)` and,
for each registered encoding, the byte decoded with Python's `replace`
error policy and passed through a printable filter. The filter replaces any
non-printable result with `❌`. Byte 127 is shown as `DEL` in every column.
Code page 437 is special: for the bytes in a 43-entry override table, the
IBM PC glyph listed in IBMGRAPH.TXT is shown, whatever Python's `cp437`
codec returns for that byte.

The project has two modules:

- `Charsets` (charsets.dfy) models the script. It holds the registry (as
  insertion-ordered keys plus a map), the override table, `decode`,
  `decode_cp437`, `filter_printable`, `hex`, and the top-level loop. The loop
  is the method `Summary`, which builds the rows and the printed text one
  byte at a time. It is proved equal to the specification functions `Table`
  and `Output`.
- `Strings` (strings.dfy) holds `sep.join`, a reader-side `split`, and the
  text written by a sequence of `print` calls. It proves the round trip that
  makes the output an unambiguous tab-separated table.

Two parts of the Python runtime are visible to the script but not defined
by it. Both are fields of the `Library` parameter:

- `codec(b, e)` is the strict decoding of one byte under the encoding
  named `e`. It returns `None` when the byte is undefined there. The
  `replace` policy is modelled on top of it: `None` becomes U+FFFD.
- `printableNonAscii(c)` is `str.isprintable` for a character outside
  ASCII. For ASCII the classification is fixed and modelled directly:
  exactly 0x20..0x7E are printable. A string is printable when all of
  its characters are, so the empty string is printable.

The override table has 43 entries: 0x01–0x1F, 0x7F, and the 11 double-line
box-drawing bytes 0xB9–0xBC and 0xC8–0xCE. Byte 0x00 is not overridden
(`Cp437Domain`). The model claims nothing about what the library codec
returns for these bytes.

## Model

| member | source | states |
|---|---|---|
| `Charsets.RegistryWellFormed` | charsets.py:9-15 | The registry has 5 distinct keys, in the order `8859, win, 437, 850, utf-8`. Every key maps to an encoding name, and the map has no other keys. |
| `Charsets.Cp437Domain` | charsets.py:18-62 | A byte is in the override table exactly when it is 0x01..0x1F, 0x7F, 0xB9..0xBC or 0xC8..0xCE. |
| `Charsets.OverrideExample` | charsets.py:51 | Under "437", byte 0x01 decodes to U+263A (the smiling face), and byte 0x7F to U+2302. |
| `Charsets.Decode` | charsets.py:69-81 | Covers `decode` and `decode_cp437` (`DecodeCp437`). With encoding "437", a byte in the override table gives exactly its glyph, and any other byte gives the library's code page 437 decoding with replace. With any other encoding name, the result is the library's decoding with replace. |
| `Charsets.OverrideIgnoresLibrary` | charsets.py:77-79 | An override byte decodes the same under any two runtimes: the library is not consulted. |
| `Charsets.OverrideOnlyOnTable` | charsets.py:77-81 | If "437" decoding differs from the library's code page 437, the byte is in the override table. |
| `Charsets.FilterPrintable` | charsets.py:64-67 | Covers `filter_printable` and its lambda (`Shown`). The output has the same length as the input. Each element is the input element when that is printable, and `❌` otherwise. |
| `Charsets.FilterIdempotent` | charsets.py:64-67 | If `❌` itself is printable, filtering twice gives the same result as filtering once. |
| `Charsets.FilteredHasNoControl` | charsets.py:64-67 | No character of a filtered element is an ASCII control character or DEL. |
| `Charsets.HexDigits` | charsets.py:94 | The digits are non-empty and all lowercase hexadecimal. There is no leading zero except for 0 itself. There is one digit below 16 and two digits for 16..255. |
| `Charsets.Hex` | charsets.py:94 | `hex(n)` starts with `0x`, then lowercase hexadecimal digits with no zero padding. For `n < 256` it has at most 4 characters. |
| `Charsets.HexRoundTrip` | charsets.py:94 | Reading the digits of `hex(n)` back in base 16 gives `n`. |
| `Charsets.HexInjective` | charsets.py:94 | Different numbers give different `hex` strings. |
| `Charsets.HexExamples` | charsets.py:94 | `hex` of 0, 10, 127 and 255 is `0x0`, `0xa`, `0x7f` and `0xff`. |
| `Charsets.Row` | charsets.py:87-94 | The row of byte `x` has 6 fields, and the first is `hex(x)`. |
| `Charsets.Table` | charsets.py:84-94 | Covers the header list (`Header`). The table has 257 rows of 6 fields each. The first row is `Byte, 8859, win, 437, 850, utf-8`. Row `x + 1` is the row of byte `x`. |
| `Charsets.RowCell` | charsets.py:90-94 | Covers the `decoded` map (`Decoded`). Field `i + 1` of the row for byte `x` is the filtered value for the `i`-th registry key. That value is `DEL` when `x` is 127, and otherwise the decoding of `x` under that key's encoding. |
| `Charsets.DelShown` | charsets.py:91-94 | The filter keeps `DEL`. |
| `Charsets.DelRow` | charsets.py:91 | Every data field of byte 127's row is `DEL`. So the row's "437" field is not the override glyph for 0x7F. |
| `Charsets.Cp437Column` | charsets.py:69-81 | For a byte other than 127, the "437" column shows the filtered override glyph when the byte is in the table. Otherwise it shows the filtered library code page 437 decoding. |
| `Charsets.OtherColumn` | charsets.py:74-75 | For a byte other than 127, every column except "437" shows the filtered library decoding under its own encoding. That encoding's name is not "437". |
| `Charsets.RowsAscending` | charsets.py:85 | For bytes `x < y`, the first field of `x`'s row reads back as a smaller number than that of `y`'s row. |
| `Charsets.TableFieldsClean` | charsets.py:90-94 | No field of any row contains a tab or a newline. |
| `Charsets.LineReadsBack` | charsets.py:94 | Each printed line has no newline. Splitting it on tabs gives back its row. |
| `Charsets.OutputReadsBack` | charsets.py:84-94 | The whole output, without its final newline, splits on newlines into the printed lines, and each line splits on tabs into its row. |
| `Charsets.Summary` | charsets.py:84-94 | The loop produces exactly `Table` and writes exactly `Output`. It has 257 rows, the header is `Byte, 8859, win, 437, 850, utf-8`, and row `x + 1` has 6 fields and starts with `hex(x)`. |
| `Strings.SplitJoin` | charsets.py:84 | Covers `"\t".join` (`Strings.Join`). Tab-joining fields that contain no tab, then splitting on tabs, gives the fields back. |
| `Strings.PrintedIsJoin` | charsets.py:84-94 | Covers the output of successive `print` calls (`Strings.Printed`). Printing lines one after another writes their newline join followed by one newline. |
| `Strings.PrintedLines` | charsets.py:84-94 | Lines without a newline are recovered by splitting the printed text, minus its final newline, on newlines. |

## Left out

- Charsets.LibDecode: it is the `errors='replace'` policy over the abstract `Library.codec`, by definition (the strict decoding when there is one, U+FFFD otherwise). Nothing is proved about it beyond that definition.
- The codec tables of iso-8859-1, windows_1252, 437, 850 and utf-8 belong to Python's codec registry, not to the script. `Library.codec` stands for them and is left unconstrained.
- The Unicode printability of non-ASCII characters needs the Unicode character database. `Library.printableNonAscii` stands for it.
- An encoding name that Python's codec registry does not know makes `bytes.decode` raise `LookupError`. All five registered names are known encodings, so this never happens in the table. `Library.codec` is total and does not model it.
- Standard output is modelled as the text `Summary` returns (`Output`), built from the rows with `Join` and `Printed`. No I/O is performed.
- The override table's values are one-character strings in Python. The model stores the character and decodes to the one-element string.
- Whether the override glyphs match IBMGRAPH.TXT is not checked. The table is embedded as written.
- The single-charset inspector, the Unicode category and name lookups, and the command-line subcommands and exit codes are not in charsets.py, so they are not part of this model.
