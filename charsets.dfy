/** The byte-table printer of charsets.py: for every byte value 0..255 it
    shows how each registered legacy encoding decodes that byte, with a
    fixed table of IBM PC glyphs (for 0x01..0x1F, 0x7F and eleven
    double-line box-drawing bytes) taking precedence over the library's
    code page 437.

    What the script takes from the Python runtime (the codec tables and the
    Unicode printability classification of non-ASCII characters) is a
    parameter of type Library; everything the script itself defines is
    modelled here. */
module Charsets {
  import opened Strings

  datatype Option<T> = None | Some(value: T)

  /** One byte value, `x.to_bytes(1, 'little')` for `x` in `range(0, 256)`. */
  type Byte = x: int | 0 <= x < 256

  /** The range the table covers, both ends inclusive. */
  const CharFrom: int := 0
  const CharTo: int := 255

  /** The parts of the Python runtime the script relies on.
      `codec(b, e)` is the strict decoding of the single byte `b` under the
      encoding named `e`: None when `e` leaves that byte undefined.
      `printableNonAscii(c)` is `c.isprintable()` for a character outside
      ASCII, which needs the Unicode character database. */
  datatype Library = Library(
    codec: (Byte, string) -> Option<string>,
    printableNonAscii: char -> bool)

  // ---------------------------------------------------------------------
  // The registry: a Python dict, that is its keys in insertion order and
  // the mapping itself.

  const Labels: seq<string> := ["8859", "win", "437", "850", "utf-8"]

  const Charsets: map<string, string> := map[
      "8859" := "iso-8859-1",
      "win" := "windows_1252",
      "437" := "437",
      "850" := "850",
      "utf-8" := "utf-8"]

  /** The keys are distinct and are exactly the keys of the mapping. */
  lemma RegistryWellFormed()
    ensures |Labels| == 5
    ensures forall i, j :: 0 <= i < j < |Labels| ==> Labels[i] != Labels[j]
    ensures forall i :: 0 <= i < |Labels| ==> Labels[i] in Charsets
    ensures forall l :: l in Charsets <==> l in Labels
  {
  }

  // ---------------------------------------------------------------------
  // The code page 437 override table (IBMGRAPH.TXT glyphs).

  const Cp437: map<Byte, char> := map[
      0x15 := '\U{00A7}',
      0x14 := '\U{00B6}',
      0x07 := '\U{2022}',
      0x13 := '\U{203C}',
      0x1B := '\U{2190}',
      0x18 := '\U{2191}',
      0x1A := '\U{2192}',
      0x19 := '\U{2193}',
      0x1D := '\U{2194}',
      0x12 := '\U{2195}',
      0x17 := '\U{21A8}',
      0x1C := '\U{221F}',
      0x7F := '\U{2302}',
      0xCD := '\U{2550}',
      0xBA := '\U{2551}',
      0xC9 := '\U{2554}',
      0xBB := '\U{2557}',
      0xC8 := '\U{255A}',
      0xBC := '\U{255D}',
      0xCC := '\U{2560}',
      0xB9 := '\U{2563}',
      0xCB := '\U{2566}',
      0xCA := '\U{2569}',
      0xCE := '\U{256C}',
      0x16 := '\U{25AC}',
      0x1E := '\U{25B2}',
      0x10 := '\U{25BA}',
      0x1F := '\U{25BC}',
      0x11 := '\U{25C4}',
      0x09 := '\U{25CB}',
      0x08 := '\U{25D8}',
      0x0A := '\U{25D9}',
      0x01 := '\U{263A}',
      0x02 := '\U{263B}',
      0x0F := '\U{263C}',
      0x0C := '\U{2640}',
      0x0B := '\U{2642}',
      0x06 := '\U{2660}',
      0x05 := '\U{2663}',
      0x03 := '\U{2665}',
      0x04 := '\U{2666}',
      0x0D := '\U{266A}',
      0x0E := '\U{266B}']

  /** True for the byte values the override table covers. */
  predicate Overridden(b: Byte)
  {
    || 0x01 <= b <= 0x1F
    || b == 0x7F
    || 0xB9 <= b <= 0xBC
    || 0xC8 <= b <= 0xCE
  }

  /** The table covers 0x01..0x1F, 0x7F and the double-line box-drawing
      bytes 0xB9..0xBC and 0xC8..0xCE, and nothing else (not 0x00). */
  lemma Cp437Domain(b: Byte)
    ensures b in Cp437 <==> Overridden(b)
  {
  }

  // ---------------------------------------------------------------------
  // Decoding.

  /** U+FFFD, what the 'replace' error handler puts in place of a byte the
      codec does not define. */
  const Replacement: string := "\U{FFFD}"

  /** `b.decode(encoding=charset, errors='replace')` for a single byte: the
      strict decoding when there is one, the replacement character otherwise. */
  function LibDecode(lib: Library, b: Byte, charset: string): string
  {
    match lib.codec(b, charset)
    case Some(s) => s
    case None => Replacement
  }

  /** `decode_cp437(b)`: the override glyph if there is one, the library's
      code page 437 otherwise. */
  function DecodeCp437(lib: Library, b: Byte): string
  {
    if b in Cp437 then [Cp437[b]] else LibDecode(lib, b, "437")
  }

  /** `decode(b, charset)`: only the encoding named "437" consults the
      override table; every other encoding is the library's. */
  function Decode(lib: Library, b: Byte, charset: string): (r: string)
    ensures charset == "437" && b in Cp437 ==> r == [Cp437[b]]
    ensures charset == "437" && b !in Cp437 ==> r == LibDecode(lib, b, "437")
    ensures charset != "437" ==> r == LibDecode(lib, b, charset)
  {
    if charset == "437" then DecodeCp437(lib, b) else LibDecode(lib, b, charset)
  }

  /** An override does not depend on the library: any two runtimes agree on it. */
  lemma OverrideIgnoresLibrary(lib1: Library, lib2: Library, b: Byte)
    requires b in Cp437
    ensures Decode(lib1, b, "437") == Decode(lib2, b, "437")
  {
  }

  /** Code page 437 as decoded here departs from the library's only on
      override bytes. */
  lemma OverrideOnlyOnTable(lib: Library, b: Byte)
    requires Decode(lib, b, "437") != LibDecode(lib, b, "437")
    ensures b in Cp437
  {
  }

  /** Byte 0x01 shows the smiling face U+263A rather than a control character. */
  lemma OverrideExample(lib: Library)
    ensures Decode(lib, 0x01, "437") == "\U{263A}"
    ensures Decode(lib, 0x7F, "437") == "\U{2302}"
  {
  }

  // ---------------------------------------------------------------------
  // Printability.

  /** `c.isprintable()`: in ASCII exactly the characters from space to '~';
      outside ASCII the Unicode database decides. */
  predicate IsPrintableChar(lib: Library, c: char)
  {
    if c as int < 0x80 then 0x20 <= c as int < 0x7F else lib.printableNonAscii(c)
  }

  /** `s.isprintable()`: every character is printable (so "" is). */
  predicate IsPrintable(lib: Library, s: string)
  {
    forall i :: 0 <= i < |s| ==> IsPrintableChar(lib, s[i])
  }

  /** What a non-printable cell is replaced with. */
  const Placeholder: string := "❌"

  /** The lambda of `filter_printable`. */
  function Shown(lib: Library, c: string): string
  {
    if IsPrintable(lib, c) then c else Placeholder
  }

  /** `filter_printable(chars)`: element by element, printable strings are
      kept and the others become the placeholder. */
  function FilterPrintable(lib: Library, chars: seq<string>): (r: seq<string>)
    ensures |r| == |chars|
    ensures forall i :: 0 <= i < |chars| ==>
      r[i] == (if IsPrintable(lib, chars[i]) then chars[i] else Placeholder)
  {
    if chars == [] then [] else [Shown(lib, chars[0])] + FilterPrintable(lib, chars[1..])
  }

  /** Filtering twice is filtering once, given that the placeholder
      character (U+274C, a symbol) is printable. */
  lemma FilterIdempotent(lib: Library, chars: seq<string>)
    requires lib.printableNonAscii(Placeholder[0])
    ensures FilterPrintable(lib, FilterPrintable(lib, chars)) == FilterPrintable(lib, chars)
  {
  }

  /** A filtered cell holds no ASCII control character; in particular no
      tab and no newline. */
  lemma {:induction false} FilteredHasNoControl(lib: Library, chars: seq<string>, i: int, k: int)
    requires 0 <= i < |chars|
    requires 0 <= k < |FilterPrintable(lib, chars)[i]|
    ensures FilterPrintable(lib, chars)[i][k] as int >= 0x20
    ensures FilterPrintable(lib, chars)[i][k] as int != 0x7F
  {
    var cell := FilterPrintable(lib, chars)[i];
    if IsPrintable(lib, chars[i]) {
      assert IsPrintableChar(lib, cell[k]);
    } else {
      assert cell == Placeholder;
    }
  }

  // ---------------------------------------------------------------------
  // `hex(x)`: lower-case digits after "0x", no zero padding.

  predicate IsHexDigit(c: char)
  {
    '0' <= c <= '9' || 'a' <= c <= 'f'
  }

  function HexDigit(d: int): (c: char)
    requires 0 <= d < 16
  {
    if d < 10 then ('0' as int + d) as char else ('a' as int + d - 10) as char
  }

  /** The value of one hexadecimal digit, as `int(c, 16)` reads it. */
  function DigitValue(c: char): (d: nat)
    requires IsHexDigit(c)
  {
    if c <= '9' then c as int - '0' as int else c as int - 'a' as int + 10
  }

  /** The hexadecimal digits of `n`, most significant first. */
  function HexDigits(n: nat): (r: string)
    ensures |r| >= 1
    ensures forall i :: 0 <= i < |r| ==> IsHexDigit(r[i])
    ensures r[0] == '0' ==> n == 0
    ensures n < 16 <==> |r| == 1
    ensures 16 <= n < 256 <==> |r| == 2
    decreases n
  {
    if n < 16 then [HexDigit(n)] else HexDigits(n / 16) + [HexDigit(n % 16)]
  }

  /** `hex(n)` for a non-negative `n`. */
  function Hex(n: nat): (r: string)
    ensures |r| >= 3 && r[..2] == "0x"
    ensures forall i :: 2 <= i < |r| ==> IsHexDigit(r[i])
    ensures r[2] == '0' ==> n == 0
    ensures n < 256 ==> |r| <= 4
  {
    "0x" + HexDigits(n)
  }

  /** `int(digits, 16)`. */
  function HexValue(digits: string): nat
    requires forall i :: 0 <= i < |digits| ==> IsHexDigit(digits[i])
  {
    if digits == [] then 0
    else HexValue(digits[..|digits| - 1]) * 16 + DigitValue(digits[|digits| - 1])
  }

  /** Reading the digits of `hex(n)` back gives `n`. */
  lemma {:induction false} HexRoundTrip(n: nat)
    ensures HexValue(HexDigits(n)) == n
    ensures HexValue(Hex(n)[2..]) == n
  {
    var ds := HexDigits(n);
    assert Hex(n)[2..] == ds;
    if n < 16 {
      DigitRoundTrip(n);
    } else {
      HexRoundTrip(n / 16);
      DigitRoundTrip(n % 16);
      assert ds[..|ds| - 1] == HexDigits(n / 16);
      assert HexValue(ds) == HexValue(HexDigits(n / 16)) * 16 + DigitValue(HexDigit(n % 16));
    }
  }

  lemma DigitRoundTrip(d: int)
    requires 0 <= d < 16
    ensures IsHexDigit(HexDigit(d)) && DigitValue(HexDigit(d)) == d
  {
  }

  /** Distinct bytes get distinct first columns. */
  lemma HexInjective(a: nat, b: nat)
    requires Hex(a) == Hex(b)
    ensures a == b
  {
    HexRoundTrip(a);
    HexRoundTrip(b);
  }

  lemma HexExamples()
    ensures Hex(0) == "0x0" && Hex(10) == "0xa" && Hex(127) == "0x7f" && Hex(255) == "0xff"
  {
  }

  // ---------------------------------------------------------------------
  // The summary table.

  /** The first printed row: "Byte", then the registry keys in order. */
  function Header(): (r: seq<string>)
    ensures |r| == 6
  {
    ["Byte"] + Labels
  }

  /** The `decoded` map of one iteration: "DEL" for byte 127, otherwise
      the byte decoded under each registered encoding, in key order. */
  function Decoded(lib: Library, x: Byte): seq<string>
  {
    RegistryWellFormed();
    seq(|Labels|, i requires 0 <= i < |Labels| =>
      if x == 127 then "DEL" else Decode(lib, x, Charsets[Labels[i]]))
  }

  /** The row printed for byte `x`, before tab-joining. */
  function Row(lib: Library, x: Byte): (r: seq<string>)
    ensures |r| == 6 && r[0] == Hex(x)
  {
    RegistryWellFormed();
    [Hex(x)] + FilterPrintable(lib, Decoded(lib, x))
  }

  /** All printed rows, header first. */
  function Table(lib: Library): (r: seq<seq<string>>)
    ensures |r| == 257
    ensures forall k :: 0 <= k < |r| ==> |r[k]| == 6
    ensures r[0] == ["Byte", "8859", "win", "437", "850", "utf-8"]
    ensures forall x: Byte :: r[x + 1] == Row(lib, x)
  {
    var data := seq(CharTo - CharFrom + 1, k requires 0 <= k < CharTo - CharFrom + 1 => Row(lib, CharFrom + k));
    assert forall k :: 0 <= k < |data| ==> data[k] == Row(lib, k);
    [Header()] + data
  }

  /** The rows as printed, one tab-joined line each. */
  function Lines(rows: seq<seq<string>>): seq<string>
  {
    seq(|rows|, k requires 0 <= k < |rows| => Join(rows[k], '\t'))
  }

  lemma LinesAppend(rows: seq<seq<string>>, row: seq<string>)
    ensures Lines(rows + [row]) == Lines(rows) + [Join(row, '\t')]
  {
    var longer := rows + [row];
    var a := Lines(longer);
    var b := Lines(rows) + [Join(row, '\t')];
    assert |a| == |b|;
    forall k | 0 <= k < |a|
      ensures a[k] == b[k]
    {
      if k < |rows| {
        assert longer[k] == rows[k];
      } else {
        assert longer[k] == row;
      }
    }
  }

  /** Everything written to standard output. */
  function Output(lib: Library): string
  {
    Printed(Lines(Table(lib)))
  }

  /** Cell i + 1 of row x: "DEL" for byte 127 in every column, otherwise
      the printable-filtered decoding under the i-th registered encoding. */
  lemma RowCell(lib: Library, x: Byte, i: int)
    requires 0 <= i < |Labels|
    ensures Row(lib, x)[i + 1] ==
      Shown(lib, if x == 127 then "DEL" else Decode(lib, x, Charsets[Labels[i]]))
  {
    RegistryWellFormed();
    var d := Decoded(lib, x);
    assert d[i] == (if x == 127 then "DEL" else Decode(lib, x, Charsets[Labels[i]]));
    assert Row(lib, x)[i + 1] == FilterPrintable(lib, d)[i];
  }

  /** "DEL" is printable ASCII, so the filter keeps it. */
  lemma DelShown(lib: Library)
    ensures Shown(lib, "DEL") == "DEL"
  {
    assert IsPrintable(lib, "DEL");
  }

  /** Byte 127 reads "DEL" in every data column, so the table's own 0x7F
      override is never shown. */
  lemma DelRow(lib: Library)
    ensures forall j :: 1 <= j < 6 ==> Row(lib, 127)[j] == "DEL"
    ensures Row(lib, 127)[3] != [Cp437[0x7F]]
  {
    forall j | 1 <= j < 6
      ensures Row(lib, 127)[j] == "DEL"
    {
      RowCell(lib, 127, j - 1);
      DelShown(lib);
    }
  }

  /** The "437" column shows the override glyph for a table byte and the
      library's code page 437 (with replacement) for any other byte. */
  lemma Cp437Column(lib: Library, x: Byte)
    requires x != 127
    ensures x in Cp437 ==> Row(lib, x)[3] == Shown(lib, [Cp437[x]])
    ensures x !in Cp437 ==> Row(lib, x)[3] == Shown(lib, LibDecode(lib, x, "437"))
  {
    RowCell(lib, x, 2);
  }

  /** Every other column is the library's decoding under its own encoding:
      the override table is not consulted. */
  lemma OtherColumn(lib: Library, x: Byte, i: int)
    requires x != 127
    requires 0 <= i < |Labels| && i != 2
    ensures Charsets[Labels[i]] != "437"
    ensures Row(lib, x)[i + 1] == Shown(lib, LibDecode(lib, x, Charsets[Labels[i]]))
  {
    RowCell(lib, x, i);
  }

  /** Row x + 1 is the row of byte x, so the rows come in ascending byte order. */
  lemma RowsAscending(lib: Library, x: Byte, y: Byte)
    requires x < y
    ensures HexValue(Row(lib, x)[0][2..]) < HexValue(Row(lib, y)[0][2..])
  {
    HexRoundTrip(x);
    HexRoundTrip(y);
  }

  /** No field of any row holds a tab or a newline. */
  lemma {:induction false} TableFieldsClean(lib: Library, k: int)
    requires 0 <= k < |Table(lib)|
    ensures SeparatorFree(Table(lib)[k], '\t')
    ensures SeparatorFree(Table(lib)[k], '\n')
  {
    if k > 0 {
      var x: Byte := k - 1;
      var row := Table(lib)[k];
      assert row == Row(lib, x);
      forall j, n | 0 <= j < |row| && 0 <= n < |row[j]|
        ensures row[j][n] != '\t' && row[j][n] != '\n'
      {
        if j > 0 {
          FilteredHasNoControl(lib, Decoded(lib, x), j - 1, n);
        }
      }
    }
  }

  /** Each printed line splits on tabs back into its row, and the whole
      output splits on newlines back into 257 lines. */
  lemma OutputReadsBack(lib: Library)
    ensures var out := Output(lib);
      Split(out[..|out| - 1], '\n') == Lines(Table(lib))
    ensures forall k :: 0 <= k < 257 ==> Split(Lines(Table(lib))[k], '\t') == Table(lib)[k]
  {
    var lines := Lines(Table(lib));
    assert |lines| == 257;
    forall k | 0 <= k < 257
      ensures Split(lines[k], '\t') == Table(lib)[k]
      ensures '\n' !in lines[k]
    {
      LineReadsBack(lib, k);
    }
    assert SeparatorFree(lines, '\n');
    PrintedLines(lines);
  }

  /** One printed line splits on tabs back into its row and has no newline. */
  lemma LineReadsBack(lib: Library, k: int)
    requires 0 <= k < 257
    ensures Split(Lines(Table(lib))[k], '\t') == Table(lib)[k]
    ensures '\n' !in Lines(Table(lib))[k]
  {
    var row := Table(lib)[k];
    assert Lines(Table(lib))[k] == Join(row, '\t');
    TableFieldsClean(lib, k);
    SplitJoin(row, '\t');
    JoinKeepsOut(row, '\t', '\n');
  }

  /** After the header, row k is the row of byte k - 1. */
  predicate RowsSoFar(lib: Library, rows: seq<seq<string>>)
  {
    && 1 <= |rows| <= 257
    && |rows[0]| >= 1
    && forall k :: 1 <= k < |rows| ==> rows[k] == Row(lib, k - 1)
  }

  lemma RowsSoFarAppend(lib: Library, rows: seq<seq<string>>, x: Byte)
    requires RowsSoFar(lib, rows) && |rows| == x + 1
    ensures RowsSoFar(lib, rows + [Row(lib, x)])
    ensures forall k :: 0 <= k < |rows| ==> |rows[k]| >= 1
  {
    var longer := rows + [Row(lib, x)];
    forall k | 1 <= k < |longer|
      ensures longer[k] == Row(lib, k - 1)
    {
      if k < |rows| {
        assert longer[k] == rows[k];
      }
    }
  }

  /** The header followed by the row of every byte, in order, is the table. */
  lemma TableUnique(lib: Library, rows: seq<seq<string>>)
    requires |rows| == 257 && rows[0] == Header()
    requires RowsSoFar(lib, rows)
    ensures rows == Table(lib)
  {
    var table := Table(lib);
    forall k | 0 <= k < |rows|
      ensures rows[k] == table[k]
    {
      if k > 0 {
        var y: Byte := k - 1;
        assert table[y + 1] == Row(lib, y);
      }
    }
  }

  /** The top-level loop: the header, then one row per byte from CharFrom
      to CharTo, each printed as a tab-joined line. */
  method Summary(lib: Library) returns (rows: seq<seq<string>>, out: string)
    ensures rows == Table(lib)
    ensures out == Output(lib)
    ensures |rows| == 257
    ensures rows[0] == ["Byte", "8859", "win", "437", "850", "utf-8"]
    ensures forall x: Byte :: |rows[x + 1]| == 6 && rows[x + 1][0] == Hex(x)
  {
    rows := [Header()];
    out := Join(Header(), '\t') + "\n";
    LinesAppend([], Header());
    PrintedAppend([], Join(Header(), '\t'));
    for x := CharFrom to CharTo + 1
      invariant |rows| == x - CharFrom + 1 && rows[0] == Header()
      invariant RowsSoFar(lib, rows)
      invariant out == Printed(Lines(rows))
    {
      var b: Byte := x;
      var decoded := Decoded(lib, b);
      var row := [Hex(x)] + FilterPrintable(lib, decoded);
      assert row == Row(lib, b);
      RowsSoFarAppend(lib, rows, b);
      LinesAppend(rows, row);
      PrintedAppend(Lines(rows), Join(row, '\t'));
      rows := rows + [row];
      out := out + Join(row, '\t') + "\n";
    }
    TableUnique(lib, rows);
  }
}
