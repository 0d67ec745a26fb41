/** Separator-joined text, as produced by Python's `sep.join(fields)` and
    by printing one such line per call to `print`, together with the
    splitting that reads it back. */
module Strings {

  /** `[d].join(fs)`: the fields with one separator between neighbours
      (empty for no fields). */
  function Join(fs: seq<string>, d: char): (r: string)
  {
    if |fs| == 0 then [] else if |fs| == 1 then fs[0] else fs[0] + [d] + Join(fs[1..], d)
  }

  /** `s.split(d)`: the maximal separator-free pieces of `s`, in order. */
  function Split(s: string, d: char): (r: seq<string>)
    ensures |r| >= 1
    ensures forall i :: 0 <= i < |r| ==> d !in r[i]
  {
    if s == [] then [[]]
    else if s[0] == d then [[]] + Split(s[1..], d)
    else
      var rest := Split(s[1..], d);
      [[s[0]] + rest[0]] + rest[1..]
  }

  /** True when no field contains the separator. */
  predicate SeparatorFree(fs: seq<string>, d: char)
  {
    forall i :: 0 <= i < |fs| ==> d !in fs[i]
  }

  /** A separator-free prefix sticks to the first piece of what follows. */
  lemma {:induction false} SplitPrefix(f: string, t: string, d: char)
    requires d !in f
    ensures Split(f + t, d) == [f + Split(t, d)[0]] + Split(t, d)[1..]
  {
    if f == [] {
      assert f + t == t && f + Split(t, d)[0] == Split(t, d)[0];
    } else {
      assert (f + t)[0] == f[0];
      assert (f + t)[1..] == f[1..] + t;
      SplitPrefix(f[1..], t, d);
      assert [f[0]] + (f[1..] + Split(t, d)[0]) == f + Split(t, d)[0];
    }
  }

  /** Joining separator-free fields and splitting again gives the fields back. */
  lemma {:induction false} SplitJoin(fs: seq<string>, d: char)
    requires |fs| >= 1
    requires SeparatorFree(fs, d)
    ensures Split(Join(fs, d), d) == fs
  {
    if |fs| == 1 {
      SplitPrefix(fs[0], [], d);
      assert fs[0] + [] == fs[0];
    } else {
      var tail := [d] + Join(fs[1..], d);
      assert Join(fs, d) == fs[0] + tail;
      SplitPrefix(fs[0], tail, d);
      assert tail[0] == d && tail[1..] == Join(fs[1..], d);
      SplitJoin(fs[1..], d);
      assert Split(tail, d) == [[]] + fs[1..];
      assert fs[0] + [] == fs[0];
    }
  }

  /** The text written by printing each line in turn: each line followed
      by a newline. */
  function Printed(lines: seq<string>): (r: string)
    ensures |lines| >= 1 ==> |r| >= 1 && r[|r| - 1] == '\n'
  {
    if lines == [] then [] else lines[0] + "\n" + Printed(lines[1..])
  }

  /** Printing lines one after another is the newline join plus a final newline. */
  lemma {:induction false} PrintedIsJoin(lines: seq<string>)
    requires |lines| >= 1
    ensures Printed(lines) == Join(lines, '\n') + "\n"
  {
    if |lines| > 1 {
      PrintedIsJoin(lines[1..]);
      assert Printed(lines) == lines[0] + "\n" + (Join(lines[1..], '\n') + "\n");
    }
  }

  /** Printed newline-free lines are read back, line by line, from the
      output with its final newline removed. */
  lemma PrintedLines(lines: seq<string>)
    requires |lines| >= 1
    requires SeparatorFree(lines, '\n')
    ensures var out := Printed(lines); Split(out[..|out| - 1], '\n') == lines
  {
    PrintedIsJoin(lines);
    var out := Printed(lines);
    assert out[..|out| - 1] == Join(lines, '\n');
    SplitJoin(lines, '\n');
  }

  /** A character other than the separator that no field contains is not
      in the joined text. */
  lemma {:induction false} JoinKeepsOut(fs: seq<string>, d: char, e: char)
    requires e != d && SeparatorFree(fs, e)
    ensures e !in Join(fs, d)
  {
    if |fs| > 1 {
      JoinKeepsOut(fs[1..], d, e);
    }
  }

  /** Printing one more line appends that line and a newline. */
  lemma {:induction false} PrintedAppend(lines: seq<string>, line: string)
    ensures Printed(lines + [line]) == Printed(lines) + line + "\n"
  {
    if lines == [] {
      assert [] + [line] == [line];
    } else {
      assert (lines + [line])[1..] == lines[1..] + [line];
      PrintedAppend(lines[1..], line);
    }
  }
}
