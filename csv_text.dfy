/**
 * Comma-separated text: joining fields with a separator, splitting a line back into
 * fields, and the text of a file made of newline-terminated lines.
 */
module CsvText {

  /** The fields written one after another with `sep` between them. */
  function Join(fields: seq<string>, sep: char): string
    decreases |fields|
  {
    if |fields| == 0 then ""
    else if |fields| == 1 then fields[0]
    else fields[0] + [sep] + Join(fields[1..], sep)
  }

  /** The maximal pieces of `s` between occurrences of `sep`; there is always at least one. */
  function Split(s: string, sep: char): (fields: seq<string>)
    ensures |fields| >= 1
    decreases |s|
  {
    if |s| == 0 then [""]
    else if s[0] == sep then [""] + Split(s[1..], sep)
    else
      var rest := Split(s[1..], sep);
      [[s[0]] + rest[0]] + rest[1..]
  }

  /** The text of a file whose lines are `lines`, each terminated by a newline. */
  function Lines(lines: seq<string>): string
    decreases |lines|
  {
    if lines == [] then "" else lines[0] + "\n" + Lines(lines[1..])
  }

  lemma {:induction false} SplitWithoutSep(f: string, sep: char)
    requires sep !in f
    ensures Split(f, sep) == [f]
    decreases |f|
  {
    if |f| > 0 {
      SplitWithoutSep(f[1..], sep);
      assert [f[0]] + f[1..] == f;
    }
  }

  lemma {:induction false} SplitAfterField(f: string, rest: string, sep: char)
    requires sep !in f
    ensures Split(f + [sep] + rest, sep) == [f] + Split(rest, sep)
    decreases |f|
  {
    var s := f + [sep] + rest;
    if |f| == 0 {
      assert s[0] == sep && s[1..] == rest;
    } else {
      assert s[0] == f[0] && s[1..] == f[1..] + [sep] + rest;
      SplitAfterField(f[1..], rest, sep);
      assert [f[0]] + f[1..] == f;
    }
  }

  /** Splitting joined fields gives the fields back when none contains the separator. */
  lemma {:induction false} SplitJoin(fields: seq<string>, sep: char)
    requires |fields| >= 1
    requires forall i :: 0 <= i < |fields| ==> sep !in fields[i]
    ensures Split(Join(fields, sep), sep) == fields
    decreases |fields|
  {
    if |fields| == 1 {
      SplitWithoutSep(fields[0], sep);
    } else {
      SplitJoin(fields[1..], sep);
      SplitAfterField(fields[0], Join(fields[1..], sep), sep);
      assert [fields[0]] + fields[1..] == fields;
    }
  }

  /** A character other than the separator occurs in joined text only inside a field. */
  lemma {:induction false} JoinChars(fields: seq<string>, sep: char, ch: char)
    requires ch != sep
    requires forall i :: 0 <= i < |fields| ==> ch !in fields[i]
    ensures ch !in Join(fields, sep)
    decreases |fields|
  {
    if |fields| > 1 {
      JoinChars(fields[1..], sep, ch);
    }
  }

  /**
   * Splitting a file's text at newlines gives its lines and then one empty piece after
   * the final newline, so a file of n lines holds exactly n newline characters.
   */
  lemma {:induction false} SplitLines(lines: seq<string>)
    requires forall i :: 0 <= i < |lines| ==> '\n' !in lines[i]
    ensures Split(Lines(lines), '\n') == lines + [""]
    decreases |lines|
  {
    if lines != [] {
      SplitLines(lines[1..]);
      SplitAfterField(lines[0], Lines(lines[1..]), '\n');
      assert [lines[0]] + lines[1..] == lines;
    }
  }
}
