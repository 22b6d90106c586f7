/**
 * Plain string helpers: Python's `str.split(sep)` for a one-character separator,
 * its inverse `sep.join(parts)`, and the text of a file written line by line.
 */
module Text {

  /** Number of occurrences of `c` in `s`. */
  function CountChar(s: string, c: char): nat
  {
    if s == [] then 0 else (if s[0] == c then 1 else 0) + CountChar(s[1..], c)
  }

  /** `sep.join(parts)`. */
  function Join(parts: seq<string>, sep: char): string
  {
    if parts == [] then []
    else if |parts| == 1 then parts[0]
    else parts[0] + [sep] + Join(parts[1..], sep)
  }

  /**
   * `s.split(sep)`: the pieces between successive separators. There is always
   * one piece more than there are separators, no piece holds a separator, and
   * joining the pieces with the separator gives `s` back.
   */
  function Split(s: string, sep: char): (parts: seq<string>)
    ensures |parts| == CountChar(s, sep) + 1
    ensures forall i :: 0 <= i < |parts| ==> sep !in parts[i]
    ensures Join(parts, sep) == s
  {
    if s == [] then [[]]
    else
      var rest := Split(s[1..], sep);
      if s[0] == sep then [[]] + rest
      else [[s[0]] + rest[0]] + rest[1..]
  }

  /** Splitting a joined list gives the list back when no piece holds the separator. */
  lemma {:induction false} SplitJoin(parts: seq<string>, sep: char)
    requires |parts| >= 1
    requires forall i :: 0 <= i < |parts| ==> sep !in parts[i]
    ensures Split(Join(parts, sep), sep) == parts
  {
    if |parts| == 1 {
      SplitNoSeparator(parts[0], sep);
    } else {
      var tail := Join(parts[1..], sep);
      SplitJoin(parts[1..], sep);
      SplitPrefix(parts[0], tail, sep);
    }
  }

  /** A string without the separator splits into itself alone. */
  lemma {:induction false} SplitNoSeparator(s: string, sep: char)
    requires sep !in s
    ensures Split(s, sep) == [s]
  {
    if s != [] {
      SplitNoSeparator(s[1..], sep);
    }
  }

  /** Splitting `a + [sep] + b`, where `a` has no separator, puts `a` first and then the pieces of `b`. */
  lemma {:induction false} SplitPrefix(a: string, b: string, sep: char)
    requires sep !in a
    ensures Split(a + [sep] + b, sep) == [a] + Split(b, sep)
  {
    if a == [] {
      assert [] + [sep] + b == [sep] + b;
      assert ([sep] + b)[1..] == b;
    } else {
      assert (a + [sep] + b)[1..] == a[1..] + [sep] + b;
      SplitPrefix(a[1..], b, sep);
      assert [a[0]] + a[1..] == a;
    }
  }

  /** Pieces laid end to end with `sep` between neighbours: `chunks[0] + sep + chunks[1] + ...`. */
  function JoinWith(chunks: seq<string>, sep: string): string
  {
    if chunks == [] then []
    else if |chunks| == 1 then chunks[0]
    else chunks[0] + sep + JoinWith(chunks[1..], sep)
  }

  /** No line holds a line break. */
  predicate SingleLines(lines: seq<string>)
  {
    forall i :: 0 <= i < |lines| ==> '\n' !in lines[i]
  }

  lemma SingleLinesCons(line: string, rest: seq<string>)
    requires '\n' !in line && SingleLines(rest)
    ensures SingleLines([line] + rest)
  {
    forall i | 0 <= i < |[line] + rest|
      ensures '\n' !in ([line] + rest)[i]
    {
      if i > 0 {
        assert ([line] + rest)[i] == rest[i - 1];
      }
    }
  }

  /** The text of a file written one line at a time, each line followed by a line break. */
  function Unlines(lines: seq<string>): string
  {
    if lines == [] then [] else lines[0] + "\n" + Unlines(lines[1..])
  }

  /**
   * Reading a written file back: splitting at line breaks gives the lines in
   * order, followed by the empty piece after the final line break.
   */
  lemma {:induction false} SplitUnlines(lines: seq<string>)
    requires SingleLines(lines)
    ensures Split(Unlines(lines), '\n') == lines + [""]
  {
    if lines == [] {
      assert Unlines(lines) == [];
    } else {
      SplitUnlines(lines[1..]);
      SplitPrefix(lines[0], Unlines(lines[1..]), '\n');
      assert lines[0] + "\n" + Unlines(lines[1..]) == lines[0] + ['\n'] + Unlines(lines[1..]);
      assert [lines[0]] + (lines[1..] + [""]) == lines + [""];
    }
  }

  lemma SingleLinesAppend(a: seq<string>, b: seq<string>)
    requires SingleLines(a) && SingleLines(b)
    ensures SingleLines(a + b)
  {
    forall i | 0 <= i < |a + b|
      ensures '\n' !in (a + b)[i]
    {
      if i >= |a| {
        assert (a + b)[i] == b[i - |a|];
      }
    }
  }

  /** Writing two groups of lines one after the other writes their texts one after the other. */
  lemma {:induction false} UnlinesAppend(a: seq<string>, b: seq<string>)
    ensures Unlines(a + b) == Unlines(a) + Unlines(b)
  {
    if a == [] {
      assert a + b == b;
    } else {
      assert (a + b)[1..] == a[1..] + b;
      UnlinesAppend(a[1..], b);
    }
  }

  /** In `head + body + [""]`, the piece `j` places after the head is piece `j` of the body, or the final empty piece. */
  lemma IndexAfterHead(head: seq<string>, body: seq<string>, j: nat)
    requires j <= |body|
    ensures |head + body + [""]| == |head| + |body| + 1
    ensures (head + body + [""])[|head| + j] == if j < |body| then body[j] else ""
  {
  }
}
