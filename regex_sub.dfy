/**
 * Python's `re.sub(pattern, repl, s)` for the patterns the renderer builds:
 * text whose only regular-expression metacharacter is `.`, which matches any
 * character but a line break, every other character matching itself. `repl`
 * holds no backslash, so it is inserted literally. Matches are found left to
 * right and never overlap; the scan resumes right after each match. An empty
 * pattern matches at every position (Python 3.7 and later).
 */
module RegexSub {
  import opened Text

  /** No metacharacter other than `.`: Python compiles the text to a fixed-length pattern. */
  predicate SimplePattern(p: string)
  {
    forall i :: 0 <= i < |p| ==> p[i] !in "\\^$*+?{}[]|()"
  }

  predicate CharMatches(pc: char, c: char)
  {
    if pc == '.' then c != '\n' else c == pc
  }

  /** The pattern matches at the start of `s`. */
  predicate MatchesAt(p: string, s: string)
  {
    |p| <= |s| && forall k {:trigger CharMatches(p[k], s[k])} :: 0 <= k < |p| ==> CharMatches(p[k], s[k])
  }

  /** Some position of `s` starts a match of `p`. */
  predicate Occurs(p: string, s: string)
  {
    exists i :: 0 <= i <= |s| && MatchesAt(p, s[i..])
  }

  /** `w` occurs in `s` character for character. */
  predicate OccursExactly(w: string, s: string)
  {
    exists i :: 0 <= i <= |s| && w <= s[i..]
  }

  /** `re.sub(p, r, s)`. */
  function Sub(p: string, r: string, s: string): string
    decreases |s|
  {
    if p == [] then
      if s == [] then r else r + [s[0]] + Sub(p, r, s[1..])
    else if MatchesAt(p, s) then r + Sub(p, r, s[|p|..])
    else if s == [] then []
    else [s[0]] + Sub(p, r, s[1..])
  }

  /** The rewrite introduces no character that is neither in the input nor in the replacement. */
  lemma {:induction false} SubChars(p: string, r: string, s: string, c: char)
    ensures c in Sub(p, r, s) ==> c in s || c in r
    decreases |s|
  {
    if p == [] {
      if s != [] {
        SubChars(p, r, s[1..], c);
      }
    } else if MatchesAt(p, s) {
      SubChars(p, r, s[|p|..], c);
    } else if s != [] {
      SubChars(p, r, s[1..], c);
    }
  }

  /** Wherever the text of `p` occurs, `p` matches. */
  lemma ExactMatches(p: string, s: string)
    ensures p <= s ==> MatchesAt(p, s)
  {
    if p <= s {
      forall k | 0 <= k < |p|
        ensures CharMatches(p[k], s[k])
      {
        if p[k] == '.' {
          assert s[k] == '.';
        }
      }
    }
  }

  /** A string in which the pattern never matches comes back unchanged. */
  lemma {:induction false} SubNoMatch(p: string, r: string, s: string)
    requires p != []
    requires !Occurs(p, s)
    ensures Sub(p, r, s) == s
    decreases |s|
  {
    assert s[0..] == s;
    if s != [] {
      assert !MatchesAt(p, s);
      forall i | 0 <= i <= |s[1..]|
        ensures !MatchesAt(p, s[1..][i..])
      {
        assert s[1..][i..] == s[i + 1..];
      }
      SubNoMatch(p, r, s[1..]);
    }
  }

  /** Replacement-free text of `w` can start the result only where it started the input. */
  predicate AvoidsChars(w: string, r: string)
  {
    forall i :: 0 <= i < |w| ==> w[i] !in r
  }

  /**
   * The rewrite only changes text that a match reaches: a prefix of the result
   * that contains no character of the replacement was already a prefix of the input.
   */
  lemma {:induction false} SubPrefix(p: string, r: string, s: string, w: string)
    requires r != []
    ensures w <= Sub(p, r, s) && AvoidsChars(w, r) ==> w <= s
    decreases |s|
  {
    if w == [] {
    } else if p == [] || MatchesAt(p, s) {
      FrontIsReplacement(p, r, s);
      assert w <= Sub(p, r, s) ==> w[0] == r[0];
    } else if s == [] {
    } else {
      var t := Sub(p, r, s[1..]);
      assert Sub(p, r, s) == [s[0]] + t;
      assert w <= Sub(p, r, s) ==> w[1..] <= t;
      assert AvoidsChars(w, r) ==> AvoidsChars(w[1..], r);
      SubPrefix(p, r, s[1..], w[1..]);
    }
  }

  /** Where the scan finds a match (an empty pattern always does), the result starts with the replacement. */
  lemma FrontIsReplacement(p: string, r: string, s: string)
    requires p == [] || MatchesAt(p, s)
    ensures r <= Sub(p, r, s)
  {
  }

  /** A position of `a + t` inside `a` holds a character of `a`. */
  lemma InsideHead(w: string, a: string, t: string, i: int)
    requires 0 <= i < |a|
    ensures w != [] && w <= (a + t)[i..] ==> w[0] in a
  {
    assert (a + t)[i] == a[i];
  }

  /** A position of `a + t` past `a` is a position of `t`. */
  lemma PastHead(a: string, t: string, i: int)
    requires |a| <= i <= |a + t|
    ensures (a + t)[i..] == t[i - |a|..]
  {
  }

  lemma SliceOfSlice(s: string, n: nat, i: nat)
    requires n + i <= |s|
    ensures s[n..][i..] == s[n + i..]
  {
  }

  /**
   * Every occurrence is rewritten: once `re.sub(p, r, s)` has run, the text of `p`
   * occurs nowhere in the result, provided `p` and `r` share no character.
   */
  lemma {:induction false} SubRemovesText(p: string, r: string, s: string)
    requires p != [] && r != []
    requires AvoidsChars(p, r)
    ensures !OccursExactly(p, Sub(p, r, s))
    decreases |s|
  {
    var t := Sub(p, r, s);
    forall i | 0 <= i <= |t|
      ensures !(p <= t[i..])
    {
      if MatchesAt(p, s) {
        var rest := Sub(p, r, s[|p|..]);
        if i < |r| {
          InsideHead(p, r, rest, i);
        } else {
          PastHead(r, rest, i);
          SubRemovesText(p, r, s[|p|..]);
        }
      } else if s == [] {
      } else if i == 0 {
        SubPrefix(p, r, s, p);
        ExactMatches(p, s);
      } else {
        var rest := Sub(p, r, s[1..]);
        PastHead([s[0]], rest, i);
        SubRemovesText(p, r, s[1..]);
      }
    }
  }

  /** An input without the text of `w` has no occurrence of it in any suffix either. */
  lemma SuffixKeepsAbsent(w: string, s: string, n: nat)
    requires n <= |s|
    requires !OccursExactly(w, s)
    ensures !OccursExactly(w, s[n..])
  {
    forall i | 0 <= i <= |s[n..]|
      ensures !(w <= s[n..][i..])
    {
      SliceOfSlice(s, n, i);
    }
  }

  /**
   * A rewrite whose replacement shares no character with `w` cannot create
   * an occurrence of `w` that the input did not have.
   */
  lemma {:induction false} SubKeepsAbsent(w: string, p: string, r: string, s: string)
    requires w != [] && r != []
    requires AvoidsChars(w, r)
    requires !OccursExactly(w, s)
    ensures !OccursExactly(w, Sub(p, r, s))
    decreases |s|
  {
    var t := Sub(p, r, s);
    forall i | 0 <= i <= |t|
      ensures !(w <= t[i..])
    {
      if i == 0 {
        SubPrefix(p, r, s, w);
        assert s[0..] == s;
      } else if p == [] && s == [] {
        assert t == r + [];
        if i < |r| {
          InsideHead(w, r, [], i);
        }
      } else if p == [] {
        var rest := Sub(p, r, s[1..]);
        assert t == r + ([s[0]] + rest);
        if i < |r| {
          InsideHead(w, r, [s[0]] + rest, i);
        } else if i == |r| {
          PastHead(r, [s[0]] + rest, i);
          SubPrefix(p, r, s[1..], w[1..]);
          assert AvoidsChars(w, r) ==> AvoidsChars(w[1..], r);
          assert s[0..] == s;
        } else {
          assert t == (r + [s[0]]) + rest;
          PastHead(r + [s[0]], rest, i);
          SuffixKeepsAbsent(w, s, 1);
          SubKeepsAbsent(w, p, r, s[1..]);
        }
      } else if MatchesAt(p, s) {
        var rest := Sub(p, r, s[|p|..]);
        if i < |r| {
          InsideHead(w, r, rest, i);
        } else {
          PastHead(r, rest, i);
          SuffixKeepsAbsent(w, s, |p|);
          SubKeepsAbsent(w, p, r, s[|p|..]);
        }
      } else {
        var rest := Sub(p, r, s[1..]);
        PastHead([s[0]], rest, i);
        SuffixKeepsAbsent(w, s, 1);
        SubKeepsAbsent(w, p, r, s[1..]);
      }
    }
  }

  /** Text that cannot start a match (it lacks the pattern's first, literal, character) is copied as it is. */
  lemma {:induction false} SubSkip(p: string, r: string, a: string, b: string)
    requires p != [] && p[0] != '.' && p[0] !in a
    ensures Sub(p, r, a + b) == a + Sub(p, r, b)
    decreases |a|
  {
    if a != [] {
      var ab := a + b;
      assert ab[0] == a[0] && ab[1..] == a[1..] + b;
      assert !CharMatches(p[0], ab[0]);
      assert Sub(p, r, ab) == [a[0]] + Sub(p, r, a[1..] + b);
      SubSkip(p, r, a[1..], b);
      assert [a[0]] + (a[1..] + Sub(p, r, b)) == a + Sub(p, r, b);
    } else {
      assert a + b == b;
    }
  }

  /** A match at the front is replaced and the scan resumes after it. */
  lemma SubHit(p: string, r: string, b: string)
    requires p != []
    ensures Sub(p, r, p + b) == r + Sub(p, r, b)
  {
    ExactMatches(p, p + b);
    assert (p + b)[|p|..] == b;
  }

  /** No match of `p` starts at any of the first `n` positions of `s`. */
  predicate NoMatchBefore(p: string, s: string, n: nat)
  {
    forall i {:trigger MatchesAt(p, s[i..])} :: 0 <= i < n && i <= |s| ==> !MatchesAt(p, s[i..])
  }

  /**
   * The first match is replaced: when no match starts inside `a`, the scan
   * copies `a`, replaces the `p` that follows and resumes on `b`.
   */
  lemma {:induction false} SubFirst(p: string, r: string, a: string, b: string)
    requires p != []
    requires NoMatchBefore(p, a + p + b, |a|)
    ensures Sub(p, r, a + p + b) == a + r + Sub(p, r, b)
    decreases |a|
  {
    if a == [] {
      assert a + p + b == p + b;
      SubHit(p, r, b);
    } else {
      NoMatchShift(p, a, b);
      SubFirst(p, r, a[1..], b);
      var rest, tail := p + b, r + Sub(p, r, b);
      assert Sub(p, r, a[1..] + rest) == a[1..] + tail by {
        assert a[1..] + p + b == a[1..] + rest;
        assert a[1..] + r + Sub(p, r, b) == a[1..] + tail;
      }
      assert !MatchesAt(p, a + rest) by {
        assert a + p + b == a + rest;
      }
      SubStep(p, r, a, rest, tail);
      assert a + p + b == a + rest && a + r + Sub(p, r, b) == a + tail;
    }
  }

  /** Dropping the first character of `a` keeps the positions of `a` free of matches. */
  lemma NoMatchShift(p: string, a: string, b: string)
    requires a != [] && NoMatchBefore(p, a + p + b, |a|)
    ensures !MatchesAt(p, a + p + b)
    ensures NoMatchBefore(p, a[1..] + p + b, |a| - 1)
  {
    var s := a + p + b;
    assert s[0..] == s;
    forall i | 0 <= i < |a| - 1 && i <= |a[1..] + p + b|
      ensures !MatchesAt(p, (a[1..] + p + b)[i..])
    {
      assert (a[1..] + p + b)[i..] == s[i + 1..];
    }
  }

  /** Where no match starts, the scan copies one character of `a` and goes on with the rest. */
  lemma SubStep(p: string, r: string, a: string, rest: string, tail: string)
    requires p != [] && a != [] && !MatchesAt(p, a + rest)
    requires Sub(p, r, a[1..] + rest) == a[1..] + tail
    ensures Sub(p, r, a + rest) == a + tail
  {
    SubCopy(p, r, a + rest);
    assert (a + rest)[0] == a[0] && (a + rest)[1..] == a[1..] + rest;
    ConsConcat(a, tail);
  }

  /** Where no match starts, the scan copies the first character. */
  lemma SubCopy(p: string, r: string, s: string)
    requires p != [] && s != [] && !MatchesAt(p, s)
    ensures Sub(p, r, s) == [s[0]] + Sub(p, r, s[1..])
  {
  }

  lemma ConsConcat(a: string, t: string)
    requires a != []
    ensures [a[0]] + (a[1..] + t) == a + t
  {
    assert [a[0]] + a[1..] == a;
  }

  /**
   * Every occurrence is replaced: text made of pieces joined by `p`, where no
   * piece holds the first character of `p`, comes out as the same pieces joined by `r`.
   */
  lemma {:induction false} SubAll(p: string, r: string, pieces: seq<string>)
    requires p != [] && p[0] != '.' && |pieces| >= 1
    requires forall i :: 0 <= i < |pieces| ==> p[0] !in pieces[i]
    ensures Sub(p, r, JoinWith(pieces, p)) == JoinWith(pieces, r)
  {
    if |pieces| == 1 {
      SubSkip(p, r, pieces[0], []);
      assert pieces[0] + [] == pieces[0];
      assert Sub(p, r, []) == [];
    } else {
      var rest := JoinWith(pieces[1..], p);
      SubAll(p, r, pieces[1..]);
      assert JoinWith(pieces, p) == pieces[0] + (p + rest);
      SubSkip(p, r, pieces[0], p + rest);
      SubHit(p, r, rest);
      assert pieces[0] + (r + JoinWith(pieces[1..], r)) == JoinWith(pieces, r);
    }
  }
}
