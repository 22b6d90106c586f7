/**
 * Python's `template.format(slug=name)` as the renderer uses it: `{slug}` is
 * replaced by the name, `{{` and `}}` stand for single braces, and any other
 * brace (another field name, an automatic field `{}`, a lone `}`, an unclosed
 * `{`) makes Python raise, modelled as `Failure(TemplateError)`.
 */
module SlugFormat {
  import opened Wrappers
  import opened Text

  datatype FormatError = TemplateError

  predicate NoBraces(t: string)
  {
    '{' !in t && '}' !in t
  }

  function Prepend(prefix: string, r: Result<string, FormatError>): Result<string, FormatError>
  {
    if r.Success? then Success(prefix + r.value) else r
  }

  /**
   * `t.format(slug=name)`. A template without braces comes back as it is.
   */
  function FormatSlug(t: string, name: string): (r: Result<string, FormatError>)
    ensures NoBraces(t) ==> r == Success(t)
    decreases |t|
  {
    if t == [] then Success([])
    else if t[0] == '{' then
      if |t| >= 2 && t[1] == '{' then Prepend("{", FormatSlug(t[2..], name))
      else if |t| >= 6 && t[1..6] == "slug}" then Prepend(name, FormatSlug(t[6..], name))
      else Failure(TemplateError)
    else if t[0] == '}' then
      if |t| >= 2 && t[1] == '}' then Prepend("}", FormatSlug(t[2..], name))
      else Failure(TemplateError)
    else
      assert t == [t[0]] + t[1..];
      Prepend([t[0]], FormatSlug(t[1..], name))
  }

  /** On success every character of the result comes from the template or the name. */
  lemma {:induction false} FormatChars(t: string, name: string, c: char)
    ensures FormatSlug(t, name).Success? && c in FormatSlug(t, name).value ==> c in t || c in name
    decreases |t|
  {
    if t != [] {
      if t[0] == '{' && |t| >= 2 && t[1] == '{' {
        FormatChars(t[2..], name, c);
      } else if t[0] == '{' && |t| >= 6 && t[1..6] == "slug}" {
        FormatChars(t[6..], name, c);
      } else if t[0] == '}' && |t| >= 2 && t[1] == '}' {
        FormatChars(t[2..], name, c);
      } else if t[0] != '{' && t[0] != '}' {
        FormatChars(t[1..], name, c);
      }
    }
  }

  /** Text without braces is copied through, so the scan continues after it. */
  lemma {:induction false} FormatLiteralPrefix(a: string, rest: string, name: string)
    requires NoBraces(a)
    ensures FormatSlug(a + rest, name) == Prepend(a, FormatSlug(rest, name))
    decreases |a|
  {
    if a != [] {
      assert (a + rest)[0] == a[0] && (a + rest)[1..] == a[1..] + rest;
      FormatCopy(a + rest, name);
      FormatLiteralPrefix(a[1..], rest, name);
      PrependTwice([a[0]], a[1..], FormatSlug(rest, name));
      assert [a[0]] + a[1..] == a;
    } else {
      assert a + rest == rest;
      PrependTwice([], [], FormatSlug(rest, name));
    }
  }

  /** A character that is not a brace is copied through. */
  lemma FormatCopy(t: string, name: string)
    requires t != [] && t[0] != '{' && t[0] != '}'
    ensures FormatSlug(t, name) == Prepend([t[0]], FormatSlug(t[1..], name))
  {
  }

  lemma PrependTwice(x: string, y: string, r: Result<string, FormatError>)
    ensures Prepend(x, Prepend(y, r)) == Prepend(x + y, r)
    ensures Prepend([], r) == r
  {
    if r.Success? {
      assert x + (y + r.value) == x + y + r.value;
      assert [] + r.value == r.value;
    }
  }

  /**
   * Every placeholder is replaced: a template made of brace-free pieces joined
   * by `{slug}` formats to the same pieces joined by the name.
   */
  lemma {:induction false} FormatReplacesEveryPlaceholder(chunks: seq<string>, name: string)
    requires |chunks| >= 1
    requires forall i :: 0 <= i < |chunks| ==> NoBraces(chunks[i])
    ensures FormatSlug(JoinWith(chunks, "{slug}"), name) == Success(JoinWith(chunks, name))
  {
    if |chunks| > 1 {
      var rest := JoinWith(chunks[1..], "{slug}");
      FormatReplacesEveryPlaceholder(chunks[1..], name);
      var t := "{slug}" + rest;
      assert t[0] == '{' && t[1] != '{' && t[1..6] == "slug}" && t[6..] == rest;
      FormatLiteralPrefix(chunks[0], t, name);
      assert chunks[0] + "{slug}" + rest == chunks[0] + t;
      assert FormatSlug(t, name) == Prepend(name, FormatSlug(rest, name));
      assert chunks[0] + (name + JoinWith(chunks[1..], name)) == JoinWith(chunks, name);
    }
  }

  /** A template with exactly one brace character is rejected, whatever the name. */
  lemma {:induction false} FormatLoneBrace(a: string, brace: char, b: string, name: string)
    requires brace == '{' || brace == '}'
    requires NoBraces(a) && NoBraces(b)
    ensures FormatSlug(a + [brace] + b, name) == Failure(TemplateError)
  {
    FormatLiteralPrefix(a, [brace] + b, name);
    assert a + [brace] + b == a + ([brace] + b);
    var t := [brace] + b;
    assert t[0] == brace;
    if |t| >= 2 {
      assert t[1] == b[0];
    }
    if |t| >= 6 {
      assert t[1..6] == b[..5];
      assert t[5] == b[4];
    }
  }
}
