# xpi2pkgbuild PKGBUILD renderer in Dafny

xpi2pkgbuild turns the record that addons.mozilla.org returns for a Firefox
add-on into an Arch Linux PKGBUILD. This project models its renderer,
`gen_pkgbuild`, and proves properties of the text it produces.

The renderer reads these fields of the record:

- the slug;
- the version;
- the file id, download URL and `algorithm:digest` hash;
- the license slug and its custom flag;
- the summary and the homepage.

It also takes a package-name template and an optional maintainer. From these it
writes a fixed sequence of lines:

1. A generated-by comment.
2. A maintainer comment, only when a maintainer is given.
3. A blank line.
4. `pkgname`, `pkgver`, `pkgrel=1`, `pkgdesc`, `arch=('any')`, `url`, `license`, `depends=('firefox')`.
5. `_source_file_id`, `source`, `noextract` and the checksum variable.
6. A blank line and a `package()` function that installs `<slug>.xpi` into
   Firefox's system-wide extension directory.
7. A last blank line.

The modules:

- `Pkgbuild` (pkgbuild.dfy): the record as datatypes, the constants, and
  `GenPkgbuild`.
  - `GenPkgbuild` returns `Success(text)`, or `Failure(MalformedHash)` when the hash
    does not split into exactly two parts at `:`, or `Failure(BadTemplate)` when
    Python's `format` would reject the template.
  - The line-level lemmas read the text back with `Split(text, '\n')`. They show
    which line holds what, for any record whose fields hold no line break.
- `RegexSub` (regex_sub.dfy): Python's `re.sub` for patterns whose only
  metacharacter is `.`.
  - `.` matches any character but a line break; matches are found left to right
    and never overlap.
  - An empty pattern matches at every position.
  - Both URL rewrites use it. The version is compiled as a regular expression, so
    a `.` in `1.2.0` matches any character, as in the source.
- `SlugFormat` (slug_format.dfy): `template.format(slug=name)`.
  - `{slug}` gives the name, and `{{` and `}}` give single braces.
  - Every other use of a brace is an error.
- `Decimal` (decimal.dfy): `str(n)` for an integer, and a parser that reads it back.
- `Text` (text.dfy): `str.split` on one character, its inverse `join`, and the
  text of a file written line by line.
- `Wrappers` (wrappers.dfy): `Option` and `Result`.

## Model

| member | source | states |
|---|---|---|
| `Pkgbuild.GenPkgbuild` | src/xpi2pkgbuild/xpi2pkgbuild.py:18-67 | Rendering fails with `MalformedHash` exactly when the hash does not hold exactly one `:`. It fails at all exactly when that happens or the template is rejected by `format`; otherwise it yields the text. |
| `Pkgbuild.SplitHash` | src/xpi2pkgbuild/xpi2pkgbuild.py:29-30 | Unpacking `hash.split(":")` into two names succeeds exactly when the hash holds one colon. Failure is `MalformedHash`. On success the hash is `algorithm + ":" + digest`, and neither part holds a colon. |
| `Pkgbuild.SplitHashInverse` | src/xpi2pkgbuild/xpi2pkgbuild.py:29-30 | Any colon-free algorithm and digest joined by `:` split back into the same two parts. |
| `Pkgbuild.DefaultPackageName` | src/xpi2pkgbuild/xpi2pkgbuild.py:13 | The default template `firefox-extension-{slug}-xpi` formats to `firefox-extension-<slug>-xpi`. |
| `Pkgbuild.RewriteRemovesFileId` | src/xpi2pkgbuild/xpi2pkgbuild.py:25-27 | After both rewrites the decimal text of the file id occurs nowhere in the URL, whatever the version. |
| `Pkgbuild.RewriteRemovesVersion` | src/xpi2pkgbuild/xpi2pkgbuild.py:27 | After the second rewrite the version text occurs nowhere in the URL, if the version is non-empty and shares no character with `${pkgver}`. |
| `Pkgbuild.RewriteKeepsPlainUrl` | src/xpi2pkgbuild/xpi2pkgbuild.py:25-27 | A URL in which neither the file id nor the version matches is left unchanged. |
| `Pkgbuild.RewriteSourceShape` | src/xpi2pkgbuild/xpi2pkgbuild.py:25-27 | A URL `<prefix><id><middle><version><suffix>` becomes `<prefix>${_source_file_id}<middle>${pkgver}<suffix>` when each value first matches at its own place and nowhere after it. The version may contain the digits of the id, as in `.../file/4003969/ublock_origin-1.44.4.xpi`. |
| `Pkgbuild.RewriteEveryOccurrence` | src/xpi2pkgbuild/xpi2pkgbuild.py:25-27 | Every occurrence of each value is rewritten. A URL made of pieces joined by the file id, none holding the id's first character, becomes the same pieces joined by `${_source_file_id}`. When that result is pieces joined by the version in the same way, the final URL is those pieces joined by `${pkgver}`. |
| `Pkgbuild.RewriteSource` | src/xpi2pkgbuild/xpi2pkgbuild.py:25-27 | The rewritten URL holds a line break only if the URL did. |
| `Pkgbuild.LinesOfOutput` | src/xpi2pkgbuild/xpi2pkgbuild.py:36-65 | Split at line breaks, the text gives back exactly the lines written, in order, then the empty piece after the last break. There are one or two comment lines and eighteen body lines. |
| `Pkgbuild.OutputLines` | src/xpi2pkgbuild/xpi2pkgbuild.py:36-65 | The text has 19 lines without a maintainer and 20 with one. Split at line breaks, that is 20 or 21 pieces, counting the empty piece after the last break. |
| `Pkgbuild.HeaderLines` | src/xpi2pkgbuild/xpi2pkgbuild.py:38-42 | Line 0 is `# This file was generated by xpi2pkgbuild`. Line 1 starts with `# Maintainer: ` exactly when a maintainer is given, and is then `# Maintainer: <m>`. The blank line follows the comments. |
| `Pkgbuild.TextStartsWithHeader` | src/xpi2pkgbuild/xpi2pkgbuild.py:38 | For any record, the text starts with the generated-by comment and a line break. |
| `Pkgbuild.TextMaintainerLine` | src/xpi2pkgbuild/xpi2pkgbuild.py:39-42 | For any record, the text after the first line starts with `# Maintainer: ` exactly when a maintainer is given. |
| `Pkgbuild.MaintainerComment` | src/xpi2pkgbuild/xpi2pkgbuild.py:39-42 | After the header line, the text starts with `# Maintainer: ` if and only if a maintainer comment was written. The alternative is a text that starts with a line break. |
| `Pkgbuild.TextEnds` | src/xpi2pkgbuild/xpi2pkgbuild.py:61-67 | For any record, the text ends with `\n}\n\n`. |
| `Pkgbuild.PackageNameLine` | src/xpi2pkgbuild/xpi2pkgbuild.py:44 | The first line after the blank line is `pkgname='<template formatted with the slug>'`. |
| `Pkgbuild.PackageNameFromTemplate` | src/xpi2pkgbuild/xpi2pkgbuild.py:44 | Take a template made of brace-free pieces joined by `{slug}`, and a well-formed hash. Rendering then succeeds, and the `pkgname` line holds the same pieces joined by the slug. A template with no placeholder is one piece, kept verbatim. |
| `Pkgbuild.VariableLines` | src/xpi2pkgbuild/xpi2pkgbuild.py:45-52 | The version, summary and homepage are copied verbatim into `pkgver`, `pkgdesc` and `url`. `pkgrel=1`, `arch=('any')` and `depends=('firefox')` always appear at their fixed places. |
| `Pkgbuild.LicenseLine` | src/xpi2pkgbuild/xpi2pkgbuild.py:32-34 | The license line is `license=('custom:<slug>')` when the custom flag is set, and `license=('<slug>')` otherwise. |
| `Pkgbuild.FileIdLine` | src/xpi2pkgbuild/xpi2pkgbuild.py:54 | The line starts with `_source_file_id=`, and the text after it reads back as the unmodified file id. |
| `Pkgbuild.SourceLine` | src/xpi2pkgbuild/xpi2pkgbuild.py:55-56 | `source=('<slug>.xpi'::"<rewritten URL>")` is followed by `noextract=('<slug>.xpi')`. |
| `Pkgbuild.ChecksumLine` | src/xpi2pkgbuild/xpi2pkgbuild.py:57 | Take a hash `algorithm:digest` with no other colon and a valid template. Rendering then succeeds, and the checksum line is `<algorithm>sums=('<digest>')`. |
| `Pkgbuild.PackageBlock` | src/xpi2pkgbuild/xpi2pkgbuild.py:59-65 | The file ends with these lines: a blank line, `package() {`, and the install of `<slug>.xpi` to `${pkgdir}/usr/lib/firefox/browser/extensions/<slug>.xpi` with mode 644. Then come `}`, a blank line and the empty piece after the last break. |
| `Pkgbuild.HeadText` | src/xpi2pkgbuild/xpi2pkgbuild.py:38-40 | The comment block is the header line, then the maintainer line when there is one, each ending in a line break. |
| `Pkgbuild.HeadSingle` | src/xpi2pkgbuild/xpi2pkgbuild.py:38-40 | The comment block is one line, or two with a maintainer, and none holds a line break when the maintainer holds none. |
| `Pkgbuild.DescriptionSingle` | src/xpi2pkgbuild/xpi2pkgbuild.py:42-50 | The blank line and the variables from `pkgname` to `license` are eight lines, none holding a line break when the fields hold none. |
| `Pkgbuild.SourceSingle` | src/xpi2pkgbuild/xpi2pkgbuild.py:52-57 | `depends` and the variables that fetch and check the file are five lines, none holding a line break when the fields hold none. |
| `Pkgbuild.PackageSingle` | src/xpi2pkgbuild/xpi2pkgbuild.py:59-65 | The blank line, the `package()` function and the trailing blank line are five lines, none holding a line break when the slug holds none. |
| `Pkgbuild.BodySingle` | src/xpi2pkgbuild/xpi2pkgbuild.py:42-65 | Everything after the comments is eighteen lines, none holding a line break when the fields hold none. |
| `Pkgbuild.LicenseStringShape` | src/xpi2pkgbuild/xpi2pkgbuild.py:32-34 | The license identifier ends with the license slug, and is longer than the slug exactly when the license is custom. |
| `Pkgbuild.FormatName` | src/xpi2pkgbuild/xpi2pkgbuild.py:44 | Formatting the package name succeeds exactly when `format` accepts the template, with the same text. Any rejection is `BadTemplate`. A template without braces is kept as it is. |
| `Text.Split` | src/xpi2pkgbuild/xpi2pkgbuild.py:30 | `str.split` gives one piece more than there are separators. No piece holds a separator, and joining the pieces gives the string back. |
| `Text.SplitJoin` | src/xpi2pkgbuild/xpi2pkgbuild.py:30 | Splitting the join of separator-free pieces gives the pieces back. |
| `Text.SplitUnlines` | src/xpi2pkgbuild/xpi2pkgbuild.py:36-65 | Text written line by line, split at line breaks, gives the lines back followed by one empty piece. |
| `Decimal.NatToDecimalValue` | src/xpi2pkgbuild/xpi2pkgbuild.py:54 | The digits of `str(n)` have value `n`. |
| `Decimal.NatToDecimal` | src/xpi2pkgbuild/xpi2pkgbuild.py:54 | The decimal text of a natural number is non-empty and made of digits. It starts with `0` exactly when the number is zero, so there is no leading zero. |
| `Decimal.DecimalString` | src/xpi2pkgbuild/xpi2pkgbuild.py:54 | `str(n)` is non-empty, made of digits and a sign, and starts with `-` exactly when `n` is negative. |
| `Decimal.DecimalRoundTrip` | src/xpi2pkgbuild/xpi2pkgbuild.py:54 | `str(n)` parses back to `n` for every integer, negative ones included. |
| `Decimal.DecimalInjective` | src/xpi2pkgbuild/xpi2pkgbuild.py:26 | Different file ids print differently. |
| `RegexSub.SubChars` | src/xpi2pkgbuild/xpi2pkgbuild.py:26-27 | Every character of the result of `re.sub` comes from the input or from the replacement. |
| `RegexSub.SubNoMatch` | src/xpi2pkgbuild/xpi2pkgbuild.py:26-27 | A text in which the pattern never matches comes back unchanged. |
| `RegexSub.SubHit` | src/xpi2pkgbuild/xpi2pkgbuild.py:26-27 | A match at the front is replaced, and the scan resumes right after it. |
| `RegexSub.SubSkip` | src/xpi2pkgbuild/xpi2pkgbuild.py:26-27 | Text without the first character of a pattern that does not start with `.` is copied unchanged. |
| `RegexSub.SubFirst` | src/xpi2pkgbuild/xpi2pkgbuild.py:26-27 | When no match starts inside `a`, `re.sub(p, r, a + p + b)` is `a + r + re.sub(p, r, b)`: the first match is replaced and the scan continues after it. |
| `RegexSub.SubAll` | src/xpi2pkgbuild/xpi2pkgbuild.py:26-27 | Every occurrence is replaced. Pieces without the pattern's first character, joined by the pattern, become the same pieces joined by the replacement. |
| `RegexSub.SubRemovesText` | src/xpi2pkgbuild/xpi2pkgbuild.py:26-27 | Take a non-empty pattern that shares no character with the replacement. Its text then no longer occurs in the result. |
| `RegexSub.SubKeepsAbsent` | src/xpi2pkgbuild/xpi2pkgbuild.py:26-27 | Take a text that occurs nowhere in the input and shares no character with the replacement. It occurs nowhere in the result either. |
| `SlugFormat.FormatSlug` | src/xpi2pkgbuild/xpi2pkgbuild.py:44 | A template without braces formats to itself. |
| `SlugFormat.FormatChars` | src/xpi2pkgbuild/xpi2pkgbuild.py:44 | Every character of a formatted name comes from the template or the slug. |
| `SlugFormat.FormatReplacesEveryPlaceholder` | src/xpi2pkgbuild/xpi2pkgbuild.py:44 | Every `{slug}` is replaced: brace-free pieces joined by `{slug}` format to the same pieces joined by the slug. |
| `SlugFormat.FormatLoneBrace` | src/xpi2pkgbuild/xpi2pkgbuild.py:44 | A template with a single brace character is rejected, whatever the slug. |

## Left out

- `main` (argument parsing, the request to the add-ons API, its status check and
  exit, JSON decoding, writing to a file or to standard output) is I/O and is not
  part of this model.
- The record is a total datatype, so a missing key (Python's `KeyError`) and a
  field of the wrong JSON type cannot arise. `is_custom is True` is a boolean
  flag.
- `summary['en-US']` and `homepage['url']['en-US']` are modelled as two plain
  strings.
- `GenPkgbuild` requires the version to hold no regular-expression
  metacharacter other than `.`. Python would compile a version such as
  `1.0+build` with its full regex meaning, or raise on an invalid pattern. Full
  regular expressions are out of scope.
- `SlugFormat.FormatSlug` treats every replacement field other than `{slug}` as
  an error. This includes `{slug!r}`, `{slug:>20}`, `{slug[0]}` and
  `{slug.upper}`, which Python accepts and renders.
- That the text depends only on the arguments is not stated as a lemma. It holds
  of every Dafny function.
- Line-level lemmas assume no field holds a line break (`SingleLineInputs`). The
  lemmas about the raw text (`TextStartsWithHeader`, `TextMaintainerLine`,
  `TextEnds`) and `GenPkgbuild`'s own contract hold without that assumption.
- `RewriteRemovesVersion` needs the version to share no character with
  `${pkgver}`, and it speaks of the version's literal text only. As a pattern, a
  version with `.` can still match in the rewritten URL. For example, `....`
  matches the `${pk` of each inserted `${pkgver}`.
- `re.sub` replaces every occurrence, not only the first, and the model does the
  same.
- A hash is refused unless it holds exactly one colon, because any other count
  fails the tuple unpacking.
- `RegexSub.Sub` carries no contract of its own. Its properties are the lemmas
  `SubNoMatch`, `SubHit`, `SubSkip`, `SubFirst`, `SubAll`, `SubChars`,
  `SubRemovesText` and `SubKeepsAbsent`.
