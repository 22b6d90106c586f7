/**
 * The PKGBUILD renderer of xpi2pkgbuild: from the add-on record returned by the
 * add-ons API, a package-name template and an optional maintainer, the text of
 * an Arch Linux PKGBUILD that downloads the `.xpi` file, checks its digest and
 * installs it into Firefox's system-wide extension directory.
 */
module Pkgbuild {
  import opened Wrappers
  import opened Text
  import opened Decimal
  import opened RegexSub
  import opened SlugFormat

  const PROGNAME := "xpi2pkgbuild"
  /** Package-name template used when none is given on the command line. */
  const DEFAULT_PKGNAME := "firefox-extension-" + "{slug}" + "-xpi"

  /** Shell references written into the download URL in place of the file id and the version. */
  const FILE_ID_REF := "${_source_file_id}"
  const PKGVER_REF := "${pkgver}"

  const HEADER := "# This file was generated by " + PROGNAME
  const MAINTAINER_PREFIX := "# Maintainer: "
  /** `${pkgdir}/usr/lib/firefox/browser/extensions/`, Firefox's system-wide extension directory under the package root. */
  const INSTALL_DIR := "${pkgdir}" + "/usr/lib/firefox" + "/browser/extensions/"

  /** `current_version.license`. */
  datatype License = License(slug: string, isCustom: bool)

  /** `current_version.file`: numeric id, download URL and `algorithm:digest` hash. */
  datatype AddonFile = AddonFile(id: int, url: string, hash: string)

  /** `current_version`. */
  datatype CurrentVersion = CurrentVersion(version: string, file: AddonFile, license: License)

  /**
   * The fields of the add-on record that the renderer reads; `summary` is
   * `summary.en-US` and `homepage` is `homepage.url.en-US`.
   */
  datatype ExtensionRecord = ExtensionRecord(
    slug: string,
    summary: string,
    homepage: string,
    currentVersion: CurrentVersion)

  /** Why no PKGBUILD is produced: the hash does not split in two, or the template is not a valid format string. */
  datatype RenderError = MalformedHash | BadTemplate

  /** The version is compiled as a regular expression; the model covers those whose only metacharacter is `.`. */
  predicate Renderable(ext: ExtensionRecord)
  {
    SimplePattern(ext.currentVersion.version)
  }

  /**
   * The download URL with every match of the file id replaced by `${_source_file_id}`,
   * then every match of the version replaced by `${pkgver}`.
   */
  function RewriteSource(url: string, fileId: int, version: string): (r: string)
    ensures '\n' !in url ==> '\n' !in r
  {
    var first := Sub(DecimalString(fileId), FILE_ID_REF, url);
    SubChars(DecimalString(fileId), FILE_ID_REF, url, '\n');
    SubChars(version, PKGVER_REF, first, '\n');
    Sub(version, PKGVER_REF, first)
  }

  /**
   * `algorithm, digest = hash.split(":")`: accepted exactly when the hash holds
   * one colon, and then the two parts are the text on either side of it.
   */
  function SplitHash(hash: string): (r: Result<(string, string), RenderError>)
    ensures r.Success? <==> CountChar(hash, ':') == 1
    ensures r.Failure? ==> r.error == MalformedHash
    ensures r.Success? ==> hash == r.value.0 + ":" + r.value.1
    ensures r.Success? ==> ':' !in r.value.0 && ':' !in r.value.1
  {
    var parts := Split(hash, ':');
    if |parts| != 2 then Failure(MalformedHash)
    else
      assert Join(parts, ':') == parts[0] + [':'] + Join(parts[1..], ':');
      Success((parts[0], parts[1]))
  }

  /** The license identifier: the slug, prefixed with `custom:` for a custom license. */
  function LicenseString(license: License): (r: string)
  {
    if license.isCustom then "custom:" + license.slug else license.slug
  }

  /**
   * The license identifier ends with the license slug, and is longer than the
   * slug exactly when the license is custom.
   */
  lemma LicenseStringShape(license: License)
    ensures var r := LicenseString(license);
      && |r| >= |license.slug| && r[|r| - |license.slug|..] == license.slug
      && (license.isCustom <==> |r| > |license.slug|)
  {
  }

  /** `pkgname.format(slug=...)`, any rejection of the template reported as `BadTemplate`. */
  function FormatName(template: string, name: string): (r: Result<string, RenderError>)
    ensures r.Success? <==> FormatSlug(template, name).Success?
    ensures r.Success? ==> r.value == FormatSlug(template, name).value
    ensures r.Failure? ==> r.error == BadTemplate
    ensures NoBraces(template) ==> r == Success(template)
  {
    match FormatSlug(template, name)
    case Success(s) => Success(s)
    case Failure(_) => Failure(BadTemplate)
  }

  /** The install command of `package()`: copy `<slug>.xpi` into the extension directory, mode 644. */
  function InstallLine(name: string): (r: string)
  {
    "  install -Dm644 '" + name + ".xpi' \"" + INSTALL_DIR + name + ".xpi\""
  }

  /** The generated-by comment, then the maintainer comment when a maintainer is given. */
  function HeadLines(maintainer: Option<string>): (lines: seq<string>)
  {
    [HEADER] + (if maintainer.Some? then [MAINTAINER_PREFIX + maintainer.value] else [])
  }

  /** The blank line after the comments and the descriptive variables, up to `license`. */
  function DescriptionLines(ext: ExtensionRecord, pkgName: string): (lines: seq<string>)
  {
    [ "",
      "pkgname='" + pkgName + "'",
      "pkgver=" + ext.currentVersion.version,
      "pkgrel=1",
      "pkgdesc='" + ext.summary + "'",
      "arch=('any')",
      "url='" + ext.homepage + "'",
      "license=('" + LicenseString(ext.currentVersion.license) + "')" ]
  }

  /** The dependency and the variables that fetch and check the `.xpi` file. */
  function SourceLines(ext: ExtensionRecord, sum: (string, string)): (lines: seq<string>)
  {
    var name := ext.slug;
    var sourceFileId := ext.currentVersion.file.id;
    var source := RewriteSource(ext.currentVersion.file.url, sourceFileId, ext.currentVersion.version);
    [ "depends=('firefox')",
      "_source_file_id=" + DecimalString(sourceFileId),
      "source=('" + name + ".xpi'::\"" + source + "\")",
      "noextract=('" + name + ".xpi')",
      sum.0 + "sums=('" + sum.1 + "')" ]
  }

  /** A blank line, the `package()` function, and the trailing blank line. */
  function PackageLines(name: string): (lines: seq<string>)
  {
    [ "",
      "package() {",
      InstallLine(name),
      "}",
      "" ]
  }

  /**
   * The eighteen lines from the blank line after the comments to the end, given
   * the formatted package name and the two parts of the hash.
   */
  function BodyLines(ext: ExtensionRecord, pkgName: string, sum: (string, string)): seq<string>
  {
    DescriptionLines(ext, pkgName) + SourceLines(ext, sum) + PackageLines(ext.slug)
  }

  /**
   * `gen_pkgbuild(extension_data, pkgname, maintainer)`: the PKGBUILD text, written
   * one line at a time. It fails exactly when the hash does not split into two
   * parts, or else when the template is rejected by `format`; on success the text
   * starts with the generated-by comment and ends with the closing brace of
   * `package()` and a blank line.
   */
  function GenPkgbuild(ext: ExtensionRecord, pkgname: string, maintainer: Option<string>): (r: Result<string, RenderError>)
    requires Renderable(ext)
    ensures r == Failure(MalformedHash) <==> CountChar(ext.currentVersion.file.hash, ':') != 1
    ensures r.Failure? <==> CountChar(ext.currentVersion.file.hash, ':') != 1 || FormatSlug(pkgname, ext.slug).Failure?
  {
    var sum :- SplitHash(ext.currentVersion.file.hash);
    var pkgName :- FormatName(pkgname, ext.slug);
    Success(Unlines(HeadLines(maintainer) + BodyLines(ext, pkgName, sum)))
  }

  lemma {:induction false} UnlinesEnd(lines: seq<string>)
    requires |lines| >= 3 && lines[|lines| - 2] == "}" && lines[|lines| - 1] == ""
    ensures |Unlines(lines)| >= 4 && Unlines(lines)[|Unlines(lines)| - 4..] == "\n}\n\n"
  {
    if |lines| == 3 {
      assert Unlines(lines[2..]) == "\n";
      assert Unlines(lines[1..]) == "}\n\n";
      assert Unlines(lines) == lines[0] + "\n}\n\n";
    } else {
      UnlinesEnd(lines[1..]);
    }
  }

  /** The hash split of `algorithm:digest` gives back the algorithm and the digest. */
  lemma SplitHashInverse(algorithm: string, digest: string)
    requires ':' !in algorithm && ':' !in digest
    ensures SplitHash(algorithm + ":" + digest) == Success((algorithm, digest))
  {
    assert Join([algorithm, digest], ':') == algorithm + ":" + digest;
    SplitJoin([algorithm, digest], ':');
  }

  /** With the default template the package is named `firefox-extension-<slug>-xpi`. */
  lemma DefaultPackageName(name: string)
    ensures FormatSlug(DEFAULT_PKGNAME, name) == Success("firefox-extension-" + name + "-xpi")
  {
    var chunks := ["firefox-extension-", "-xpi"];
    assert JoinWith(chunks[1..], "{slug}") == "-xpi";
    assert JoinWith(chunks[1..], name) == "-xpi";
    FormatReplacesEveryPlaceholder(chunks, name);
  }

  /**
   * URL rewrite: the decimal file id no longer occurs anywhere in the rewritten
   * URL, whatever the version, since neither shell reference holds a digit or `-`.
   */
  lemma RewriteRemovesFileId(url: string, fileId: int, version: string)
    ensures !OccursExactly(DecimalString(fileId), RewriteSource(url, fileId, version))
  {
    var id := DecimalString(fileId);
    assert AvoidsChars(id, FILE_ID_REF);
    assert AvoidsChars(id, PKGVER_REF);
    SubRemovesText(id, FILE_ID_REF, url);
    SubKeepsAbsent(id, version, PKGVER_REF, Sub(id, FILE_ID_REF, url));
  }

  /**
   * URL rewrite: the text of the version no longer occurs in the rewritten URL,
   * provided it is not empty and shares no character with `${pkgver}`.
   */
  lemma RewriteRemovesVersion(url: string, fileId: int, version: string)
    requires version != [] && AvoidsChars(version, PKGVER_REF)
    ensures !OccursExactly(version, RewriteSource(url, fileId, version))
  {
    SubRemovesText(version, PKGVER_REF, Sub(DecimalString(fileId), FILE_ID_REF, url));
  }

  /** URL rewrite: a URL in which neither the file id nor the version matches is kept as it is. */
  lemma RewriteKeepsPlainUrl(url: string, fileId: int, version: string)
    requires version != []
    requires !Occurs(DecimalString(fileId), url) && !Occurs(version, url)
    ensures RewriteSource(url, fileId, version) == url
  {
    SubNoMatch(DecimalString(fileId), FILE_ID_REF, url);
    SubNoMatch(version, PKGVER_REF, url);
  }

  /** No field that reaches the text holds a line break, so every PKGBUILD line is one line of the file. */
  predicate SingleLineInputs(ext: ExtensionRecord, pkgname: string, maintainer: Option<string>)
  {
    '\n' !in ext.slug + ext.summary + ext.homepage + ext.currentVersion.version
      + ext.currentVersion.file.url + ext.currentVersion.file.hash
      + ext.currentVersion.license.slug + pkgname
      + (if maintainer.Some? then maintainer.value else "")
  }

  /** Number of comment lines before the blank line. */
  function HeadCount(maintainer: Option<string>): nat
  {
    if maintainer.Some? then 2 else 1
  }

  lemma HeadSingle(maintainer: Option<string>)
    requires maintainer.Some? ==> '\n' !in maintainer.value
    ensures SingleLines(HeadLines(maintainer)) && |HeadLines(maintainer)| == HeadCount(maintainer)
  {
    assert '\n' !in HEADER;
    if maintainer.Some? {
      assert '\n' !in MAINTAINER_PREFIX + maintainer.value;
      SingleLinesCons(HEADER, [MAINTAINER_PREFIX + maintainer.value]);
    }
  }

  lemma DescriptionSingle(ext: ExtensionRecord, pkgName: string)
    requires '\n' !in ext.summary && '\n' !in ext.homepage
    requires '\n' !in ext.currentVersion.version && '\n' !in ext.currentVersion.license.slug
    requires '\n' !in pkgName
    ensures SingleLines(DescriptionLines(ext, pkgName)) && |DescriptionLines(ext, pkgName)| == 8
  {
    var license := LicenseString(ext.currentVersion.license);
    var l7 := ["license=('" + license + "')"];
    assert SingleLines(l7);
    var l6 := ["url='" + ext.homepage + "'"] + l7;
    SingleLinesCons("url='" + ext.homepage + "'", l7);
    var l5 := ["arch=('any')"] + l6;
    SingleLinesCons("arch=('any')", l6);
    var l4 := ["pkgdesc='" + ext.summary + "'"] + l5;
    SingleLinesCons("pkgdesc='" + ext.summary + "'", l5);
    var l3 := ["pkgrel=1"] + l4;
    SingleLinesCons("pkgrel=1", l4);
    var l2 := ["pkgver=" + ext.currentVersion.version] + l3;
    SingleLinesCons("pkgver=" + ext.currentVersion.version, l3);
    var l1 := ["pkgname='" + pkgName + "'"] + l2;
    SingleLinesCons("pkgname='" + pkgName + "'", l2);
    SingleLinesCons("", l1);
    assert DescriptionLines(ext, pkgName) == [""] + l1;
  }

  lemma SourceSingle(ext: ExtensionRecord, sum: (string, string))
    requires '\n' !in ext.slug && '\n' !in ext.currentVersion.file.url
    requires '\n' !in sum.0 && '\n' !in sum.1
    ensures SingleLines(SourceLines(ext, sum)) && |SourceLines(ext, sum)| == 5
  {
    var name := ext.slug;
    var fileId := DecimalString(ext.currentVersion.file.id);
    var source := RewriteSource(ext.currentVersion.file.url, ext.currentVersion.file.id, ext.currentVersion.version);
    assert '\n' !in fileId;
    var l4 := [sum.0 + "sums=('" + sum.1 + "')"];
    assert SingleLines(l4);
    var l3 := ["noextract=('" + name + ".xpi')"] + l4;
    SingleLinesCons("noextract=('" + name + ".xpi')", l4);
    var l2 := ["source=('" + name + ".xpi'::\"" + source + "\")"] + l3;
    SingleLinesCons("source=('" + name + ".xpi'::\"" + source + "\")", l3);
    var l1 := ["_source_file_id=" + fileId] + l2;
    SingleLinesCons("_source_file_id=" + fileId, l2);
    SingleLinesCons("depends=('firefox')", l1);
    assert SourceLines(ext, sum) == ["depends=('firefox')"] + l1;
  }

  lemma PackageSingle(name: string)
    requires '\n' !in name
    ensures SingleLines(PackageLines(name)) && |PackageLines(name)| == 5
  {
    assert '\n' !in INSTALL_DIR;
    var l3 := ["}", ""];
    SingleLinesCons("}", [""]);
    var l2 := [InstallLine(name)] + l3;
    SingleLinesCons(InstallLine(name), l3);
    var l1 := ["package() {"] + l2;
    SingleLinesCons("package() {", l2);
    SingleLinesCons("", l1);
    assert PackageLines(name) == [""] + l1;
  }

  lemma BodySingle(ext: ExtensionRecord, pkgName: string, sum: (string, string))
    requires '\n' !in ext.slug && '\n' !in ext.summary && '\n' !in ext.homepage
    requires '\n' !in ext.currentVersion.version && '\n' !in ext.currentVersion.license.slug
    requires '\n' !in ext.currentVersion.file.url
    requires '\n' !in pkgName && '\n' !in sum.0 && '\n' !in sum.1
    ensures SingleLines(BodyLines(ext, pkgName, sum)) && |BodyLines(ext, pkgName, sum)| == 18
  {
    DescriptionSingle(ext, pkgName);
    SourceSingle(ext, sum);
    PackageSingle(ext.slug);
    SingleLinesAppend(DescriptionLines(ext, pkgName), SourceLines(ext, sum));
    SingleLinesAppend(DescriptionLines(ext, pkgName) + SourceLines(ext, sum), PackageLines(ext.slug));
  }

  /**
   * Read back at its line breaks, a rendered PKGBUILD gives exactly the lines
   * written, in order: the comments, the body, and the empty text after the
   * final line break.
   */
  lemma LinesOfOutput(ext: ExtensionRecord, pkgname: string, maintainer: Option<string>)
    requires Renderable(ext) && SingleLineInputs(ext, pkgname, maintainer)
    requires GenPkgbuild(ext, pkgname, maintainer).Success?
    ensures Split(GenPkgbuild(ext, pkgname, maintainer).value, '\n')
      == HeadLines(maintainer)
         + BodyLines(ext, FormatSlug(pkgname, ext.slug).value, SplitHash(ext.currentVersion.file.hash).value)
         + [""]
    ensures |HeadLines(maintainer)| == HeadCount(maintainer)
    ensures |BodyLines(ext, FormatSlug(pkgname, ext.slug).value, SplitHash(ext.currentVersion.file.hash).value)| == 18
  {
    var pkgName := FormatSlug(pkgname, ext.slug).value;
    var sum := SplitHash(ext.currentVersion.file.hash).value;
    SingleLineFields(ext, pkgname);
    HeadSingle(maintainer);
    BodySingle(ext, pkgName, sum);
    SingleLinesAppend(HeadLines(maintainer), BodyLines(ext, pkgName, sum));
    SplitUnlines(HeadLines(maintainer) + BodyLines(ext, pkgName, sum));
  }

  /** The rendered text read back at its line breaks: nineteen pieces after the comment lines. */
  function OutputLines(ext: ExtensionRecord, pkgname: string, maintainer: Option<string>): (lines: seq<string>)
    requires Renderable(ext) && SingleLineInputs(ext, pkgname, maintainer)
    requires GenPkgbuild(ext, pkgname, maintainer).Success?
    ensures |lines| == HeadCount(maintainer) + 19
  {
    LinesOfOutput(ext, pkgname, maintainer);
    Split(GenPkgbuild(ext, pkgname, maintainer).value, '\n')
  }

  /** Line `j` of the body sits right after the comment lines, and nothing but the final empty piece follows the body. */
  lemma BodyLineAt(ext: ExtensionRecord, pkgname: string, maintainer: Option<string>, j: nat)
    requires Renderable(ext) && SingleLineInputs(ext, pkgname, maintainer)
    requires GenPkgbuild(ext, pkgname, maintainer).Success?
    requires j < 18
    ensures |OutputLines(ext, pkgname, maintainer)| == HeadCount(maintainer) + 19
    ensures j < 8 ==>
      OutputLines(ext, pkgname, maintainer)[HeadCount(maintainer) + j] == DescriptionLines(ext, FormatSlug(pkgname, ext.slug).value)[j]
    ensures 8 <= j < 13 ==>
      OutputLines(ext, pkgname, maintainer)[HeadCount(maintainer) + j] == SourceLines(ext, SplitHash(ext.currentVersion.file.hash).value)[j - 8]
    ensures 13 <= j ==>
      OutputLines(ext, pkgname, maintainer)[HeadCount(maintainer) + j] == PackageLines(ext.slug)[j - 13]
    ensures OutputLines(ext, pkgname, maintainer)[HeadCount(maintainer) + 18] == ""
  {
    LinesOfOutput(ext, pkgname, maintainer);
    var d := DescriptionLines(ext, FormatSlug(pkgname, ext.slug).value);
    var src := SourceLines(ext, SplitHash(ext.currentVersion.file.hash).value);
    var pk := PackageLines(ext.slug);
    var b := d + src + pk;
    assert |d| == 8 && |src| == 5 && |pk| == 5;
    IndexAfterHead(HeadLines(maintainer), b, j);
    IndexAfterHead(HeadLines(maintainer), b, |b|);
    GroupIndex(d, src, pk, j);
  }

  /** Indexing the three line groups laid end to end. */
  lemma GroupIndex(d: seq<string>, src: seq<string>, pk: seq<string>, j: nat)
    requires |d| == 8 && |src| == 5 && |pk| == 5 && j < 18
    ensures j < 8 ==> (d + src + pk)[j] == d[j]
    ensures 8 <= j < 13 ==> (d + src + pk)[j] == src[j - 8]
    ensures 13 <= j ==> (d + src + pk)[j] == pk[j - 13]
  {
  }

  /** The formatted name, the rewritten URL and the two parts of the hash stay on one line. */
  lemma SingleLineFields(ext: ExtensionRecord, pkgname: string)
    requires '\n' !in ext.currentVersion.file.hash && '\n' !in pkgname && '\n' !in ext.slug
    requires SplitHash(ext.currentVersion.file.hash).Success? && FormatSlug(pkgname, ext.slug).Success?
    ensures '\n' !in SplitHash(ext.currentVersion.file.hash).value.0
    ensures '\n' !in SplitHash(ext.currentVersion.file.hash).value.1
    ensures '\n' !in FormatSlug(pkgname, ext.slug).value
  {
    FormatChars(pkgname, ext.slug, '\n');
  }

  /**
   * Line order, head: the first line is the generated-by comment; the second is
   * `# Maintainer: <m>` exactly when a maintainer is given, and the blank line
   * comes right after the comments. The file has nineteen lines, twenty with a
   * maintainer.
   */
  lemma HeaderLines(ext: ExtensionRecord, pkgname: string, maintainer: Option<string>)
    requires Renderable(ext) && SingleLineInputs(ext, pkgname, maintainer)
    requires GenPkgbuild(ext, pkgname, maintainer).Success?
    ensures var lines := OutputLines(ext, pkgname, maintainer);
      && |lines| == HeadCount(maintainer) + 19
      && lines[0] == "# This file was generated by " + PROGNAME
      && (MAINTAINER_PREFIX <= lines[1] <==> maintainer.Some?)
      && (maintainer.Some? ==> lines[1] == MAINTAINER_PREFIX + maintainer.value)
      && lines[HeadCount(maintainer)] == ""
  {
    LinesOfOutput(ext, pkgname, maintainer);
    BodyLineAt(ext, pkgname, maintainer, 0);
  }

  /** The comment block as text: the header line, then the maintainer line if any. */
  lemma HeadText(maintainer: Option<string>)
    ensures Unlines(HeadLines(maintainer))
      == HEADER + "\n" + (if maintainer.Some? then MAINTAINER_PREFIX + maintainer.value + "\n" else "")
  {
    var head := HeadLines(maintainer);
    if maintainer.Some? {
      assert head[1..][1..] == [];
      assert Unlines(head[1..]) == MAINTAINER_PREFIX + maintainer.value + "\n" + Unlines([]);
    } else {
      assert head[1..] == [];
    }
  }

  /** The rendered text is the head block followed by the body block. */
  lemma RenderedText(ext: ExtensionRecord, pkgname: string, maintainer: Option<string>)
    requires Renderable(ext) && GenPkgbuild(ext, pkgname, maintainer).Success?
    ensures GenPkgbuild(ext, pkgname, maintainer).value
      == Unlines(HeadLines(maintainer))
         + Unlines(BodyLines(ext, FormatSlug(pkgname, ext.slug).value, SplitHash(ext.currentVersion.file.hash).value))
  {
    UnlinesAppend(HeadLines(maintainer),
      BodyLines(ext, FormatSlug(pkgname, ext.slug).value, SplitHash(ext.currentVersion.file.hash).value));
  }

  /** The text opens with the generated-by comment on a line of its own. */
  lemma TextStartsWithHeader(ext: ExtensionRecord, pkgname: string, maintainer: Option<string>)
    requires Renderable(ext) && GenPkgbuild(ext, pkgname, maintainer).Success?
    ensures HEADER + "\n" <= GenPkgbuild(ext, pkgname, maintainer).value
  {
    RenderedText(ext, pkgname, maintainer);
    HeadText(maintainer);
  }

  /**
   * The second line is a `# Maintainer: ` comment exactly when a maintainer
   * is given; otherwise it is the blank line that opens the body.
   */
  lemma TextMaintainerLine(ext: ExtensionRecord, pkgname: string, maintainer: Option<string>)
    requires Renderable(ext) && GenPkgbuild(ext, pkgname, maintainer).Success?
    ensures var out := GenPkgbuild(ext, pkgname, maintainer).value;
      |HEADER| + 1 <= |out| && (MAINTAINER_PREFIX <= out[|HEADER| + 1..] <==> maintainer.Some?)
  {
    RenderedText(ext, pkgname, maintainer);
    HeadText(maintainer);
    var body := BodyLines(ext, FormatSlug(pkgname, ext.slug).value, SplitHash(ext.currentVersion.file.hash).value);
    assert Unlines(body) == "" + "\n" + Unlines(body[1..]);
    MaintainerComment(maintainer, Unlines(body));
  }

  /** After the header line comes either the maintainer comment or a text starting with a line break. */
  lemma MaintainerComment(maintainer: Option<string>, rest: string)
    requires |rest| >= 1 && rest[0] == '\n'
    ensures var t := HEADER + "\n" + (if maintainer.Some? then MAINTAINER_PREFIX + maintainer.value + "\n" else "") + rest;
      |HEADER| + 1 <= |t| && (MAINTAINER_PREFIX <= t[|HEADER| + 1..] <==> maintainer.Some?)
  {
    var line := if maintainer.Some? then MAINTAINER_PREFIX + maintainer.value + "\n" else "";
    var t := HEADER + "\n" + line + rest;
    assert t[|HEADER| + 1..] == line + rest;
    if maintainer.None? {
      assert (line + rest)[0] == '\n';
    } else {
      assert line + rest == MAINTAINER_PREFIX + (maintainer.value + "\n" + rest);
    }
  }

  /** The text closes the `package()` function and ends with a blank line. */
  lemma TextEnds(ext: ExtensionRecord, pkgname: string, maintainer: Option<string>)
    requires Renderable(ext) && GenPkgbuild(ext, pkgname, maintainer).Success?
    ensures var out := GenPkgbuild(ext, pkgname, maintainer).value;
      |out| >= 4 && out[|out| - 4..] == "\n}\n\n"
  {
    var head := HeadLines(maintainer);
    var body := BodyLines(ext, FormatSlug(pkgname, ext.slug).value, SplitHash(ext.currentVersion.file.hash).value);
    assert GenPkgbuild(ext, pkgname, maintainer).value == Unlines(head + body);
    UnlinesEnd(head + body);
  }

  /** Package name: `pkgname='<formatted template>'`. */
  lemma PackageNameLine(ext: ExtensionRecord, pkgname: string, maintainer: Option<string>)
    requires Renderable(ext) && SingleLineInputs(ext, pkgname, maintainer)
    requires GenPkgbuild(ext, pkgname, maintainer).Success?
    ensures OutputLines(ext, pkgname, maintainer)[HeadCount(maintainer) + 1]
      == "pkgname='" + FormatSlug(pkgname, ext.slug).value + "'"
  {
    BodyLineAt(ext, pkgname, maintainer, 1);
  }

  /**
   * Package name from a template: every `{slug}` is replaced by the slug, so a
   * template without placeholder is kept verbatim and the default template
   * gives `firefox-extension-<slug>-xpi`.
   */
  lemma PackageNameFromTemplate(ext: ExtensionRecord, pkgname: string, maintainer: Option<string>, chunks: seq<string>)
    requires Renderable(ext) && SingleLineInputs(ext, pkgname, maintainer)
    requires CountChar(ext.currentVersion.file.hash, ':') == 1
    requires |chunks| >= 1 && forall i :: 0 <= i < |chunks| ==> NoBraces(chunks[i])
    requires pkgname == JoinWith(chunks, "{slug}")
    ensures GenPkgbuild(ext, pkgname, maintainer).Success?
    ensures OutputLines(ext, pkgname, maintainer)[HeadCount(maintainer) + 1]
      == "pkgname='" + JoinWith(chunks, ext.slug) + "'"
  {
    FormatReplacesEveryPlaceholder(chunks, ext.slug);
    PackageNameLine(ext, pkgname, maintainer);
  }

  /**
   * The version, the summary and the homepage are copied verbatim, and the
   * fixed lines `pkgrel=1`, `arch=('any')` and `depends=('firefox')` are always there.
   */
  lemma VariableLines(ext: ExtensionRecord, pkgname: string, maintainer: Option<string>)
    requires Renderable(ext) && SingleLineInputs(ext, pkgname, maintainer)
    requires GenPkgbuild(ext, pkgname, maintainer).Success?
    ensures var lines := OutputLines(ext, pkgname, maintainer);
      var k := HeadCount(maintainer);
      && lines[k + 2] == "pkgver=" + ext.currentVersion.version
      && lines[k + 3] == "pkgrel=1"
      && lines[k + 4] == "pkgdesc='" + ext.summary + "'"
      && lines[k + 5] == "arch=('any')"
      && lines[k + 6] == "url='" + ext.homepage + "'"
      && lines[k + 8] == "depends=('firefox')"
  {
    BodyLineAt(ext, pkgname, maintainer, 2);
    BodyLineAt(ext, pkgname, maintainer, 3);
    BodyLineAt(ext, pkgname, maintainer, 4);
    BodyLineAt(ext, pkgname, maintainer, 5);
    BodyLineAt(ext, pkgname, maintainer, 6);
    BodyLineAt(ext, pkgname, maintainer, 8);
  }

  /** License: `license=('custom:<slug>')` for a custom license, `license=('<slug>')` otherwise. */
  lemma LicenseLine(ext: ExtensionRecord, pkgname: string, maintainer: Option<string>)
    requires Renderable(ext) && SingleLineInputs(ext, pkgname, maintainer)
    requires GenPkgbuild(ext, pkgname, maintainer).Success?
    ensures ext.currentVersion.license.isCustom ==>
      OutputLines(ext, pkgname, maintainer)[HeadCount(maintainer) + 7]
        == "license=('custom:" + ext.currentVersion.license.slug + "')"
    ensures !ext.currentVersion.license.isCustom ==>
      OutputLines(ext, pkgname, maintainer)[HeadCount(maintainer) + 7]
        == "license=('" + ext.currentVersion.license.slug + "')"
  {
    BodyLineAt(ext, pkgname, maintainer, 7);
  }

  /** `_source_file_id=<id>`: the text after `=` reads back as the unmodified file id. */
  lemma FileIdLine(ext: ExtensionRecord, pkgname: string, maintainer: Option<string>)
    requires Renderable(ext) && SingleLineInputs(ext, pkgname, maintainer)
    requires GenPkgbuild(ext, pkgname, maintainer).Success?
    ensures var line := OutputLines(ext, pkgname, maintainer)[HeadCount(maintainer) + 9];
      && "_source_file_id=" <= line
      && ParseDecimal(line[|"_source_file_id="|..]) == Some(ext.currentVersion.file.id)
  {
    BodyLineAt(ext, pkgname, maintainer, 9);
    var d := DecimalString(ext.currentVersion.file.id);
    assert ("_source_file_id=" + d)[|"_source_file_id="|..] == d;
    DecimalRoundTrip(ext.currentVersion.file.id);
  }

  /**
   * The source line fetches `<slug>.xpi` from the rewritten URL, and the slug
   * names the file that is not to be extracted.
   */
  lemma SourceLine(ext: ExtensionRecord, pkgname: string, maintainer: Option<string>)
    requires Renderable(ext) && SingleLineInputs(ext, pkgname, maintainer)
    requires GenPkgbuild(ext, pkgname, maintainer).Success?
    ensures var lines := OutputLines(ext, pkgname, maintainer);
      var k := HeadCount(maintainer);
      && lines[k + 10] == "source=('" + ext.slug + ".xpi'::\""
           + RewriteSource(ext.currentVersion.file.url, ext.currentVersion.file.id, ext.currentVersion.version) + "\")"
      && lines[k + 11] == "noextract=('" + ext.slug + ".xpi')"
  {
    BodyLineAt(ext, pkgname, maintainer, 10);
    BodyLineAt(ext, pkgname, maintainer, 11);
  }

  /** Checksum: a hash `algorithm:digest` is accepted and written as `<algorithm>sums=('<digest>')`. */
  lemma ChecksumLine(ext: ExtensionRecord, pkgname: string, maintainer: Option<string>, algorithm: string, digest: string)
    requires Renderable(ext) && SingleLineInputs(ext, pkgname, maintainer)
    requires ext.currentVersion.file.hash == algorithm + ":" + digest
    requires ':' !in algorithm && ':' !in digest
    requires FormatSlug(pkgname, ext.slug).Success?
    ensures GenPkgbuild(ext, pkgname, maintainer).Success?
    ensures OutputLines(ext, pkgname, maintainer)[HeadCount(maintainer) + 12] == algorithm + "sums=('" + digest + "')"
  {
    SplitHashInverse(algorithm, digest);
    BodyLineAt(ext, pkgname, maintainer, 12);
  }

  /**
   * The file ends with a blank line, `package() {`, the command installing
   * `<slug>.xpi` as `${pkgdir}/usr/lib/firefox/browser/extensions/<slug>.xpi`,
   * `}` and a last blank line.
   */
  lemma PackageBlock(ext: ExtensionRecord, pkgname: string, maintainer: Option<string>)
    requires Renderable(ext) && SingleLineInputs(ext, pkgname, maintainer)
    requires GenPkgbuild(ext, pkgname, maintainer).Success?
    ensures var lines := OutputLines(ext, pkgname, maintainer);
      var k := HeadCount(maintainer);
      && |lines| == k + 19
      && lines[k + 13] == ""
      && lines[k + 14] == "package() {"
      && lines[k + 15] == "  install -Dm644 '" + ext.slug + ".xpi' \"" + INSTALL_DIR + ext.slug + ".xpi\""
      && lines[k + 16] == "}"
      && lines[k + 17] == ""
      && lines[k + 18] == ""
  {
    BodyLineAt(ext, pkgname, maintainer, 13);
    BodyLineAt(ext, pkgname, maintainer, 14);
    BodyLineAt(ext, pkgname, maintainer, 15);
    BodyLineAt(ext, pkgname, maintainer, 16);
    BodyLineAt(ext, pkgname, maintainer, 17);
  }

  /**
   * A download URL `<prefix><file id><middle><version><suffix>` becomes
   * `<prefix>${_source_file_id}<middle>${pkgver}<suffix>` when each value matches
   * first at its own place and nowhere after it; the version may contain the
   * digits of the id, as in `.../file/4003969/ublock_origin-1.44.4.xpi`.
   */
  lemma RewriteSourceShape(prefix: string, fileId: int, middle: string, version: string, suffix: string)
    requires version != []
    requires NoMatchBefore(DecimalString(fileId), prefix + DecimalString(fileId) + (middle + version + suffix), |prefix|)
    requires !Occurs(DecimalString(fileId), middle + version + suffix)
    requires NoMatchBefore(version, prefix + FILE_ID_REF + middle + version + suffix, |prefix + FILE_ID_REF + middle|)
    requires !Occurs(version, suffix)
    ensures RewriteSource(prefix + DecimalString(fileId) + middle + version + suffix, fileId, version)
      == prefix + FILE_ID_REF + middle + PKGVER_REF + suffix
  {
    var id := DecimalString(fileId);
    var rest := middle + version + suffix;
    var front := prefix + FILE_ID_REF + middle;
    calc {
      RewriteSource(prefix + id + middle + version + suffix, fileId, version);
      Sub(version, PKGVER_REF, Sub(id, FILE_ID_REF, prefix + id + middle + version + suffix));
      { assert prefix + id + middle + version + suffix == prefix + id + rest;
        SubFirst(id, FILE_ID_REF, prefix, rest);
        SubNoMatch(id, FILE_ID_REF, rest); }
      Sub(version, PKGVER_REF, prefix + FILE_ID_REF + rest);
      { assert prefix + FILE_ID_REF + rest == front + version + suffix;
        SubFirst(version, PKGVER_REF, front, suffix);
        SubNoMatch(version, PKGVER_REF, suffix); }
      front + PKGVER_REF + suffix;
    }
  }

  /**
   * Every occurrence of each value is rewritten. Write the URL as pieces joined
   * by the file id, none holding the id's first character; after the first pass
   * that reads as pieces joined by the version, none holding the version's first
   * character. The result is the latter pieces joined by `${pkgver}`.
   */
  lemma RewriteEveryOccurrence(idPieces: seq<string>, fileId: int, version: string, versionPieces: seq<string>)
    requires |idPieces| >= 1 && forall i :: 0 <= i < |idPieces| ==> DecimalString(fileId)[0] !in idPieces[i]
    requires version != [] && version[0] != '.'
    requires |versionPieces| >= 1 && forall i :: 0 <= i < |versionPieces| ==> version[0] !in versionPieces[i]
    requires JoinWith(idPieces, FILE_ID_REF) == JoinWith(versionPieces, version)
    ensures RewriteSource(JoinWith(idPieces, DecimalString(fileId)), fileId, version)
      == JoinWith(versionPieces, PKGVER_REF)
  {
    var id := DecimalString(fileId);
    assert id[0] != '.';
    SubAll(id, FILE_ID_REF, idPieces);
    SubAll(version, PKGVER_REF, versionPieces);
  }
}
