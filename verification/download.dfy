/** `getDownloadUrl`: the address of the release archive for a version on
    the host platform and architecture, which are parameters here rather
    than `os.platform()` and `os.arch()`. */
module Download {
  import opened Wrappers
  import opened Text

  /** Node's `util.format` for the `%s` directive: each `%s` takes the next
      argument; a `%s` with no argument left stays as written, and
      arguments left over are appended, each after a space. */
  function UtilFormat(template: string, args: seq<string>): (r: string)
    decreases |template|
  {
    if |template| == 0 then Trailing(args)
    else if |template| >= 2 && template[0] == '%' && template[1] == 's' && |args| > 0 then
      args[0] + UtilFormat(template[2..], args[1..])
    else
      [template[0]] + UtilFormat(template[1..], args)
  }

  /** The arguments `util.format` appends after the last directive. */
  function Trailing(args: seq<string>): (r: string)
    decreases |args|
  {
    if |args| == 0 then "" else " " + args[0] + Trailing(args[1..])
  }

  /** The template `lits[0] %s lits[1] %s ... lits[n]`. */
  function Template(lits: seq<string>): (r: string)
    requires |lits| >= 1
    decreases |lits|
  {
    if |lits| == 1 then lits[0] else lits[0] + "%s" + Template(lits[1..])
  }

  /** The pieces of a template with the arguments between them. */
  function Fill(lits: seq<string>, args: seq<string>): (r: string)
    requires |lits| == |args| + 1
    decreases |args|
  {
    if |args| == 0 then lits[0] else lits[0] + args[0] + Fill(lits[1..], args[1..])
  }

  /** With no arguments the template comes back as written: a `%s` with no
      argument left stays. */
  lemma {:induction false} FormatNoArguments(template: string)
    ensures UtilFormat(template, []) == template
    decreases |template|
  {
    if |template| > 0 {
      FormatNoArguments(template[1..]);
      assert template == [template[0]] + template[1..];
    }
  }

  /** A template without `%` comes back followed by the arguments, each
      after a space. */
  lemma {:induction false} FormatPlainTemplate(template: string, args: seq<string>)
    requires '%' !in template
    ensures UtilFormat(template, args) == template + Trailing(args)
    decreases |template|
  {
    if |template| > 0 {
      assert template[0] in template;
      assert '%' !in template[1..] by {
        forall c | c in template[1..] ensures c != '%' {
          assert c in template;
        }
      }
      FormatPlainTemplate(template[1..], args);
      assert template == [template[0]] + template[1..];
    }
  }

  /** Text without a `%` is copied through. */
  lemma {:induction false} FormatLiteral(lit: string, rest: string, args: seq<string>)
    requires '%' !in lit
    ensures UtilFormat(lit + rest, args) == lit + UtilFormat(rest, args)
    decreases |lit|
  {
    if |lit| == 0 {
      assert lit + rest == rest;
    } else {
      assert lit[0] in lit;
      var t := lit + rest;
      assert t[0] == lit[0] && t[1..] == lit[1..] + rest;
      FormatLiteral(lit[1..], rest, args);
      assert UtilFormat(t, args) == [lit[0]] + (lit[1..] + UtilFormat(rest, args));
      assert lit + UtilFormat(rest, args) == [lit[0]] + (lit[1..] + UtilFormat(rest, args));
    }
  }

  /** A `%s` is replaced by the next argument. */
  lemma FormatDirective(rest: string, arg: string, args: seq<string>)
    ensures UtilFormat("%s" + rest, [arg] + args) == arg + UtilFormat(rest, args)
  {
    assert ("%s" + rest)[2..] == rest;
    assert ([arg] + args)[1..] == args;
  }

  /** With one argument per `%s`, formatting fills the template in. */
  lemma {:induction false} FormatTemplate(lits: seq<string>, args: seq<string>)
    requires |lits| == |args| + 1
    requires forall i :: 0 <= i < |lits| ==> '%' !in lits[i]
    ensures UtilFormat(Template(lits), args) == Fill(lits, args)
    decreases |args|
  {
    if |args| == 0 {
      FormatLiteral(lits[0], "", []);
      assert lits[0] + "" == lits[0];
    } else {
      var rest := Template(lits[1..]);
      assert Template(lits) == lits[0] + ("%s" + rest);
      FormatLiteral(lits[0], "%s" + rest, args);
      assert args == [args[0]] + args[1..];
      FormatDirective(rest, args[0], args[1..]);
      FormatTemplate(lits[1..], args[1..]);
    }
  }

  /** The asset name template of `getDownloadUrl`. */
  const FileTemplate := "sysl_%s_%s-%sbit.%s"

  /** The download URL template of `getDownloadUrl`. */
  const UrlTemplate := "https://github.com/anz-bank/sysl/releases/download/v%s/%s"

  /** The text around the `%s` directives of the asset name template
      `"sysl_%s_%s-%sbit.%s"`. */
  const FilePieces: seq<string> := ["sysl_", "_", "-", "bit.", ""]

  /** The text around the `%s` directives of the download URL template
      `"https://github.com/anz-bank/sysl/releases/download/v%s/%s"`. */
  const UrlPieces: seq<string> := [ReleaseDownloadBase, "/", ""]

  /** The sysl repository. */
  const Repository := "https://github.com/anz-bank/sysl"

  /** Everything in a download URL before the version. */
  const ReleaseDownloadBase := Repository + "/releases/download/v"

  /** The platform names used in release asset names, by Node platform. */
  const PlatformNames: map<string, string> := map[
    "darwin" := "macOS",
    "freebsd" := "FreeBSD",
    "linux" := "Linux",
    "openbsd" := "OpenBSD",
    "win32" := "Windows"
  ]

  /** `platformMap.get(osPlat)`, or `osPlat` itself when it is not in the table. */
  function PlatformName(osPlat: string): (r: string)
    ensures osPlat in PlatformNames ==> r == PlatformNames[osPlat]
    ensures osPlat !in PlatformNames ==> r == osPlat
  {
    if osPlat in PlatformNames then PlatformNames[osPlat] else osPlat
  }

  /** The word size in the asset name: 64 only for `x64`. */
  function ArchBits(osArch: string): (r: string)
    ensures r == "64" || r == "32"
    ensures r == "64" <==> osArch == "x64"
  {
    if osArch == "x64" then "64" else "32"
  }

  /** Windows releases are zip archives; every other platform gets a tarball. */
  function ArchiveExtension(osPlat: string): (r: string)
    ensures r == "zip" || r == "tar.gz"
    ensures r == "zip" <==> osPlat == "win32"
  {
    if osPlat == "win32" then "zip" else "tar.gz"
  }

  /** The asset name template spelled out. */
  lemma FileTemplateText()
    ensures Template(FilePieces) == FileTemplate
  {
  }

  /** The URL template spelled out after the release download base. */
  lemma UrlTemplateText()
    ensures Template(UrlPieces) == UrlTemplate
  {
    assert UrlPieces[1..][1..] == [""];
    assert Template(UrlPieces[1..]) == "/" + "%s" + "";
  }

  /** The asset name, filled in from its template. */
  lemma FileNameShape(version: string, platform: string, arch: string, ext: string)
    ensures UtilFormat(Template(FilePieces), [version, platform, arch, ext])
         == "sysl_" + version + "_" + platform + "-" + arch + "bit." + ext
  {
    var args := [version, platform, arch, ext];
    FormatTemplate(FilePieces, args);
    assert Fill(FilePieces[4..], args[4..]) == "";
    assert Fill(FilePieces[3..], args[3..]) == "bit." + ext + "";
    assert Fill(FilePieces[2..], args[2..]) == "-" + arch + ("bit." + ext + "");
    assert Fill(FilePieces[1..], args[1..]) == "_" + platform + ("-" + arch + ("bit." + ext + ""));
  }

  /** The URL, filled in from its template. */
  lemma UrlShape(version: string, file: string)
    ensures UtilFormat(Template(UrlPieces), [version, file]) == ReleaseDownloadBase + version + "/" + file
  {
    assert '%' !in ReleaseDownloadBase;
    var args := [version, file];
    FormatTemplate(UrlPieces, args);
    assert Fill(UrlPieces[2..], args[2..]) == "";
    assert Fill(UrlPieces[1..], args[1..]) == "/" + file + "";
  }

  /** The `filename` of `getDownloadUrl`: the release asset for a version,
      platform and architecture. */
  function AssetName(version: string, osPlat: string, osArch: string): (name: string)
    ensures name == "sysl_" + version + "_" + PlatformName(osPlat) + "-" + ArchBits(osArch)
                    + "bit." + ArchiveExtension(osPlat)
  {
    var platform := PlatformName(osPlat);
    var arch := ArchBits(osArch);
    var extension := ArchiveExtension(osPlat);
    FileNameShape(version, platform, arch, extension);
    UtilFormat(Template(FilePieces), [version, platform, arch, extension])
  }

  /** `getDownloadUrl(version)` on host platform `osPlat` and architecture
      `osArch`: the asset of that version under the repository's release
      downloads. */
  function DownloadUrl(version: string, osPlat: string, osArch: string): (url: string)
    ensures url == ReleaseDownloadBase + version + "/" + AssetName(version, osPlat, osArch)
  {
    var filename := AssetName(version, osPlat, osArch);
    UrlShape(version, filename);
    UtilFormat(Template(UrlPieces), [version, filename])
  }

  /** The asset name is what `util.format` makes of the literal template. */
  lemma AssetNameFormatsTemplate(version: string, osPlat: string, osArch: string)
    ensures AssetName(version, osPlat, osArch)
         == UtilFormat(FileTemplate, [version, PlatformName(osPlat), ArchBits(osArch), ArchiveExtension(osPlat)])
  {
    FileTemplateText();
  }

  /** The download URL is what `util.format` makes of the literal template. */
  lemma DownloadUrlFormatsTemplate(version: string, osPlat: string, osArch: string)
    ensures DownloadUrl(version, osPlat, osArch) == UtilFormat(UrlTemplate, [version, AssetName(version, osPlat, osArch)])
  {
    UrlTemplateText();
  }

  /** The version a download URL names: the path segment after the base. */
  function VersionOfUrl(url: string): (r: Option<string>) {
    if StartsWith(url, ReleaseDownloadBase) then Some(Split(url[|ReleaseDownloadBase|..], '/')[0]) else None
  }

  /** The version is the first path segment after the base. */
  lemma VersionOfPath(version: string, file: string)
    requires '/' !in version
    ensures VersionOfUrl(ReleaseDownloadBase + version + "/" + file) == Some(version)
  {
    var path := version + ['/'] + file;
    var url := ReleaseDownloadBase + path;
    assert ReleaseDownloadBase + version + "/" + file == url;
    assert url[..|ReleaseDownloadBase|] == ReleaseDownloadBase;
    assert url[|ReleaseDownloadBase|..] == path;
    SplitAppend(version, file, '/');
    SplitWithoutSeparator(version, '/');
  }

  /** The version can be read back from its download URL. */
  lemma DownloadUrlVersion(version: string, osPlat: string, osArch: string)
    requires '/' !in version
    ensures VersionOfUrl(DownloadUrl(version, osPlat, osArch)) == Some(version)
  {
    VersionOfPath(version, AssetName(version, osPlat, osArch));
  }

  /** The end of a download URL is the end of its archive suffix. */
  lemma UrlTail(version: string, osPlat: string, osArch: string, q: string)
    requires |q| <= 7
    ensures EndsWith(DownloadUrl(version, osPlat, osArch), q) <==> EndsWith("bit." + ArchiveExtension(osPlat), q)
  {
    var url := DownloadUrl(version, osPlat, osArch);
    var front := "sysl_" + version + "_" + PlatformName(osPlat) + "-" + ArchBits(osArch);
    var tail := "bit." + ArchiveExtension(osPlat);
    assert AssetName(version, osPlat, osArch) == front + tail;
    var stem := ReleaseDownloadBase + version + "/" + front;
    assert url == (ReleaseDownloadBase + version + "/") + (front + tail);
    assert url == stem + tail;
    EndsWithAppend(stem, tail, q);
  }

  /** The archive is a zip file exactly on Windows, a gzipped tarball elsewhere. */
  lemma DownloadUrlArchive(version: string, osPlat: string, osArch: string)
    ensures EndsWith(DownloadUrl(version, osPlat, osArch), ".zip") <==> osPlat == "win32"
    ensures EndsWith(DownloadUrl(version, osPlat, osArch), ".tar.gz") <==> osPlat != "win32"
  {
    UrlTail(version, osPlat, osArch, ".zip");
    UrlTail(version, osPlat, osArch, ".tar.gz");
    ArchiveSuffix(osPlat);
  }

  /** Which archive suffix the extension rule produces. */
  lemma ArchiveSuffix(osPlat: string)
    ensures EndsWith("bit." + ArchiveExtension(osPlat), ".zip") <==> osPlat == "win32"
    ensures EndsWith("bit." + ArchiveExtension(osPlat), ".tar.gz") <==> osPlat != "win32"
  {
    if osPlat == "win32" {
      assert "bit." + ArchiveExtension(osPlat) == "bit.zip";
      assert "bit.zip"[0] != (".tar.gz")[0];
    } else {
      assert "bit." + ArchiveExtension(osPlat) == "bit.tar.gz";
      assert "bit.tar.gz"[6] != ".zip"[0];
    }
  }

  /** The platform table, and the fall-back for platforms not in it. */
  lemma PlatformNameTable(osPlat: string)
    ensures PlatformName("darwin") == "macOS"
    ensures PlatformName("freebsd") == "FreeBSD"
    ensures PlatformName("linux") == "Linux"
    ensures PlatformName("openbsd") == "OpenBSD"
    ensures PlatformName("win32") == "Windows"
    ensures osPlat !in {"darwin", "freebsd", "linux", "openbsd", "win32"} ==> PlatformName(osPlat) == osPlat
  {
  }
}
