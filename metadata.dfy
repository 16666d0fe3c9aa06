/** The filename metadata extractor of the upload client
    (`extract_package_metadata`): a package filename is reduced to its
    basename and matched first against the wheel pattern
    `^([a-zA-Z0-9_]+)-([0-9][a-zA-Z0-9._]*?)-(.*?)\.whl$`, then against the
    source-archive pattern
    `^([a-zA-Z0-9_]+)-([0-9][a-zA-Z0-9._]*?)\.(tar\.gz|zip|tar\.bz2|egg)$`;
    when neither matches the result is the placeholder {"unknown", "0.0.0"}.

    No regex engine is modelled. Because neither character class contains
    `-`, the name always ends at the first `-` and the wheel version at the
    second; because no archive extension is a suffix of another, the archive
    version is what remains before the one extension the name ends with. */
module Metadata {
  import opened Text

  datatype PackageMetadata = PackageMetadata(name: string, version: string)

  /** The placeholder returned when no pattern matches. */
  const Unknown := PackageMetadata("unknown", "0.0.0")

  /** The alternatives of the source-archive pattern, each with its leading dot. */
  const ArchiveExtensions: seq<string> := [".tar.gz", ".zip", ".tar.bz2", ".egg"]

  /** `[a-zA-Z0-9_]+` */
  predicate IsName(s: string) {
    |s| > 0 && forall i | 0 <= i < |s| :: IsWordChar(s[i])
  }

  /** `[0-9][a-zA-Z0-9._]*` */
  predicate IsVersion(s: string) {
    |s| > 0 && IsDigit(s[0]) && forall i | 0 <= i < |s| :: IsVersionChar(s[i])
  }

  /** What the regex `.` accepts: anything but a newline. */
  predicate NoNewline(s: string) {
    forall i | 0 <= i < |s| :: s[i] != '\n'
  }

  /** POSIX `os.path.basename`: the text after the last `/`. */
  function Basename(path: string): (b: string)
    ensures '/' !in b
    ensures EndsWith(path, b)
    ensures |b| < |path| ==> path[|path| - |b| - 1] == '/'
  {
    if path == [] || path[|path| - 1] == '/' then []
    else Basename(path[..|path| - 1]) + [path[|path| - 1]]
  }

  /** The text the patterns are matched against. Python's `$` also matches
      just before a final newline, so one trailing `\n` takes no part in the
      match; no group can contain a newline, so nothing else changes. */
  function MatchSubject(b: string): (s: string)
    ensures StartsWith(b, s)
    ensures |b| - 1 <= |s|
    ensures |s| < |b| <==> |b| > 0 && b[|b| - 1] == '\n'
  {
    if |b| > 0 && b[|b| - 1] == '\n' then b[..|b| - 1] else b
  }

  /** The wheel pattern, read as a decomposition of the subject. */
  ghost predicate WheelForm(s: string, name: string, version: string) {
    IsName(name) && IsVersion(version) &&
    exists tags: string :: NoNewline(tags) && s == name + "-" + version + "-" + tags + ".whl"
  }

  /** The source-archive pattern, read as a decomposition of the subject. */
  ghost predicate ArchiveForm(s: string, name: string, version: string) {
    IsName(name) && IsVersion(version) &&
    exists ext: string :: ext in ArchiveExtensions && s == name + "-" + version + ext
  }

  /** The wheel rule on the basename `b`: the groups it returns are a name
      and a version, and a basename without a trailing newline is matched as
      it stands. */
  function ParseWheel(b: string): (r: Option<PackageMetadata>)
    ensures r.Some? ==> IsName(r.value.name) && IsVersion(r.value.version)
    ensures (b == [] || b[|b| - 1] != '\n') ==> r == MatchWheel(b)
  {
    MatchWheel(MatchSubject(b))
  }

  /** The wheel pattern on the subject `s`: a match returns a name and a
      version that the subject starts with, separated and followed by `-`. */
  function MatchWheel(s: string): (r: Option<PackageMetadata>)
    ensures r.Some? ==>
      IsName(r.value.name) && IsVersion(r.value.version) &&
      StartsWith(s, r.value.name + "-" + r.value.version + "-")
  {
    match SplitAtFirst(s, '-')
    case None => None
    case Some((name, rest)) =>
      match SplitAtFirst(rest, '-')
      case None => None
      case Some((version, tail)) =>
        if IsName(name) && IsVersion(version) && EndsWith(tail, ".whl")
           && NoNewline(tail[..|tail| - 4])
        then Some(PackageMetadata(name, version))
        else None
  }

  /** The archive extension `s` ends with, if any. */
  function ArchiveExtensionOf(s: string): (r: Option<string>)
    ensures r.Some? ==> r.value in ArchiveExtensions && EndsWith(s, r.value)
    ensures r.None? ==> forall e | e in ArchiveExtensions :: !EndsWith(s, e)
  {
    if EndsWith(s, ".tar.gz") then Some(".tar.gz")
    else if EndsWith(s, ".zip") then Some(".zip")
    else if EndsWith(s, ".tar.bz2") then Some(".tar.bz2")
    else if EndsWith(s, ".egg") then Some(".egg")
    else None
  }

  /** The source-archive rule on the basename `b`: the groups it returns are
      a name and a version, and a basename without a trailing newline is
      matched as it stands. */
  function ParseArchive(b: string): (r: Option<PackageMetadata>)
    ensures r.Some? ==> IsName(r.value.name) && IsVersion(r.value.version)
    ensures (b == [] || b[|b| - 1] != '\n') ==> r == MatchArchive(b)
  {
    MatchArchive(MatchSubject(b))
  }

  /** The source-archive pattern on the subject `s`: a match returns a name
      and a version (MatchArchiveSound says where they sit in `s`). */
  function MatchArchive(s: string): (r: Option<PackageMetadata>)
    ensures r.Some? ==>
      IsName(r.value.name) && IsVersion(r.value.version)
  {
    match SplitAtFirst(s, '-')
    case None => None
    case Some((name, rest)) =>
      match ArchiveExtensionOf(rest)
      case None => None
      case Some(ext) =>
        var version := rest[..|rest| - |ext|];
        if IsName(name) && IsVersion(version)
        then Some(PackageMetadata(name, version))
        else None
  }

  /** `extract_package_metadata`: wheel rule, then archive rule, then the
      placeholder; never an error, and anything but the placeholder is a
      name and a version. */
  function ExtractPackageMetadata(filename: string): (r: PackageMetadata)
    ensures r == Unknown || (IsName(r.name) && IsVersion(r.version))
  {
    var b := Basename(filename);
    match ParseWheel(b)
    case Some(m) => m
    case None =>
      match ParseArchive(b)
      case Some(m) => m
      case None => Unknown
  }

  // ---------------------------------------------------------------------
  // The rules agree with the patterns, in both directions.
  // ---------------------------------------------------------------------

  /** Neither a name nor a version contains `-`. */
  lemma NoDash(word: string)
    requires forall i | 0 <= i < |word| :: IsVersionChar(word[i])
    ensures '-' !in word
  {
  }

  /** What the wheel pattern accepts has wheel form, with the groups it returns. */
  lemma MatchWheelSound(s: string)
    requires MatchWheel(s).Some?
    ensures WheelForm(s, MatchWheel(s).value.name, MatchWheel(s).value.version)
  {
    var (name, rest) := SplitAtFirst(s, '-').value;
    var (version, tail) := SplitAtFirst(rest, '-').value;
    var tags := tail[..|tail| - 4];
    assert tail == tags + ".whl";
    assert s == name + "-" + version + "-" + tags + ".whl";
  }

  /** Every subject of wheel form is accepted, with its own groups. */
  lemma MatchWheelComplete(s: string, name: string, version: string, tags: string)
    requires IsName(name) && IsVersion(version) && NoNewline(tags)
    requires s == name + "-" + version + "-" + tags + ".whl"
    ensures MatchWheel(s) == Some(PackageMetadata(name, version))
  {
    NoDash(name);
    NoDash(version);
    assert s == name + ['-'] + (version + ['-'] + (tags + ".whl"));
    SplitAtFirstOf(name, '-', version + ['-'] + (tags + ".whl"));
    SplitAtFirstOf(version, '-', tags + ".whl");
    assert (tags + ".whl")[..|tags + ".whl"| - 4] == tags;
  }

  /** A subject the wheel pattern accepts ends in `.whl`. */
  lemma WheelSuffix(s: string)
    ensures MatchWheel(s).Some? ==> EndsWith(s, ".whl")
  {
    if MatchWheel(s).Some? {
      var (name, rest) := SplitAtFirst(s, '-').value;
      var (version, tail) := SplitAtFirst(rest, '-').value;
      assert s == name + "-" + version + "-" + tail;
      assert s[|s| - 4..] == tail[|tail| - 4..];
    }
  }

  /** Two archive extensions a name ends with are the same extension. */
  lemma ArchiveExtensionUnique(s: string, e1: string, e2: string)
    requires e1 in ArchiveExtensions && e2 in ArchiveExtensions
    requires EndsWith(s, e1) && EndsWith(s, e2)
    ensures e1 == e2
  {
    // the four extensions end in four different characters
    assert s[|s| - 1] == e1[|e1| - 1] == e2[|e2| - 1];
  }

  /** What the source-archive pattern accepts has archive form, with the groups it returns. */
  lemma MatchArchiveSound(s: string)
    requires MatchArchive(s).Some?
    ensures ArchiveForm(s, MatchArchive(s).value.name, MatchArchive(s).value.version)
  {
    var (name, rest) := SplitAtFirst(s, '-').value;
    var ext := ArchiveExtensionOf(rest).value;
    var version := rest[..|rest| - |ext|];
    assert rest == version + ext;
    assert s == name + "-" + version + ext by {
      assert s == name + ['-'] + rest;
    }
    assert ArchiveForm(s, name, version);
  }

  /** Every subject of archive form is accepted, with its own groups. */
  lemma MatchArchiveComplete(s: string, name: string, version: string, ext: string)
    requires IsName(name) && IsVersion(version) && ext in ArchiveExtensions
    requires s == name + "-" + version + ext
    ensures MatchArchive(s) == Some(PackageMetadata(name, version))
  {
    NoDash(name);
    assert s == name + ['-'] + (version + ext);
    SplitAtFirstOf(name, '-', version + ext);
    var rest := version + ext;
    assert EndsWith(rest, ext);
    ArchiveExtensionUnique(rest, ext, ArchiveExtensionOf(rest).value);
    assert rest[..|rest| - |ext|] == version;
  }

  /** A subject the source-archive pattern accepts does not end in `.whl`. */
  lemma ArchiveSuffix(s: string)
    ensures MatchArchive(s).Some? ==> !EndsWith(s, ".whl")
  {
    if MatchArchive(s).Some? {
      var (name, rest) := SplitAtFirst(s, '-').value;
      var ext := ArchiveExtensionOf(rest).value;
      assert s[|s| - 1] == rest[|rest| - 1] == ext[|ext| - 1];
    }
  }

  /** The two patterns never both accept a subject. */
  lemma ArchiveExcludesWheel(s: string)
    requires MatchArchive(s).Some?
    ensures MatchWheel(s).None?
  {
    WheelSuffix(s);
    ArchiveSuffix(s);
  }

  /** No subject has both forms: a wheel ends in `.whl`, an archive never does. */
  lemma FormsExclusive(s: string, n1: string, v1: string, n2: string, v2: string)
    requires WheelForm(s, n1, v1)
    ensures !ArchiveForm(s, n2, v2)
  {
    var tags :| NoNewline(tags) && s == n1 + "-" + v1 + "-" + tags + ".whl";
    assert s[|s| - 1] == 'l';
    forall ext | ext in ArchiveExtensions
      ensures s != n2 + "-" + v2 + ext
    {
      assert ext[|ext| - 1] != 'l';
    }
  }

  /** `filename` matches one of the two patterns with these groups. */
  ghost predicate Matches(filename: string, name: string, version: string) {
    var s := MatchSubject(Basename(filename));
    WheelForm(s, name, version) || ArchiveForm(s, name, version)
  }

  /** On a subject of wheel form the wheel rule fires with its groups. */
  lemma WheelRule(b: string, name: string, version: string)
    requires WheelForm(MatchSubject(b), name, version)
    ensures ParseWheel(b) == Some(PackageMetadata(name, version))
  {
    var s := MatchSubject(b);
    var tags :| NoNewline(tags) && s == name + "-" + version + "-" + tags + ".whl";
    MatchWheelComplete(s, name, version, tags);
  }

  /** On a subject of archive form the wheel rule fails and the archive rule fires with its groups. */
  lemma ArchiveRule(b: string, name: string, version: string)
    requires ArchiveForm(MatchSubject(b), name, version)
    ensures ParseWheel(b) == None
    ensures ParseArchive(b) == Some(PackageMetadata(name, version))
  {
    var s := MatchSubject(b);
    var ext :| ext in ArchiveExtensions && s == name + "-" + version + ext;
    MatchArchiveComplete(s, name, version, ext);
    ArchiveExcludesWheel(s);
  }

  /** A path whose basename has wheel form, and which does not end in a newline, ends in `.whl`. */
  lemma WheelNameSuffix(filename: string, name: string, version: string)
    requires filename != [] && filename[|filename| - 1] != '\n'
    requires WheelForm(MatchSubject(Basename(filename)), name, version)
    ensures EndsWith(filename, ".whl")
  {
    var b := Basename(filename);
    WheelRule(b, name, version);
    WheelSuffix(MatchSubject(b));
    assert b != [];
    assert b[|b| - 1] == filename[|filename| - 1];
    assert MatchSubject(b) == b;
    SuffixTransitive(filename, b, ".whl");
  }

  /** A path whose basename has archive form does not end in `.whl`. */
  lemma ArchiveNameSuffix(filename: string, name: string, version: string)
    requires ArchiveForm(MatchSubject(Basename(filename)), name, version)
    ensures !EndsWith(filename, ".whl")
  {
    var b := Basename(filename);
    var s := MatchSubject(b);
    var ext :| ext in ArchiveExtensions && s == name + "-" + version + ext;
    assert s[|s| - 1] == ext[|ext| - 1];
    if s == b {
      assert filename[|filename| - 1] == b[|b| - 1];
    } else {
      assert filename[|filename| - 1] == b[|b| - 1] == '\n';
    }
  }

  /** A wheel filename yields exactly its name and version groups. */
  lemma ExtractWheel(filename: string, name: string, version: string)
    requires WheelForm(MatchSubject(Basename(filename)), name, version)
    ensures ExtractPackageMetadata(filename) == PackageMetadata(name, version)
  {
    WheelRule(Basename(filename), name, version);
  }

  /** An archive filename yields exactly its name and version groups. */
  lemma ExtractArchive(filename: string, name: string, version: string)
    requires ArchiveForm(MatchSubject(Basename(filename)), name, version)
    ensures ExtractPackageMetadata(filename) == PackageMetadata(name, version)
  {
    ArchiveRule(Basename(filename), name, version);
  }

  /** A filename that matches neither pattern yields the placeholder, and
      one that matches yields the groups it matches with. */
  lemma ExtractCharacterized(filename: string)
    ensures var m := ExtractPackageMetadata(filename);
      if exists n, v :: Matches(filename, n, v) then Matches(filename, m.name, m.version)
      else m == Unknown
  {
    var b := Basename(filename);
    var m := ExtractPackageMetadata(filename);
    if ParseWheel(b).Some? {
      MatchWheelSound(MatchSubject(b));
      assert Matches(filename, m.name, m.version);
    } else if ParseArchive(b).Some? {
      MatchArchiveSound(MatchSubject(b));
      assert Matches(filename, m.name, m.version);
    } else if exists n, v :: Matches(filename, n, v) {
      var n, v :| Matches(filename, n, v);
      if WheelForm(MatchSubject(b), n, v) {
        WheelRule(b, n, v);
      } else {
        ArchiveRule(b, n, v);
      }
      assert false;
    }
  }

  /** Only the basename is examined: the directory part never changes the result. */
  lemma ExtractIgnoresDirectory(dir: string, filename: string)
    ensures ExtractPackageMetadata(dir + "/" + filename) == ExtractPackageMetadata(filename)
  {
    BasenameOfJoin(dir, filename);
  }

  lemma {:induction false} BasenameOfJoin(dir: string, filename: string)
    ensures Basename(dir + "/" + filename) == Basename(filename)
    decreases |filename|
  {
    var p := dir + "/" + filename;
    if filename != [] && filename[|filename| - 1] != '/' {
      var shorter := filename[..|filename| - 1];
      assert p[..|p| - 1] == dir + "/" + shorter;
      assert p[|p| - 1] == filename[|filename| - 1];
      BasenameOfJoin(dir, shorter);
    } else {
      assert p[|p| - 1] == '/';
    }
  }

  /** A basename without a `-` fits neither pattern, so it yields the placeholder. */
  lemma NoDashIsUnknown(filename: string)
    requires '-' !in Basename(filename)
    ensures ExtractPackageMetadata(filename) == Unknown
  {
    var b := Basename(filename);
    assert '-' !in MatchSubject(b) by {
      assert MatchSubject(b) == b[..|MatchSubject(b)|];
    }
  }

  /** A name without a `/` is its own basename. */
  lemma {:induction false} BasenamePlain(s: string)
    requires '/' !in s
    ensures Basename(s) == s
  {
    if s != [] {
      BasenamePlain(s[..|s| - 1]);
    }
  }

  // ---------------------------------------------------------------------
  // A typical wheel, a typical source archive, and a file that is not a
  // package. Each literal enters through a precondition on a parameter so
  // that the verifier reasons about its parts instead of unfolding the
  // recursive string functions character by character.
  // ---------------------------------------------------------------------

  /** `a-1.0.0-py3-none-any.whl` is uploaded as name `a`, version `1.0.0`. */
  lemma WheelExample(name: string, version: string, tags: string)
    requires name == "a" && version == "1.0.0" && tags == "py3-none-any"
    ensures ExtractPackageMetadata(name + "-" + version + "-" + tags + ".whl") == PackageMetadata("a", "1.0.0")
  {
    var s := name + "-" + version + "-" + tags + ".whl";
    assert IsName(name) && IsVersion(version) && NoNewline(tags);
    assert '/' !in name && '/' !in version && '/' !in tags;
    assert '/' !in s;
    BasenamePlain(s);
    MatchWheelComplete(s, name, version, tags);
  }

  /** `b-2.0.0.tar.gz` is uploaded as name `b`, version `2.0.0`. */
  lemma ArchiveExample(name: string, version: string)
    requires name == "b" && version == "2.0.0"
    ensures ExtractPackageMetadata(name + "-" + version + ".tar.gz") == PackageMetadata("b", "2.0.0")
  {
    var s := name + "-" + version + ".tar.gz";
    assert IsName(name) && IsVersion(version);
    assert '/' !in name && '/' !in version;
    assert '/' !in s;
    BasenamePlain(s);
    MatchArchiveComplete(s, name, version, ".tar.gz");
    ArchiveExcludesWheel(s);
  }

  /** `README.md` yields the placeholder rather than an error. */
  lemma FallbackExample(filename: string)
    requires filename == "README.md"
    ensures ExtractPackageMetadata(filename) == Unknown
  {
    assert '/' !in filename && '-' !in filename;
    BasenamePlain(filename);
    NoDashIsUnknown(filename);
  }
}
