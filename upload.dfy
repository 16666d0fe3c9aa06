/** The direct-protocol upload client (`upload_to_devpi`): the upload URL
    is derived from the server, user and index; the package files of the
    artifacts directory are collected pattern by pattern; each file is
    submitted as one multipart form, in order, and the first failure aborts
    the run with a message naming the file.

    The directory listing and the outcome of each submission are inputs;
    digests, credentials and proxies are not modelled. */
module Upload {
  import opened Text
  import opened Metadata

  // ---------------------------------------------------------------------
  // Upload URL, filetype tag and HTTP error message.
  // ---------------------------------------------------------------------

  /** `f"{devpi_server.rstrip('/')}/{devpi_user}/{devpi_index}/"`, or None
      when the server is missing or empty (the source raises before doing
      anything else). */
  function UploadUrl(server: Option<string>, user: string, index: string): (r: Option<string>)
    ensures r.None? <==> server.None? || server.value == []
    ensures r.Some? ==>
      EndsWith(r.value, "/" + user + "/" + index + "/") &&
      var base := r.value[..|r.value| - |user| - |index| - 3];
      r.value == base + "/" + user + "/" + index + "/" &&
      StartsWith(server.value, base) && (base == [] || base[|base| - 1] != '/') &&
      forall i | |base| <= i < |server.value| :: server.value[i] == '/'
  {
    match server
    case None => None
    case Some(s) =>
      if s == [] then None
      else
        var url := RStrip(s, '/') + "/" + user + "/" + index + "/";
        assert url[..|url| - |user| - |index| - 3] == RStrip(s, '/');
        Some(url)
  }

  /** A trailing `/` on the server makes no difference to the upload URL. */
  lemma UploadUrlIgnoresTrailingSlash(server: string, user: string, index: string)
    requires server != []
    ensures UploadUrl(Some(server + "/"), user, index) == UploadUrl(Some(server), user, index)
  {
    RStripAppended(server, '/');
  }

  /** The `filetype` form field. */
  function Filetype(filename: string): (r: string)
    ensures r == "bdist_wheel" || r == "sdist"
    ensures r == "bdist_wheel" <==> EndsWith(filename, ".whl")
  {
    if EndsWith(filename, ".whl") then "bdist_wheel" else "sdist"
  }

  /** The filetype tag agrees with the metadata rules: a wheel name is a
      `bdist_wheel`, a source-archive name an `sdist`. */
  lemma FiletypeAgreesWithRules(filename: string)
    requires MatchSubject(filename) == filename
    ensures ParseWheel(filename).Some? ==> Filetype(filename) == "bdist_wheel"
    ensures ParseArchive(filename).Some? ==> Filetype(filename) == "sdist"
  {
    WheelSuffix(filename);
    ArchiveSuffix(filename);
  }

  /** How many characters of the response body an error message keeps. */
  const BodyLimit := 200

  /** The message of a failed POST: `HTTP <code>`, then `: ` and at most the
      first 200 characters of the response body when there is one. */
  function HttpErrorMessage(status: int, body: string): (r: string)
    ensures StartsWith(r, "HTTP " + IntToString(status))
    ensures |r| <= 5 + |IntToString(status)| + 2 + BodyLimit
    ensures body == [] <==> |r| == 5 + |IntToString(status)|
  {
    var head := "HTTP " + IntToString(status);
    if body == [] then head else head + ": " + Prefix(body, BodyLimit)
  }

  /** Reads a message built by HttpErrorMessage back into the status code and
      the part of the body it kept. */
  function ParseHttpErrorMessage(message: string): Option<(int, string)> {
    if !StartsWith(message, "HTTP ") then None
    else
      var rest := message[5..];
      match SplitAtFirst(rest, ':')
      case None => if IsIntText(rest) then Some((ParseInt(rest), "")) else None
      case Some((code, body)) =>
        if IsIntText(code) && StartsWith(body, " ") then Some((ParseInt(code), body[1..])) else None
  }

  /** The message keeps the status code and exactly the first 200 characters of the body. */
  lemma HttpErrorMessageRoundTrip(status: int, body: string)
    ensures ParseHttpErrorMessage(HttpErrorMessage(status, body)) == Some((status, Prefix(body, BodyLimit)))
  {
    IntRoundTrip(status);
    var code := IntToString(status);
    var message := HttpErrorMessage(status, body);
    assert message[..5] == "HTTP ";
    assert forall k | 0 <= k < |code| :: code[k] != ':';
    if body == [] {
      assert message[5..] == code;
    } else {
      var kept := Prefix(body, BodyLimit);
      assert message[5..] == code + [':'] + (" " + kept);
      SplitAtFirstOf(code, ':', " " + kept);
      assert (" " + kept)[1..] == kept;
    }
  }

  // ---------------------------------------------------------------------
  // Collecting the package files.
  // ---------------------------------------------------------------------

  /** The suffixes of the glob patterns, in the order they are globbed. */
  const PackagePatterns: seq<string> := [".whl", ".tar.gz", ".zip", ".egg"]

  /** `glob` of `*<ext>`: the name ends with `ext`, and `*` does not match a
      leading dot; so for an extension that starts with a dot, the `*` part
      is never empty. */
  predicate GlobMatches(name: string, ext: string)
    ensures GlobMatches(name, ext) && ext != [] && ext[0] == '.' ==> |name| > |ext|
  {
    EndsWith(name, ext) && name != [] && name[0] != '.'
  }

  /** `glob.glob(os.path.join(artifacts_dir, "*" + ext))` over the directory
      listing, as names, in listing order. */
  function Glob(listing: seq<string>, ext: string): (r: seq<string>)
    ensures forall i | 0 <= i < |r| :: GlobMatches(r[i], ext) && r[i] in listing
  {
    if listing == [] then []
    else (if GlobMatches(listing[0], ext) then [listing[0]] else []) + Glob(listing[1..], ext)
  }

  /** The position in PackagePatterns of the pattern a name ends with (4 when none). */
  function PatternRank(name: string): (k: nat)
    ensures k <= 4
    ensures k < 4 ==> EndsWith(name, PackagePatterns[k])
  {
    if EndsWith(name, ".whl") then 0
    else if EndsWith(name, ".tar.gz") then 1
    else if EndsWith(name, ".zip") then 2
    else if EndsWith(name, ".egg") then 3
    else 4
  }

  /** A name the upload collects. */
  predicate IsPackageFile(name: string) {
    name != [] && name[0] != '.' && PatternRank(name) < 4
  }

  /** The four patterns end in four different characters, so a name ends with at most one. */
  lemma PatternRankOf(name: string, k: nat)
    requires k < 4 && EndsWith(name, PackagePatterns[k])
    ensures PatternRank(name) == k
  {
    var p := PackagePatterns[k];
    assert name[|name| - 1] == p[|p| - 1];
  }

  /** Every name the `k`-th pattern globs has rank `k`. */
  lemma GlobRank(listing: seq<string>, k: nat)
    requires k < 4
    ensures forall i | 0 <= i < |Glob(listing, PackagePatterns[k])| ::
      PatternRank(Glob(listing, PackagePatterns[k])[i]) == k
  {
    var g := Glob(listing, PackagePatterns[k]);
    forall i | 0 <= i < |g| ensures PatternRank(g[i]) == k {
      PatternRankOf(g[i], k);
    }
  }

  /** The list `package_files` holds after globbing the first `n` patterns:
      listed, visible names of the first `n` patterns. */
  function GlobbedUpTo(listing: seq<string>, n: nat): (r: seq<string>)
    requires n <= 4
    ensures forall i | 0 <= i < |r| ::
      r[i] in listing && r[i] != [] && r[i][0] != '.' && PatternRank(r[i]) < n
  {
    if n == 0 then []
    else
      GlobRank(listing, n - 1);
      GlobbedUpTo(listing, n - 1) + Glob(listing, PackagePatterns[n - 1])
  }

  /** The files `upload_to_devpi` uploads, in upload order: only package
      files of the listing. */
  function PackageFiles(listing: seq<string>): (r: seq<string>)
    ensures forall i | 0 <= i < |r| :: r[i] in listing && IsPackageFile(r[i])
  {
    GlobbedUpTo(listing, 4)
  }

  /** The collection loop: `package_files.extend(glob(...))` once per pattern. */
  method CollectPackageFiles(listing: seq<string>) returns (files: seq<string>)
    ensures files == PackageFiles(listing)
  {
    files := [];
    for k := 0 to |PackagePatterns|
      invariant files == GlobbedUpTo(listing, k)
    {
      files := files + Glob(listing, PackagePatterns[k]);
    }
  }

  lemma {:induction false} GlobCount(listing: seq<string>, ext: string, name: string)
    ensures multiset(Glob(listing, ext))[name]
            == if GlobMatches(name, ext) then multiset(listing)[name] else 0
  {
    if listing != [] {
      GlobCount(listing[1..], ext, name);
      assert listing == [listing[0]] + listing[1..];
    }
  }

  /** A name matches the `k`-th glob pattern exactly when it is visible and has rank `k`. */
  lemma GlobMatchesRank(name: string, k: nat)
    requires k < 4
    ensures GlobMatches(name, PackagePatterns[k])
            <==> name != [] && name[0] != '.' && PatternRank(name) == k
  {
    if EndsWith(name, PackagePatterns[k]) {
      PatternRankOf(name, k);
    }
  }

  lemma {:induction false} GlobbedUpToCount(listing: seq<string>, n: nat, name: string)
    requires n <= 4
    ensures multiset(GlobbedUpTo(listing, n))[name]
            == if name != [] && name[0] != '.' && PatternRank(name) < n then multiset(listing)[name] else 0
  {
    if n > 0 {
      var prev := GlobbedUpTo(listing, n - 1);
      var g := Glob(listing, PackagePatterns[n - 1]);
      assert multiset(GlobbedUpTo(listing, n)) == multiset(prev) + multiset(g);
      GlobbedUpToCount(listing, n - 1, name);
      GlobCount(listing, PackagePatterns[n - 1], name);
      GlobMatchesRank(name, n - 1);
    }
  }

  /** Every package file of the listing is uploaded exactly as often as it
      is listed, and nothing else is uploaded. */
  lemma PackageFilesCount(listing: seq<string>, name: string)
    ensures multiset(PackageFiles(listing))[name]
            == if IsPackageFile(name) then multiset(listing)[name] else 0
  {
    GlobbedUpToCount(listing, 4, name);
  }

  /** Every name in `files` comes from one of the first `n` patterns. */
  predicate RankedBelow(files: seq<string>, n: nat) {
    forall i | 0 <= i < |files| :: PatternRank(files[i]) < n
  }

  /** `files` lists names of earlier patterns before names of later ones. */
  predicate RankSorted(files: seq<string>) {
    forall i, j | 0 <= i < j < |files| :: PatternRank(files[i]) <= PatternRank(files[j])
  }

  lemma SortedAppend(a: seq<string>, b: seq<string>, n: nat)
    requires RankSorted(a) && RankedBelow(a, n)
    requires forall i | 0 <= i < |b| :: PatternRank(b[i]) == n
    ensures RankSorted(a + b) && RankedBelow(a + b, n + 1)
  {
    var ab := a + b;
    forall i, j | 0 <= i < j < |ab| ensures PatternRank(ab[i]) <= PatternRank(ab[j]) {
      if j < |a| {
        assert ab[i] == a[i] && ab[j] == a[j];
      } else if i < |a| {
        assert ab[i] == a[i] && ab[j] == b[j - |a|];
      } else {
        assert ab[i] == b[i - |a|] && ab[j] == b[j - |a|];
      }
    }
    forall i | 0 <= i < |ab| ensures PatternRank(ab[i]) < n + 1 {
      if i < |a| { assert ab[i] == a[i]; } else { assert ab[i] == b[i - |a|]; }
    }
  }

  lemma {:induction false} GlobbedUpToOrdered(listing: seq<string>, n: nat)
    requires n <= 4
    ensures RankSorted(GlobbedUpTo(listing, n)) && RankedBelow(GlobbedUpTo(listing, n), n)
  {
    if n > 0 {
      GlobbedUpToOrdered(listing, n - 1);
      GlobRank(listing, n - 1);
      SortedAppend(GlobbedUpTo(listing, n - 1), Glob(listing, PackagePatterns[n - 1]), n - 1);
    }
  }

  /** Wheels are uploaded first, then `.tar.gz`, then `.zip`, then `.egg` files. */
  lemma PackageFilesOrdered(listing: seq<string>)
    ensures RankSorted(PackageFiles(listing))
  {
    GlobbedUpToOrdered(listing, 4);
  }

  // ---------------------------------------------------------------------
  // The upload loop.
  // ---------------------------------------------------------------------

  /** What the POST of one file ends in. */
  datatype PostOutcome =
      /** `raise_for_status()` passed. */
    | Accepted
      /** `raise_for_status()` raised for this status and response text. */
    | HttpError(status: int, text: string)
      /** An exception while hashing or opening the file, before any POST, with its text. */
    | FailedBeforePost(message: string)
      /** Any other exception raised by the POST itself (a refused connection, a
          timeout), with its text: the form was built and sent. */
    | PostRaised(message: string)

  /** The form submitted for one file (digests and file content not modelled). */
  datatype UploadRequest = UploadRequest(
    url: string, filename: string,
    action: string, protocolVersion: string,
    name: string, version: string, filetype: string)

  /** The form `upload_to_devpi` builds for `filename`. */
  function Form(url: string, filename: string): (r: UploadRequest)
    ensures r.action == "file_upload" && r.protocolVersion == "1"
  {
    var m := ExtractPackageMetadata(filename);
    UploadRequest(url, filename, "file_upload", "1", m.name, m.version, Filetype(filename))
  }

  /** `f` applied to every element of `xs`. */
  function Map<A, B>(xs: seq<A>, f: A -> B): (r: seq<B>)
    ensures |r| == |xs|
  {
    seq(|xs|, i requires 0 <= i < |xs| => f(xs[i]))
  }

  lemma MapAppend<A, B>(xs: seq<A>, f: A -> B, i: nat)
    requires i < |xs|
    ensures Map(xs[..i + 1], f) == Map(xs[..i], f) + [f(xs[i])]
  {
    var longer := Map(xs[..i + 1], f);
    forall j | 0 <= j < i ensures longer[j] == Map(xs[..i], f)[j] {
      assert xs[..i + 1][j] == xs[..i][j];
    }
  }

  /** The forms for `files`, one per file, in order. */
  function Forms(url: string, files: seq<string>): (r: seq<UploadRequest>)
    ensures |r| == |files|
  {
    Map(files, filename => Form(url, filename))
  }

  lemma FormsAppend(url: string, files: seq<string>, i: nat)
    requires i < |files|
    ensures Forms(url, files[..i + 1]) == Forms(url, files[..i]) + [Form(url, files[i])]
  {
    MapAppend(files, filename => Form(url, filename), i);
  }

  /** Builds the form of the `k`-th file and posts it: the forms submitted
      so far grow by exactly that form. */
  method Submit(url: string, files: seq<string>, k: nat, submitted: seq<UploadRequest>)
    returns (r: seq<UploadRequest>)
    requires k < |files| && submitted == Forms(url, files[..k])
    ensures r == Forms(url, files[..k + 1])
  {
    FormsAppend(url, files, k);
    r := submitted + [Form(url, files[k])];
  }

  /** The form of a wheel carries the wheel's name and version groups and the `bdist_wheel` tag. */
  lemma FormOfWheel(url: string, filename: string, name: string, version: string)
    requires filename != [] && filename[|filename| - 1] != '\n'
    requires WheelForm(MatchSubject(Basename(filename)), name, version)
    ensures Form(url, filename).name == name && Form(url, filename).version == version
    ensures Form(url, filename).filetype == "bdist_wheel"
  {
    ExtractWheel(filename, name, version);
    WheelNameSuffix(filename, name, version);
  }

  /** The form of a source archive carries the archive's name and version groups and the `sdist` tag. */
  lemma FormOfArchive(url: string, filename: string, name: string, version: string)
    requires ArchiveForm(MatchSubject(Basename(filename)), name, version)
    ensures Form(url, filename).name == name && Form(url, filename).version == version
    ensures Form(url, filename).filetype == "sdist"
  {
    ExtractArchive(filename, name, version);
    ArchiveNameSuffix(filename, name, version);
  }

  /** How a call of `upload_to_devpi` ends. */
  datatype UploadOutcome =
      /** No server given: raised before anything else. */
    | MissingServer
      /** No package file in the directory: returns without uploading. */
    | NoPackageFiles
      /** Every file was accepted; the final `success_count / len(package_files)`. */
    | Uploaded(successCount: nat, total: nat)
      /** The file whose upload failed, the error message, and the files uploaded before it. */
    | Aborted(filename: string, message: string, uploaded: nat)

  /** The error message for a failed file: for an HTTP error, the message
      reads back as its status code and the kept part of the body; for any
      other exception, the exception's own text. */
  function FailureMessage(outcome: PostOutcome): (r: string)
    requires !outcome.Accepted?
    ensures outcome.HttpError? ==>
      ParseHttpErrorMessage(r) == Some((outcome.status, Prefix(outcome.text, BodyLimit)))
    ensures outcome.FailedBeforePost? || outcome.PostRaised? ==> r == outcome.message
  {
    match outcome
    case HttpError(status, text) =>
      HttpErrorMessageRoundTrip(status, text);
      HttpErrorMessage(status, text)
    case FailedBeforePost(message) => message
    case PostRaised(message) => message
  }

  /** Whether the file with this outcome was POSTed: every outcome except a
      failure while hashing or opening it. */
  predicate Posted(outcome: PostOutcome)
  {
    !outcome.FailedBeforePost?
  }

  /** The per-file loop of `upload_to_devpi` over non-empty `files`: the
      upload of the `k`-th file (counting from 0) ends as `responses[k]`, and
      `submitted` holds the forms actually POSTed, in order. */
  method UploadFiles(url: string, files: seq<string>, responses: seq<PostOutcome>)
    returns (outcome: UploadOutcome, submitted: seq<UploadRequest>)
    requires files != [] && |files| <= |responses|
    ensures outcome.Uploaded? || outcome.Aborted?
    ensures outcome.Uploaded? <==> forall j | 0 <= j < |files| :: responses[j].Accepted?
    ensures outcome.Uploaded? ==>
            outcome.successCount == outcome.total == |files| && submitted == Forms(url, files)
    ensures outcome.Aborted? ==>
            var k := outcome.uploaded;
            k < |files| && outcome.filename == files[k] &&
            (forall j | 0 <= j < k :: responses[j].Accepted?) &&
            !responses[k].Accepted? && outcome.message == FailureMessage(responses[k]) &&
            submitted == Forms(url, files[..if Posted(responses[k]) then k + 1 else k])
  {
    var successCount := 0;
    submitted := [];
    while successCount < |files|
      invariant successCount <= |files|
      invariant forall j | 0 <= j < successCount :: responses[j].Accepted?
      invariant submitted == Forms(url, files[..successCount])
    {
      var filename := files[successCount];
      match responses[successCount] {
        case FailedBeforePost(message) =>
          return Aborted(filename, message, successCount), submitted;
        case Accepted =>
          submitted := Submit(url, files, successCount, submitted);
          successCount := successCount + 1;
        case HttpError(status, text) =>
          submitted := Submit(url, files, successCount, submitted);
          return Aborted(filename, HttpErrorMessage(status, text), successCount), submitted;
        case PostRaised(message) =>
          submitted := Submit(url, files, successCount, submitted);
          return Aborted(filename, message, successCount), submitted;
      }
    }
    assert files[..successCount] == files;
    return Uploaded(successCount, |files|), submitted;
  }

  /** `upload_to_devpi`: URL, then the package files, then the per-file loop. */
  method UploadToDevpi(server: Option<string>, user: string, index: string,
                       listing: seq<string>, responses: seq<PostOutcome>)
    returns (outcome: UploadOutcome, submitted: seq<UploadRequest>)
    requires |PackageFiles(listing)| <= |responses|
    ensures outcome.MissingServer? <==> UploadUrl(server, user, index).None?
    ensures outcome.NoPackageFiles? <==>
            UploadUrl(server, user, index).Some? && PackageFiles(listing) == []
    ensures outcome.MissingServer? || outcome.NoPackageFiles? ==> submitted == []
    ensures outcome.Aborted? <==>
            UploadUrl(server, user, index).Some? && PackageFiles(listing) != [] &&
            exists j | 0 <= j < |PackageFiles(listing)| :: !responses[j].Accepted?
    ensures outcome.Uploaded? <==>
            UploadUrl(server, user, index).Some? && PackageFiles(listing) != [] &&
            forall j | 0 <= j < |PackageFiles(listing)| :: responses[j].Accepted?
    ensures outcome.Uploaded? ==>
            var files := PackageFiles(listing);
            outcome.successCount == outcome.total == |files| &&
            submitted == Forms(UploadUrl(server, user, index).value, files)
    ensures outcome.Aborted? ==>
            var files := PackageFiles(listing);
            var k := outcome.uploaded;
            UploadUrl(server, user, index).Some? &&
            k < |files| && outcome.filename == files[k] &&
            (forall j | 0 <= j < k :: responses[j].Accepted?) &&
            !responses[k].Accepted? && outcome.message == FailureMessage(responses[k]) &&
            submitted == Forms(UploadUrl(server, user, index).value,
                               files[..if Posted(responses[k]) then k + 1 else k])
  {
    var maybeUrl := UploadUrl(server, user, index);
    if maybeUrl.None? {
      return MissingServer, [];
    }
    var files := CollectPackageFiles(listing);
    if files == [] {
      return NoPackageFiles, [];
    }
    outcome, submitted := UploadFiles(maybeUrl.value, files, responses);
  }
}
