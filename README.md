# gh-release-devpi: filename metadata, streaming download and direct upload

This project models the functional core of `gh_release_devpi`, a tool that
downloads the assets of the latest release of a repository and uploads the
Python package files among them to a devpi index. It covers three parts of
`gh_release_devpi/main.py`:

- **Package metadata from a filename** (`extract_package_metadata`), in
  module `Metadata`. The filename is cut to its basename. It is then matched
  against the wheel pattern, then against the source-archive pattern, and
  `{"unknown", "0.0.0"}` is the result when neither matches.
  - No regex engine is modelled. Neither character class contains `-`, so
    the name group always ends at the first `-` and the wheel version at the
    second.
  - The archive extensions end in four different characters, so a subject
    ends in at most one of them.
  - The regex is read as the right-to-left decompositions `WheelForm` and
    `ArchiveForm`. Both directions are proved: the parser returns groups
    exactly when such a decomposition exists.
  - Python's `$` also matches before one final newline. That newline is
    dropped from the match subject (`MatchSubject`).
- **The streaming downloader** (`_requests_get_stream`), in module
  `Download`.
  - Each attempt is an input of type `Attempt`:
    - refused before the destination is opened;
    - interrupted after the destination was truncated and some chunks were
      written;
    - completed.
  - The destination file is a `DestFile` object that the loop truncates and
    appends to in place.
  - The loop method `RequestsGetStream` is proved against the recursive
    specification `Fetch`. The retry properties are lemmas about `Fetch`.
- **The direct-protocol upload** (`upload_to_devpi`), in module `Upload`:
  - the upload URL and its `rstrip('/')`;
  - the `filetype` tag;
  - the HTTP error message with the response body cut to 200 characters;
  - the pattern-by-pattern collection of package files;
  - the per-file loop that counts successes and aborts at the first failure.

  The directory listing and the outcome of each POST are inputs.

Module `Text` holds the string helpers these need:
- `endswith`;
- splitting at the first occurrence of a character;
- `rstrip`;
- slicing;
- printing an `int` in decimal.

Two behaviours of the code worth noting:
- `_requests_get_stream` returns `None` on success, not the destination
  path.
- Package files are uploaded grouped by pattern: every `.whl`, then
  `.tar.gz`, then `.zip`, then `.egg`. Within a pattern they keep glob
  order. They are not uploaded in plain directory-listing order
  (`PackageFilesOrdered`).

## Model

| member | source | states |
|---|---|---|
| Text.SplitAtFirst | gh_release_devpi/main.py:55 | the split puts the first `c` between the two parts, and the left part has no `c`; None exactly when `c` does not occur |
| Text.SplitAtFirstOf | gh_release_devpi/main.py:55 | splitting `before + c + after` at `c`, with no `c` in `before`, gives back `before` and `after` |
| Text.RStrip | gh_release_devpi/main.py:99 | `rstrip(c)` is a prefix of the input, does not end in `c`, and only `c` was removed |
| Text.RStripIdempotent | gh_release_devpi/main.py:99 | stripping twice equals stripping once |
| Text.RStripAppended | gh_release_devpi/main.py:99 | one more trailing `c` does not change the stripped string |
| Text.Prefix | gh_release_devpi/main.py:164 | `s[:n]` has length `min(len(s), n)` and is a prefix of `s` |
| Text.NatToDecimal | gh_release_devpi/main.py:162 | the printed form is non-empty, all digits, with no leading zero |
| Text.IntToString | gh_release_devpi/main.py:162 | the printed status code holds only digits and `-` |
| Text.DecimalRoundTrip | gh_release_devpi/main.py:162 | reading the printed digits back gives the number |
| Text.IntRoundTrip | gh_release_devpi/main.py:162 | a printed integer is well formed, and reading it back gives the integer |
| Metadata.Basename | gh_release_devpi/main.py:52 | `os.path.basename` has no `/`, is a suffix of the path, and is preceded by `/` when shorter than it |
| Metadata.MatchSubject | gh_release_devpi/main.py:55-56 | the subject `$` sees is the basename less at most one final newline |
| Metadata.MatchWheel | gh_release_devpi/main.py:55-56 | a match returns a name of word characters and a version starting with a digit, and the subject starts with `name-version-` |
| Metadata.ParseWheel | gh_release_devpi/main.py:55-56 | the wheel rule returns a name and a version; a basename without a final newline is matched as it stands |
| Metadata.MatchArchive | gh_release_devpi/main.py:61-64 | a match returns a name of word characters and a version starting with a digit |
| Metadata.ParseArchive | gh_release_devpi/main.py:61-64 | the archive rule returns a name and a version; a basename without a final newline is matched as it stands |
| Metadata.ExtractPackageMetadata | gh_release_devpi/main.py:46-70 | never fails: the result is the placeholder or a name and a version |
| Metadata.ArchiveExtensionOf | gh_release_devpi/main.py:62 | the extension returned is one of the four alternatives and ends the string; None when no alternative does |
| Metadata.NoDash | gh_release_devpi/main.py:55 | no name or version character is `-` |
| Metadata.MatchWheelSound | gh_release_devpi/main.py:55-58 | whatever the wheel rule returns is a real match of the wheel pattern with those groups |
| Metadata.MatchWheelComplete | gh_release_devpi/main.py:55-58 | every subject matching the wheel pattern is accepted, with exactly its name and version groups |
| Metadata.WheelSuffix | gh_release_devpi/main.py:55 | a subject the wheel rule accepts ends in `.whl` |
| Metadata.ArchiveExtensionUnique | gh_release_devpi/main.py:62 | a string ends in at most one archive extension |
| Metadata.MatchArchiveSound | gh_release_devpi/main.py:61-66 | whatever the archive rule returns is a real match of the source-archive pattern with those groups |
| Metadata.MatchArchiveComplete | gh_release_devpi/main.py:61-66 | every subject matching the source-archive pattern is accepted, with exactly its name and version groups |
| Metadata.ArchiveSuffix | gh_release_devpi/main.py:62 | a subject the archive rule accepts does not end in `.whl` |
| Metadata.ArchiveExcludesWheel | gh_release_devpi/main.py:54-66 | a subject the archive rule accepts is refused by the wheel rule |
| Metadata.FormsExclusive | gh_release_devpi/main.py:54-66 | no subject matches both patterns |
| Metadata.WheelRule | gh_release_devpi/main.py:52-58 | on a basename of wheel form the wheel rule fires with its groups |
| Metadata.ArchiveRule | gh_release_devpi/main.py:52-66 | on a basename of archive form the wheel rule fails and the archive rule fires with its groups |
| Metadata.WheelNameSuffix | gh_release_devpi/main.py:55 | a path whose basename matches the wheel pattern, and which does not end in a newline, ends in `.whl` |
| Metadata.ArchiveNameSuffix | gh_release_devpi/main.py:62 | a path whose basename matches the source-archive pattern does not end in `.whl` |
| Metadata.ExtractWheel | gh_release_devpi/main.py:52-58 | a wheel filename yields its name and version groups |
| Metadata.ExtractArchive | gh_release_devpi/main.py:52-66 | a source-archive filename yields its name and version groups |
| Metadata.ExtractCharacterized | gh_release_devpi/main.py:46-70 | if some pattern matches, the result is a match's groups; if none does, the result is `{"unknown", "0.0.0"}` |
| Metadata.ExtractIgnoresDirectory | gh_release_devpi/main.py:52 | the directory part of the path never changes the result |
| Metadata.BasenameOfJoin | gh_release_devpi/main.py:52 | the basename of `dir/name` is the basename of `name` |
| Metadata.NoDashIsUnknown | gh_release_devpi/main.py:68-70 | a basename without `-` yields the placeholder |
| Metadata.BasenamePlain | gh_release_devpi/main.py:52 | a name without `/` is its own basename |
| Metadata.WheelExample | gh_release_devpi/main.py:54-58 | `a-1.0.0-py3-none-any.whl` yields name `a`, version `1.0.0` |
| Metadata.ArchiveExample | gh_release_devpi/main.py:60-66 | `b-2.0.0.tar.gz` yields name `b`, version `2.0.0` |
| Metadata.FallbackExample | gh_release_devpi/main.py:68-70 | `README.md` yields `{"unknown", "0.0.0"}` |
| Download.NonEmpty | gh_release_devpi/main.py:206-207 | every chunk written is a non-empty received chunk, and every non-empty received chunk is written |
| Download.ConcatAppend | gh_release_devpi/main.py:206-208 | laying chunks end to end distributes over concatenation |
| Download.NonEmptyAppend | gh_release_devpi/main.py:207 | one more chunk is written exactly when it is non-empty |
| Download.WrittenAppend | gh_release_devpi/main.py:206-208 | each received chunk extends the written bytes by exactly that chunk |
| Download.WrittenIsWholeBody | gh_release_devpi/main.py:206-208 | skipping empty chunks loses no byte: the file holds the whole body |
| Download.DestFile.Truncate | gh_release_devpi/main.py:196 | opening with `"wb"` empties the file |
| Download.DestFile.Write | gh_release_devpi/main.py:208 | a write appends the chunk |
| Download.CopyChunks | gh_release_devpi/main.py:206-209 | the chunk loop appends exactly the body's bytes, and the progress bar counts exactly that many |
| Download.RequestsGetStream | gh_release_devpi/main.py:176-218 | the loop returns the error, makes the attempts and leaves the file content that `Fetch` specifies; progress counts the successful body |
| Download.FetchFrom | gh_release_devpi/main.py:183-218 | from attempt `made` on: nothing changes once `max_retries` is reached, and otherwise no more than `max_retries` attempts are made in total |
| Download.Fetch | gh_release_devpi/main.py:183-218 | at most `max_retries` GETs are issued, and none when it is 0 or less |
| Download.FetchWithoutRetries | gh_release_devpi/main.py:183-184 | with `max_retries <= 0` the function returns `None` and leaves the file untouched |
| Download.FetchFromFirstSuccess | gh_release_devpi/main.py:184-211 | from attempt `made` on, the first completed attempt ends the loop |
| Download.FetchStopsAtFirstSuccess | gh_release_devpi/main.py:184-211 | the first completed attempt ends the loop with no error, after exactly that many GETs, with its whole body on disk |
| Download.FetchFromAllFail | gh_release_devpi/main.py:213-218 | from attempt `made` on, when every remaining attempt fails, all are made and the last error is kept |
| Download.FetchAllFail | gh_release_devpi/main.py:184-218 | when every attempt fails, all `max_retries` are made and the last attempt's exception is returned |
| Download.FetchSucceedsIff | gh_release_devpi/main.py:176-218 | the result is `None` exactly when no attempt is allowed or some allowed attempt completes |
| Download.FirstCompleted | gh_release_devpi/main.py:184-211 | the index of the first completed attempt, with all earlier attempts failed |
| Download.TransientFailures | gh_release_devpi/main.py:184-216 | after N-1 refused attempts, a completed attempt N leaves exactly its body on disk, after N GETs, with no error |
| Upload.UploadUrl | gh_release_devpi/main.py:95-99 | no URL when the server is missing or empty; otherwise the stripped server, then `/user/index/`, with only `/` stripped |
| Upload.UploadUrlIgnoresTrailingSlash | gh_release_devpi/main.py:99 | a trailing `/` on the server gives the same URL |
| Upload.Filetype | gh_release_devpi/main.py:145 | `bdist_wheel` exactly when the name ends in `.whl`, otherwise `sdist` |
| Upload.FiletypeAgreesWithRules | gh_release_devpi/main.py:54-66 | names the wheel rule accepts are tagged `bdist_wheel`; names the archive rule accepts are tagged `sdist` |
| Upload.HttpErrorMessage | gh_release_devpi/main.py:162-164 | the message starts with `HTTP <code>`, adds at most `: ` and 200 body characters to that, and has no body part exactly when the body is empty |
| Upload.HttpErrorMessageRoundTrip | gh_release_devpi/main.py:162-164 | the message gives back the status code and exactly the first 200 characters of the body |
| Upload.GlobMatches | gh_release_devpi/main.py:113 | a name `*.ext` matches ends in `.ext`, does not start with `.`, and so has a non-empty stem |
| Upload.Glob | gh_release_devpi/main.py:113 | the names `glob` returns are listed names that end in the extension and do not start with `.` |
| Upload.PatternRank | gh_release_devpi/main.py:112 | the rank of a name is the index of the pattern it ends with, or 4 when there is none |
| Upload.PatternRankOf | gh_release_devpi/main.py:112 | a name ending in the k-th pattern has rank k |
| Upload.GlobRank | gh_release_devpi/main.py:112-113 | every name the k-th pattern globs has rank k |
| Upload.GlobbedUpTo | gh_release_devpi/main.py:111-113 | after k patterns, the list holds only listed, visible names of rank below k |
| Upload.PackageFiles | gh_release_devpi/main.py:111-113 | only package files of the listing are uploaded |
| Upload.CollectPackageFiles | gh_release_devpi/main.py:111-113 | the collection loop builds `PackageFiles(listing)` |
| Upload.GlobCount | gh_release_devpi/main.py:113 | one glob keeps every matching name as often as it is listed, and nothing else |
| Upload.GlobMatchesRank | gh_release_devpi/main.py:112-113 | a name matches the k-th pattern exactly when it is visible and has rank k |
| Upload.GlobbedUpToCount | gh_release_devpi/main.py:111-113 | after k patterns, each visible name of rank below k occurs as often as listed |
| Upload.PackageFilesCount | gh_release_devpi/main.py:110-113 | every package file is uploaded as often as it is listed, and nothing else is uploaded |
| Upload.SortedAppend | gh_release_devpi/main.py:112-113 | appending the next pattern's files keeps pattern order |
| Upload.GlobbedUpToOrdered | gh_release_devpi/main.py:111-113 | after k patterns, the list is in pattern order and holds only ranks below k |
| Upload.PackageFilesOrdered | gh_release_devpi/main.py:111-113 | wheels come first, then `.tar.gz`, then `.zip`, then `.egg` |
| Upload.Form | gh_release_devpi/main.py:138-146 | the form has `:action=file_upload` and `protocol_version=1` |
| Upload.Forms | gh_release_devpi/main.py:123-146 | one form per file |
| Upload.FormsAppend | gh_release_devpi/main.py:123-155 | the forms for one more file are the earlier forms plus that file's form |
| Upload.Submit | gh_release_devpi/main.py:129-155 | posting the k-th file's form extends the submitted forms by exactly that form |
| Upload.FormOfWheel | gh_release_devpi/main.py:129-146 | a wheel's form carries its name and version groups and `bdist_wheel` |
| Upload.FormOfArchive | gh_release_devpi/main.py:129-146 | a source archive's form carries its name and version groups and `sdist` |
| Upload.FailureMessage | gh_release_devpi/main.py:161-169 | an HTTP error's message reads back as its status code and the kept body; any other exception's message is its own text |
| Upload.UploadFiles | gh_release_devpi/main.py:121-173 | all files are uploaded in order exactly when every POST is accepted, and the count is then `len(package_files)`; otherwise the run aborts at the first failure, names that file and its message, and has POSTed the forms before it, plus its own form unless hashing or opening it failed |
| Upload.UploadToDevpi | gh_release_devpi/main.py:86-173 | raises exactly when there is no server; returns without uploading exactly when there is no package file; otherwise aborts exactly when some POST fails, with the per-file loop's outcomes over `PackageFiles(listing)` against the derived URL |

## Left out

- HTTP transport is not modelled: `requests.get`, `requests.post`, redirects, timeouts, proxies and basic authentication. What each GET attempt and each POST does is an input.
- The 8 KiB chunk size is not modelled. Chunks are whatever the input lists.
- `compute_file_hash`, and with it the MD5 and SHA-256 digests of the upload form, are not modelled. Reading the file content for the multipart body is not modelled either. An I/O error there is the `FailedBeforePost` outcome of that file.
- The `time.sleep(0.5 * attempt)` backoff is not modelled. Time has no effect on the result.
- Console output is not modelled: `rich` messages, the fallback warning and the `tqdm` bar's display. The bar's `total` from `content-length` is not modelled. Only the count of bytes it is advanced by is kept (`progress`).
- The `Typer` command line, `.env` loading, `format_size`, `clear_artifacts_dir`, `download_asset`, the release lookup and the external-tool upload strategy are not part of this model.
- Files are the names of a directory listing, not paths. The artifacts directory and `os.path.join` are not modelled. Glob order is the listing order.
- Download.RequestsGetStream: requires an outcome for every attempt it may make (`maxRetries <= |outcomes|`). The network supplies these in the original.
- Upload.UploadFiles: requires a POST outcome for every file. The same holds for Upload.UploadToDevpi (`|PackageFiles(listing)| <= |responses|`).
- Upload.UploadFiles: the `RuntimeError` text that wraps the message is not modelled. The failing file's name and the message are returned separately as `Aborted(filename, message, uploaded)`.
- Upload.FormOfWheel: requires that the name does not end in a newline. For `x-1-t.whl\n` the wheel rule fires, because `$` matches before the newline, but `endswith(".whl")` is false, so the tag is `sdist`.

