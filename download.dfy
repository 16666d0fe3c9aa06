/** The streaming downloader (`_requests_get_stream`): up to `max_retries`
    attempts, each a streamed GET whose body is copied chunk by chunk into
    the destination file; the first attempt that completes ends the loop with
    no error, otherwise the last attempt's exception is returned.

    The network is not modelled: what each attempt does is an input, one
    `Attempt` per attempt number. The destination file is a `DestFile`
    object whose content the loop rewrites in place. */
module Download {
  import opened Text

  newtype byte = x: int | 0 <= x < 256

  type Chunk = seq<byte>

  /** The exception an attempt raised (connection error, timeout, HTTP status
      error, I/O error); only its identity matters to the loop. */
  datatype Error = Error(description: string)

  /** What one attempt of the loop body does. */
  datatype Attempt =
      /** Raised before the destination was opened: the GET itself, the
          status check or reading `content-length` failed. */
    | Refused(error: Error)
      /** The destination was opened (and so truncated), these chunks were
          received, and then the body raised. */
    | Interrupted(received: seq<Chunk>, error: Error)
      /** The whole body was received as these chunks. */
    | Completed(received: seq<Chunk>)

  /** The chunks the copy loop writes: `if chunk:` skips the empty ones and
      keeps every other one. */
  function NonEmpty(chunks: seq<Chunk>): (r: seq<Chunk>)
    ensures |r| <= |chunks|
    ensures forall i | 0 <= i < |r| :: r[i] != [] && r[i] in chunks
    ensures forall c | c in chunks && c != [] :: c in r
  {
    if chunks == [] then []
    else if chunks[0] == [] then NonEmpty(chunks[1..])
    else [chunks[0]] + NonEmpty(chunks[1..])
  }

  /** The chunks laid end to end. */
  function Concat(chunks: seq<Chunk>): seq<byte> {
    if chunks == [] then [] else chunks[0] + Concat(chunks[1..])
  }

  /** The bytes a body made of `chunks` leaves in a freshly truncated file. */
  function Written(chunks: seq<Chunk>): seq<byte> {
    Concat(NonEmpty(chunks))
  }

  lemma {:induction false} ConcatAppend(a: seq<Chunk>, b: seq<Chunk>)
    ensures Concat(a + b) == Concat(a) + Concat(b)
  {
    if a == [] {
      assert a + b == b;
    } else {
      assert (a + b)[1..] == a[1..] + b;
      ConcatAppend(a[1..], b);
      assert Concat(a + b) == a[0] + Concat(a[1..] + b);
    }
  }

  lemma {:induction false} NonEmptyAppend(a: seq<Chunk>, c: Chunk)
    ensures NonEmpty(a + [c]) == NonEmpty(a) + (if c == [] then [] else [c])
  {
    if a != [] {
      assert (a + [c])[1..] == a[1..] + [c];
      NonEmptyAppend(a[1..], c);
    }
  }

  /** Written bytes grow by the next chunk, empty or not. */
  lemma WrittenAppend(a: seq<Chunk>, c: Chunk)
    ensures Written(a + [c]) == Written(a) + c
  {
    NonEmptyAppend(a, c);
    ConcatAppend(NonEmpty(a), if c == [] then [] else [c]);
    assert Concat([c]) == c + Concat([]);
  }

  /** Skipping empty chunks loses nothing: the file holds the whole body. */
  lemma {:induction false} WrittenIsWholeBody(chunks: seq<Chunk>)
    ensures Written(chunks) == Concat(chunks)
  {
    if chunks != [] {
      WrittenIsWholeBody(chunks[1..]);
    }
  }

  /** The destination file; `content` is what is on disk. */
  class DestFile {
    var content: seq<byte>

    constructor (initial: seq<byte>)
      ensures content == initial
    {
      content := initial;
    }

    /** `open(dest_path, "wb")`: the file is emptied. */
    method Truncate()
      modifies this
      ensures content == []
    {
      content := [];
    }

    /** `f.write(chunk)`. */
    method Write(chunk: Chunk)
      modifies this
      ensures content == old(content) + chunk
    {
      content := content + chunk;
    }
  }

  /** The chunk loop of one attempt: every non-empty chunk is written and
      counted on the progress bar, whose total is returned. */
  method CopyChunks(chunks: seq<Chunk>, dest: DestFile) returns (progress: nat)
    modifies dest
    ensures dest.content == old(dest.content) + Written(chunks)
    ensures progress == |Written(chunks)|
  {
    progress := 0;
    var i := 0;
    while i < |chunks|
      invariant i <= |chunks|
      invariant dest.content == old(dest.content) + Written(chunks[..i])
      invariant progress == |Written(chunks[..i])|
    {
      if chunks[i] != [] {
        dest.Write(chunks[i]);
        progress := progress + |chunks[i]|;
      }
      assert chunks[..i + 1] == chunks[..i] + [chunks[i]];
      WrittenAppend(chunks[..i], chunks[i]);
      i := i + 1;
    }
    assert chunks[..i] == chunks;
  }

  /** The result of the loop: what it returns, what the file holds, and how many GETs it issued. */
  datatype FetchOutcome = FetchOutcome(error: Option<Error>, file: seq<byte>, attempts: nat)

  /** The loop from the attempt after `made` on, with `lastError` and the
      file as they are: it makes no attempt when `made` has reached
      `max_retries`, and otherwise stops by `max_retries` attempts in all. */
  function FetchFrom(outcomes: seq<Attempt>, maxRetries: int, made: nat,
                     lastError: Option<Error>, file: seq<byte>): (r: FetchOutcome)
    requires maxRetries <= |outcomes|
    ensures made <= r.attempts
    ensures made < maxRetries ==> r.attempts <= maxRetries
    ensures maxRetries <= made ==> r == FetchOutcome(lastError, file, made)
    decreases maxRetries - made
  {
    if maxRetries <= made then FetchOutcome(lastError, file, made)
    else
      match outcomes[made]
      case Completed(chunks) => FetchOutcome(None, Written(chunks), made + 1)
      case Refused(e) => FetchFrom(outcomes, maxRetries, made + 1, Some(e), file)
      case Interrupted(chunks, e) => FetchFrom(outcomes, maxRetries, made + 1, Some(e), Written(chunks))
  }

  /** `_requests_get_stream` with attempt `k` (counting from 1) behaving as
      `outcomes[k - 1]`: at most `max_retries` GETs are issued, and none when
      it is 0 or less. */
  function Fetch(outcomes: seq<Attempt>, maxRetries: int, file: seq<byte>): (r: FetchOutcome)
    requires maxRetries <= |outcomes|
    ensures r.attempts <= if maxRetries < 0 then 0 else maxRetries
  {
    FetchFrom(outcomes, maxRetries, 0, None, file)
  }

  /** The loop itself. `outcomes` must hold an outcome for every attempt the
      loop may make; `progress` is what the successful attempt's progress bar
      counted (0 when no attempt succeeded). */
  method RequestsGetStream(outcomes: seq<Attempt>, maxRetries: int, dest: DestFile)
    returns (error: Option<Error>, attempts: nat, progress: nat)
    requires maxRetries <= |outcomes|
    modifies dest
    ensures Fetch(outcomes, maxRetries, old(dest.content)) == FetchOutcome(error, dest.content, attempts)
    ensures progress == if error.None? && attempts > 0 then |dest.content| else 0
  {
    var lastError: Option<Error> := None;
    var attempt := 1;
    while attempt <= maxRetries
      invariant 1 <= attempt <= if maxRetries < 1 then 1 else maxRetries + 1
      invariant lastError.None? <==> attempt == 1
      invariant FetchFrom(outcomes, maxRetries, attempt - 1, lastError, dest.content)
                == Fetch(outcomes, maxRetries, old(dest.content))
      decreases maxRetries - attempt + 1
    {
      match outcomes[attempt - 1] {
        case Completed(chunks) =>
          dest.Truncate();
          progress := CopyChunks(chunks, dest);
          return None, attempt, progress;
        case Refused(e) =>
          lastError := Some(e);
        case Interrupted(chunks, e) =>
          dest.Truncate();
          var _ := CopyChunks(chunks, dest);
          assert dest.content == Written(chunks);
          lastError := Some(e);
      }
      attempt := attempt + 1;
    }
    return lastError, attempt - 1, 0;
  }

  // ---------------------------------------------------------------------
  // What the loop promises.
  // ---------------------------------------------------------------------

  /** With no attempts allowed the loop returns no error and leaves the file alone. */
  lemma FetchWithoutRetries(outcomes: seq<Attempt>, maxRetries: int, file: seq<byte>)
    requires maxRetries <= 0 && maxRetries <= |outcomes|
    ensures Fetch(outcomes, maxRetries, file) == FetchOutcome(None, file, 0)
  {
  }

  lemma {:induction false} FetchFromFirstSuccess(outcomes: seq<Attempt>, maxRetries: int, made: nat,
                                                 lastError: Option<Error>, file: seq<byte>, k: nat)
    requires maxRetries <= |outcomes|
    requires made <= k < maxRetries && outcomes[k].Completed?
    requires forall j | made <= j < k :: !outcomes[j].Completed?
    ensures FetchFrom(outcomes, maxRetries, made, lastError, file)
            == FetchOutcome(None, Written(outcomes[k].received), k + 1)
    decreases k - made
  {
    if made < k {
      var next := match outcomes[made]
        case Interrupted(chunks, _) => Written(chunks)
        case _ => file;
      FetchFromFirstSuccess(outcomes, maxRetries, made + 1, Some(outcomes[made].error), next, k);
    }
  }

  /** The first attempt that completes ends the loop: no error, no further
      GET, and the file holds exactly that attempt's body. */
  lemma FetchStopsAtFirstSuccess(outcomes: seq<Attempt>, maxRetries: int, file: seq<byte>, k: nat)
    requires maxRetries <= |outcomes|
    requires k < maxRetries && outcomes[k].Completed?
    requires forall j | 0 <= j < k :: !outcomes[j].Completed?
    ensures Fetch(outcomes, maxRetries, file)
            == FetchOutcome(None, Concat(outcomes[k].received), k + 1)
  {
    FetchFromFirstSuccess(outcomes, maxRetries, 0, None, file, k);
    WrittenIsWholeBody(outcomes[k].received);
  }

  lemma {:induction false} FetchFromAllFail(outcomes: seq<Attempt>, maxRetries: int, made: nat,
                                            lastError: Option<Error>, file: seq<byte>)
    requires maxRetries <= |outcomes|
    requires made < maxRetries
    requires forall j | made <= j < maxRetries :: !outcomes[j].Completed?
    ensures var r := FetchFrom(outcomes, maxRetries, made, lastError, file);
      r.error == Some(outcomes[maxRetries - 1].error) && r.attempts == maxRetries
    decreases maxRetries - made
  {
    var next := match outcomes[made]
      case Interrupted(chunks, _) => Written(chunks)
      case _ => file;
    if made + 1 < maxRetries {
      FetchFromAllFail(outcomes, maxRetries, made + 1, Some(outcomes[made].error), next);
    }
  }

  /** When every allowed attempt fails, all of them are made and the last one's error is returned. */
  lemma FetchAllFail(outcomes: seq<Attempt>, maxRetries: int, file: seq<byte>)
    requires 0 < maxRetries <= |outcomes|
    requires forall j | 0 <= j < maxRetries :: !outcomes[j].Completed?
    ensures var r := Fetch(outcomes, maxRetries, file);
      r.error == Some(outcomes[maxRetries - 1].error) && r.attempts == maxRetries
  {
    FetchFromAllFail(outcomes, maxRetries, 0, None, file);
  }

  /** The loop returns no error exactly when no attempt is allowed or one of the allowed attempts completes. */
  lemma FetchSucceedsIff(outcomes: seq<Attempt>, maxRetries: int, file: seq<byte>)
    requires maxRetries <= |outcomes|
    ensures Fetch(outcomes, maxRetries, file).error.None?
            <==> maxRetries <= 0 || exists k | 0 <= k < maxRetries :: outcomes[k].Completed?
  {
    if exists k | 0 <= k < maxRetries :: outcomes[k].Completed? {
      var k := FirstCompleted(outcomes, maxRetries);
      FetchStopsAtFirstSuccess(outcomes, maxRetries, file, k);
    } else if maxRetries > 0 {
      FetchAllFail(outcomes, maxRetries, file);
    }
  }

  /** The index of the first completed attempt among the first `n`. */
  lemma FirstCompleted(outcomes: seq<Attempt>, n: int) returns (k: nat)
    requires n <= |outcomes|
    requires exists k | 0 <= k < n :: outcomes[k].Completed?
    ensures k < n && outcomes[k].Completed?
    ensures forall j | 0 <= j < k :: !outcomes[j].Completed?
  {
    k := 0;
    while !outcomes[k].Completed?
      invariant k < n
      invariant forall j | 0 <= j < k :: !outcomes[j].Completed?
      decreases n - k
    {
      k := k + 1;
    }
  }

  /** A fetch whose first N-1 attempts fail transiently and whose attempt N
      (N at most `max_retries`) completes leaves exactly that body on disk. */
  lemma TransientFailures(outcomes: seq<Attempt>, maxRetries: int, file: seq<byte>, n: nat, body: seq<Chunk>)
    requires 0 < n <= maxRetries <= |outcomes|
    requires forall j | 0 <= j < n - 1 :: outcomes[j].Refused?
    requires outcomes[n - 1] == Completed(body)
    ensures Fetch(outcomes, maxRetries, file) == FetchOutcome(None, Concat(body), n)
  {
    FetchStopsAtFirstSuccess(outcomes, maxRetries, file, n - 1);
  }
}
