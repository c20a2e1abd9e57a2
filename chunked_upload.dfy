/**
 * The client transfer controller of hooks/useChunkedUpload.ts: file validation, the chunk
 * plan, byte-accurate progress, the retry loop of one chunk upload, the worker pool that
 * re-drives the unresolved chunks, and the phase state machine around them.
 *
 * Network results are oracle inputs: `net(i, a)` is what the a-th fetch (0-based) of chunk i
 * returns. A reply saying that the fetch was aborted stands for the user pressing cancel while
 * that request was in flight; the model applies cancel's effects at that point, so the abort
 * signal is set exactly when a cancel happened.
 */
module ChunkedUpload {
  import opened Common
  import opened Text

  const DefaultChunkBytes: nat := 1024 * 1024
  const DefaultMaxRetriesPerChunk: nat := 2
  const DefaultMaxConcurrency: nat := 3
  const MaxUploadBytes: nat := 100 * 1024 * 1024
  /** The backoff before retry k is BackoffUnitMs * k * k milliseconds. */
  const BackoffUnitMs: nat := 250

  datatype Phase = Idle | Validating | Initializing | Uploading | Finalizing | Done | Error | Canceled

  datatype ChunkStatus = Pending | Uploading | Uploaded | Failed

  /** The parts of a browser `File` the controller looks at. */
  datatype File = File(name: string, size: nat)

  /** What one fetch produced: a 2xx response, another status, a thrown network error, or an abort. */
  datatype FetchResult = Accepted | Rejected(status: int) | NetworkDown | AbortedFetch

  /** What the session-opening request produced. */
  datatype InitReply = Opened(sessionId: string) | InitRejected(status: int) | InitNetworkDown | InitAborted

  /** The errors the controller throws or records. */
  datatype Failure =
    | NoFileSelected | EmptyFile | FileTooLarge | NotCsv   // validateFile
    | InitFailed(status: int)                             // session could not be opened
    | NotReadyToResume                                    // uploadRemainingChunks guard
    | ChunkFailed(index: nat, status: int)                // non-2xx on the last allowed attempt
    | TransportFailed                                     // a thrown network error on the last attempt
    | AbortError                                          // the run was canceled
    | NothingToFinalize | IncompleteUpload               // finalize guards
    | FinalizeFailed(status: int)                         // the server refused to assemble
    | FileMissingForResume | SessionMissingForResume      // resume guards

  // ---------------------------------------------------------------------------
  // Validation

  /** The name ends in `.csv`, ignoring ASCII case (the pattern /\.csv$/i). */
  predicate IsCsvName(name: string)
  {
    |name| >= 4 && name[|name| - 4] == '.'
    && AsciiLower(name[|name| - 3]) == 'c'
    && AsciiLower(name[|name| - 2]) == 's'
    && AsciiLower(name[|name| - 1]) == 'v'
  }

  /** validateFile: rejects a missing, empty, oversized or non-CSV file, in that order of checks. */
  function ValidateFile(file: Option<File>): (r: Outcome<Failure>)
    ensures r.Pass? <==> file.Some? && 0 < file.value.size <= MaxUploadBytes && IsCsvName(file.value.name)
    ensures file.None? ==> r == Fail(NoFileSelected)
    ensures file.Some? && file.value.size == 0 ==> r == Fail(EmptyFile)
    ensures file.Some? && file.value.size > MaxUploadBytes ==> r == Fail(FileTooLarge)
    ensures file.Some? && 0 < file.value.size <= MaxUploadBytes && !IsCsvName(file.value.name) ==> r == Fail(NotCsv)
  {
    if file.None? then Fail(NoFileSelected)
    else if file.value.size == 0 then Fail(EmptyFile)
    else if file.value.size > MaxUploadBytes then Fail(FileTooLarge)
    else if !IsCsvName(file.value.name) then Fail(NotCsv)
    else Pass
  }

  // ---------------------------------------------------------------------------
  // Chunk plan

  /** Math.ceil(a / b) on naturals, counted by repeated subtraction. */
  function CeilDiv(a: nat, b: nat): nat
    requires b > 0
    decreases a
  {
    if a == 0 then 0
    else if a <= b then 1
    else CeilDiv(a - b, b) + 1
  }

  /** CeilDiv(a, b) is the least n with n * b >= a. */
  lemma {:induction false} CeilDivBounds(a: nat, b: nat)
    requires b > 0
    ensures CeilDiv(a, b) * b >= a
    ensures CeilDiv(a, b) > 0 ==> (CeilDiv(a, b) - 1) * b < a
    decreases a
  {
    if a > b {
      CeilDivBounds(a - b, b);
      var m := CeilDiv(a - b, b);
      MulSucc(m, b);
    }
  }

  lemma MulSucc(n: nat, c: nat)
    ensures (n + 1) * c == n * c + c
  {
  }

  lemma MulMonotone(x: nat, y: nat, c: nat)
    requires x <= y
    ensures x * c <= y * c
  {
    assert y * c == x * c + (y - x) * c;
  }

  /**
   * Reference definition of the plan: whole chunks of `chunk` bytes from the front, then
   * whatever is left as the last chunk.
   */
  function PlanSizes(size: nat, chunk: nat): seq<nat>
    requires chunk > 0
    decreases size
  {
    if size == 0 then []
    else if size <= chunk then [size]
    else [chunk] + PlanSizes(size - chunk, chunk)
  }

  /** The plan covers the file exactly: ceil(size/chunk) chunks, summing to size. */
  lemma {:induction false} PlanSizesCover(size: nat, chunk: nat)
    requires chunk > 0
    ensures |PlanSizes(size, chunk)| == CeilDiv(size, chunk)
    ensures Sum(PlanSizes(size, chunk)) == size
    decreases size
  {
    if size > chunk {
      PlanSizesCover(size - chunk, chunk);
    }
  }

  /** Every chunk but the last is exactly `chunk` bytes. */
  lemma {:induction false} PlanSizesFull(size: nat, chunk: nat, i: nat)
    requires chunk > 0
    requires i + 1 < |PlanSizes(size, chunk)|
    ensures PlanSizes(size, chunk)[i] == chunk
    decreases size
  {
    if i > 0 {
      PlanSizesFull(size - chunk, chunk, i - 1);
    }
  }

  /** The last chunk is non-empty, at most `chunk` bytes, and holds what the others leave. */
  lemma {:induction false} PlanSizesLast(size: nat, chunk: nat)
    requires chunk > 0 && size > 0
    ensures var p := PlanSizes(size, chunk);
            |p| > 0 && 0 < p[|p| - 1] <= chunk && p[|p| - 1] == size - (|p| - 1) * chunk
    decreases size
  {
    if size > chunk {
      PlanSizesLast(size - chunk, chunk);
      var q := PlanSizes(size - chunk, chunk);
      assert PlanSizes(size, chunk) == [chunk] + q;
      MulSucc(|q| - 1, chunk);
    }
  }

  /** A 2.5 MiB file in 1 MiB chunks is 1 MiB, 1 MiB, 0.5 MiB. */
  lemma TwoAndAHalfMiBPlan()
    ensures PlanSizes(2621440, DefaultChunkBytes) == [1048576, 1048576, 524288]
  {
    assert PlanSizes(524288, DefaultChunkBytes) == [524288];
    assert PlanSizes(1572864, DefaultChunkBytes) == [1048576, 524288];
  }

  /** A file that passes validation is planned as between 1 and 100 chunks of 1 MiB. */
  lemma {:induction false} ValidFilePlanCount(file: File)
    requires ValidateFile(Some(file)).Pass?
    ensures 1 <= |PlanSizes(file.size, DefaultChunkBytes)| <= 100
  {
    PlanSizesCover(file.size, DefaultChunkBytes);
    CeilDivBounds(file.size, DefaultChunkBytes);
    var n := |PlanSizes(file.size, DefaultChunkBytes)|;
    if n > 100 {
      MulMonotone(100, n - 1, DefaultChunkBytes);
    }
  }

  /** One step of the plan: the next chunk is min(chunk, what is left). */
  lemma PlanSizesStep(rest: nat, chunk: nat)
    requires chunk > 0 && rest > 0
    ensures PlanSizes(rest, chunk) == [Min(chunk, rest)] + PlanSizes(rest - Min(chunk, rest), chunk)
  {
  }

  /** The state of buildChunkPlan's loop after i chunks: `rest` bytes remain to be planned. */
  ghost predicate PlanProgress(size: nat, chunk: nat, total: nat, i: nat, rest: nat, sizes: seq<nat>)
    requires chunk > 0
  {
    && i <= total && total == CeilDiv(size, chunk)
    && (i < total ==> i * chunk + rest == size && rest > 0 && CeilDiv(rest, chunk) == total - i)
    && (i == total ==> rest == 0)
    && sizes + PlanSizes(rest, chunk) == PlanSizes(size, chunk)
  }

  /** Planning chunk i takes min(chunk, rest) bytes and keeps the loop state. */
  lemma PlanProgressStep(size: nat, chunk: nat, total: nat, i: nat, rest: nat, sizes: seq<nat>, start: nat)
    requires chunk > 0 && PlanProgress(size, chunk, total, i, rest, sizes) && i < total
    requires start == i * chunk
    ensures Min(start + chunk, size) - start == Min(chunk, rest)
    ensures PlanProgress(size, chunk, total, i + 1, rest - Min(chunk, rest), sizes + [Min(chunk, rest)])
  {
    MulSucc(i, chunk);
    PlanSizesStep(rest, chunk);
  }

  /**
   * buildChunkPlan's loop: chunk i runs from i*chunkSize to min(i*chunkSize + chunkSize, size).
   */
  method ChunkPlan(size: nat, chunkSize: nat) returns (sizes: seq<nat>)
    requires chunkSize > 0
    ensures sizes == PlanSizes(size, chunkSize)
    ensures |sizes| == CeilDiv(size, chunkSize) && Sum(sizes) == size
  {
    var total := CeilDiv(size, chunkSize);
    sizes := [];
    var i: nat := 0;
    ghost var rest: nat := size;
    while i < total
      invariant PlanProgress(size, chunkSize, total, i, rest, sizes)
    {
      var startByte := i * chunkSize;
      PlanProgressStep(size, chunkSize, total, i, rest, sizes, startByte);
      var endByte := Min(startByte + chunkSize, size);
      sizes := sizes + [endByte - startByte];
      rest := rest - (endByte - startByte);
      i := i + 1;
    }
    PlanSizesCover(size, chunkSize);
  }

  // ---------------------------------------------------------------------------
  // Byte accounting

  /** Bytes of the chunks currently marked uploaded (a missing size counts as 0). */
  function SumUploaded(sizes: seq<nat>, st: seq<ChunkStatus>): nat
  {
    if st == [] then 0
    else
      var k := |st| - 1;
      SumUploaded(sizes, st[..k]) + (if st[k] == Uploaded && k < |sizes| then sizes[k] else 0)
  }

  /** The uploaded total never exceeds the plan's total. */
  lemma {:induction false} SumUploadedBound(sizes: seq<nat>, st: seq<ChunkStatus>)
    requires |st| <= |sizes|
    ensures SumUploaded(sizes, st) <= Sum(sizes[..|st|])
  {
    if st != [] {
      var k := |st| - 1;
      SumUploadedBound(sizes, st[..k]);
      assert sizes[..|st|] == sizes[..k] + [sizes[k]];
      SumAppend(sizes[..k], sizes[k]);
    }
  }

  /** When every chunk is uploaded, the uploaded total is the whole plan. */
  lemma {:induction false} SumUploadedAll(sizes: seq<nat>, st: seq<ChunkStatus>)
    requires |st| <= |sizes|
    requires forall k :: 0 <= k < |st| ==> st[k] == Uploaded
    ensures SumUploaded(sizes, st) == Sum(sizes[..|st|])
  {
    if st != [] {
      var k := |st| - 1;
      SumUploadedAll(sizes, st[..k]);
      assert sizes[..|st|] == sizes[..k] + [sizes[k]];
      SumAppend(sizes[..k], sizes[k]);
    }
  }

  /** Nothing uploaded, nothing counted. */
  lemma {:induction false} SumUploadedNone(sizes: seq<nat>, st: seq<ChunkStatus>)
    requires forall k :: 0 <= k < |st| ==> st[k] != Uploaded
    ensures SumUploaded(sizes, st) == 0
  {
    if st != [] {
      SumUploadedNone(sizes, st[..|st| - 1]);
    }
  }

  /**
   * Changing one status moves the total by that chunk's size exactly when the change is into
   * or out of `Uploaded`; this is why the total only grows when a chunk is confirmed.
   */
  lemma {:induction false} SumUploadedUpdate(sizes: seq<nat>, st: seq<ChunkStatus>, i: nat, s: ChunkStatus)
    requires i < |st| <= |sizes|
    ensures SumUploaded(sizes, st[i := s]) + (if st[i] == Uploaded then sizes[i] else 0)
            == SumUploaded(sizes, st) + (if s == Uploaded then sizes[i] else 0)
  {
    var k := |st| - 1;
    var st' := st[i := s];
    if i == k {
      assert st'[..k] == st[..k];
    } else {
      assert st'[..k] == st[..k][i := s];
      SumUploadedUpdate(sizes, st[..k], i, s);
    }
  }

  // ---------------------------------------------------------------------------
  // Selection of the chunks to (re-)drive

  predicate NeedsUpload(s: ChunkStatus)
  {
    s == Pending || s == Failed
  }

  /** Indices whose status is pending or failed, in ascending order. */
  function Remaining(st: seq<ChunkStatus>): seq<nat>
  {
    if st == [] then []
    else Remaining(st[..|st| - 1]) + (if NeedsUpload(st[|st| - 1]) then [|st| - 1] else [])
  }

  predicate StrictlyIncreasing(s: seq<nat>)
  {
    forall a, b :: 0 <= a < b < |s| ==> s[a] < s[b]
  }

  /** The selection is exactly the pending-or-failed indices, each once, ascending. */
  lemma {:induction false} RemainingExact(st: seq<ChunkStatus>)
    ensures StrictlyIncreasing(Remaining(st))
    ensures forall k :: k in Remaining(st) <==> 0 <= k < |st| && NeedsUpload(st[k])
  {
    if st != [] {
      var k := |st| - 1;
      var r := Remaining(st[..k]);
      RemainingExact(st[..k]);
      assert forall j :: 0 <= j < k ==> st[..k][j] == st[j];
      assert forall a :: 0 <= a < |r| ==> r[a] < k by {
        forall a | 0 <= a < |r| ensures r[a] < k {
          assert r[a] in r;
        }
      }
    }
  }

  // ---------------------------------------------------------------------------
  // One chunk upload with retries

  predicate Retryable(r: FetchResult)
  {
    r.Rejected? || r.NetworkDown?
  }

  /** The error thrown when attempt `r` of chunk `index` is the last one allowed. */
  function ExhaustedError(index: nat, r: FetchResult): Failure
    requires Retryable(r)
  {
    if r.Rejected? then ChunkFailed(index, r.status) else TransportFailed
  }

  /** The errors a chunk upload can end in: a refused or failed last attempt, or an abort. */
  predicate IsChunkError(e: Failure)
  {
    e.ChunkFailed? || e == TransportFailed || e == AbortError
  }

  /** Reference definition of the retry policy, from attempt `attempt` on. */
  function RetryFrom(net: (nat, nat) -> FetchResult, index: nat, maxRetries: nat, attempt: nat): Outcome<Failure>
    requires attempt <= maxRetries
    decreases maxRetries - attempt
  {
    match net(index, attempt)
    case Accepted => Pass
    case AbortedFetch => Fail(AbortError)
    case _ =>
      if attempt + 1 > maxRetries then Fail(ExhaustedError(index, net(index, attempt)))
      else RetryFrom(net, index, maxRetries, attempt + 1)
  }

  function RetryOutcome(net: (nat, nat) -> FetchResult, index: nat, maxRetries: nat): Outcome<Failure>
  {
    RetryFrom(net, index, maxRetries, 0)
  }

  /** A chunk upload fails only with a chunk error. */
  lemma {:induction false} RetryFromChunkError(net: (nat, nat) -> FetchResult, index: nat, maxRetries: nat, attempt: nat)
    requires attempt <= maxRetries
    ensures RetryFrom(net, index, maxRetries, attempt).Fail? ==> IsChunkError(RetryFrom(net, index, maxRetries, attempt).error)
    decreases maxRetries - attempt
  {
    if Retryable(net(index, attempt)) && attempt + 1 <= maxRetries {
      RetryFromChunkError(net, index, maxRetries, attempt + 1);
    }
  }

  /**
   * The policy in words: the chunk is sent iff some attempt within the budget is accepted
   * after only retryable failures; an abort ends it at once.
   */
  lemma {:induction false} RetryFromSucceeds(net: (nat, nat) -> FetchResult, index: nat, maxRetries: nat, attempt: nat)
    requires attempt <= maxRetries
    ensures RetryFrom(net, index, maxRetries, attempt).Pass?
            <==> exists k :: attempt <= k <= maxRetries && net(index, k) == Accepted
                   && forall j :: attempt <= j < k ==> Retryable(net(index, j))
    decreases maxRetries - attempt
  {
    if Retryable(net(index, attempt)) && attempt + 1 <= maxRetries {
      RetryFromSucceeds(net, index, maxRetries, attempt + 1);
      if RetryFrom(net, index, maxRetries, attempt).Pass? {
        var k :| attempt + 1 <= k <= maxRetries && net(index, k) == Accepted
                 && forall j :: attempt + 1 <= j < k ==> Retryable(net(index, j));
        assert forall j :: attempt <= j < k ==> Retryable(net(index, j));
      }
    }
  }

  /**
   * uploadChunkWithRetry: at most maxRetries + 1 attempts; a non-2xx response and a thrown
   * error both use up an attempt; an abort is rethrown at once; before retry k the worker
   * waits BackoffUnitMs * k * k ms (recorded in `delays`, not waited for).
   */
  method UploadChunkWithRetry(index: nat, maxRetries: nat, net: (nat, nat) -> FetchResult)
    returns (outcome: Outcome<Failure>, attempts: nat, delays: seq<nat>)
    ensures 1 <= attempts <= maxRetries + 1
    ensures forall a :: 0 <= a < attempts - 1 ==> Retryable(net(index, a))
    ensures outcome.Pass? <==> net(index, attempts - 1) == Accepted
    ensures outcome == Fail(AbortError) <==> net(index, attempts - 1) == AbortedFetch
    ensures Retryable(net(index, attempts - 1))
            ==> attempts == maxRetries + 1 && outcome == Fail(ExhaustedError(index, net(index, attempts - 1)))
    ensures |delays| == attempts - 1
    ensures forall k :: 0 <= k < |delays| ==> delays[k] == BackoffUnitMs * (k + 1) * (k + 1)
    ensures outcome == RetryOutcome(net, index, maxRetries)
  {
    var attempt := 0;
    delays := [];
    while true
      invariant attempt <= maxRetries
      invariant forall a :: 0 <= a < attempt ==> Retryable(net(index, a))
      invariant RetryFrom(net, index, maxRetries, attempt) == RetryOutcome(net, index, maxRetries)
      invariant |delays| == attempt
      invariant forall k :: 0 <= k < |delays| ==> delays[k] == BackoffUnitMs * (k + 1) * (k + 1)
      decreases maxRetries - attempt
    {
      var response := net(index, attempt);
      if response == Accepted {
        return Pass, attempt + 1, delays;
      }
      if response == AbortedFetch {
        return Fail(AbortError), attempt + 1, delays;
      }
      attempt := attempt + 1;
      if attempt > maxRetries {
        return Fail(ExhaustedError(index, response)), attempt, delays;
      }
      delays := delays + [BackoffUnitMs * attempt * attempt];
    }
  }

  // ---------------------------------------------------------------------------
  // Worker pool bookkeeping

  /** The pool size: the requested concurrency clamped to [1, DefaultMaxConcurrency]. */
  function Workers(concurrency: int): (n: nat)
    ensures 1 <= n <= DefaultMaxConcurrency
    ensures 1 <= concurrency <= DefaultMaxConcurrency ==> n == concurrency
    ensures concurrency > DefaultMaxConcurrency ==> n == DefaultMaxConcurrency
    ensures concurrency < 1 ==> n == 1
  {
    Max(1, Min(DefaultMaxConcurrency, concurrency))
  }

  /** The status a claimed chunk ends in. */
  function StatusAfter(net: (nat, nat) -> FetchResult, i: nat): ChunkStatus
  {
    if RetryOutcome(net, i, DefaultMaxRetriesPerChunk).Pass? then Uploaded else Failed
  }

  /** The first error recorded among the claimed chunks, in claim order. */
  function FirstFailure(net: (nat, nat) -> FetchResult, claimed: seq<nat>): (r: Option<Failure>)
    ensures r.Some? ==> IsChunkError(r.value)
  {
    if claimed == [] then None
    else
      RetryFromChunkError(net, claimed[0], DefaultMaxRetriesPerChunk, 0);
      var r := RetryOutcome(net, claimed[0], DefaultMaxRetriesPerChunk);
      if r.Fail? then Some(r.error) else FirstFailure(net, claimed[1..])
  }

  /** How many claimed chunks failed (each failure retires one worker). */
  function FailureCount(net: (nat, nat) -> FetchResult, claimed: seq<nat>): nat
  {
    if claimed == [] then 0
    else FailureCount(net, claimed[..|claimed| - 1])
         + (if RetryOutcome(net, claimed[|claimed| - 1], DefaultMaxRetriesPerChunk).Fail? then 1 else 0)
  }

  lemma {:induction false} FirstFailureAppend(net: (nat, nat) -> FetchResult, claimed: seq<nat>, i: nat)
    ensures FirstFailure(net, claimed + [i])
            == if FirstFailure(net, claimed).Some? then FirstFailure(net, claimed)
               else var r := RetryOutcome(net, i, DefaultMaxRetriesPerChunk);
                    if r.Fail? then Some(r.error) else None
  {
    if claimed != [] {
      assert (claimed + [i])[1..] == claimed[1..] + [i];
      FirstFailureAppend(net, claimed[1..], i);
    }
  }

  /** The first recorded error is the error of a claimed chunk that failed, after only successes. */
  lemma {:induction false} FirstFailureIsFirst(net: (nat, nat) -> FetchResult, claimed: seq<nat>)
    ensures FirstFailure(net, claimed).None?
            <==> forall j :: 0 <= j < |claimed| ==> RetryOutcome(net, claimed[j], DefaultMaxRetriesPerChunk).Pass?
    ensures FirstFailure(net, claimed).Some?
            ==> exists j :: 0 <= j < |claimed|
                  && RetryOutcome(net, claimed[j], DefaultMaxRetriesPerChunk) == Fail(FirstFailure(net, claimed).value)
                  && forall m :: 0 <= m < j ==> RetryOutcome(net, claimed[m], DefaultMaxRetriesPerChunk).Pass?
  {
    if claimed != [] {
      FirstFailureIsFirst(net, claimed[1..]);
      if RetryOutcome(net, claimed[0], DefaultMaxRetriesPerChunk).Pass? {
        if FirstFailure(net, claimed).Some? {
          var j :| 0 <= j < |claimed[1..]|
                  && RetryOutcome(net, claimed[1..][j], DefaultMaxRetriesPerChunk) == Fail(FirstFailure(net, claimed).value)
                  && forall m :: 0 <= m < j ==> RetryOutcome(net, claimed[1..][m], DefaultMaxRetriesPerChunk).Pass?;
          assert forall m :: 0 <= m < j + 1 ==> RetryOutcome(net, claimed[m], DefaultMaxRetriesPerChunk).Pass? by {
            forall m | 0 <= m < j + 1 ensures RetryOutcome(net, claimed[m], DefaultMaxRetriesPerChunk).Pass? {
              if m > 0 { assert claimed[m] == claimed[1..][m - 1]; }
            }
          }
          assert claimed[j + 1] == claimed[1..][j];
        } else {
          forall j | 0 <= j < |claimed| ensures RetryOutcome(net, claimed[j], DefaultMaxRetriesPerChunk).Pass? {
            if j > 0 { assert claimed[j] == claimed[1..][j - 1]; }
          }
        }
      }
    }
  }

  /** The status array after the claimed chunks have each been uploaded or failed. */
  function ApplyClaims(st: seq<ChunkStatus>, claimed: seq<nat>, net: (nat, nat) -> FetchResult): (r: seq<ChunkStatus>)
    ensures |r| == |st|
  {
    if claimed == [] then st
    else
      var prev := ApplyClaims(st, claimed[..|claimed| - 1], net);
      var i := claimed[|claimed| - 1];
      if i < |prev| then prev[i := StatusAfter(net, i)] else prev
  }

  /** Claimed chunks end in their outcome's status; the others keep theirs. */
  lemma {:induction false} ApplyClaimsAt(st: seq<ChunkStatus>, claimed: seq<nat>, net: (nat, nat) -> FetchResult, k: nat)
    requires k < |st|
    ensures ApplyClaims(st, claimed, net)[k] == if k in claimed then StatusAfter(net, k) else st[k]
  {
    if claimed != [] {
      var init := claimed[..|claimed| - 1];
      ApplyClaimsAt(st, init, net, k);
      assert k in claimed <==> k in init || k == claimed[|claimed| - 1];
    }
  }

  /** Whatever a pool run claims from the front of the selection was pending or failed. */
  lemma ClaimedNeededUpload(st: seq<ChunkStatus>, claimed: seq<nat>)
    requires |claimed| <= |Remaining(st)| && claimed == Remaining(st)[..|claimed|]
    ensures forall k :: k in claimed ==> k < |st| && NeedsUpload(st[k])
  {
    RemainingExact(st);
    assert forall k :: k in claimed ==> k in Remaining(st);
  }

  /**
   * The shared state of the worker pool: the cursor into the selection, the indices claimed
   * so far (in claim order), the first recorded error and the number of workers still
   * running.
   */
  datatype PoolState = PoolState(next: nat, claimed: seq<nat>, firstError: Option<Failure>, live: nat)

  /** On a fresh plan the selection is every index, in order. */
  lemma {:induction false} RemainingAllPending(st: seq<ChunkStatus>)
    requires forall k :: 0 <= k < |st| ==> st[k] == Pending
    ensures |Remaining(st)| == |st| && forall j :: 0 <= j < |st| ==> Remaining(st)[j] == j
  {
    if st != [] {
      RemainingAllPending(st[..|st| - 1]);
    }
  }

  /** A pool run leaves every chunk that was already uploaded as it was. */
  lemma UploadedStay(st: seq<ChunkStatus>, claimed: seq<nat>, net: (nat, nat) -> FetchResult)
    requires |claimed| <= |Remaining(st)| && claimed == Remaining(st)[..|claimed|]
    ensures forall k :: 0 <= k < |st| && st[k] == Uploaded ==> ApplyClaims(st, claimed, net)[k] == Uploaded
  {
    ClaimedNeededUpload(st, claimed);
    forall k | 0 <= k < |st| && st[k] == Uploaded
      ensures ApplyClaims(st, claimed, net)[k] == Uploaded
    {
      ApplyClaimsAt(st, claimed, net, k);
    }
  }

  /** When every claimed chunk succeeds, no worker retires for a failure. */
  lemma {:induction false} AllPassNoFailures(net: (nat, nat) -> FetchResult, claimed: seq<nat>)
    requires forall j :: 0 <= j < |claimed| ==> RetryOutcome(net, claimed[j], DefaultMaxRetriesPerChunk).Pass?
    ensures FailureCount(net, claimed) == 0
  {
    if claimed != [] {
      var init := claimed[..|claimed| - 1];
      assert forall j :: 0 <= j < |init| ==> init[j] == claimed[j];
      AllPassNoFailures(net, init);
    }
  }

  /**
   * A run that claims the whole selection, every claim succeeding, over an array with no
   * chunk in flight leaves every chunk uploaded.
   */
  lemma CleanRunAllUploaded(st: seq<ChunkStatus>, net: (nat, nat) -> FetchResult)
    requires forall k :: 0 <= k < |st| ==> st[k] != ChunkStatus.Uploading
    requires forall j :: 0 <= j < |Remaining(st)| ==> RetryOutcome(net, Remaining(st)[j], DefaultMaxRetriesPerChunk).Pass?
    ensures AllUploaded(ApplyClaims(st, Remaining(st), net))
  {
    RemainingExact(st);
    forall k | 0 <= k < |st| ensures ApplyClaims(st, Remaining(st), net)[k] == Uploaded {
      ApplyClaimsAt(st, Remaining(st), net, k);
      if k in Remaining(st) {
        var j :| 0 <= j < |Remaining(st)| && Remaining(st)[j] == k;
      }
    }
  }

  /**
   * A pool run in which no claim failed: no worker retired for a failure, so (the signal not
   * having fired) the whole selection was claimed and every chunk ends uploaded.
   */
  lemma CleanPoolUploadsAll(st: seq<ChunkStatus>, claimed: seq<nat>, net: (nat, nat) -> FetchResult, workers: nat)
    requires forall k :: 0 <= k < |st| ==> st[k] != ChunkStatus.Uploading
    requires FirstFailure(net, claimed).None? && workers >= 1
    requires FailureCount(net, claimed) < workers ==> claimed == Remaining(st)
    ensures claimed == Remaining(st) && AllUploaded(ApplyClaims(st, claimed, net))
  {
    FirstFailureIsFirst(net, claimed);
    AllPassNoFailures(net, claimed);
    CleanRunAllUploaded(st, net);
  }

  /** Only the last claimed chunk may have been aborted. */
  predicate AbortOnlyLast(net: (nat, nat) -> FetchResult, claimed: seq<nat>)
  {
    forall j :: 0 <= j < |claimed| - 1 ==> RetryOutcome(net, claimed[j], DefaultMaxRetriesPerChunk) != Fail(AbortError)
  }

  predicate LastAborted(net: (nat, nat) -> FetchResult, claimed: seq<nat>)
  {
    claimed != [] && RetryOutcome(net, claimed[|claimed| - 1], DefaultMaxRetriesPerChunk) == Fail(AbortError)
  }

  lemma FailureCountAppend(net: (nat, nat) -> FetchResult, claimed: seq<nat>, i: nat)
    ensures FailureCount(net, claimed + [i])
            == FailureCount(net, claimed) + if RetryOutcome(net, i, DefaultMaxRetriesPerChunk).Fail? then 1 else 0
  {
    assert (claimed + [i])[..|claimed|] == claimed;
  }

  /** Claiming after a chunk that was not aborted keeps aborts confined to the last claim. */
  lemma AbortOnlyLastAppend(net: (nat, nat) -> FetchResult, claimed: seq<nat>, i: nat)
    requires AbortOnlyLast(net, claimed) && !LastAborted(net, claimed)
    ensures AbortOnlyLast(net, claimed + [i])
    ensures LastAborted(net, claimed + [i]) <==> RetryOutcome(net, i, DefaultMaxRetriesPerChunk) == Fail(AbortError)
  {
    var c := claimed + [i];
    forall j | 0 <= j < |c| - 1
      ensures RetryOutcome(net, c[j], DefaultMaxRetriesPerChunk) != Fail(AbortError)
    {
      assert c[j] == claimed[j];
    }
  }

  /** When the first recorded error is AbortError, it came from the last claimed chunk. */
  lemma AbortErrorIsLast(net: (nat, nat) -> FetchResult, claimed: seq<nat>)
    requires AbortOnlyLast(net, claimed)
    ensures FirstFailure(net, claimed) == Some(AbortError) ==> LastAborted(net, claimed)
  {
    FirstFailureIsFirst(net, claimed);
  }

  // ---------------------------------------------------------------------------
  // Facts tying the byte total to the file size

  predicate AllUploaded(st: seq<ChunkStatus>)
  {
    forall k :: 0 <= k < |st| ==> st[k] == Uploaded
  }

  /** Progress never claims more than the file: the uploaded total is at most the file size. */
  lemma UploadedWithinFile(size: nat, st: seq<ChunkStatus>)
    requires |st| == |PlanSizes(size, DefaultChunkBytes)|
    ensures SumUploaded(PlanSizes(size, DefaultChunkBytes), st) <= size
  {
    var p := PlanSizes(size, DefaultChunkBytes);
    SumUploadedBound(p, st);
    assert p[..|st|] == p;
    PlanSizesCover(size, DefaultChunkBytes);
  }

  /** Once every chunk is uploaded, the uploaded total is exactly the file size. */
  lemma AllUploadedIsFileSize(size: nat, st: seq<ChunkStatus>)
    requires |st| == |PlanSizes(size, DefaultChunkBytes)| && AllUploaded(st)
    ensures SumUploaded(PlanSizes(size, DefaultChunkBytes), st) == size
  {
    var p := PlanSizes(size, DefaultChunkBytes);
    SumUploadedAll(p, st);
    assert p[..|st|] == p;
    PlanSizesCover(size, DefaultChunkBytes);
  }

  /** A session id is usable when present and non-empty (the code tests `!sid`). */
  predicate Present(sid: Option<string>)
  {
    sid.Some? && sid.value != []
  }

  // ---------------------------------------------------------------------------
  // The controller

  /**
   * The state of one useChunkedUpload instance. The fields are the hook's mutable refs
   * (fileRef, sessionIdRef, chunkSizesRef, chunksRef, abortRef) plus the phase, the byte
   * total and the last error.
   */
  class Uploader {
    var phase: Phase
    var uploadedBytes: nat
    var lastError: Option<Failure>
    /** fileRef */
    var file: Option<File>
    /** sessionIdRef */
    var sid: Option<string>
    /** chunkSizesRef: the byte length of each planned chunk */
    var sizes: seq<nat>
    /** chunksRef: the per-chunk status array, updated in place; null when there is no plan */
    var chunks: array?<ChunkStatus>
    /** abortRef.current != null */
    var hasSignal: bool
    /** the abort signal handed to the current run has fired */
    var aborted: bool

    /** The plan, when present, is the plan of the held file. */
    ghost predicate PlanShape()
      reads this
    {
      && (chunks == null ==> sizes == [])
      && (chunks != null ==>
            file.Some? && chunks.Length == |sizes| && sizes == PlanSizes(file.value.size, DefaultChunkBytes))
    }

    /** computeUploadedBytesFromChunks, as a specification. */
    ghost function UploadedBytes(): nat
      reads this, chunks
    {
      if chunks == null then 0 else SumUploaded(sizes, chunks[..])
    }

    /** Between operations no chunk is left marked `uploading`. */
    ghost predicate NoneInFlight()
      reads this, chunks
    {
      chunks != null ==> forall k :: 0 <= k < chunks.Length ==> chunks[k] != ChunkStatus.Uploading
    }

    ghost predicate Valid()
      reads this, chunks
    {
      && PlanShape()
      && NoneInFlight()
      && (Present(sid) ==> chunks != null)
      && (hasSignal ==> !aborted)
      && uploadedBytes == UploadedBytes()
    }

    /** Everything uploadRemainingChunks needs before it starts. */
    predicate Ready()
      reads this
    {
      file.Some? && Present(sid) && hasSignal && chunks != null
    }

    constructor ()
      ensures Valid()
      ensures phase == Idle && uploadedBytes == 0 && lastError.None?
      ensures file.None? && sid.None? && chunks == null && !hasSignal
    {
      phase := Idle;
      uploadedBytes := 0;
      lastError := None;
      file := None;
      sid := None;
      sizes := [];
      chunks := null;
      hasSignal := false;
      aborted := false;
    }

    /** setChunkStatus: only position `index` changes; nothing happens without a plan. */
    method SetChunkStatus(index: nat, next: ChunkStatus)
      requires chunks != null ==> index < chunks.Length
      modifies chunks
      ensures chunks != null ==> chunks[..] == old(chunks[..])[index := next]
    {
      var current := chunks;
      if current == null {
        return;
      }
      if current[index] == next {
        return;
      }
      current[index] := next;
    }

    /** computeUploadedBytesFromChunks: the sum of the sizes of the chunks marked uploaded. */
    method ComputeUploadedBytes() returns (sum: nat)
      requires PlanShape()
      ensures sum == UploadedBytes()
    {
      var s := chunks;
      if s == null || s.Length == 0 {
        return 0;
      }
      sum := 0;
      var i := 0;
      while i < s.Length
        invariant 0 <= i <= s.Length
        invariant sum == SumUploaded(sizes, s[..i])
      {
        if s[i] == Uploaded {
          sum := sum + (if i < |sizes| then sizes[i] else 0);
        }
        i := i + 1;
        assert s[..i][..i - 1] == s[..i - 1];
      }
      assert s[..s.Length] == s[..];
    }

    /** The selection loop of uploadRemainingChunks: pending and failed indices, ascending. */
    method RemainingIndices() returns (indices: seq<nat>)
      requires chunks != null
      ensures indices == Remaining(chunks[..])
      ensures StrictlyIncreasing(indices)
      ensures forall k :: k in indices <==> 0 <= k < chunks.Length && NeedsUpload(chunks[k])
    {
      var plan := chunks;
      indices := [];
      var i := 0;
      while i < plan.Length
        invariant 0 <= i <= plan.Length
        invariant indices == Remaining(plan[..i])
      {
        var st := plan[i];
        if st == Pending || st == Failed {
          indices := indices + [i];
        }
        i := i + 1;
        assert plan[..i][..i - 1] == plan[..i - 1];
      }
      assert plan[..plan.Length] == plan[..];
      RemainingExact(plan[..]);
    }

    /** cancel: aborts the current signal and drops it; the file, session and plan are kept. */
    method Cancel()
      modifies this
      ensures phase == Canceled && !hasSignal
      ensures aborted == (old(aborted) || old(hasSignal))
      ensures file == old(file) && sid == old(sid) && sizes == old(sizes) && chunks == old(chunks)
      ensures uploadedBytes == old(uploadedBytes) && lastError == old(lastError)
    {
      if hasSignal {
        aborted := true;
      }
      hasSignal := false;
      phase := Canceled;
    }

    /** reset: aborts any run and returns to idle with no file, session or plan. */
    method Reset()
      modifies this
      ensures Valid()
      ensures phase == Idle && uploadedBytes == 0 && lastError.None?
      ensures file.None? && sid.None? && chunks == null && sizes == [] && !hasSignal
      ensures aborted == (old(aborted) || old(hasSignal))
    {
      if hasSignal {
        aborted := true;
      }
      hasSignal := false;
      phase := Idle;
      uploadedBytes := 0;
      file, sid, sizes, chunks := None, None, [], null;
      lastError := None;
    }

    /** buildChunkPlan: the plan of the held file, every chunk pending. */
    method BuildChunkPlan()
      requires file.Some?
      modifies this
      ensures file == old(file)
      ensures sizes == PlanSizes(file.value.size, DefaultChunkBytes)
      ensures chunks != null && fresh(chunks) && chunks.Length == |sizes|
      ensures forall k :: 0 <= k < chunks.Length ==> chunks[k] == Pending
      ensures phase == old(phase) && sid == old(sid) && lastError == old(lastError)
      ensures uploadedBytes == old(uploadedBytes) && hasSignal == old(hasSignal) && aborted == old(aborted)
    {
      var planned := ChunkPlan(file.value.size, DefaultChunkBytes);
      sizes := planned;
      chunks := new ChunkStatus[|planned|](_ => Pending);
    }

    /**
     * One iteration of a worker after it has claimed chunk i: mark it uploading, upload it
     * with retries, then mark it uploaded (and recompute the byte total) or failed.
     */
    method UploadClaimed(i: nat, net: (nat, nat) -> FetchResult) returns (outcome: Outcome<Failure>)
      requires Valid() && hasSignal && chunks != null && i < chunks.Length && NeedsUpload(chunks[i])
      modifies this, chunks
      ensures Valid()
      ensures outcome == RetryOutcome(net, i, DefaultMaxRetriesPerChunk)
      ensures chunks == old(chunks) && chunks[..] == old(chunks[..])[i := StatusAfter(net, i)]
      ensures file == old(file) && sid == old(sid) && sizes == old(sizes) && lastError == old(lastError)
      ensures outcome == Fail(AbortError) ==> phase == Canceled && !hasSignal && aborted
      ensures outcome != Fail(AbortError) ==> phase == old(phase) && hasSignal == old(hasSignal) && aborted == old(aborted)
    {
      ghost var before := chunks[..];
      SetChunkStatus(i, ChunkStatus.Uploading);
      var result, attempts, delays := UploadChunkWithRetry(i, DefaultMaxRetriesPerChunk, net);
      if result == Fail(AbortError) {
        // the fetch was aborted because the user canceled while it was in flight
        Cancel();
      }
      if result.Pass? {
        SetChunkStatus(i, Uploaded);
        uploadedBytes := ComputeUploadedBytes();
      } else {
        SetChunkStatus(i, Failed);
        SumUploadedUpdate(sizes, before, i, Failed);
      }
      assert chunks[..] == before[i := StatusAfter(net, i)];
      outcome := result;
    }

    /**
     * A worker claims the chunk under the shared cursor and uploads it: the chunk is the next
     * selected index, and the status array gains that chunk's outcome.
     */
    method ClaimNext(indices: seq<nat>, next: nat, claimed: seq<nat>, net: (nat, nat) -> FetchResult,
                     ghost start: seq<ChunkStatus>)
      returns (i: nat, result: Outcome<Failure>)
      requires Valid() && hasSignal && chunks != null && |start| == chunks.Length
      requires StrictlyIncreasing(indices)
      requires forall k :: k in indices <==> 0 <= k < |start| && NeedsUpload(start[k])
      requires next < |indices| && claimed == indices[..next]
      requires chunks[..] == ApplyClaims(start, claimed, net)
      modifies this, chunks
      ensures i == indices[next] && indices[..next + 1] == claimed + [i]
      ensures Valid() && chunks == old(chunks) && chunks[..] == ApplyClaims(start, claimed + [i], net)
      ensures result == RetryOutcome(net, i, DefaultMaxRetriesPerChunk)
      ensures file == old(file) && sid == old(sid) && sizes == old(sizes) && lastError == old(lastError)
      ensures result == Fail(AbortError) ==> phase == Canceled && !hasSignal && aborted
      ensures result != Fail(AbortError) ==> phase == old(phase) && hasSignal == old(hasSignal) && aborted == old(aborted)
    {
      i := indices[next];
      assert i in indices;
      assert i !in claimed;
      ApplyClaimsAt(start, claimed, net, i);
      assert indices[..next + 1] == claimed + [i];
      result := UploadClaimed(i, net);
    }

    /**
     * The pool invariant, for the cursor state `p` of a run over the selected `indices`
     * that began with status array `start` in phase `phase0`. The claims are a prefix of the
     * selection and the array holds their outcomes; the first error is the first recorded
     * failure; a failure retires one worker and any other retirement means the cursor is
     * drained or the signal has fired; the signal has fired exactly when the last claimed
     * chunk was aborted, and no earlier one was.
     */
    ghost predicate PoolInv(p: PoolState, indices: seq<nat>, workers: nat, net: (nat, nat) -> FetchResult,
                            start: seq<ChunkStatus>, phase0: Phase)
      reads this, chunks
    {
      && Valid() && chunks != null && |start| == chunks.Length
      && StrictlyIncreasing(indices)
      && (forall k :: k in indices <==> 0 <= k < |start| && NeedsUpload(start[k]))
      && p.next <= |indices| && p.claimed == indices[..p.next]
      && chunks[..] == ApplyClaims(start, p.claimed, net)
      && p.firstError == FirstFailure(net, p.claimed)
      && p.live + FailureCount(net, p.claimed) <= workers
      && (p.live + FailureCount(net, p.claimed) < workers ==> p.next == |indices| || aborted)
      && (aborted ==> phase == Canceled && !hasSignal)
      && (!aborted ==> phase == phase0 && hasSignal)
      && AbortOnlyLast(net, p.claimed)
      && (aborted <==> LastAborted(net, p.claimed))
    }

    /** A worker that finds the cursor drained, or the signal fired, leaves the pool. */
    lemma RetireKeeps(p: PoolState, indices: seq<nat>, workers: nat, net: (nat, nat) -> FetchResult,
                      start: seq<ChunkStatus>, phase0: Phase)
      requires PoolInv(p, indices, workers, net, start, phase0)
      requires p.live > 0 && (p.next >= |indices| || aborted)
      ensures PoolInv(p.(live := p.live - 1), indices, workers, net, start, phase0)
    {
    }

    /**
     * A live worker claims the next index and uploads it; if the chunk fails the worker
     * records the error (unless one is already recorded) and leaves the pool.
     */
    method Claim(p: PoolState, indices: seq<nat>, workers: nat, net: (nat, nat) -> FetchResult,
                 ghost start: seq<ChunkStatus>, ghost phase0: Phase)
      returns (q: PoolState)
      requires PoolInv(p, indices, workers, net, start, phase0)
      requires p.live > 0 && p.next < |indices| && !aborted
      modifies this, chunks
      ensures q.next == p.next + 1 && q.live <= p.live
      ensures PoolInv(q, indices, workers, net, start, phase0)
      ensures chunks == old(chunks)
      ensures file == old(file) && sid == old(sid) && sizes == old(sizes) && lastError == old(lastError)
    {
      var i, result := ClaimNext(indices, p.next, p.claimed, net, start);
      FirstFailureAppend(net, p.claimed, i);
      FailureCountAppend(net, p.claimed, i);
      AbortOnlyLastAppend(net, p.claimed, i);
      var firstError := p.firstError;
      var live := p.live;
      if result.Fail? {
        if firstError.None? {
          firstError := Some(result.error);
        }
        // a worker whose chunk failed stops claiming
        live := live - 1;
      }
      q := PoolState(p.next + 1, p.claimed + [i], firstError, live);
    }

    /** Before any step: nothing claimed, every worker live. */
    lemma PoolStarts(p: PoolState, indices: seq<nat>, workers: nat, net: (nat, nat) -> FetchResult,
                     start: seq<ChunkStatus>, phase0: Phase)
      requires Valid() && Ready() && phase == phase0 && start == chunks[..]
      requires StrictlyIncreasing(indices)
      requires forall k :: k in indices <==> 0 <= k < chunks.Length && NeedsUpload(chunks[k])
      requires p == PoolState(0, [], None, workers)
      ensures PoolInv(p, indices, workers, net, start, phase0)
    {
      assert indices[..0] == [];
    }

    /** When no worker is left, the claims, the error and the array are the pool's result. */
    lemma PoolEnds(p: PoolState, indices: seq<nat>, workers: nat, net: (nat, nat) -> FetchResult,
                   start: seq<ChunkStatus>, phase0: Phase)
      requires PoolInv(p, indices, workers, net, start, phase0) && p.live == 0
      ensures |p.claimed| <= |indices| && p.claimed == indices[..|p.claimed|]
      ensures chunks[..] == ApplyClaims(start, p.claimed, net)
      ensures p.firstError == FirstFailure(net, p.claimed)
      ensures FailureCount(net, p.claimed) <= workers
      ensures !aborted && FailureCount(net, p.claimed) < workers ==> p.claimed == indices
      ensures AbortOnlyLast(net, p.claimed) && (aborted <==> LastAborted(net, p.claimed))
      ensures aborted ==> phase == Canceled && !hasSignal
      ensures !aborted ==> phase == phase0 && hasSignal
    {
    }

    /**
     * The worker pool of uploadRemainingChunks over the selected indices. The workers are
     * run as sequential interleavings: each step lets one live worker either retire (cursor
     * drained, or the signal aborted) or claim the next index and upload it. The user's
     * cancel reaches the pool as the aborted reply of the request in flight.
     */
    method RunPool(workers: nat, indices: seq<nat>, net: (nat, nat) -> FetchResult)
      returns (outcome: Outcome<Failure>, claimed: seq<nat>)
      requires Valid() && Ready() && workers >= 1
      requires StrictlyIncreasing(indices)
      requires forall k :: k in indices <==> 0 <= k < chunks.Length && NeedsUpload(chunks[k])
      modifies this, chunks
      ensures Valid() && chunks == old(chunks)
      ensures file == old(file) && sid == old(sid) && sizes == old(sizes) && lastError == old(lastError)
      ensures |claimed| <= |indices| && claimed == indices[..|claimed|]
      ensures chunks[..] == ApplyClaims(old(chunks[..]), claimed, net)
      ensures outcome == if FirstFailure(net, claimed).Some? then Fail(FirstFailure(net, claimed).value) else Pass
      ensures FailureCount(net, claimed) <= workers
      ensures !aborted && FailureCount(net, claimed) < workers ==> claimed == indices
      ensures AbortOnlyLast(net, claimed)
      ensures aborted <==> LastAborted(net, claimed)
      ensures outcome == Fail(AbortError) ==> aborted
      ensures outcome.Pass? ==> !aborted
      ensures aborted ==> phase == Canceled && !hasSignal
      ensures !aborted ==> phase == old(phase) && hasSignal
    {
      // progress is recomputed from the chunks already uploaded (resume and retry)
      uploadedBytes := ComputeUploadedBytes();
      ghost var start := chunks[..];
      ghost var phase0 := phase;
      var p := PoolState(0, [], None, workers);
      PoolStarts(p, indices, workers, net, start, phase0);
      while p.live > 0
        invariant PoolInv(p, indices, workers, net, start, phase0)
        invariant chunks == old(chunks)
        invariant file == old(file) && sid == old(sid) && sizes == old(sizes) && lastError == old(lastError)
        decreases |indices| - p.next + p.live
      {
        if p.next >= |indices| || aborted {
          // the worker's loop ends, or it throws AbortError (swallowed by allSettled)
          RetireKeeps(p, indices, workers, net, start, phase0);
          p := p.(live := p.live - 1);
        } else {
          p := Claim(p, indices, workers, net, start, phase0);
        }
      }
      PoolEnds(p, indices, workers, net, start, phase0);
      AbortErrorIsLast(net, p.claimed);
      FirstFailureIsFirst(net, p.claimed);
      claimed := p.claimed;
      outcome := if p.firstError.Some? then Fail(p.firstError.value) else Pass;
    }

    /**
     * uploadRemainingChunks once its readiness guard has passed: selects the pending and
     * failed chunks, recomputes the byte total and runs a pool of Workers(concurrency)
     * workers over the selection through one shared cursor.
     */
    method UploadSelected(concurrency: int, net: (nat, nat) -> FetchResult)
      returns (outcome: Outcome<Failure>, claimed: seq<nat>)
      requires Valid() && Ready()
      modifies this, chunks
      ensures Valid()
      ensures file == old(file) && sid == old(sid) && sizes == old(sizes) && chunks == old(chunks)
      ensures lastError == old(lastError)
      ensures |claimed| <= |Remaining(old(chunks[..]))| && claimed == Remaining(old(chunks[..]))[..|claimed|]
      ensures chunks[..] == ApplyClaims(old(chunks[..]), claimed, net)
      ensures outcome == if FirstFailure(net, claimed).Some? then Fail(FirstFailure(net, claimed).value) else Pass
      ensures FailureCount(net, claimed) <= Workers(concurrency)
      ensures !aborted && FailureCount(net, claimed) < Workers(concurrency) ==> claimed == Remaining(old(chunks[..]))
      ensures AbortOnlyLast(net, claimed)
      ensures aborted <==> LastAborted(net, claimed)
      ensures outcome == Fail(AbortError) ==> aborted
      ensures outcome.Pass? ==> !aborted
      ensures aborted ==> phase == Canceled && !hasSignal
      ensures !aborted ==> phase == old(phase) && hasSignal
    {
      var workers := Workers(concurrency);
      var indices := RemainingIndices();
      if |indices| == 0 {
        return Pass, [];
      }
      outcome, claimed := RunPool(workers, indices, net);
    }

    /**
     * uploadRemainingChunks: refuses to run without a file, a session id, a live signal and
     * a plan; otherwise uploads the selected chunks (UploadSelected) and throws the first
     * recorded error.
     */
    method UploadRemainingChunks(concurrency: int, net: (nat, nat) -> FetchResult)
      returns (outcome: Outcome<Failure>, claimed: seq<nat>)
      requires Valid()
      modifies this, chunks
      ensures Valid()
      ensures file == old(file) && sid == old(sid) && sizes == old(sizes) && chunks == old(chunks)
      ensures lastError == old(lastError)
      ensures !old(Ready()) ==> outcome == Fail(NotReadyToResume) && claimed == []
      ensures !old(Ready()) ==> phase == old(phase) && hasSignal == old(hasSignal) && aborted == old(aborted)
      ensures !old(Ready()) && chunks != null ==> chunks[..] == old(chunks[..])
      // each selected index is claimed at most once, in ascending order
      ensures old(Ready()) ==> |claimed| <= |Remaining(old(chunks[..]))|
                               && claimed == Remaining(old(chunks[..]))[..|claimed|]
      // a claimed chunk ends uploaded or failed, the others keep their status (ApplyClaimsAt)
      ensures old(Ready()) ==> chunks[..] == ApplyClaims(old(chunks[..]), claimed, net)
      // the run throws the first recorded error
      ensures old(Ready()) ==> outcome == if FirstFailure(net, claimed).Some? then Fail(FirstFailure(net, claimed).value) else Pass
      // a failure retires one worker; while a worker survives and nobody canceled, the cursor drains
      ensures old(Ready()) ==> FailureCount(net, claimed) <= Workers(concurrency)
      ensures old(Ready()) && !aborted && FailureCount(net, claimed) < Workers(concurrency)
              ==> claimed == Remaining(old(chunks[..]))
      // the signal fires only with the aborted reply of the last claimed chunk: nothing is
      // claimed after a cancel
      ensures old(Ready()) ==> AbortOnlyLast(net, claimed)
      ensures old(Ready()) ==> (aborted <==> LastAborted(net, claimed))
      // AbortError is thrown only when the user has canceled, and a clean run leaves the signal live
      ensures outcome == Fail(AbortError) ==> aborted
      ensures outcome.Pass? ==> old(Ready()) && !aborted && hasSignal
      ensures old(Ready()) && aborted ==> phase == Canceled && !hasSignal
      ensures old(Ready()) && !aborted ==> phase == old(phase) && hasSignal
    {
      if !(file.Some? && Present(sid) && hasSignal && chunks != null) {
        return Fail(NotReadyToResume), [];
      }
      outcome, claimed := UploadSelected(concurrency, net);
    }

    /**
     * The catch of start and resume: an AbortError ends the run silently (the cancel has
     * already set the phase); any other error moves to the error phase and is recorded.
     */
    method Settle(e: Failure)
      requires Valid()
      modifies this
      ensures Valid()
      ensures e == AbortError ==> phase == old(phase) && lastError == old(lastError)
      ensures e != AbortError ==> phase == Error && lastError == Some(e)
      ensures file == old(file) && sid == old(sid) && sizes == old(sizes) && chunks == old(chunks)
      ensures uploadedBytes == old(uploadedBytes) && hasSignal == old(hasSignal) && aborted == old(aborted)
    {
      if e == AbortError {
        return;
      }
      phase := Error;
      lastError := Some(e);
    }

    /**
     * finalize: refuses without a session id, a file, a plan and a live signal; refuses
     * unless every chunk is uploaded; otherwise enters the finalizing phase and asks the
     * server to assemble `chunks.Length` chunks (returned as `sentTotal`). The server's
     * reply is the parameter `reply`.
     */
    method Finalize(reply: FetchResult) returns (outcome: Outcome<Failure>, sentTotal: Option<nat>)
      requires Valid()
      modifies this
      ensures Valid()
      ensures file == old(file) && sid == old(sid) && sizes == old(sizes) && chunks == old(chunks)
      ensures uploadedBytes == old(uploadedBytes) && lastError == old(lastError)
      ensures !old(Ready()) ==> outcome == Fail(NothingToFinalize) && sentTotal.None? && phase == old(phase)
      ensures old(Ready()) && !AllUploaded(chunks[..]) ==> outcome == Fail(IncompleteUpload) && sentTotal.None? && phase == old(phase)
      // the request is only ever sent for a complete upload, whose byte total is the file size
      ensures sentTotal.Some? ==> chunks != null && AllUploaded(chunks[..]) && sentTotal.value == chunks.Length
                                  && file.Some? && uploadedBytes == file.value.size
      ensures old(Ready()) && AllUploaded(chunks[..]) ==> sentTotal.Some?
      ensures sentTotal.Some? && reply.Accepted? ==> outcome == Pass && phase == Finalizing
      ensures sentTotal.Some? && reply.Rejected? ==> outcome == Fail(FinalizeFailed(reply.status)) && phase == Finalizing
      ensures sentTotal.Some? && reply.NetworkDown? ==> outcome == Fail(TransportFailed) && phase == Finalizing
      ensures sentTotal.Some? && reply.AbortedFetch? ==> outcome == Fail(AbortError) && phase == Canceled && !hasSignal && aborted
      ensures !(sentTotal.Some? && reply.AbortedFetch?) ==> hasSignal == old(hasSignal) && aborted == old(aborted)
      ensures outcome.Pass? ==> sentTotal.Some?
    {
      if !(Present(sid) && file.Some? && chunks != null && hasSignal) {
        return Fail(NothingToFinalize), None;
      }
      var plan := chunks;
      var i := 0;
      while i < plan.Length
        invariant 0 <= i <= plan.Length
        invariant forall k :: 0 <= k < i ==> plan[k] == Uploaded
      {
        if plan[i] != Uploaded {
          return Fail(IncompleteUpload), None;
        }
        i := i + 1;
      }
      AllUploadedIsFileSize(file.value.size, plan[..]);
      phase := Finalizing;
      sentTotal := Some(plan.Length);
      match reply
      case Accepted => outcome := Pass;
      case Rejected(status) => outcome := Fail(FinalizeFailed(status));
      case NetworkDown => outcome := Fail(TransportFailed);
      case AbortedFetch =>
        // the user canceled while the request was in flight
        Cancel();
        outcome := Fail(AbortError);
    }

    /** Finalize, then the done phase; an error is settled as start and resume settle it. */
    method FinalizeAndSettle(finReply: FetchResult)
      requires Valid()
      modifies this
      ensures Valid()
      ensures file == old(file) && sid == old(sid) && sizes == old(sizes) && chunks == old(chunks)
      ensures phase == Done || phase == Error || phase == Canceled
      ensures phase == Done ==> chunks != null && AllUploaded(chunks[..]) && file.Some? && uploadedBytes == file.value.size
      ensures phase == Done || phase == Canceled ==> lastError == old(lastError)
      ensures phase == Error ==> lastError.Some? && lastError.value != AbortError
      ensures old(Ready()) && AllUploaded(chunks[..]) && finReply.Accepted? ==> phase == Done
      // the guard does not refuse a run that is ready
      ensures old(Ready()) && phase == Error ==> lastError != Some(NothingToFinalize)
      // each outcome of finalize, settled
      ensures !old(Ready()) ==> phase == Error && lastError == Some(NothingToFinalize)
      ensures old(Ready()) && !AllUploaded(chunks[..]) ==> phase == Error && lastError == Some(IncompleteUpload)
      ensures old(Ready()) && AllUploaded(chunks[..]) && finReply.Rejected?
              ==> phase == Error && lastError == Some(FinalizeFailed(finReply.status))
      ensures old(Ready()) && AllUploaded(chunks[..]) && finReply.NetworkDown?
              ==> phase == Error && lastError == Some(TransportFailed)
      ensures old(Ready()) && AllUploaded(chunks[..]) && finReply.AbortedFetch?
              ==> phase == Canceled && lastError == old(lastError)
    {
      var fin, sentTotal := Finalize(finReply);
      if fin.Fail? {
        Settle(fin.error);
        return;
      }
      phase := Done;
    }

    /**
     * The uploading stage of start and resume: enter the uploading phase and upload the
     * remaining chunks with the default concurrency. A run that throws nothing leaves every
     * chunk uploaded and the controller ready to finalize.
     */
    method UploadStage(net: (nat, nat) -> FetchResult) returns (outcome: Outcome<Failure>, claimed: seq<nat>)
      requires Valid()
      modifies this, chunks
      ensures Valid()
      ensures file == old(file) && sid == old(sid) && sizes == old(sizes) && chunks == old(chunks)
      ensures lastError == old(lastError)
      ensures !old(Ready()) ==> outcome == Fail(NotReadyToResume) && claimed == []
      ensures chunks != null ==> |claimed| <= |Remaining(old(chunks[..]))|
                                 && claimed == Remaining(old(chunks[..]))[..|claimed|]
                                 && chunks[..] == ApplyClaims(old(chunks[..]), claimed, net)
      ensures old(Ready()) ==> outcome == if FirstFailure(net, claimed).Some? then Fail(FirstFailure(net, claimed).value) else Pass
      ensures outcome == Fail(AbortError) ==> phase == Canceled
      ensures outcome.Pass? ==> Ready() && AllUploaded(chunks[..])
    {
      ghost var st := if chunks == null then [] else chunks[..];
      phase := Phase.Uploading;
      outcome, claimed := UploadRemainingChunks(DefaultMaxConcurrency, net);
      if outcome.Pass? {
        CleanPoolUploadsAll(st, claimed, net, Workers(DefaultMaxConcurrency));
      }
    }

    /**
     * The shared tail of a full upload and of resume: enter the uploading phase, upload the
     * remaining chunks with the default concurrency, finalize, and reach the done phase;
     * an error on the way is settled as the catch of start and resume settles it.
     */
    method UploadAndFinalize(net: (nat, nat) -> FetchResult, finReply: FetchResult)
      returns (claimed: seq<nat>)
      requires Valid()
      modifies this, chunks
      ensures Valid()
      ensures file == old(file) && sid == old(sid) && sizes == old(sizes) && chunks == old(chunks)
      ensures phase == Done || phase == Error || phase == Canceled
      ensures phase == Done ==> chunks != null && AllUploaded(chunks[..]) && file.Some? && uploadedBytes == file.value.size
      ensures phase == Done || phase == Canceled ==> lastError == old(lastError)
      ensures phase == Error ==> lastError.Some? && lastError.value != AbortError
      ensures !old(Ready()) ==> claimed == [] && phase == Error && lastError == Some(NotReadyToResume)
      // the claims come from the front of the selection and the array holds their outcomes
      // (so chunks already uploaded are never sent again: ClaimedNeededUpload, UploadedStay)
      ensures chunks != null ==> |claimed| <= |Remaining(old(chunks[..]))|
                                 && claimed == Remaining(old(chunks[..]))[..|claimed|]
                                 && chunks[..] == ApplyClaims(old(chunks[..]), claimed, net)
      // the first recorded chunk error decides: an abort ends silently, any other is recorded
      ensures FirstFailure(net, claimed) == Some(AbortError) ==> phase == Canceled && lastError == old(lastError)
      ensures FirstFailure(net, claimed).Some? && FirstFailure(net, claimed) != Some(AbortError)
              ==> phase == Error && lastError == FirstFailure(net, claimed)
      // a clean pool run reaches finalize with its guard satisfied
      ensures phase == Error ==> lastError != Some(NothingToFinalize)
      // a clean pool run uploads every chunk, and finalize's reply decides the end
      ensures old(Ready()) && FirstFailure(net, claimed).None? ==>
                && chunks != null && AllUploaded(chunks[..])
                && (finReply.Accepted? ==> phase == Done)
                && (finReply.Rejected? ==> phase == Error && lastError == Some(FinalizeFailed(finReply.status)))
                && (finReply.NetworkDown? ==> phase == Error && lastError == Some(TransportFailed))
                && (finReply.AbortedFetch? ==> phase == Canceled && lastError == old(lastError))
    {
      var outcome;
      outcome, claimed := UploadStage(net);
      if outcome.Fail? {
        Settle(outcome.error);
        return;
      }
      FinalizeAndSettle(finReply);
    }

    /**
     * The first half of runFullUpload: clears the previous run's error, progress and plan,
     * validates the file, keeps it, enters the initializing phase and creates a fresh
     * abort signal. A failed validation throws before the file is kept.
     */
    method Begin(f: File) returns (outcome: Outcome<Failure>)
      requires Valid()
      modifies this
      ensures Valid()
      ensures outcome == ValidateFile(Some(f))
      ensures lastError.None? && uploadedBytes == 0 && sid.None? && chunks == null && sizes == []
      ensures outcome.Fail? ==> phase == Validating && file.None?
                                && hasSignal == old(hasSignal) && aborted == old(aborted)
      ensures outcome.Pass? ==> phase == Initializing && file == Some(f) && hasSignal && !aborted
    {
      lastError := None;
      uploadedBytes := 0;
      // resetPlanningState
      file, sid, sizes, chunks := None, None, [], null;
      phase := Validating;
      outcome := ValidateFile(Some(f));
      if outcome.Fail? {
        return;
      }
      file := Some(f);
      phase := Initializing;
      hasSignal, aborted := true, false;
    }

    /**
     * The init request of runFullUpload and what follows it: on success the session id is
     * kept and the chunk plan is built (every chunk pending, nothing uploaded yet). The
     * server's reply is the parameter `init`.
     */
    method OpenSession(init: InitReply) returns (outcome: Outcome<Failure>)
      requires Valid() && file.Some? && chunks == null && hasSignal && uploadedBytes == 0
      modifies this
      ensures Valid()
      ensures file == old(file) && lastError == old(lastError) && uploadedBytes == 0
      ensures init.Opened? ==> outcome == Pass && sid == Some(init.sessionId) && phase == old(phase) && hasSignal
      ensures init.Opened? ==> chunks != null && fresh(chunks) && sizes == PlanSizes(file.value.size, DefaultChunkBytes)
                               && forall k :: 0 <= k < chunks.Length ==> chunks[k] == Pending
      ensures init.InitRejected? ==> outcome == Fail(InitFailed(init.status))
      ensures init.InitNetworkDown? ==> outcome == Fail(TransportFailed)
      ensures init.InitAborted? ==> outcome == Fail(AbortError) && phase == Canceled && !hasSignal && aborted
      ensures !init.Opened? ==> sid == old(sid) && chunks == null
      ensures init.InitRejected? || init.InitNetworkDown? ==> phase == old(phase) && hasSignal
    {
      match init
      case InitRejected(status) => outcome := Fail(InitFailed(status));
      case InitNetworkDown => outcome := Fail(TransportFailed);
      case InitAborted =>
        // the user canceled while the request was in flight
        Cancel();
        outcome := Fail(AbortError);
      case Opened(sessionId) =>
        sid := Some(sessionId);
        BuildChunkPlan();
        SumUploadedNone(sizes, chunks[..]);
        outcome := Pass;
    }

    /**
     * start(file): runFullUpload under its catch. A file that fails validation, a refused
     * or failed init request, a failed chunk or a failed finalize ends in the error phase
     * with that error; a cancel whose AbortError is the first recorded error ends silently
     * in the canceled phase; otherwise the run reaches the done phase with every chunk
     * uploaded and the byte total equal to the file size. `init`, `net` and `finReply` are
     * the server's replies; the user's cancel arrives as an aborted reply.
     */
    method Start(f: File, init: InitReply, net: (nat, nat) -> FetchResult, finReply: FetchResult)
      returns (claimed: seq<nat>)
      requires Valid()
      modifies this, chunks
      ensures Valid()
      ensures phase == Done || phase == Error || phase == Canceled
      ensures ValidateFile(Some(f)).Fail? ==> phase == Error && lastError == Some(ValidateFile(Some(f)).error)
                                              && file.None? && sid.None? && chunks == null
      ensures ValidateFile(Some(f)).Pass? ==> file == Some(f)
      ensures ValidateFile(Some(f)).Pass? && init.InitRejected? ==> phase == Error && lastError == Some(InitFailed(init.status))
      ensures ValidateFile(Some(f)).Pass? && init.InitNetworkDown? ==> phase == Error && lastError == Some(TransportFailed)
      ensures ValidateFile(Some(f)).Pass? && init.InitAborted? ==> phase == Canceled && lastError.None?
      // a fresh run claims the chunks in index order
      ensures ValidateFile(Some(f)).Pass? && init.Opened? ==>
                && sid == Some(init.sessionId) && chunks != null && sizes == PlanSizes(f.size, DefaultChunkBytes)
                && |claimed| <= chunks.Length && forall j :: 0 <= j < |claimed| ==> claimed[j] == j
      ensures phase == Done ==> lastError.None? && file == Some(f) && chunks != null && AllUploaded(chunks[..])
                                && uploadedBytes == f.size
      ensures phase == Canceled ==> lastError.None?
      ensures phase == Error ==> lastError.Some? && lastError.value != AbortError
      ensures FirstFailure(net, claimed) == Some(AbortError) ==> phase == Canceled && lastError.None?
      ensures FirstFailure(net, claimed).Some? && FirstFailure(net, claimed) != Some(AbortError)
              ==> phase == Error && lastError == FirstFailure(net, claimed)
      ensures lastError != Some(NothingToFinalize)
      // an empty session id fails the readiness guard of the upload
      ensures ValidateFile(Some(f)).Pass? && init.Opened? && init.sessionId == []
              ==> phase == Error && lastError == Some(NotReadyToResume) && claimed == []
      // a clean pool run uploads every chunk, and finalize's reply decides the end
      ensures ValidateFile(Some(f)).Pass? && init.Opened? && init.sessionId != [] && FirstFailure(net, claimed).None? ==>
                && chunks != null && AllUploaded(chunks[..])
                && (finReply.Accepted? ==> phase == Done)
                && (finReply.Rejected? ==> phase == Error && lastError == Some(FinalizeFailed(finReply.status)))
                && (finReply.NetworkDown? ==> phase == Error && lastError == Some(TransportFailed))
                && (finReply.AbortedFetch? ==> phase == Canceled && lastError.None?)
    {
      claimed := [];
      var outcome := Begin(f);
      if outcome.Fail? {
        Settle(outcome.error);
        return;
      }
      outcome := OpenSession(init);
      if outcome.Fail? {
        Settle(outcome.error);
        return;
      }
      RemainingAllPending(chunks[..]);
      assert Ready() <==> init.sessionId != [];
      claimed := UploadAndFinalize(net, finReply);
    }

    /**
     * resume: continues the current session from the in-memory plan. Without the file, or
     * without a session id, it records why and enters the error phase; otherwise it creates
     * a fresh abort signal and runs the shared tail, which only sends the chunks still
     * pending or failed.
     */
    method Resume(net: (nat, nat) -> FetchResult, finReply: FetchResult)
      returns (claimed: seq<nat>)
      requires Valid()
      modifies this, chunks
      ensures Valid()
      ensures file == old(file) && sid == old(sid) && sizes == old(sizes) && chunks == old(chunks)
      ensures phase == Done || phase == Error || phase == Canceled
      ensures old(file).None? ==> phase == Error && lastError == Some(FileMissingForResume) && claimed == []
      ensures old(file).Some? && !Present(old(sid)) ==> phase == Error && lastError == Some(SessionMissingForResume) && claimed == []
      ensures claimed == [] && chunks != null ==> chunks[..] == old(chunks[..])
      ensures chunks != null ==> |claimed| <= |Remaining(old(chunks[..]))|
                                 && claimed == Remaining(old(chunks[..]))[..|claimed|]
                                 && chunks[..] == ApplyClaims(old(chunks[..]), claimed, net)
      ensures phase == Done ==> lastError.None? && chunks != null && AllUploaded(chunks[..])
                                && file.Some? && uploadedBytes == file.value.size
      ensures phase == Canceled ==> lastError.None?
      ensures phase == Error ==> lastError.Some? && lastError.value != AbortError
      ensures FirstFailure(net, claimed) == Some(AbortError) ==> phase == Canceled && lastError.None?
      ensures FirstFailure(net, claimed).Some? && FirstFailure(net, claimed) != Some(AbortError)
              ==> phase == Error && lastError == FirstFailure(net, claimed)
      ensures lastError != Some(NothingToFinalize)
      // a clean pool run uploads every chunk, and finalize's reply decides the end
      ensures old(file).Some? && Present(old(sid)) && FirstFailure(net, claimed).None? ==>
                && chunks != null && AllUploaded(chunks[..])
                && (finReply.Accepted? ==> phase == Done)
                && (finReply.Rejected? ==> phase == Error && lastError == Some(FinalizeFailed(finReply.status)))
                && (finReply.NetworkDown? ==> phase == Error && lastError == Some(TransportFailed))
                && (finReply.AbortedFetch? ==> phase == Canceled && lastError.None?)
    {
      lastError := None;
      if file.None? {
        lastError := Some(FileMissingForResume);
        phase := Error;
        return [];
      }
      if !Present(sid) {
        lastError := Some(SessionMissingForResume);
        phase := Error;
        return [];
      }
      hasSignal, aborted := true, false;
      assert Ready();
      claimed := UploadAndFinalize(net, finReply);
    }

    /** retryFailed: the same as resume; only pending and failed chunks are sent again. */
    method RetryFailed(net: (nat, nat) -> FetchResult, finReply: FetchResult)
      returns (claimed: seq<nat>)
      requires Valid()
      modifies this, chunks
      ensures Valid() && chunks == old(chunks)
      ensures chunks != null ==> forall k :: k in claimed ==> k < chunks.Length && NeedsUpload(old(chunks[k]))
      ensures chunks != null ==> forall k :: 0 <= k < chunks.Length && old(chunks[k]) == Uploaded ==> chunks[k] == Uploaded
    {
      ghost var before := if chunks == null then [] else chunks[..];
      claimed := Resume(net, finReply);
      if chunks != null {
        ClaimedNeededUpload(before, claimed);
        UploadedStay(before, claimed, net);
      }
    }
  }
}
