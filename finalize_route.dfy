/**
 * The finalize route: it checks that the stored chunks of an upload session are
 * complete, concatenates them into the assembled file and returns a CSV preview of its
 * first lines. `POST` checks completeness and writes the assembled file; `GET` rebuilds
 * the preview from the chunks with no completeness check.
 *
 * Storage is a pair of oracles: the chunk listing of a session (absent when the listing
 * throws) and the payload of one stored file (absent when the read throws). Decoding the
 * preview bytes as UTF-8 is a parameter.
 */
module FinalizeRoute {
  import opened Common
  import opened Text
  import Csv

  const ChunkPrefix: string := "chunk-"
  const ChunkSuffix: string := ".bin"
  /** How many missing indices an expected-total rejection lists. */
  const MissingShown: nat := 25
  /** The preview is cut after this many lines of the assembled bytes ... */
  const PreviewLines: nat := 200
  /** ... and shows at most this many data rows. */
  const PreviewRows: nat := 100

  // ---------------------------------------------------------------------------------
  // Chunk names
  // ---------------------------------------------------------------------------------

  /** The part of a name between `chunk-` and `.bin`. */
  function DigitPart(name: string): string
    requires |name| >= |ChunkPrefix| + |ChunkSuffix|
  {
    name[|ChunkPrefix|..|name| - |ChunkSuffix|]
  }

  /** The name matches `^chunk-(\d+)\.bin$`. */
  predicate IsChunkName(name: string)
  {
    |name| > |ChunkPrefix| + |ChunkSuffix| &&
    StartsWith(name, ChunkPrefix) && EndsWith(name, ChunkSuffix) &&
    AllDigits(DigitPart(name))
  }

  /** The chunk index a stored file name carries, if it is a chunk name. */
  function ParseChunkIndex(name: string): Option<nat>
  {
    if IsChunkName(name) then Some(DigitsValue(DigitPart(name))) else None
  }

  /** The name under which chunk `n` is stored. */
  function ChunkName(n: nat): string
  {
    ChunkPrefix + NatToString(n) + ChunkSuffix
  }

  /**
   * A name parses to `n` exactly when it is `chunk-`, then one or more ASCII digits whose
   * decimal value is `n`, then `.bin`.
   */
  lemma ParseChunkIndexIff(name: string, n: nat)
    ensures ParseChunkIndex(name) == Some(n) <==>
      exists d :: AllDigits(d) && d != [] && name == ChunkPrefix + d + ChunkSuffix && DigitsValue(d) == n
  {
    if ParseChunkIndex(name) == Some(n) {
      var d := DigitPart(name);
      assert name == ChunkPrefix + d + ChunkSuffix;
    }
    if exists d :: AllDigits(d) && d != [] && name == ChunkPrefix + d + ChunkSuffix && DigitsValue(d) == n {
      var d :| AllDigits(d) && d != [] && name == ChunkPrefix + d + ChunkSuffix && DigitsValue(d) == n;
      assert DigitPart(name) == d;
    }
  }

  /** The stored name of chunk `n` parses back to `n`. */
  lemma ChunkNameRoundTrip(n: nat)
    ensures ParseChunkIndex(ChunkName(n)) == Some(n)
  {
    var d := NatToString(n);
    NatToStringRoundTrip(n);
    ParseChunkIndexIff(ChunkName(n), n);
  }

  /** A chunk name without superfluous leading zeros is the stored name of its index. */
  lemma ChunkNameCanonical(name: string)
    requires IsChunkName(name)
    requires var d := DigitPart(name); |d| == 1 || d[0] != '0'
    ensures name == ChunkName(ParseChunkIndex(name).value)
  {
    var d := DigitPart(name);
    CanonicalDigits(d);
    assert name == ChunkPrefix + d + ChunkSuffix;
  }

  /** `chunk-0<n>.bin` parses to the same index as `chunk-<n>.bin`. */
  lemma LeadingZeroAlias(n: nat)
    ensures ParseChunkIndex(ChunkPrefix + "0" + NatToString(n) + ChunkSuffix) == Some(n)
  {
    var d := "0" + NatToString(n);
    LeadingZero(NatToString(n));
    NatToStringRoundTrip(n);
    assert ChunkPrefix + "0" + NatToString(n) + ChunkSuffix == ChunkPrefix + d + ChunkSuffix;
    ParseChunkIndexIff(ChunkPrefix + d + ChunkSuffix, n);
  }

  // ---------------------------------------------------------------------------------
  // Completeness
  // ---------------------------------------------------------------------------------

  /** The set of chunk indices the listed names carry. */
  function IndexSet(files: seq<string>): set<nat>
  {
    if files == [] then {}
    else
      var last := ParseChunkIndex(files[|files| - 1]);
      IndexSet(files[..|files| - 1]) + (if last.Some? then {last.value} else {})
  }

  /** An index is present exactly when some listed name parses to it. */
  lemma {:induction false} IndexSetIff(files: seq<string>, n: nat)
    ensures n in IndexSet(files) <==> exists f :: f in files && ParseChunkIndex(f) == Some(n)
    decreases |files|
  {
    if files != [] {
      var init := files[..|files| - 1];
      var last := files[|files| - 1];
      IndexSetIff(init, n);
      assert files == init + [last];
      if exists f :: f in files && ParseChunkIndex(f) == Some(n) {
        var f :| f in files && ParseChunkIndex(f) == Some(n);
        if f != last {
          assert f in init;
        }
      }
    }
  }

  /** Collects the chunk indices of a listing into a set. */
  method CollectIndices(files: seq<string>) returns (indices: set<nat>)
    ensures indices == IndexSet(files)
  {
    indices := {};
    var k := 0;
    while k < |files|
      invariant 0 <= k <= |files|
      invariant indices == IndexSet(files[..k])
    {
      assert files[..k + 1][..k] == files[..k];
      var idx := ParseChunkIndex(files[k]);
      if idx.Some? {
        indices := indices + {idx.value};
      }
      k := k + 1;
    }
    assert files[..k] == files;
  }

  /** The largest index, or -1 (standing for minus infinity) when there is none. */
  method LargestIndex(indices: set<nat>) returns (max: int)
    ensures indices == {} ==> max < 0
    ensures indices != {} ==> max in indices && forall x: nat :: x in indices ==> x <= max
  {
    max := -1;
    var rest := indices;
    while rest != {}
      invariant rest <= indices
      invariant forall x: nat :: x in indices && x !in rest ==> x <= max
      invariant max < 0 || max in indices
      invariant max < 0 ==> rest == indices
      decreases |rest|
    {
      var x :| x in rest;
      if x > max {
        max := x;
      }
      rest := rest - {x};
    }
  }

  /** The indices below `n` that are absent from `present`, ascending. */
  function MissingBelow(present: set<nat>, n: nat): (r: seq<nat>)
    ensures forall i: nat :: i in r <==> i < n && i !in present
    ensures forall a, b :: 0 <= a < b < |r| ==> r[a] < r[b]
  {
    if n == 0 then []
    else
      var prev := MissingBelow(present, n - 1);
      if n - 1 in present then prev
      else
        assert forall a :: 0 <= a < |prev| ==> prev[a] in prev;
        prev + [n - 1]
  }

  /** Some index below a present one is absent. */
  predicate HasGap(present: set<nat>)
  {
    exists i: nat, j: nat :: i in present && j !in present && j < i
  }

  datatype FinalizeError =
    | MissingSessionId
    | NoChunksFound
      /** `received` counts every listed file; `shown` is at most 25 missing indices. */
    | MissingChunks(received: nat, expected: nat, shown: seq<nat>)
    | ChunkGap

  /** What the completeness checks reject a non-empty listing for, if anything. */
  function CompletenessError(files: seq<string>, expected: Option<nat>): Option<FinalizeError>
  {
    var present := IndexSet(files);
    if expected.Some? then
      var missing := MissingBelow(present, expected.value);
      if missing != [] then
        Some(MissingChunks(|files|, expected.value, missing[..Min(MissingShown, |missing|)]))
      else None
    else if HasGap(present) then Some(ChunkGap)
    else None
  }

  /**
   * With an expected total, the listing is rejected exactly when an index below it has no
   * chunk; the rejection lists the smallest absent indices below the total, ascending,
   * all of them when there are fewer than 25 and otherwise exactly 25.
   */
  lemma ExpectedCompleteness(files: seq<string>, expected: nat)
    ensures CompletenessError(files, Some(expected)).Some? <==>
      exists a: nat :: a < expected && a !in IndexSet(files)
    ensures CompletenessError(files, Some(expected)).Some? ==>
      var e := CompletenessError(files, Some(expected)).value;
      var missing := MissingBelow(IndexSet(files), expected);
      e.MissingChunks? && e.received == |files| && e.expected == expected &&
      1 <= |e.shown| <= MissingShown && e.shown <= missing &&
      (|e.shown| < MissingShown ==> e.shown == missing) && (|missing| > MissingShown ==> |e.shown| == MissingShown)
  {
    var present := IndexSet(files);
    var missing := MissingBelow(present, expected);
    if missing != [] {
      var w := missing[0];
      assert w in missing;
      assert w < expected && w !in present;
      assert CompletenessError(files, Some(expected)).Some?;
      assert exists a: nat :: a < expected && a !in IndexSet(files);
    } else {
      forall w: nat | w < expected
        ensures w in present
      {
        assert w !in missing;
      }
    }
  }

  /**
   * Without an expected total, the listing is rejected exactly when an index below some
   * present index has no chunk, so a listing where no name parses passes.
   */
  lemma BestEffortCompleteness(files: seq<string>)
    ensures CompletenessError(files, None) == Some(ChunkGap) <==>
      exists a: nat, b: nat :: a in IndexSet(files) && b !in IndexSet(files) && b < a
    ensures CompletenessError(files, None) != Some(ChunkGap) ==> CompletenessError(files, None) == None
  {
    var present := IndexSet(files);
    if HasGap(present) {
      var w: nat, v: nat :| w in present && v !in present && v < w;
      assert w in IndexSet(files) && v !in IndexSet(files) && v < w;
      assert exists a: nat, b: nat :: a in IndexSet(files) && b !in IndexSet(files) && b < a;
    }
  }

  /** The indices below `expected` with no chunk, ascending. */
  method MissingIndices(indices: set<nat>, expected: nat) returns (missing: seq<nat>)
    ensures missing == MissingBelow(indices, expected)
  {
    missing := [];
    var i := 0;
    while i < expected
      invariant 0 <= i <= expected
      invariant missing == MissingBelow(indices, i)
    {
      if i !in indices {
        missing := missing + [i];
      }
      i := i + 1;
    }
  }

  /** Whether some index from 0 up to `max` has no chunk. */
  method FindGap(indices: set<nat>, max: int) returns (gap: bool)
    ensures gap <==> exists j :: 0 <= j <= max && j !in indices
  {
    var i := 0;
    while i <= max
      invariant 0 <= i <= max + 1 || (max < 0 && i == 0)
      invariant forall j :: 0 <= j < i ==> j in indices
    {
      if i !in indices {
        return true;
      }
      i := i + 1;
    }
    return false;
  }

  /** Runs the completeness checks of `POST` over a listing. */
  method CheckCompleteness(files: seq<string>, expected: Option<nat>) returns (err: Option<FinalizeError>)
    ensures err == CompletenessError(files, expected)
  {
    var indices := CollectIndices(files);
    if expected.Some? {
      var missing := MissingIndices(indices, expected.value);
      if |missing| > 0 {
        return Some(MissingChunks(|files|, expected.value, missing[..Min(MissingShown, |missing|)]));
      }
    } else {
      var max := LargestIndex(indices);
      var gap := FindGap(indices, max);
      if gap {
        var j :| 0 <= j <= max && j !in indices;
        assert max in indices && j < max;
        return Some(ChunkGap);
      }
      assert !HasGap(indices);
    }
    return None;
  }

  // ---------------------------------------------------------------------------------
  // Assembly
  // ---------------------------------------------------------------------------------

  /** The concatenation of byte strings, in order. */
  function Concat(parts: seq<seq<byte>>): seq<byte>
  {
    if parts == [] then [] else Concat(parts[..|parts| - 1]) + parts[|parts| - 1]
  }

  /** The payloads of the listed files in listing order, or nothing when a read fails. */
  function Payloads(read: (string, string) -> Option<seq<byte>>, sid: string, files: seq<string>): Option<seq<seq<byte>>>
  {
    if files == [] then Some([])
    else
      var init := Payloads(read, sid, files[..|files| - 1]);
      var last := read(sid, files[|files| - 1]);
      if init.Some? && last.Some? then Some(init.value + [last.value]) else None
  }

  /** The assembled file: every listed payload in listing order. */
  function Assembled(read: (string, string) -> Option<seq<byte>>, sid: string, files: seq<string>): Option<seq<byte>>
  {
    var p := Payloads(read, sid, files);
    if p.Some? then Some(Concat(p.value)) else None
  }

  lemma {:induction false} ConcatAppend(a: seq<seq<byte>>, b: seq<seq<byte>>)
    ensures Concat(a + b) == Concat(a) + Concat(b)
    decreases |b|
  {
    if b == [] {
      assert a + b == a;
      assert Concat(a) + Concat(b) == Concat(a);
    } else {
      var init := b[..|b| - 1];
      assert (a + b)[..|a + b| - 1] == a + init;
      assert (a + b)[|a + b| - 1] == b[|b| - 1];
      ConcatAppend(a, init);
    }
  }

  lemma {:induction false} PayloadsAppend(read: (string, string) -> Option<seq<byte>>, sid: string, a: seq<string>, b: seq<string>)
    ensures Payloads(read, sid, a + b) ==
      if Payloads(read, sid, a).Some? && Payloads(read, sid, b).Some?
      then Some(Payloads(read, sid, a).value + Payloads(read, sid, b).value) else None
    decreases |b|
  {
    if b == [] {
      assert a + b == a;
      var pa := Payloads(read, sid, a);
      assert pa.Some? ==> pa.value + [] == pa.value;
    } else {
      var init := b[..|b| - 1];
      assert (a + b)[..|a + b| - 1] == a + init;
      assert (a + b)[|a + b| - 1] == b[|b| - 1];
      PayloadsAppend(read, sid, a, init);
      var pa := Payloads(read, sid, a);
      var pi := Payloads(read, sid, init);
      var last := read(sid, b[|b| - 1]);
      if pa.Some? && pi.Some? && last.Some? {
        assert pa.value + (pi.value + [last.value]) == (pa.value + pi.value) + [last.value];
      }
    }
  }

  /**
   * Assembly follows listing order: the file assembled from two listings one after the
   * other is the two assembled files one after the other, and every read must succeed.
   */
  lemma AssembledAppend(read: (string, string) -> Option<seq<byte>>, sid: string, a: seq<string>, b: seq<string>)
    ensures Assembled(read, sid, a + b).Some? <==> Assembled(read, sid, a).Some? && Assembled(read, sid, b).Some?
    ensures Assembled(read, sid, a + b).Some? ==>
      Assembled(read, sid, a + b).value == Assembled(read, sid, a).value + Assembled(read, sid, b).value
  {
    PayloadsAppend(read, sid, a, b);
    var pa := Payloads(read, sid, a);
    var pb := Payloads(read, sid, b);
    if pa.Some? && pb.Some? {
      ConcatAppend(pa.value, pb.value);
    }
  }

  lemma AssembledOne(read: (string, string) -> Option<seq<byte>>, sid: string, f: string)
    ensures Assembled(read, sid, [f]) == read(sid, f)
  {
    assert [f][..0] == [];
    assert Payloads(read, sid, [f][..0]) == Some([]);
    var x := read(sid, f);
    if x.Some? {
      assert Payloads(read, sid, [f]) == Some([] + [x.value]);
      assert [x.value][..0] == [];
      assert Concat([x.value]) == Concat([]) + x.value == x.value;
    }
  }

  /**
   * Listing order is not index order: when two chunks hold different payloads, listing
   * them in the other order assembles a different file.
   */
  lemma ListingOrderMatters(read: (string, string) -> Option<seq<byte>>, sid: string, f: string, g: string)
    requires read(sid, f) == Some([1]) && read(sid, g) == Some([2])
    ensures Assembled(read, sid, [f, g]) != Assembled(read, sid, [g, f])
  {
    AssembledAppend(read, sid, [f], [g]);
    AssembledAppend(read, sid, [g], [f]);
    AssembledOne(read, sid, f);
    AssembledOne(read, sid, g);
    assert [f] + [g] == [f, g];
    assert [g] + [f] == [g, f];
    assert Assembled(read, sid, [f, g]).value[0] == 1;
    assert Assembled(read, sid, [g, f]).value[0] == 2;
  }

  /** Reads every listed file in listing order and concatenates the payloads. */
  method AssembleChunks(read: (string, string) -> Option<seq<byte>>, sid: string, files: seq<string>)
    returns (assembled: Option<seq<byte>>)
    ensures assembled == Assembled(read, sid, files)
  {
    var parts: seq<seq<byte>> := [];
    var k := 0;
    while k < |files|
      invariant 0 <= k <= |files|
      invariant Payloads(read, sid, files[..k]) == Some(parts)
    {
      assert files[..k + 1][..k] == files[..k];
      var part := read(sid, files[k]);
      if part.None? {
        NoPayloadsAfterFailure(read, sid, files, k + 1);
        return None;
      }
      parts := parts + [part.value];
      k := k + 1;
    }
    assert files[..k] == files;
    assembled := Some(Concat(parts));
  }

  /** A failed read makes every longer prefix of the listing fail too. */
  lemma {:induction false} NoPayloadsAfterFailure(read: (string, string) -> Option<seq<byte>>, sid: string, files: seq<string>, k: nat)
    requires 0 < k <= |files| && Payloads(read, sid, files[..k]).None?
    ensures Payloads(read, sid, files).None?
    decreases |files| - k
  {
    if k < |files| {
      assert files[..k + 1][..k] == files[..k];
      NoPayloadsAfterFailure(read, sid, files, k + 1);
    } else {
      assert files[..k] == files;
    }
  }

  // ---------------------------------------------------------------------------------
  // Preview
  // ---------------------------------------------------------------------------------

  /** The number of newline bytes. */
  function NewlineCount(b: seq<byte>): nat
  {
    if b == [] then 0 else NewlineCount(b[..|b| - 1]) + (if b[|b| - 1] == Newline then 1 else 0)
  }

  lemma {:induction false} NewlineCountPrefix(b: seq<byte>, j: nat)
    requires j <= |b|
    ensures NewlineCount(b[..j]) <= NewlineCount(b)
    decreases |b| - j
  {
    if j < |b| {
      NewlineCountPrefix(b, j + 1);
      assert b[..j + 1][..j] == b[..j];
    } else {
      assert b[..j] == b;
    }
  }

  /** A prefix that ends in a newline has fewer newlines than any shorter prefix. */
  lemma NewlineCountStrict(b: seq<byte>, j: nat)
    requires j < |b| && b[|b| - 1] == Newline
    ensures NewlineCount(b[..j]) < NewlineCount(b)
  {
    var init := b[..|b| - 1];
    NewlineCountPrefix(init, j);
    assert init[..j] == b[..j];
  }

  /**
   * `cut` is what the preview reads of `buf`: a prefix of `buf` that ends right after its
   * `max(1, maxLines)`-th newline, or all of `buf` when it has fewer newlines.
   */
  predicate IsFirstLines(buf: seq<byte>, maxLines: int, cut: seq<byte>)
  {
    && |cut| <= |buf| && cut == buf[..|cut|]
    && (NewlineCount(buf) < Max(1, maxLines) ==> cut == buf)
    && (NewlineCount(buf) >= Max(1, maxLines) ==>
          |cut| > 0 && NewlineCount(cut) == Max(1, maxLines) && cut[|cut| - 1] == Newline)
  }

  /** At most one prefix fits that description: the preview bytes are determined by `buf`. */
  lemma FirstLinesUnique(buf: seq<byte>, maxLines: int, c1: seq<byte>, c2: seq<byte>)
    requires IsFirstLines(buf, maxLines, c1) && IsFirstLines(buf, maxLines, c2)
    ensures c1 == c2
  {
    if |c1| < |c2| {
      assert c2[..|c1|] == c1;
      NewlineCountStrict(c2, |c1|);
    } else if |c2| < |c1| {
      assert c1[..|c2|] == c2;
      NewlineCountStrict(c1, |c2|);
    }
  }

  /** `firstLinesUtf8`'s scan, before decoding. */
  method FirstLines(buf: seq<byte>, maxLines: int) returns (r: seq<byte>)
    ensures IsFirstLines(buf, maxLines, r)
  {
    var lines := 0;
    var end := |buf|;
    var i := 0;
    while i < |buf|
      invariant 0 <= i <= |buf|
      invariant lines == NewlineCount(buf[..i]) && lines < Max(1, maxLines)
      invariant end == |buf|
    {
      assert buf[..i + 1][..i] == buf[..i];
      if buf[i] == Newline {
        lines := lines + 1;
        if lines >= maxLines {
          end := i + 1;
          NewlineCountPrefix(buf, i + 1);
          break;
        }
      }
      i := i + 1;
    }
    if i == |buf| {
      assert buf[..i] == buf;
    }
    r := buf[..end];
  }

  /** `p` is the CSV preview, with at most 100 rows, of the first 200 lines of `bytes`. */
  ghost predicate PreviewOfBytes(p: Csv.Preview, bytes: seq<byte>, decode: seq<byte> -> string)
  {
    exists cut :: IsFirstLines(bytes, PreviewLines, cut) && p == Csv.PreviewOf(decode(cut), PreviewRows)
  }

  /** The bytes determine their preview. */
  lemma PreviewDetermined(p1: Csv.Preview, p2: Csv.Preview, bytes: seq<byte>, decode: seq<byte> -> string)
    ensures PreviewOfBytes(p1, bytes, decode) && PreviewOfBytes(p2, bytes, decode) ==> p1 == p2
  {
    if PreviewOfBytes(p1, bytes, decode) && PreviewOfBytes(p2, bytes, decode) {
      var c1 :| IsFirstLines(bytes, PreviewLines, c1) && p1 == Csv.PreviewOf(decode(c1), PreviewRows);
      var c2 :| IsFirstLines(bytes, PreviewLines, c2) && p2 == Csv.PreviewOf(decode(c2), PreviewRows);
      FirstLinesUnique(bytes, PreviewLines, c1, c2);
    }
  }

  /** The preview of the assembled bytes: the first 200 lines, decoded, at most 100 rows. */
  method BuildPreview(assembled: seq<byte>, decode: seq<byte> -> string) returns (preview: Csv.Preview)
    ensures PreviewOfBytes(preview, assembled, decode)
    ensures |preview.rows| <= PreviewRows && preview.previewRows == |preview.rows|
    ensures |preview.columns| >= 1
  {
    var cut := FirstLines(assembled, PreviewLines);
    var text := decode(cut);
    preview := Csv.ParseCsvPreview(text, PreviewRows);
    Csv.RowCountIs(|Csv.Lines(text)|, PreviewRows);
    Csv.PreviewOfParts(text, PreviewRows, preview);
    assert IsFirstLines(assembled, PreviewLines, cut) && preview == Csv.PreviewOf(decode(cut), PreviewRows);
  }

  // ---------------------------------------------------------------------------------
  // Requests
  // ---------------------------------------------------------------------------------

  /** The request body: a session id and an optional expected chunk total. */
  datatype FinalizeBody = FinalizeBody(sessionId: Option<string>, totalChunks: Option<int>)

  /** The storage collaborators, as seen by one request. */
  datatype Storage = Storage(
    listChunks: string -> Option<seq<string>>,
    readChunk: (string, string) -> Option<seq<byte>>)

  datatype PostResponse =
    | PostRejected(error: FinalizeError)
      /** A storage call threw: the request fails with a server error. */
    | PostFailed
    | PostOk(sessionId: string, preview: Csv.Preview, written: seq<byte>)

  datatype GetResponse =
    | GetRejected(error: FinalizeError)
    | GetFailed
    | GetOk(sessionId: string, preview: Csv.Preview)

  /** The session id, when present and non-empty. */
  function SessionIdOf(id: Option<string>): Option<string>
  {
    if id.Some? && id.value != "" then id else None
  }

  /** A body that failed to parse has no session id. */
  function BodySessionId(body: Option<FinalizeBody>): Option<string>
  {
    if body.Some? then SessionIdOf(body.value.sessionId) else None
  }

  /** The expected total when the body carries a positive one. */
  function ExpectedTotal(body: Option<FinalizeBody>): Option<nat>
  {
    if body.Some? && body.value.totalChunks.Some? && body.value.totalChunks.value > 0
    then Some(body.value.totalChunks.value as nat) else None
  }

  /** `POST`: checks completeness, assembles the chunks, writes the result and previews it. */
  method Post(body: Option<FinalizeBody>, store: Storage, decode: seq<byte> -> string) returns (resp: PostResponse)
    ensures BodySessionId(body).None? ==> resp == PostRejected(MissingSessionId)
    ensures BodySessionId(body).Some? ==>
      var sid := BodySessionId(body).value;
      var listing := store.listChunks(sid);
      (listing.None? ==> resp == PostFailed) &&
      (listing == Some([]) ==> resp == PostRejected(NoChunksFound)) &&
      (listing.Some? && listing.value != [] ==>
        var err := CompletenessError(listing.value, ExpectedTotal(body));
        var assembled := Assembled(store.readChunk, sid, listing.value);
        (err.Some? ==> resp == PostRejected(err.value)) &&
        (err.None? && assembled.None? ==> resp == PostFailed) &&
        (err.None? && assembled.Some? ==>
          resp.PostOk? && resp.sessionId == sid && resp.written == assembled.value))
    ensures resp.PostOk? ==> PreviewOfBytes(resp.preview, resp.written, decode)
    ensures resp.PostOk? ==> |resp.preview.rows| <= PreviewRows && |resp.preview.columns| >= 1
  {
    var sid := BodySessionId(body);
    if sid.None? {
      return PostRejected(MissingSessionId);
    }
    var listing := store.listChunks(sid.value);
    if listing.None? {
      return PostFailed;
    }
    var files := listing.value;
    if |files| == 0 {
      return PostRejected(NoChunksFound);
    }
    var err := CheckCompleteness(files, ExpectedTotal(body));
    if err.Some? {
      return PostRejected(err.value);
    }
    var assembled := AssembleChunks(store.readChunk, sid.value, files);
    if assembled.None? {
      return PostFailed;
    }
    var preview := BuildPreview(assembled.value, decode);
    resp := PostOk(sid.value, preview, assembled.value);
  }

  /**
   * `GET`: rebuilds the preview from the stored chunks with no completeness check; a
   * listing that throws counts as empty.
   */
  method Get(sessionId: Option<string>, store: Storage, decode: seq<byte> -> string) returns (resp: GetResponse)
    ensures SessionIdOf(sessionId).None? ==> resp == GetRejected(MissingSessionId)
    ensures SessionIdOf(sessionId).Some? ==>
      var sid := SessionIdOf(sessionId).value;
      var listing := store.listChunks(sid);
      (listing.None? || listing == Some([]) ==> resp == GetRejected(NoChunksFound)) &&
      (listing.Some? && listing.value != [] ==>
        (Assembled(store.readChunk, sid, listing.value).None? ==> resp == GetFailed) &&
        (Assembled(store.readChunk, sid, listing.value).Some? ==>
          resp.GetOk? && resp.sessionId == sid &&
          PreviewOfBytes(resp.preview, Assembled(store.readChunk, sid, listing.value).value, decode)))
    ensures resp.GetOk? ==> |resp.preview.rows| <= PreviewRows && |resp.preview.columns| >= 1
  {
    var sid := SessionIdOf(sessionId);
    if sid.None? {
      return GetRejected(MissingSessionId);
    }
    var listing := store.listChunks(sid.value);
    var files := if listing.Some? then listing.value else [];
    if |files| == 0 {
      return GetRejected(NoChunksFound);
    }
    var assembled := AssembleChunks(store.readChunk, sid.value, files);
    if assembled.None? {
      return GetFailed;
    }
    var preview := BuildPreview(assembled.value, decode);
    resp := GetOk(sid.value, preview);
  }

  // ---------------------------------------------------------------------------------
  // Consequences
  // ---------------------------------------------------------------------------------

  /** The stored names of chunks 0 to n-1, in index order. */
  function ChunkNames(n: nat): (r: seq<string>)
    ensures |r| == n
  {
    if n == 0 then [] else ChunkNames(n - 1) + [ChunkName(n - 1)]
  }

  /** The names of chunks 0 to n-1 carry exactly the indices below n. */
  lemma {:induction false} ChunkNamesIndices(n: nat)
    ensures forall i: nat :: i in IndexSet(ChunkNames(n)) <==> i < n
    decreases n
  {
    if n > 0 {
      ChunkNamesIndices(n - 1);
      ChunkNameRoundTrip(n - 1);
      var c := ChunkNames(n);
      assert c[..|c| - 1] == ChunkNames(n - 1);
      assert c[|c| - 1] == ChunkName(n - 1);
    }
  }

  /**
   * A missing last chunk is caught only with an expected total: chunks 0 to n-1 of an
   * upload of n+1 chunks pass the best-effort check, but are rejected, naming chunk n,
   * when the total is given.
   */
  lemma MissingTail(n: nat)
    ensures CompletenessError(ChunkNames(n), None) == None
    ensures CompletenessError(ChunkNames(n), Some(n + 1)) == Some(MissingChunks(n, n + 1, [n]))
  {
    var files := ChunkNames(n);
    ChunkNamesIndices(n);
    OnlyTopMissing(IndexSet(files), n);
    var missing := MissingBelow(IndexSet(files), n + 1);
    assert missing[..Min(MissingShown, |missing|)] == [n];
    assert |files| == n;
  }

  /** When exactly the indices below `n` are present, there is no gap and only `n` is missing below `n + 1`. */
  lemma OnlyTopMissing(present: set<nat>, n: nat)
    requires forall i: nat :: i in present <==> i < n
    ensures !HasGap(present) && MissingBelow(present, n + 1) == [n]
  {
    NoneMissing(present, n);
  }

  lemma {:induction false} NoneMissing(present: set<nat>, n: nat)
    requires forall i: nat :: i < n ==> i in present
    ensures MissingBelow(present, n) == []
    decreases n
  {
    if n > 0 {
      NoneMissing(present, n - 1);
    }
  }

  /** When no listed name parses, the best-effort check passes whatever was listed. */
  lemma NoChunkNamesPass(files: seq<string>)
    requires forall f :: f in files ==> ParseChunkIndex(f).None?
    ensures CompletenessError(files, None) == None
  {
    forall n: nat ensures n !in IndexSet(files) {
      IndexSetIff(files, n);
    }
  }

  /**
   * Two names for the same index both pass the checks and both payloads are assembled:
   * `chunk-0.bin` and `chunk-00.bin` satisfy an expected total of one chunk.
   */
  lemma AliasesBothAssembled(read: (string, string) -> Option<seq<byte>>, sid: string)
    requires read(sid, ChunkName(0)).Some? && read(sid, ChunkPrefix + "0" + NatToString(0) + ChunkSuffix).Some?
    ensures var files := [ChunkName(0), ChunkPrefix + "0" + NatToString(0) + ChunkSuffix];
      CompletenessError(files, Some(1)) == None &&
      Assembled(read, sid, files) == Some(read(sid, files[0]).value + read(sid, files[1]).value)
  {
    var alias := ChunkPrefix + "0" + NatToString(0) + ChunkSuffix;
    var files := [ChunkName(0), alias];
    ChunkNameRoundTrip(0);
    LeadingZeroAlias(0);
    assert files[..1] == [ChunkName(0)];
    assert [ChunkName(0)][..0] == [];
    assert 0 in IndexSet(files);
    assert MissingBelow(IndexSet(files), 1) == [];
    AssembledAppend(read, sid, [ChunkName(0)], [alias]);
    AssembledOne(read, sid, ChunkName(0));
    AssembledOne(read, sid, alias);
    assert [ChunkName(0)] + [alias] == files;
  }
}
