/**
 * The sessions route: it lists the upload sessions kept in the data directory, newest
 * first. A session is a sub-directory that holds the assembled file or at least one
 * chunk file; its time is the assembled file's modification time when that file can be
 * inspected, and otherwise the directory's own.
 *
 * The file system is an oracle: each entry of the data directory comes with what
 * inspecting it reports (absent when the call throws).
 */
module SessionsRoute {
  import opened Common
  import opened Text
  import FinalizeRoute

  const AssembledName: string := "assembled.csv"

  /** What inspecting a path reports. */
  datatype Stat = Stat(isDirectory: bool, mtimeMs: int)

  /**
   * One entry of the data directory: its status, the names it lists when it is a
   * directory that can be read, and the status of its assembled file.
   */
  datatype Entry = Entry(
    name: string,
    stat: Option<Stat>,
    files: Option<seq<string>>,
    assembledStat: Option<Stat>)

  datatype SessionInfo = SessionInfo(sessionId: string, updatedAtMs: int, hasAssembled: bool, chunkCount: nat)

  /** A name the listing counts as a chunk: `chunk-` ... `.bin`, whatever lies between. */
  predicate IsChunkFile(f: string)
  {
    StartsWith(f, FinalizeRoute.ChunkPrefix) && EndsWith(f, FinalizeRoute.ChunkSuffix)
  }

  /** How many names are chunk files. */
  function ChunkCount(files: seq<string>): (n: nat)
    ensures n <= |files|
  {
    if files == [] then 0
    else ChunkCount(files[..|files| - 1]) + (if IsChunkFile(files[|files| - 1]) then 1 else 0)
  }

  /** The count is zero exactly when no name is a chunk file. */
  lemma {:induction false} ChunkCountZeroIff(files: seq<string>)
    ensures ChunkCount(files) == 0 <==> forall f :: f in files ==> !IsChunkFile(f)
    decreases |files|
  {
    if files != [] {
      var init := files[..|files| - 1];
      ChunkCountZeroIff(init);
      assert files == init + [files[|files| - 1]];
    }
  }

  /**
   * Every name the finalize route assembles as a chunk is counted here, but the count
   * also takes names it does not parse, such as `chunk-x.bin`.
   */
  lemma ChunkFileWiderThanChunkName(f: string)
    ensures FinalizeRoute.ParseChunkIndex(f).Some? ==> IsChunkFile(f)
    ensures IsChunkFile("chunk-x.bin") && FinalizeRoute.ParseChunkIndex("chunk-x.bin").None?
  {
    var x := "chunk-x.bin";
    assert FinalizeRoute.DigitPart(x) == "x";
    assert !IsDigit('x');
  }

  /** The session an entry stands for, if it stands for one. */
  function SessionOf(e: Entry): Option<SessionInfo>
  {
    if e.stat.None? || !e.stat.value.isDirectory || e.files.None? then None
    else
      var files := e.files.value;
      var hasAssembled := AssembledName in files;
      var chunkCount := ChunkCount(files);
      if !hasAssembled && chunkCount == 0 then None
      else
        var updated := if hasAssembled && e.assembledStat.Some? then e.assembledStat.value.mtimeMs else e.stat.value.mtimeMs;
        Some(SessionInfo(e.name, updated, hasAssembled, chunkCount))
  }

  /**
   * An entry is a session exactly when it is a readable directory holding the assembled
   * file or a chunk file. Its time is the assembled file's when that file exists and can
   * be inspected, and the directory's otherwise.
   */
  lemma SessionOfIff(e: Entry)
    ensures SessionOf(e).Some? <==>
      e.stat.Some? && e.stat.value.isDirectory && e.files.Some? &&
      (AssembledName in e.files.value || exists f :: f in e.files.value && IsChunkFile(f))
    ensures SessionOf(e).Some? ==>
      var s := SessionOf(e).value;
      s.sessionId == e.name &&
      (s.hasAssembled <==> AssembledName in e.files.value) &&
      s.chunkCount == ChunkCount(e.files.value) && s.chunkCount <= |e.files.value| &&
      (s.hasAssembled && e.assembledStat.Some? ==> s.updatedAtMs == e.assembledStat.value.mtimeMs) &&
      (!s.hasAssembled || e.assembledStat.None? ==> s.updatedAtMs == e.stat.value.mtimeMs)
  {
    if e.files.Some? {
      ChunkCountZeroIff(e.files.value);
    }
  }

  /** The sessions of the entries, in directory order. */
  function Collected(entries: seq<Entry>): (r: seq<SessionInfo>)
    ensures |r| <= |entries|
  {
    if entries == [] then []
    else
      var last := SessionOf(entries[|entries| - 1]);
      Collected(entries[..|entries| - 1]) + (if last.Some? then [last.value] else [])
  }

  /** A session is collected exactly when some entry stands for it. */
  lemma {:induction false} CollectedIff(entries: seq<Entry>, s: SessionInfo)
    ensures s in Collected(entries) <==> exists e :: e in entries && SessionOf(e) == Some(s)
    decreases |entries|
  {
    if entries != [] {
      var init := entries[..|entries| - 1];
      var last := entries[|entries| - 1];
      CollectedIff(init, s);
      assert entries == init + [last];
      if exists e :: e in entries && SessionOf(e) == Some(s) {
        var e :| e in entries && SessionOf(e) == Some(s);
        if e != last {
          assert e in init;
        }
      }
    }
  }

  // ---------------------------------------------------------------------------------
  // Newest first
  // ---------------------------------------------------------------------------------

  /** Puts `x` after every session at least as recent as it, in front of the rest. */
  function Insert(x: SessionInfo, t: seq<SessionInfo>): (r: seq<SessionInfo>)
    ensures |r| == |t| + 1
  {
    if t == [] then [x]
    else if t[0].updatedAtMs >= x.updatedAtMs then [t[0]] + Insert(x, t[1..])
    else [x] + t
  }

  /**
   * Newest first, sessions with the same time kept in the order they were collected (the
   * array sort is stable).
   */
  function SortNewestFirst(s: seq<SessionInfo>): (r: seq<SessionInfo>)
    ensures |r| == |s|
  {
    if s == [] then [] else Insert(s[|s| - 1], SortNewestFirst(s[..|s| - 1]))
  }

  predicate NewestFirst(s: seq<SessionInfo>)
  {
    forall i, j :: 0 <= i < j < |s| ==> s[i].updatedAtMs >= s[j].updatedAtMs
  }

  lemma {:induction false} InsertNewestFirst(x: SessionInfo, t: seq<SessionInfo>)
    requires NewestFirst(t)
    ensures NewestFirst(Insert(x, t))
    ensures Insert(x, t)[0] == x || (t != [] && Insert(x, t)[0] == t[0])
    decreases |t|
  {
    if t != [] && t[0].updatedAtMs >= x.updatedAtMs {
      NewestFirstTail(t);
      InsertNewestFirst(x, t[1..]);
    }
  }

  lemma {:induction false} InsertMultiset(x: SessionInfo, t: seq<SessionInfo>)
    ensures multiset(Insert(x, t)) == multiset(t) + multiset{x}
    decreases |t|
  {
    if t != [] && t[0].updatedAtMs >= x.updatedAtMs {
      InsertMultiset(x, t[1..]);
      assert t == [t[0]] + t[1..];
    }
  }

  /** The sorted list is newest first. */
  lemma {:induction false} SortNewestFirstOrdered(s: seq<SessionInfo>)
    ensures NewestFirst(SortNewestFirst(s))
    decreases |s|
  {
    if s != [] {
      var init := s[..|s| - 1];
      SortNewestFirstOrdered(init);
      InsertNewestFirst(s[|s| - 1], SortNewestFirst(init));
    }
  }

  /** The sorted list holds the same sessions, each as often. */
  lemma {:induction false} SortNewestFirstPermutes(s: seq<SessionInfo>)
    ensures multiset(SortNewestFirst(s)) == multiset(s)
    decreases |s|
  {
    if s != [] {
      var init := s[..|s| - 1];
      SortNewestFirstPermutes(init);
      InsertMultiset(s[|s| - 1], SortNewestFirst(init));
      assert s == init + [s[|s| - 1]];
    }
  }

  /** The sessions with time `k`, in order. */
  function WithTime(s: seq<SessionInfo>, k: int): seq<SessionInfo>
  {
    if s == [] then []
    else (if s[0].updatedAtMs == k then [s[0]] else []) + WithTime(s[1..], k)
  }

  lemma {:induction false} WithTimeAppend(a: seq<SessionInfo>, b: seq<SessionInfo>, k: int)
    ensures WithTime(a + b, k) == WithTime(a, k) + WithTime(b, k)
    decreases |a|
  {
    if a == [] {
      assert a + b == b;
    } else {
      assert (a + b)[0] == a[0] && (a + b)[1..] == a[1..] + b;
      WithTimeAppend(a[1..], b, k);
    }
  }

  lemma {:induction false} WithTimeOlder(t: seq<SessionInfo>, k: int)
    requires NewestFirst(t) && t != [] && t[0].updatedAtMs < k
    ensures WithTime(t, k) == []
    decreases |t|
  {
    if |t| > 1 {
      NewestFirstTail(t);
      WithTimeOlder(t[1..], k);
    }
  }

  lemma NewestFirstTail(t: seq<SessionInfo>)
    requires NewestFirst(t) && t != []
    ensures NewestFirst(t[1..])
  {
    forall i, j | 0 <= i < j < |t| - 1
      ensures t[1..][i].updatedAtMs >= t[1..][j].updatedAtMs
    {
      assert t[1..][i] == t[i + 1] && t[1..][j] == t[j + 1];
    }
  }

  lemma {:induction false} InsertKeepsOrder(x: SessionInfo, t: seq<SessionInfo>, k: int)
    requires NewestFirst(t)
    ensures WithTime(Insert(x, t), k) == WithTime(t, k) + WithTime([x], k)
    decreases |t|
  {
    assert WithTime([x], k) == (if x.updatedAtMs == k then [x] else []) by {
      assert [x][1..] == [];
    }
    if t == [] {
    } else if t[0].updatedAtMs >= x.updatedAtMs {
      var rest := Insert(x, t[1..]);
      NewestFirstTail(t);
      InsertKeepsOrder(x, t[1..], k);
      assert ([t[0]] + rest)[0] == t[0] && ([t[0]] + rest)[1..] == rest;
    } else {
      assert ([x] + t)[0] == x && ([x] + t)[1..] == t;
      if x.updatedAtMs == k {
        WithTimeOlder(t, k);
      }
    }
  }

  /** Sorting is stable: the sessions of any one time keep their collected order. */
  lemma {:induction false} SortNewestFirstStable(s: seq<SessionInfo>, k: int)
    ensures WithTime(SortNewestFirst(s), k) == WithTime(s, k)
    decreases |s|
  {
    if s != [] {
      var init := s[..|s| - 1];
      var x := s[|s| - 1];
      SortNewestFirstStable(init, k);
      SortNewestFirstOrdered(init);
      InsertKeepsOrder(x, SortNewestFirst(init), k);
      WithTimeAppend(init, [x], k);
      assert s == init + [x];
    }
  }

  // ---------------------------------------------------------------------------------
  // The route
  // ---------------------------------------------------------------------------------

  /**
   * `GET`: the sessions of the data directory, newest first; none when the directory
   * cannot be read.
   */
  method ListSessions(dataDir: Option<seq<Entry>>) returns (sessions: seq<SessionInfo>)
    ensures dataDir.None? ==> sessions == []
    ensures dataDir.Some? ==> sessions == SortNewestFirst(Collected(dataDir.value))
  {
    if dataDir.None? {
      return [];
    }
    var entries := dataDir.value;
    var collected: seq<SessionInfo> := [];
    var k := 0;
    while k < |entries|
      invariant 0 <= k <= |entries|
      invariant collected == Collected(entries[..k])
    {
      assert entries[..k + 1][..k] == entries[..k];
      var e := entries[k];
      k := k + 1;
      if e.stat.None? || !e.stat.value.isDirectory {
        continue;
      }
      if e.files.None? {
        continue;
      }
      var files := e.files.value;
      var hasAssembled := AssembledName in files;
      var chunkCount := ChunkCount(files);
      if !hasAssembled && chunkCount == 0 {
        continue;
      }
      var assembledStat := if hasAssembled then e.assembledStat else None;
      var updated := if assembledStat.Some? then assembledStat.value.mtimeMs else e.stat.value.mtimeMs;
      collected := collected + [SessionInfo(e.name, updated, hasAssembled, chunkCount)];
    }
    assert entries[..k] == entries;
    sessions := SortNewestFirst(collected);
  }

  /**
   * What the listing promises: newest first, and a session is listed exactly when some
   * entry stands for it, as often as entries stand for it.
   */
  lemma ListingSpec(entries: seq<Entry>, s: SessionInfo)
    ensures NewestFirst(SortNewestFirst(Collected(entries)))
    ensures s in SortNewestFirst(Collected(entries)) <==> exists e :: e in entries && SessionOf(e) == Some(s)
  {
    SortNewestFirstOrdered(Collected(entries));
    SortNewestFirstPermutes(Collected(entries));
    CollectedIff(entries, s);
    assert s in SortNewestFirst(Collected(entries)) <==> s in multiset(SortNewestFirst(Collected(entries)));
  }
}
