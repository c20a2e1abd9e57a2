/**
 * The CSV preview parser: a quote-aware field splitter, line splitting, header
 * normalisation, duplicate and ragged-row detection, and per-column type inference and
 * statistics over the first rows of an uploaded file.
 */
module Csv {
  import opened Common
  import opened Text

  const Quote: char := '"'
  const Comma: char := ','

  // ---------------------------------------------------------------------------------
  // Field splitting
  // ---------------------------------------------------------------------------------

  /** `fs` with `c` put in front of its first field. */
  function PushFront(c: char, fs: seq<string>): seq<string>
    requires |fs| >= 1
  {
    [[c] + fs[0]] + fs[1..]
  }

  /** `r` with the whole string `f` put in front of its first field. */
  function PrependRun(f: string, r: seq<string>): seq<string>
    requires |r| >= 1
  {
    [f + r[0]] + r[1..]
  }

  /**
   * The fields of `s` read from a state where quoting is `inQuotes`: a pair `""` is a
   * literal quote wherever it appears, any other `"` toggles quoting and is dropped, and
   * a comma outside quotes ends a field. There is always at least one field.
   */
  function FieldsFrom(s: string, inQuotes: bool): (r: seq<string>)
    ensures |r| >= 1
    decreases |s|
  {
    if s == [] then [""]
    else if s[0] == Quote && |s| > 1 && s[1] == Quote then PushFront(Quote, FieldsFrom(s[2..], inQuotes))
    else if s[0] == Quote then FieldsFrom(s[1..], !inQuotes)
    else if s[0] == Comma && !inQuotes then [""] + FieldsFrom(s[1..], inQuotes)
    else PushFront(s[0], FieldsFrom(s[1..], inQuotes))
  }

  /** The fields of one line, read from outside quotes. */
  function Fields(line: string): seq<string>
  {
    FieldsFrom(line, false)
  }

  /** The fields already closed (`out`), the open one (`cur`) and the fields of the rest. */
  function Resume(out: seq<string>, cur: string, rest: seq<string>): seq<string>
    requires |rest| >= 1
  {
    out + PrependRun(cur, rest)
  }

  lemma PrependEmpty(r: seq<string>)
    requires |r| >= 1
    ensures PrependRun("", r) == r
  {
    assert "" + r[0] == r[0];
    assert [r[0]] + r[1..] == r;
  }

  lemma PrependOne(f: string)
    ensures PrependRun(f, [""]) == [f]
  {
    assert f + "" == f;
    assert [""][1..] == [];
  }

  lemma PushOne(c: char)
    ensures PushFront(c, [""]) == [[c]]
  {
    assert [c] + "" == [c];
    assert [""][1..] == [];
  }

  lemma ResumeStart(r: seq<string>)
    requires |r| >= 1
    ensures Resume([], "", r) == r
  {
    PrependEmpty(r);
  }

  lemma ResumePush(out: seq<string>, cur: string, c: char, r: seq<string>)
    requires |r| >= 1
    ensures Resume(out, cur, PushFront(c, r)) == Resume(out, cur + [c], r)
  {
    assert cur + ([c] + r[0]) == (cur + [c]) + r[0];
    assert PushFront(c, r)[1..] == r[1..];
  }

  lemma ResumeComma(out: seq<string>, cur: string, r: seq<string>)
    requires |r| >= 1
    ensures Resume(out, cur, [""] + r) == Resume(out + [cur], "", r)
  {
    assert cur + "" == cur;
    assert ([""] + r)[1..] == r;
    ResumeStart(r);
  }

  /** Splits one line into fields, scanning it character by character. */
  method SplitCsvLine(line: string) returns (out: seq<string>)
    ensures out == Fields(line)
  {
    out := [];
    var cur := "";
    var inQuotes := false;
    var i := 0;
    assert line[0..] == line;
    ResumeStart(Fields(line));
    while i < |line|
      invariant 0 <= i <= |line|
      invariant Resume(out, cur, FieldsFrom(line[i..], inQuotes)) == Fields(line)
      decreases |line| - i
    {
      var ch := line[i];
      if ch == Quote && i + 1 < |line| && line[i + 1] == Quote {
        assert line[i..][2..] == line[i + 2..];
        ResumePush(out, cur, Quote, FieldsFrom(line[i + 2..], inQuotes));
        cur := cur + [Quote];
        i := i + 2;
      } else if ch == Quote {
        assert line[i..][1..] == line[i + 1..];
        inQuotes := !inQuotes;
        i := i + 1;
      } else if ch == Comma && !inQuotes {
        assert line[i..][1..] == line[i + 1..];
        ResumeComma(out, cur, FieldsFrom(line[i + 1..], inQuotes));
        out := out + [cur];
        cur := "";
        i := i + 1;
      } else {
        assert line[i..][1..] == line[i + 1..];
        ResumePush(out, cur, ch, FieldsFrom(line[i + 1..], inQuotes));
        cur := cur + [ch];
        i := i + 1;
      }
    }
    assert line[i..] == [];
    PrependOne(cur);
    out := out + [cur];
  }

  /** The number of commas of `s` that end a field (those outside quotes). */
  function SeparatorsFrom(s: string, inQuotes: bool): nat
    decreases |s|
  {
    if s == [] then 0
    else if s[0] == Quote && |s| > 1 && s[1] == Quote then SeparatorsFrom(s[2..], inQuotes)
    else if s[0] == Quote then SeparatorsFrom(s[1..], !inQuotes)
    else if s[0] == Comma && !inQuotes then 1 + SeparatorsFrom(s[1..], inQuotes)
    else SeparatorsFrom(s[1..], inQuotes)
  }

  /** A line has one field more than it has commas outside quotes. */
  lemma {:induction false} FieldCount(s: string, inQuotes: bool)
    ensures |FieldsFrom(s, inQuotes)| == 1 + SeparatorsFrom(s, inQuotes)
    decreases |s|
  {
    if s == [] {
    } else if s[0] == Quote && |s| > 1 && s[1] == Quote {
      FieldCount(s[2..], inQuotes);
    } else if s[0] == Quote {
      FieldCount(s[1..], !inQuotes);
    } else {
      FieldCount(s[1..], inQuotes);
    }
  }

  /** Fields joined back with commas. */
  function JoinFields(fs: seq<string>): string
    requires |fs| >= 1
    decreases |fs|
  {
    if |fs| == 1 then fs[0] else fs[0] + [Comma] + JoinFields(fs[1..])
  }

  lemma JoinPushFront(c: char, fs: seq<string>)
    requires |fs| >= 1
    ensures JoinFields(PushFront(c, fs)) == [c] + JoinFields(fs)
  {
    var p := PushFront(c, fs);
    assert |p| == |fs| && p[0] == [c] + fs[0];
    if |fs| > 1 {
      assert p[1..] == fs[1..];
      var rest := JoinFields(fs[1..]);
      var head := fs[0] + [Comma];
      assert JoinFields(p) == p[0] + [Comma] + rest;
      ConsAssoc(c, fs[0], [Comma]);
      assert p[0] + [Comma] == [c] + head;
      ConsAssoc(c, head, rest);
    }
  }

  lemma ConsAssoc(c: char, a: string, b: string)
    ensures ([c] + a) + b == [c] + (a + b)
  {
  }

  /** For a line without quotes, joining its fields with commas gives back the line. */
  lemma {:induction false} PlainRoundTrip(s: string)
    requires Quote !in s
    ensures JoinFields(Fields(s)) == s
    decreases |s|
  {
    if s != [] {
      assert Quote !in s[1..] by { assert forall x :: x in s[1..] ==> x in s; }
      PlainRoundTrip(s[1..]);
      var r := FieldsFrom(s[1..], false);
      if s[0] == Comma {
        assert ([""] + r)[1..] == r;
      } else {
        JoinPushFront(s[0], r);
      }
    }
  }

  /** A run of characters with no quote (and no comma unless quoted) lands in one field. */
  lemma {:induction false} PlainRun(f: string, t: string, inQuotes: bool)
    requires Quote !in f && (inQuotes || Comma !in f)
    ensures FieldsFrom(f + t, inQuotes) == PrependRun(f, FieldsFrom(t, inQuotes))
    decreases |f|
  {
    if f == [] {
      assert f + t == t;
      PrependEmpty(FieldsFrom(t, inQuotes));
    } else {
      assert f[0] in f;
      assert (f + t)[1..] == f[1..] + t;
      assert forall x :: x in f[1..] ==> x in f;
      PlainRun(f[1..], t, inQuotes);
      var r := FieldsFrom(t, inQuotes);
      var q := PrependRun(f[1..], r);
      assert FieldsFrom(f + t, inQuotes) == PushFront(f[0], q);
      assert q[0] == f[1..] + r[0] && q[1..] == r[1..];
      assert [f[0]] + (f[1..] + r[0]) == f + r[0];
    }
  }

  /** A field wrapped in quotes. */
  function Wrap(f: string): string
  {
    [Quote] + f + [Quote]
  }

  /** Fields written each inside quotes and separated by commas. */
  function JoinQuoted(fs: seq<string>): string
    requires |fs| >= 1
    decreases |fs|
  {
    if |fs| == 1 then Wrap(fs[0]) else Wrap(fs[0]) + [Comma] + JoinQuoted(fs[1..])
  }

  /** A non-empty quote-free field in quotes reads back as itself, commas included. */
  lemma QuotedFront(f: string, t: string)
    requires f != [] && Quote !in f
    requires t == [] || t[0] == Comma
    ensures FieldsFrom(Wrap(f) + t, false) == PrependRun(f, FieldsFrom(t, false))
  {
    var s := Wrap(f) + t;
    assert f[0] in f;
    assert s[1..] == f + ([Quote] + t);
    PlainRun(f, [Quote] + t, true);
    assert ([Quote] + t)[1..] == t;
  }

  /**
   * Non-empty fields with no quote in them, each written inside quotes and joined with
   * commas, split back into exactly those fields: a comma inside quotes stays in its field.
   */
  lemma {:induction false} QuotedRoundTrip(fs: seq<string>)
    requires |fs| >= 1
    requires forall k :: 0 <= k < |fs| ==> fs[k] != [] && Quote !in fs[k]
    ensures Fields(JoinQuoted(fs)) == fs
    decreases |fs|
  {
    if |fs| == 1 {
      QuotedFront(fs[0], []);
      assert Wrap(fs[0]) + [] == Wrap(fs[0]);
      PrependOne(fs[0]);
      assert [fs[0]] == fs;
    } else {
      var t := [Comma] + JoinQuoted(fs[1..]);
      QuotedFront(fs[0], t);
      assert Wrap(fs[0]) + t == JoinQuoted(fs);
      QuotedRoundTrip(fs[1..]);
      assert t[1..] == JoinQuoted(fs[1..]);
      var r := FieldsFrom(t, false);
      assert r == [""] + fs[1..];
      assert fs[0] + r[0] == fs[0];
      assert r[1..] == fs[1..];
      assert [fs[0]] + fs[1..] == fs;
    }
  }

  /**
   * A pair of quotes is a literal quote even where an empty quoted field was meant:
   * between two plain fields, `,"",` gives a field holding one quote character.
   */
  lemma EmptyQuotedField(a: string, b: string)
    requires Quote !in a && Comma !in a && Quote !in b && Comma !in b
    ensures Fields(a + [Comma, Quote, Quote, Comma] + b) == [a, [Quote], b]
  {
    var tail := [Comma, Quote, Quote, Comma] + b;
    assert a + [Comma, Quote, Quote, Comma] + b == a + tail;
    PlainRun(a, tail, false);
    EmptyQuotedTail(b);
    assert a + "" == a;
  }

  lemma EmptyQuotedTail(b: string)
    requires Quote !in b && Comma !in b
    ensures FieldsFrom([Comma, Quote, Quote, Comma] + b, false) == ["", [Quote], b]
  {
    var tail := [Comma, Quote, Quote, Comma] + b;
    var rest := [Quote, Quote] + ([Comma] + b);
    assert tail[0] == Comma && tail[1..] == rest;
    EscapedQuoteThenField(b);
  }

  /** `"",b` outside quotes: a field holding one quote, then the field `b`. */
  lemma EscapedQuoteThenField(b: string)
    requires Quote !in b && Comma !in b
    ensures FieldsFrom([Quote, Quote] + ([Comma] + b), false) == [[Quote], b]
  {
    var rest := [Quote, Quote] + ([Comma] + b);
    assert rest[0] == Quote && rest[1] == Quote && rest[2..] == [Comma] + b;
    CommaThenField(b);
    assert [Quote] + "" == [Quote];
  }

  /** `,b` outside quotes: an empty field, then the field `b`. */
  lemma CommaThenField(b: string)
    requires Quote !in b && Comma !in b
    ensures FieldsFrom([Comma] + b, false) == ["", b]
  {
    PlainRun(b, [], false);
    assert b + [] == b;
    PrependOne(b);
    assert ([Comma] + b)[1..] == b;
  }

  // ---------------------------------------------------------------------------------
  // Lines
  // ---------------------------------------------------------------------------------

  /** The pieces of `s` between line breaks, a break being `\n` or `\r\n`. */
  function Pieces(s: string): (r: seq<string>)
    ensures |r| >= 1
    ensures forall p :: p in r ==> '\n' !in p
    decreases |s|
  {
    if s == [] then [""]
    else if s[0] == '\n' then [""] + Pieces(s[1..])
    else if s[0] == '\r' && |s| > 1 && s[1] == '\n' then [""] + Pieces(s[2..])
    else PushFront(s[0], Pieces(s[1..]))
  }

  /** The non-empty strings of `ps`, in order. */
  function NonEmpty(ps: seq<string>): (r: seq<string>)
    ensures |r| <= |ps|
    ensures forall x :: x in r <==> x in ps && x != []
  {
    if ps == [] then []
    else (if ps[0] == [] then [] else [ps[0]]) + NonEmpty(ps[1..])
  }

  /** The non-blank lines of a text, without their line breaks. */
  function Lines(text: string): (r: seq<string>)
    ensures forall p :: p in r ==> p != [] && '\n' !in p
  {
    NonEmpty(Pieces(text))
  }

  /** The first line, or the empty string when there is none. */
  function HeaderLine(lines: seq<string>): string
  {
    if |lines| > 0 then lines[0] else ""
  }

  // ---------------------------------------------------------------------------------
  // Columns
  // ---------------------------------------------------------------------------------

  /** Display name of the header cell at (0-based) position `idx`. */
  function ColumnName(raw: string, idx: nat): string
  {
    if Trim(raw) == [] then "Column " + NatToString(idx + 1) else Trim(raw)
  }

  function NormalizeColumns(raw: seq<string>): seq<string>
  {
    seq(|raw|, k requires 0 <= k < |raw| => ColumnName(raw[k], k))
  }

  lemma TrimKeeps(s: string)
    requires s != [] && !IsJsWhitespace(s[0]) && !IsJsWhitespace(s[|s| - 1])
    ensures Trim(s) == s
  {
  }

  /**
   * Every column is named by its trimmed header cell, or `Column k` (1-based) when that
   * cell is blank; so no name is empty or has white space at either end.
   */
  lemma NormalizedColumns(raw: seq<string>)
    ensures |NormalizeColumns(raw)| == |raw|
    ensures forall k :: 0 <= k < |raw| ==>
      var c := NormalizeColumns(raw)[k];
      c != [] && Trim(c) == c &&
      (Trim(raw[k]) != [] ==> c == Trim(raw[k])) &&
      (Trim(raw[k]) == [] ==> c == "Column " + NatToString(k + 1))
  {
    forall k | 0 <= k < |raw|
      ensures var c := NormalizeColumns(raw)[k];
        c != [] && Trim(c) == c
    {
      var c := NormalizeColumns(raw)[k];
      if Trim(raw[k]) == [] {
        var n := NatToString(k + 1);
        assert c == "Column " + n;
        assert c[|c| - 1] == n[|n| - 1];
        TrimKeeps(c);
      } else {
        TrimIdempotent(raw[k]);
      }
    }
  }

  /** The header always yields at least one column. */
  lemma HeaderHasColumns(text: string)
    ensures |NormalizeColumns(Fields(HeaderLine(Lines(text))))| >= 1
  {
  }

  /** Distinct elements of `s`, in order of first appearance. */
  function Distinct(s: seq<string>): (d: seq<string>)
    ensures forall x :: x in d <==> x in s
    ensures NoRepeats(d)
    ensures |d| <= |s|
    decreases |s|
  {
    if s == [] then []
    else
      var d := Distinct(s[..|s| - 1]);
      assert s == s[..|s| - 1] + [s[|s| - 1]];
      if s[|s| - 1] in d then d else d + [s[|s| - 1]]
  }

  /** No element appears twice. */
  predicate NoRepeats(s: seq<string>)
  {
    forall i, j :: 0 <= i < j < |s| ==> s[i] != s[j]
  }

  predicate IsPrefix(a: seq<string>, b: seq<string>)
  {
    |a| <= |b| && b[..|a|] == a
  }

  /** First appearances in a prefix are the first of the first appearances in the whole. */
  lemma {:induction false} DistinctPrefix(s: seq<string>, k: nat)
    requires k <= |s|
    ensures IsPrefix(Distinct(s[..k]), Distinct(s))
    decreases |s|
  {
    if k == |s| {
      assert s[..k] == s;
    } else {
      var init := s[..|s| - 1];
      assert s[..k] == init[..k];
      DistinctPrefix(init, k);
    }
  }

  /** The elements of `d` that occur more than once in `m`, in the order of `d`. */
  function RepeatedAmong(d: seq<string>, m: multiset<string>): (r: seq<string>)
    ensures forall x :: x in r <==> x in d && m[x] > 1
    ensures |r| <= |d|
  {
    if d == [] then []
    else (if m[d[0]] > 1 then [d[0]] else []) + RepeatedAmong(d[1..], m)
  }

  lemma {:induction false} RepeatedAmongDistinct(d: seq<string>, m: multiset<string>)
    requires NoRepeats(d)
    ensures NoRepeats(RepeatedAmong(d, m))
    decreases |d|
  {
    if d != [] {
      RepeatedAmongDistinct(d[1..], m);
      forall k | 0 <= k < |d| - 1 ensures d[1..][k] != d[0] {
        assert d[1..][k] == d[k + 1];
      }
      var rest := RepeatedAmong(d[1..], m);
      assert d[0] !in rest;
      var r := RepeatedAmong(d, m);
      if m[d[0]] > 1 {
        assert r == [d[0]] + rest;
        forall i, j | 0 <= i < j < |r| ensures r[i] != r[j] {
          assert r[j] == rest[j - 1] && r[j] in rest;
          if i > 0 {
            assert r[i] == rest[i - 1];
            assert rest[i - 1] != rest[j - 1];
          }
        }
      } else {
        assert r == rest;
      }
    }
  }

  /** The column names that occur more than once, in order of first appearance. */
  function DuplicateNames(columns: seq<string>): seq<string>
  {
    RepeatedAmong(Distinct(columns), multiset(columns))
  }

  /** A name occurs twice in a sequence exactly when the sequence counts it more than once. */
  lemma {:induction false} TwiceIffCount(s: seq<string>, x: string)
    ensures multiset(s)[x] > 1 <==> exists i, j :: 0 <= i < j < |s| && s[i] == x && s[j] == x
    decreases |s|
  {
    if s != [] {
      var init := s[..|s| - 1];
      assert s == init + [s[|s| - 1]];
      TwiceIffCount(init, x);
      if multiset(s)[x] > 1 && !(multiset(init)[x] > 1) {
        assert s[|s| - 1] == x && x in init;
        var i :| 0 <= i < |init| && init[i] == x;
        assert s[i] == x && s[|s| - 1] == x;
      }
      if exists i, j :: 0 <= i < j < |s| && s[i] == x && s[j] == x {
        var i, j :| 0 <= i < j < |s| && s[i] == x && s[j] == x;
        if j < |s| - 1 {
          assert init[i] == x && init[j] == x;
        } else {
          assert init[i] == x;
          assert x in init;
        }
      }
    }
  }

  /**
   * A name is reported as duplicate exactly when two positions of the header carry it,
   * and each duplicate is reported once.
   */
  lemma DuplicateNamesIff(columns: seq<string>)
    ensures forall x :: x in DuplicateNames(columns) <==>
      exists i, j :: 0 <= i < j < |columns| && columns[i] == x && columns[j] == x
    ensures NoRepeats(DuplicateNames(columns))
  {
    forall x
      ensures x in DuplicateNames(columns) <==>
        exists i, j :: 0 <= i < j < |columns| && columns[i] == x && columns[j] == x
    {
      TwiceIffCount(columns, x);
      if multiset(columns)[x] > 1 {
        assert x in multiset(columns);
        assert x in columns;
      }
    }
    RepeatedAmongDistinct(Distinct(columns), multiset(columns));
  }

  /**
   * Counts each column name, remembering names in insertion order as a JavaScript `Map`
   * does, and returns the names counted more than once.
   */
  method FindDuplicates(columns: seq<string>) returns (dups: seq<string>)
    ensures dups == DuplicateNames(columns)
  {
    var seen: multiset<string> := multiset{};
    var order: seq<string> := [];
    var i := 0;
    while i < |columns|
      invariant 0 <= i <= |columns|
      invariant seen == multiset(columns[..i])
      invariant order == Distinct(columns[..i])
    {
      assert columns[..i + 1] == columns[..i] + [columns[i]];
      assert columns[..i + 1][..i] == columns[..i];
      if columns[i] !in order {
        order := order + [columns[i]];
      }
      seen := seen + multiset{columns[i]};
      i := i + 1;
    }
    assert columns[..i] == columns;
    dups := RepeatedAmong(order, seen);
  }

  // ---------------------------------------------------------------------------------
  // Rows
  // ---------------------------------------------------------------------------------

  /** The value in position `c`, or the empty string past the end. */
  function Cell(vals: seq<string>, c: nat): string
  {
    if c < |vals| then vals[c] else ""
  }

  /** The record built from the first `n` columns, later positions overwriting earlier. */
  function RowPrefix(columns: seq<string>, vals: seq<string>, n: nat): map<string, string>
    requires n <= |columns|
  {
    if n == 0 then map[] else RowPrefix(columns, vals, n - 1)[columns[n - 1] := Cell(vals, n - 1)]
  }

  function Row(columns: seq<string>, vals: seq<string>): map<string, string>
  {
    RowPrefix(columns, vals, |columns|)
  }

  /**
   * A record has a key for every column and no other, and a name holds the value at the
   * last position that carries it (the empty string when the line is too short there).
   */
  lemma {:induction false} RowLookup(columns: seq<string>, vals: seq<string>, n: nat, j: nat)
    requires j < n <= |columns|
    requires forall k :: j < k < n ==> columns[k] != columns[j]
    ensures RowPrefix(columns, vals, n).Keys == set k | 0 <= k < n :: columns[k]
    ensures RowPrefix(columns, vals, n)[columns[j]] == Cell(vals, j)
    decreases n
  {
    RowKeys(columns, vals, n);
    if j < n - 1 {
      RowLookup(columns, vals, n - 1, j);
    }
  }

  lemma {:induction false} RowKeys(columns: seq<string>, vals: seq<string>, n: nat)
    requires n <= |columns|
    ensures RowPrefix(columns, vals, n).Keys == set k | 0 <= k < n :: columns[k]
    decreases n
  {
    if n > 0 {
      RowKeys(columns, vals, n - 1);
      var before := set k | 0 <= k < n - 1 :: columns[k];
      var after := set k | 0 <= k < n :: columns[k];
      assert after == before + {columns[n - 1]} by {
        forall x | x in after ensures x in before + {columns[n - 1]} {
          var k :| 0 <= k < n && columns[k] == x;
          if k < n - 1 { assert x in before; }
        }
      }
    }
  }

  /** Builds the record for one line's values. */
  method BuildRow(columns: seq<string>, vals: seq<string>) returns (row: map<string, string>)
    ensures row == Row(columns, vals)
  {
    row := map[];
    var c := 0;
    while c < |columns|
      invariant 0 <= c <= |columns|
      invariant row == RowPrefix(columns, vals, c)
    {
      row := row[columns[c] := if c < |vals| then vals[c] else ""];
      c := c + 1;
    }
  }

  /** The number of preview rows: data lines after the header, at most `maxRows`. */
  function RowCount(lineCount: nat, maxRows: int): nat
  {
    var bound := Min(lineCount, maxRows + 1);
    if bound > 1 then bound - 1 else 0
  }

  lemma RowCountIs(lineCount: nat, maxRows: int)
    ensures RowCount(lineCount, maxRows) == Max(0, Min(lineCount - 1, maxRows))
  {
  }

  /** How many of the first `n` data lines have a field count other than the header's. */
  function Ragged(width: nat, lines: seq<string>, n: nat): nat
    requires n < |lines| || n == 0
  {
    if n == 0 then 0
    else Ragged(width, lines, n - 1) + (if |Fields(lines[n])| != width then 1 else 0)
  }

  /** The ragged count is positive exactly when some previewed line has the wrong width. */
  lemma {:induction false} RaggedIff(width: nat, lines: seq<string>, n: nat)
    requires n < |lines| || n == 0
    ensures Ragged(width, lines, n) <= n
    ensures Ragged(width, lines, n) > 0 <==> exists k :: 1 <= k <= n && |Fields(lines[k])| != width
    decreases n
  {
    if n > 0 {
      RaggedIff(width, lines, n - 1);
    }
  }

  /** The preview records: one per data line after the header, at most `maxRows` of them. */
  function DataRows(lines: seq<string>, columns: seq<string>, maxRows: int): (r: seq<map<string, string>>)
    ensures |r| == RowCount(|lines|, maxRows)
    ensures |r| < |lines| || r == []
  {
    seq(RowCount(|lines|, maxRows), k requires 0 <= k < RowCount(|lines|, maxRows) => Row(columns, Fields(lines[k + 1])))
  }

  /** Builds the preview rows from the data lines and counts the ragged ones. */
  method BuildRows(lines: seq<string>, columns: seq<string>, maxRows: int)
    returns (rows: seq<map<string, string>>, bad: nat)
    ensures rows == DataRows(lines, columns, maxRows)
    ensures bad == Ragged(|columns|, lines, |rows|)
  {
    rows := [];
    bad := 0;
    var i := 1;
    var bound := Min(|lines|, maxRows + 1);
    while i < bound
      invariant 1 <= i && (i <= bound || i == 1)
      invariant |rows| == i - 1
      invariant forall k :: 0 <= k < |rows| ==> rows[k] == Row(columns, Fields(lines[k + 1]))
      invariant bad == Ragged(|columns|, lines, |rows|)
    {
      var vals := SplitCsvLine(lines[i]);
      if |vals| != |columns| {
        bad := bad + 1;
      }
      var row := BuildRow(columns, vals);
      rows := rows + [row];
      i := i + 1;
    }
    assert |rows| == RowCount(|lines|, maxRows);
    assert rows == DataRows(lines, columns, maxRows);
  }

  // ---------------------------------------------------------------------------------
  // Type inference
  // ---------------------------------------------------------------------------------

  datatype ColumnType = UnknownType | NumberType | BooleanType | StringType

  /** The number of leading ASCII digits. */
  function LeadingDigits(s: string): (n: nat)
    ensures n <= |s|
    ensures forall k :: 0 <= k < n ==> IsDigit(s[k])
    ensures n < |s| ==> !IsDigit(s[n])
  {
    if s != [] && IsDigit(s[0]) then 1 + LeadingDigits(s[1..]) else 0
  }

  /** Matches `\d+(\.\d+)?` in full. */
  predicate IsUnsignedDecimal(s: string)
  {
    var d := LeadingDigits(s);
    d > 0 && (d == |s| || (s[d] == '.' && d + 1 < |s| && AllDigits(s[d + 1..])))
  }

  /** Matches `-?\d+(\.\d+)?` in full. */
  predicate IsDecimal(t: string)
  {
    if t != [] && t[0] == '-' then IsUnsignedDecimal(t[1..]) else IsUnsignedDecimal(t)
  }

  /** The trimmed value is a decimal number. */
  predicate IsNumberText(v: string)
  {
    IsDecimal(Trim(v))
  }

  function Lower(s: string): string
  {
    seq(|s|, i requires 0 <= i < |s| => AsciiLower(s[i]))
  }

  /** The trimmed value is `true` or `false` in any letter case. */
  predicate IsBooleanText(v: string)
  {
    IsBoolean(Trim(v))
  }

  /** `true` or `false` in any letter case. */
  predicate IsBoolean(t: string)
  {
    Lower(t) == "true" || Lower(t) == "false"
  }

  function InferType(sample: seq<string>): ColumnType
  {
    if |sample| == 0 then UnknownType
    else if forall v :: v in sample ==> IsNumberText(v) then NumberType
    else if forall v :: v in sample ==> IsBooleanText(v) then BooleanType
    else StringType
  }

  /** No value reads both as a number and as a boolean. */
  lemma NumberNotBoolean(v: string)
    ensures !(IsNumberText(v) && IsBooleanText(v))
  {
    var t := Trim(v);
    if IsBoolean(t) {
      assert Lower(t)[0] == AsciiLower(t[0]);
      assert t[0] in "tTfF";
      assert LeadingDigits(t) == 0;
    }
  }

  /**
   * An empty sample is `unknown`; otherwise the type is `number` when every value is a
   * decimal number, `boolean` exactly when every value is true/false, and `string`
   * exactly when neither holds of every value.
   */
  lemma InferTypeCases(sample: seq<string>)
    ensures InferType(sample) == UnknownType <==> sample == []
    ensures InferType(sample) == NumberType <==>
      sample != [] && forall v :: v in sample ==> IsNumberText(v)
    ensures InferType(sample) == BooleanType <==>
      sample != [] && forall v :: v in sample ==> IsBooleanText(v)
    ensures InferType(sample) == StringType <==>
      (exists v :: v in sample && !IsNumberText(v)) && (exists v :: v in sample && !IsBooleanText(v))
  {
    if sample != [] {
      NumberNotBoolean(sample[0]);
    }
  }

  lemma AllDigitsDecimal(v: string)
    requires v != [] && AllDigits(v)
    ensures Trim(v) == v && IsDecimal(v)
  {
    TrimKeeps(v);
    AllDigitsLeading(v);
  }

  lemma {:induction false} AllDigitsLeading(v: string)
    requires AllDigits(v)
    ensures LeadingDigits(v) == |v|
    decreases |v|
  {
    if v != [] {
      AllDigitsLeading(v[1..]);
    }
  }

  /** A sample of digit strings, such as the `n` column `1`, `2`, is a number column. */
  lemma DigitsInferNumber(sample: seq<string>)
    requires sample != []
    requires forall v :: v in sample ==> v != [] && AllDigits(v)
    ensures InferType(sample) == NumberType
  {
    forall v | v in sample ensures IsNumberText(v) {
      AllDigitsDecimal(v);
    }
  }

  lemma BooleanWords()
    ensures IsBoolean("true") && IsBoolean("false")
  {
    assert Lower("true") == "true";
    assert Lower("false") == "false";
  }

  lemma TrueIsBoolean()
    ensures IsBooleanText("true")
  {
    TrimKeeps("true");
    BooleanWords();
  }

  lemma FalseIsBoolean()
    ensures IsBooleanText("false")
  {
    TrimKeeps("false");
    BooleanWords();
  }

  /** A sample of `true` and `false` values, such as the `b` column, is a boolean column. */
  lemma TrueFalseInferBoolean(sample: seq<string>)
    requires sample != []
    requires forall v :: v in sample ==> v == "true" || v == "false"
    ensures InferType(sample) == BooleanType
  {
    forall v | v in sample ensures IsBooleanText(v) {
      if v == "true" { TrueIsBoolean(); } else { FalseIsBoolean(); }
    }
    var w := sample[0];
    assert w in sample && IsBooleanText(w);
    NumberNotBoolean(w);
    assert !IsNumberText(w);
  }

  predicate IsLowerLetter(c: char)
  {
    'a' <= c <= 'z'
  }

  /**
   * A sample holding a lower-case word other than `true` and `false`, such as the `s`
   * column `hello`, `world`, is a string column.
   */
  lemma WordInfersString(sample: seq<string>, w: string)
    requires w in sample && w != [] && w != "true" && w != "false"
    requires forall k :: 0 <= k < |w| ==> IsLowerLetter(w[k])
    ensures InferType(sample) == StringType
  {
    TrimKeeps(w);
    assert LeadingDigits(w) == 0;
    assert Lower(w) == w;
    assert !IsNumberText(w) && !IsBooleanText(w);
  }

  // ---------------------------------------------------------------------------------
  // Column statistics
  // ---------------------------------------------------------------------------------

  datatype ColumnStats = ColumnStats(emptyCount: nat, exampleValues: seq<string>)

  /** The column's value in each row, the empty string where the row has no such key. */
  function ColumnValues(rows: seq<map<string, string>>, col: string): (values: seq<string>)
    ensures |values| == |rows|
  {
    seq(|rows|, k requires 0 <= k < |rows| => if col in rows[k] then rows[k][col] else "")
  }

  /** The trimmed values that are not blank, in order. */
  function NonBlankValues(values: seq<string>): (r: seq<string>)
  {
    if values == [] then []
    else (if Trim(values[0]) == [] then [] else [Trim(values[0])]) + NonBlankValues(values[1..])
  }

  /** The number of blank values. */
  function BlankCount(values: seq<string>): nat
  {
    if values == [] then 0
    else (if Trim(values[0]) == [] then 1 else 0) + BlankCount(values[1..])
  }

  /** Every value is either counted blank or kept, trimmed and non-empty. */
  lemma {:induction false} BlankSplit(values: seq<string>)
    ensures BlankCount(values) + |NonBlankValues(values)| == |values|
    ensures forall x :: x in NonBlankValues(values) ==> x != [] && Trim(x) == x
    decreases |values|
  {
    if values != [] {
      BlankSplit(values[1..]);
      TrimIdempotent(values[0]);
    }
  }

  function Take<T>(s: seq<T>, n: nat): seq<T>
  {
    s[..Min(n, |s|)]
  }

  /** The type inferred from the first 50 non-blank values. */
  function TypeOf(rows: seq<map<string, string>>, col: string): ColumnType
  {
    InferType(Take(NonBlankValues(ColumnValues(rows, col)), 50))
  }

  /** The blank count and the first three distinct non-blank values. */
  function StatsOf(rows: seq<map<string, string>>, col: string): ColumnStats
  {
    var values := ColumnValues(rows, col);
    ColumnStats(BlankCount(values), Take(Distinct(NonBlankValues(values)), 3))
  }

  /**
   * The blank count is at most the row count, and the examples are at most three
   * distinct trimmed non-empty values of the column, in first-appearance order.
   */
  lemma StatsShape(rows: seq<map<string, string>>, col: string)
    ensures StatsOf(rows, col).emptyCount <= |rows|
    ensures var ex := StatsOf(rows, col).exampleValues;
      |ex| <= 3 &&
      IsPrefix(ex, Distinct(NonBlankValues(ColumnValues(rows, col)))) &&
      NoRepeats(ex) &&
      (forall x :: x in ex ==> x != [] && Trim(x) == x)
  {
    var values := ColumnValues(rows, col);
    BlankSplit(values);
    var d := Distinct(NonBlankValues(values));
    var ex := StatsOf(rows, col).exampleValues;
    forall x | x in ex ensures x != [] && Trim(x) == x {
      assert x in d;
    }
  }

  /** The first three distinct values, scanning until three are found. */
  method ExampleValues(nonBlank: seq<string>) returns (ex: seq<string>)
    ensures ex == Take(Distinct(nonBlank), 3)
  {
    ex := [];
    var k := 0;
    while k < |nonBlank|
      invariant 0 <= k <= |nonBlank|
      invariant ex == Distinct(nonBlank[..k])
      invariant |ex| < 3
    {
      assert nonBlank[..k + 1] == nonBlank[..k] + [nonBlank[k]];
      assert nonBlank[..k + 1][..k] == nonBlank[..k];
      if nonBlank[k] !in ex {
        ex := ex + [nonBlank[k]];
      }
      k := k + 1;
      if |ex| >= 3 {
        DistinctPrefix(nonBlank, k);
        return;
      }
    }
    assert nonBlank[..k] == nonBlank;
  }

  /** Infers the type and gathers the statistics of every column. */
  method SummarizeColumns(columns: seq<string>, rows: seq<map<string, string>>)
    returns (types: map<string, ColumnType>, stats: map<string, ColumnStats>)
    ensures types == ColumnTypes(columns, rows) && stats == ColumnStatsMap(columns, rows)
  {
    types := map[];
    stats := map[];
    var j := 0;
    while j < |columns|
      invariant 0 <= j <= |columns|
      invariant types == ColumnTypes(columns[..j], rows)
      invariant stats == ColumnStatsMap(columns[..j], rows)
    {
      assert columns[..j + 1][..j] == columns[..j];
      var col := columns[j];
      var t, st := SummarizeColumn(rows, col);
      types := types[col := t];
      stats := stats[col := st];
      j := j + 1;
    }
    assert columns[..j] == columns;
  }

  /** The type and statistics of one column. */
  method SummarizeColumn(rows: seq<map<string, string>>, col: string) returns (t: ColumnType, st: ColumnStats)
    ensures t == TypeOf(rows, col) && st == StatsOf(rows, col)
  {
    var values := ColumnValues(rows, col);
    var nonEmpty := NonBlankValues(values);
    t := InferType(Take(nonEmpty, 50));
    var ex := ExampleValues(nonEmpty);
    st := ColumnStats(BlankCount(values), ex);
  }

  /** The inferred type of every column; a repeated name is summarised once. */
  function ColumnTypes(columns: seq<string>, rows: seq<map<string, string>>): map<string, ColumnType>
  {
    if columns == [] then map[]
    else
      var c := columns[|columns| - 1];
      ColumnTypes(columns[..|columns| - 1], rows)[c := TypeOf(rows, c)]
  }

  /** The blank count and example values of every column. */
  function ColumnStatsMap(columns: seq<string>, rows: seq<map<string, string>>): map<string, ColumnStats>
  {
    if columns == [] then map[]
    else
      var c := columns[|columns| - 1];
      ColumnStatsMap(columns[..|columns| - 1], rows)[c := StatsOf(rows, c)]
  }

  /** Both maps have exactly the column names as keys, each mapped to its own summary. */
  lemma {:induction false} ColumnMapsSpec(columns: seq<string>, rows: seq<map<string, string>>, c: string)
    ensures c in ColumnTypes(columns, rows) <==> c in columns
    ensures c in ColumnStatsMap(columns, rows) <==> c in columns
    ensures c in columns ==>
      ColumnTypes(columns, rows)[c] == TypeOf(rows, c) && ColumnStatsMap(columns, rows)[c] == StatsOf(rows, c)
    decreases |columns|
  {
    if columns != [] {
      var init := columns[..|columns| - 1];
      ColumnMapsSpec(init, rows, c);
      assert columns == init + [columns[|columns| - 1]];
    }
  }

  // ---------------------------------------------------------------------------------
  // The preview
  // ---------------------------------------------------------------------------------

  datatype Severity = Info | Warning | Error

  datatype Issue =
    | DuplicateColumns(shown: seq<string>, more: bool)
    | RaggedRows(badRows: nat, rowCount: nat)
    | NoColumns

  function SeverityOf(i: Issue): Severity
  {
    match i
    case DuplicateColumns(_, _) => Warning
    case RaggedRows(_, _) => Warning
    case NoColumns => Error
  }

  datatype Preview = Preview(
    columns: seq<string>,
    rows: seq<map<string, string>>,
    types: map<string, ColumnType>,
    issues: seq<Issue>,
    previewRows: nat,
    previewColumns: nat,
    columnStats: map<string, ColumnStats>)

  /** The duplicate-header warning: the first five duplicate names and whether there are more. */
  function DuplicateIssues(columns: seq<string>): seq<Issue>
  {
    var dups := DuplicateNames(columns);
    if dups != [] then [DuplicateColumns(Take(dups, 5), |dups| > 5)] else []
  }

  /** The ragged-rows warning: how many of the `n` previewed rows have the wrong width. */
  function RaggedIssues(width: nat, lines: seq<string>, n: nat): seq<Issue>
    requires n < |lines| || n == 0
  {
    var bad := Ragged(width, lines, n);
    if bad > 0 then [RaggedRows(bad, n)] else []
  }

  /** Some name occurs in the header more than once exactly when some name is reported. */
  lemma DuplicateNamesEmptyIff(columns: seq<string>)
    ensures DuplicateNames(columns) == [] <==> NoRepeats(columns)
  {
    var dups := DuplicateNames(columns);
    if !NoRepeats(columns) {
      var i, j :| 0 <= i < j < |columns| && columns[i] == columns[j];
      TwiceIffCount(columns, columns[i]);
      assert columns[i] in dups;
    }
    if dups != [] {
      var x := dups[0];
      assert x in dups;
      TwiceIffCount(columns, x);
    }
  }

  /**
   * The duplicate-header warning is raised exactly when two header positions share a
   * normalised name; it names between one and five of the duplicates.
   */
  lemma DuplicateIssuesIff(columns: seq<string>)
    ensures DuplicateIssues(columns) != [] <==> !NoRepeats(columns)
    ensures DuplicateIssues(columns) != [] ==>
      |DuplicateIssues(columns)| == 1 &&
      var i := DuplicateIssues(columns)[0];
      i.DuplicateColumns? && 1 <= |i.shown| <= 5 &&
      IsPrefix(i.shown, DuplicateNames(columns)) && i.more == (|DuplicateNames(columns)| > 5)
  {
    DuplicateNamesEmptyIff(columns);
  }

  /**
   * The ragged-rows warning is raised exactly when some previewed data line has a field
   * count other than the header's, and it counts between one and all of the rows.
   */
  lemma RaggedIssuesIff(width: nat, lines: seq<string>, n: nat)
    requires n < |lines| || n == 0
    ensures RaggedIssues(width, lines, n) != [] <==> exists k :: 1 <= k <= n && |Fields(lines[k])| != width
    ensures forall i :: i in RaggedIssues(width, lines, n) ==>
      i.RaggedRows? && 1 <= i.badRows <= i.rowCount && i.rowCount == n
  {
    RaggedIff(width, lines, n);
  }

  /** Splits the text into non-blank lines and names the columns from the first. */
  method ReadHeader(text: string) returns (lines: seq<string>, columns: seq<string>)
    ensures lines == Lines(text)
    ensures columns == NormalizeColumns(Fields(HeaderLine(lines)))
    ensures |columns| >= 1
  {
    lines := Lines(text);
    var headerLine := HeaderLine(lines);
    var rawColumns := SplitCsvLine(headerLine);
    columns := NormalizeColumns(rawColumns);
  }

  /** Neither warning is the missing-columns error. */
  lemma NoColumnsNeverRaised(columns: seq<string>, lines: seq<string>, n: nat)
    requires n < |lines| || n == 0
    ensures NoColumns !in DuplicateIssues(columns) + RaggedIssues(|columns|, lines, n)
  {
    var d := DuplicateIssues(columns);
    var r := RaggedIssues(|columns|, lines, n);
    assert forall i :: i in d ==> i.DuplicateColumns?;
    assert forall i :: i in r ==> i.RaggedRows?;
  }

  /** The duplicate-header warning, as the preview reports it. */
  method WarnDuplicates(columns: seq<string>) returns (issues: seq<Issue>)
    ensures issues == DuplicateIssues(columns)
  {
    issues := [];
    var dups := FindDuplicates(columns);
    if |dups| > 0 {
      issues := issues + [DuplicateColumns(Take(dups, 5), |dups| > 5)];
    }
  }

  /** The preview of a CSV text, as the parts above define it. */
  function PreviewOf(text: string, maxRows: int): Preview
  {
    var lines := Lines(text);
    var columns := NormalizeColumns(Fields(HeaderLine(lines)));
    var rows := DataRows(lines, columns, maxRows);
    Preview(columns, rows, ColumnTypes(columns, rows),
            DuplicateIssues(columns) + RaggedIssues(|columns|, lines, |rows|),
            |rows|, |columns|, ColumnStatsMap(columns, rows))
  }

  /** A preview whose parts are those `PreviewOf` names is that preview. */
  lemma PreviewOfParts(text: string, maxRows: int, p: Preview)
    requires p.columns == NormalizeColumns(Fields(HeaderLine(Lines(text))))
    requires p.rows == DataRows(Lines(text), p.columns, maxRows)
    requires p.previewRows == |p.rows| && p.previewColumns == |p.columns|
    requires p.issues == DuplicateIssues(p.columns) + RaggedIssues(|p.columns|, Lines(text), |p.rows|)
    requires p.types == ColumnTypes(p.columns, p.rows) && p.columnStats == ColumnStatsMap(p.columns, p.rows)
    ensures p == PreviewOf(text, maxRows)
  {
  }

  /**
   * Parses the header and up to `maxRows` data rows of a CSV text into a preview. The
   * "no columns" error is never raised, since the header always has a column.
   */
  method ParseCsvPreview(text: string, maxRows: int) returns (p: Preview)
    ensures p.columns == NormalizeColumns(Fields(HeaderLine(Lines(text))))
    ensures |p.columns| >= 1
    ensures p.rows == DataRows(Lines(text), p.columns, maxRows)
    ensures p.previewRows == |p.rows| && p.previewColumns == |p.columns|
    ensures p.issues == DuplicateIssues(p.columns) + RaggedIssues(|p.columns|, Lines(text), |p.rows|)
    ensures NoColumns !in p.issues
    ensures p.types == ColumnTypes(p.columns, p.rows) && p.columnStats == ColumnStatsMap(p.columns, p.rows)
  {
    var lines, columns := ReadHeader(text);
    var issues := WarnDuplicates(columns);
    var rows, badRowCount := BuildRows(lines, columns, maxRows);
    if badRowCount > 0 {
      issues := issues + [RaggedRows(badRowCount, |rows|)];
    }
    NoColumnsNeverRaised(columns, lines, |rows|);
    var types, columnStats := SummarizeColumns(columns, rows);
    p := Preview(columns, rows, types, issues, |rows|, |columns|, columnStats);
  }
}
