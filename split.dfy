/**
 * Package `split`: distributing lines over numbered files, either a fixed
 * number of lines per file (SplitByLineCount) or a fixed number of files
 * (SplitByTotalCount). The path of file `i` comes from an output path
 * generator, modelled as an arbitrary function `pathOf`; the files are
 * opened through the spy open-file function, so the result is stated as the
 * spy's map of path to content.
 */
module Split {
  import opened Wrappers
  import opened Sequences
  import opened TestableIO
  import Lines

  /** os.O_CREATE|os.O_WRONLY|os.O_TRUNC on Linux; the spy ignores it. */
  const CreateWriteTruncate: int := 0x241
  /** The permission bits 0644; the spy ignores them. */
  const FileMode: int := 420

  function Min(a: int, b: int): int {
    if a <= b then a else b
  }

  function Abs(a: int): nat {
    if a < 0 then -a else a
  }

  // ---------------------------------------------------------------------
  // The spy's map after a series of opens and writes
  // ---------------------------------------------------------------------

  /**
   * The spy's map after each path in turn is opened (an unseen path gets an
   * empty buffer) and its text written: text written to a path that was
   * already open is appended to what its buffer holds.
   */
  function Store(m: map<string, string>, paths: seq<string>, texts: seq<string>): (r: map<string, string>)
    requires |paths| == |texts|
  {
    if paths == [] then m
    else
      var n := |paths| - 1;
      var s := Store(m, paths[..n], texts[..n]);
      s[paths[n] := (if paths[n] in s then s[paths[n]] else []) + texts[n]]
  }

  /** The spy ends up with the paths it had and the paths opened, nothing else. */
  lemma {:induction false} StoreKeys(m: map<string, string>, paths: seq<string>, texts: seq<string>)
    requires |paths| == |texts|
    ensures Store(m, paths, texts).Keys == m.Keys + set k | 0 <= k < |paths| :: paths[k]
  {
    if paths != [] {
      var n := |paths| - 1;
      StoreKeys(m, paths[..n], texts[..n]);
      var before := set k | 0 <= k < n :: paths[..n][k];
      var after := set k | 0 <= k < |paths| :: paths[k];
      assert after == before + {paths[n]} by {
        forall p | p in after ensures p in before + {paths[n]} {
          var k :| 0 <= k < |paths| && paths[k] == p;
          if k < n {
            assert paths[..n][k] == p;
          }
        }
      }
    }
  }

  /** A buffer whose path is never opened again keeps its content. */
  lemma {:induction false} StoreKeepsOthers(m: map<string, string>, paths: seq<string>, texts: seq<string>, p: string)
    requires |paths| == |texts| && p in m
    requires forall k :: 0 <= k < |paths| ==> paths[k] != p
    ensures p in Store(m, paths, texts) && Store(m, paths, texts)[p] == m[p]
  {
    if paths != [] {
      var n := |paths| - 1;
      StoreKeepsOthers(m, paths[..n], texts[..n], p);
    }
  }

  /**
   * Opening distinct paths not held before, each file holds exactly the text
   * written to it.
   */
  lemma {:induction false} StoreDistinct(m: map<string, string>, paths: seq<string>, texts: seq<string>)
    requires |paths| == |texts|
    requires forall k :: 0 <= k < |paths| ==> paths[k] !in m
    requires forall j, k :: 0 <= j < k < |paths| ==> paths[j] != paths[k]
    ensures forall k :: 0 <= k < |paths| ==> paths[k] in Store(m, paths, texts) && Store(m, paths, texts)[paths[k]] == texts[k]
  {
    if paths != [] {
      var n := |paths| - 1;
      StoreDistinct(m, paths[..n], texts[..n]);
      StoreKeys(m, paths[..n], texts[..n]);
      assert paths[n] !in Store(m, paths[..n], texts[..n]);
    }
  }

  /** Opening one more path: an unseen path gets an empty buffer, a known one is left as it is. */
  lemma StoreOpen(m: map<string, string>, paths: seq<string>, texts: seq<string>, p: string)
    requires |paths| == |texts|
    ensures var s := Store(m, paths, texts);
      Store(m, paths + [p], texts + [[]]) == if p in s then s else s[p := []]
  {
    assert (paths + [p])[..|paths|] == paths;
    assert (texts + [[]])[..|texts|] == texts;
    var s := Store(m, paths, texts);
    var g := if p in s then s[p] else [];
    assert Store(m, paths + [p], texts + [[]]) == s[p := g + []];
    assert g + [] == g;
    if p in s {
      assert s[p := s[p]] == s;
    }
  }

  /** Writing to the path opened last appends to the text of that path. */
  lemma StoreWriteLast(m: map<string, string>, paths: seq<string>, texts: seq<string>, x: string)
    requires |paths| == |texts| >= 1
    ensures var n := |paths| - 1;
      && paths[n] in Store(m, paths, texts)
      && Store(m, paths, texts[n := texts[n] + x]) == Store(m, paths, texts)[paths[n] := Store(m, paths, texts)[paths[n]] + x]
  {
    var n := |paths| - 1;
    var texts' := texts[n := texts[n] + x];
    assert texts'[..n] == texts[..n];
    var s := Store(m, paths[..n], texts[..n]);
    var g := if paths[n] in s then s[paths[n]] else [];
    assert Store(m, paths, texts) == s[paths[n] := g + texts[n]];
    assert Store(m, paths, texts') == s[paths[n] := g + texts'[n]];
    assert g + texts'[n] == (g + texts[n]) + x;
  }

  // ---------------------------------------------------------------------
  // SplitByLineCount
  // ---------------------------------------------------------------------

  /**
   * The chunks of the line-count split, for `size` lines per file: every
   * line joins the current chunk until it is full, then a new chunk starts.
   */
  function Chunks(ls: seq<string>, size: nat): (cs: seq<seq<string>>)
    requires size > 0
    ensures ls == [] <==> cs == []
  {
    if ls == [] then []
    else
      var n := |ls| - 1;
      var cs := Chunks(ls[..n], size);
      if cs == [] || |cs[|cs| - 1]| == size then cs + [[ls[n]]]
      else cs[..|cs| - 1] + [cs[|cs| - 1] + [ls[n]]]
  }

  /** Every line goes to exactly one chunk, in input order. */
  lemma {:induction false} ChunksFlatten(ls: seq<string>, size: nat)
    requires size > 0
    ensures Flatten(Chunks(ls, size)) == ls
  {
    if ls != [] {
      var n := |ls| - 1;
      ChunksFlatten(ls[..n], size);
      var cs0 := Chunks(ls[..n], size);
      var cs := Chunks(ls, size);
      assert ls == ls[..n] + [ls[n]];
      if cs0 == [] || |cs0[|cs0| - 1]| == size {
        assert cs[..|cs| - 1] == cs0;
      } else {
        var last := cs0[|cs0| - 1];
        assert cs[..|cs| - 1] == cs0[..|cs0| - 1];
        assert cs0 == cs0[..|cs0| - 1] + [last];
        FlattenAppend(cs0[..|cs0| - 1], [last]);
        assert Flatten([last]) == last by {
          assert [last][..0] == [];
        }
      }
    }
  }

  /**
   * Every chunk but the last holds `size` lines and the last one between 1
   * and `size`, so the lines number (chunks - 1) * size plus the last chunk's.
   */
  lemma {:induction false} ChunksSizes(ls: seq<string>, size: nat)
    requires size > 0
    ensures var cs := Chunks(ls, size);
      && (forall j :: 0 <= j < |cs| - 1 ==> |cs[j]| == size)
      && (cs != [] ==> 1 <= |cs[|cs| - 1]| <= size && |ls| == (|cs| - 1) * size + |cs[|cs| - 1]|)
  {
    if ls != [] {
      var n := |ls| - 1;
      ChunksSizes(ls[..n], size);
      var cs0 := Chunks(ls[..n], size);
      var cs := Chunks(ls, size);
      if cs0 == [] || |cs0[|cs0| - 1]| == size {
        assert cs[..|cs| - 1] == cs0;
        if cs0 != [] {
          MulPred(|cs0|, size);
        }
      } else {
        assert cs[..|cs| - 1] == cs0[..|cs0| - 1];
      }
    }
  }

  /** The chunks hold the lines in order, ceil(|ls| / size) of them, all but the last full. */
  lemma ChunksLayout(ls: seq<string>, size: nat)
    requires size > 0
    ensures var cs := Chunks(ls, size);
      && |cs| == (|ls| + size - 1) / size
      && Flatten(cs) == ls
      && (forall j :: 0 <= j < |cs| - 1 ==> |cs[j]| == size)
  {
    ChunksFlatten(ls, size);
    ChunksSizes(ls, size);
    ChunkCount(ls, size);
  }

  /** There are ceil(|ls| / size) chunks. */
  lemma ChunkCount(ls: seq<string>, size: nat)
    requires size > 0
    ensures |Chunks(ls, size)| == (|ls| + size - 1) / size
  {
    ChunksSizes(ls, size);
    var cs := Chunks(ls, size);
    var c := |cs|;
    if c == 0 {
      DivModUnique(size - 1, size, 0, size - 1);
    } else {
      var l := |cs[c - 1]|;
      assert |ls| == (c - 1) * size + l;
      MulPred(c, size);
      DivModUnique(|ls| + size - 1, size, c, l - 1);
    }
  }

  lemma MulPred(c: int, d: int)
    ensures (c - 1) * d + d == c * d
  {
  }

  lemma MulAtLeast(x: int, d: int)
    requires x >= 1 && d > 0
    ensures x * d >= d
  {
  }

  /** Euclidean division is unique: Dafny's `/` and `%` find q and r. */
  lemma DivModUnique(a: int, d: int, q: int, r: int)
    requires d != 0 && a == q * d + r && 0 <= r < Abs(d)
    ensures a / d == q && a % d == r
  {
    var q0 := a / d;
    var r0 := a % d;
    assert a == q0 * d + r0 && 0 <= r0 < Abs(d);
    var e := Abs(d);
    var x := if d > 0 then q0 - q else q - q0;
    assert x * e == r - r0;
    if x >= 1 {
      MulAtLeast(x, e);
    } else if x <= -1 {
      MulAtLeast(-x, e);
    }
  }

  /** The generator argument of chunk `j`: `n / lineCount` for its first line `n = j * |lineCount|`. */
  function ChunkIndex(j: nat, lineCount: int): int {
    if lineCount > 0 then j else -(j as int)
  }

  /**
   * Go's test on line `n` with `c` chunks so far, the last holding `lastLen`
   * lines: `n % lineCount == 0` exactly when the last chunk is full, and then
   * `n / lineCount` is the next chunk's generator argument. For `n >= 0` Go's
   * truncating `/` and `%` agree with Dafny's Euclidean ones.
   */
  lemma NewChunkAt(n: nat, lineCount: int, c: nat, lastLen: nat)
    requires lineCount != 0
    requires c == 0 ==> n == 0
    requires c > 0 ==> 1 <= lastLen <= Abs(lineCount) && n == (c - 1) * Abs(lineCount) + lastLen
    ensures n % lineCount == 0 <==> (c == 0 || lastLen == Abs(lineCount))
    ensures n % lineCount == 0 ==> n / lineCount == ChunkIndex(c, lineCount)
  {
    var size := Abs(lineCount);
    if c == 0 {
      DivModUnique(0, lineCount, 0, 0);
    } else if lastLen == size {
      assert n == c * size;
      DivModUnique(n, lineCount, ChunkIndex(c, lineCount), 0);
    } else {
      DivModUnique(n, lineCount, ChunkIndex(c - 1, lineCount), lastLen);
    }
  }

  /**
   * Line `n` starts a chunk exactly when `n % lineCount == 0`, and then
   * `n / lineCount` is that chunk's generator argument.
   */
  lemma ChunkBoundary(lines: seq<string>, n: nat, lineCount: int)
    requires lineCount != 0 && n <= |lines|
    ensures var cs := Chunks(lines[..n], Abs(lineCount));
      && (n % lineCount == 0 <==> cs == [] || |cs[|cs| - 1]| == Abs(lineCount))
      && (n % lineCount == 0 ==> n / lineCount == ChunkIndex(|cs|, lineCount))
  {
    var size := Abs(lineCount);
    var cs := Chunks(lines[..n], size);
    ChunksSizes(lines[..n], size);
    NewChunkAt(n, lineCount, |cs|, if cs == [] then 0 else |cs[|cs| - 1]|);
  }

  function ChunkPaths(c: nat, lineCount: int, pathOf: int -> string): (ps: seq<string>)
    ensures |ps| == c
  {
    seq(c, j requires 0 <= j < c => pathOf(ChunkIndex(j, lineCount)))
  }

  /** What Fprintln writes for each chunk: its lines, each followed by a newline. */
  function ChunkTexts(cs: seq<seq<string>>): (ts: seq<string>)
    ensures |ts| == |cs|
  {
    seq(|cs|, j requires 0 <= j < |cs| => Lines.Records(false, cs[j]))
  }

  /** How a split ends: the paths it returns, an error with the paths it returns, or a panic. */
  datatype SplitError = OpenFailed(path: string) | ScanFailed
  datatype SplitOutcome = Split(paths: seq<string>) | Failed(paths: seq<string>, err: SplitError) | Panicked

  /** One more line: it opens a chunk when the current one is full, and joins it otherwise. */
  lemma ChunksStep(lines: seq<string>, n: nat, size: nat)
    requires size > 0 && n < |lines|
    ensures var cs := Chunks(lines[..n], size);
      Chunks(lines[..n + 1], size) ==
        if cs == [] || |cs[|cs| - 1]| == size then cs + [[lines[n]]]
        else cs[..|cs| - 1] + [cs[|cs| - 1] + [lines[n]]]
  {
    assert lines[..n + 1][..n] == lines[..n];
  }

  lemma ChunkPathsAppend(c: nat, lineCount: int, pathOf: int -> string)
    ensures ChunkPaths(c + 1, lineCount, pathOf) == ChunkPaths(c, lineCount, pathOf) + [pathOf(ChunkIndex(c, lineCount))]
  {
  }

  lemma ChunkTextsAppend(cs: seq<seq<string>>, l: string)
    ensures ChunkTexts(cs + [[l]]) == (ChunkTexts(cs) + [[]])[|cs| := [] + Lines.Record(false, l)]
  {
    assert Lines.Records(false, [l]) == Lines.Record(false, l) by {
      assert [l][..0] == [];
    }
  }

  lemma ChunkTextsExtend(cs: seq<seq<string>>, l: string)
    requires cs != []
    ensures var n := |cs| - 1;
      ChunkTexts(cs[..n] + [cs[n] + [l]]) == ChunkTexts(cs)[n := ChunkTexts(cs)[n] + Lines.Record(false, l)]
  {
    var n := |cs| - 1;
    assert (cs[n] + [l])[..|cs[n]|] == cs[n];
  }

  /**
   * The state of the line-count split after `n` lines: a file was opened for
   * each chunk so far, the spy holds each chunk's text under its path, the
   * current writer is the last file's, and every file but the last is closed.
   */
  ghost predicate LineProgress(lines: seq<string>, n: nat, lineCount: int, pathOf: int -> string,
                               refused: set<string>, m0: map<string, string>, m: map<string, string>,
                               writtenPaths: seq<string>, w: Option<NopWriteCloser>, closed: nat)
    requires lineCount != 0 && n <= |lines|
  {
    var cs := Chunks(lines[..n], Abs(lineCount));
    && writtenPaths == ChunkPaths(|cs|, lineCount, pathOf)
    && (forall k :: 0 <= k < |cs| ==> writtenPaths[k] !in refused)
    && m == Store(m0, writtenPaths, ChunkTexts(cs))
    && (n == 0 <==> w.None?)
    && (n > 0 ==> w == Some(NopWriteCloser(writtenPaths[|writtenPaths| - 1])))
    && closed == Max(|cs| - 1, 0)
  }

  /** Opening a new chunk's file and writing line `n` to it keeps the split's progress. */
  lemma OpenedStep(lines: seq<string>, n: nat, lineCount: int, pathOf: int -> string,
                   refused: set<string>, m0: map<string, string>, m: map<string, string>,
                   writtenPaths: seq<string>, w: Option<NopWriteCloser>, closed: nat)
    requires lineCount != 0 && n < |lines| && n % lineCount == 0
    requires LineProgress(lines, n, lineCount, pathOf, refused, m0, m, writtenPaths, w, closed)
    requires pathOf(n / lineCount) !in refused
    ensures var path := pathOf(n / lineCount);
      var m1 := if path in m then m else m[path := []];
      LineProgress(lines, n + 1, lineCount, pathOf, refused, m0,
                   m1[path := m1[path] + Lines.Record(false, lines[n])],
                   writtenPaths + [path], Some(NopWriteCloser(path)), if w.Some? then closed + 1 else closed)
  {
    var size := Abs(lineCount);
    var cs := Chunks(lines[..n], size);
    ChunksStep(lines, n, size);
    ChunkBoundary(lines, n, lineCount);
    var path := pathOf(n / lineCount);
    var cs' := cs + [[lines[n]]];
    assert Chunks(lines[..n + 1], size) == cs';
    ChunkPathsAppend(|cs|, lineCount, pathOf);
    assert writtenPaths + [path] == ChunkPaths(|cs'|, lineCount, pathOf);
    StoreOpenWrite(m0, writtenPaths, cs, path, lines[n]);
    assert n == 0 <==> cs == [];
  }

  /** The spy's map after a new chunk's file is opened and its first line written. */
  lemma StoreOpenWrite(m0: map<string, string>, paths: seq<string>, cs: seq<seq<string>>, path: string, l: string)
    requires |paths| == |cs|
    ensures var m := Store(m0, paths, ChunkTexts(cs));
      var m1 := if path in m then m else m[path := []];
      m1[path := m1[path] + Lines.Record(false, l)] == Store(m0, paths + [path], ChunkTexts(cs + [[l]]))
  {
    var m := Store(m0, paths, ChunkTexts(cs));
    StoreOpen(m0, paths, ChunkTexts(cs), path);
    var m1 := if path in m then m else m[path := []];
    var texts := ChunkTexts(cs) + [[]];
    assert m1 == Store(m0, paths + [path], texts);
    var rec := Lines.Record(false, l);
    ChunkTextsAppend(cs, l);
    assert texts[|cs| := texts[|cs|] + rec] == ChunkTexts(cs + [[l]]);
    StoreWriteLast(m0, paths + [path], texts, rec);
  }

  /** When the file of the chunk that line `n` starts cannot be opened, the split stops there. */
  lemma OpenFailedStep(lines: seq<string>, scanFailed: bool, n: nat, lineCount: int, pathOf: int -> string,
                       refused: set<string>, m0: map<string, string>, m: map<string, string>,
                       writtenPaths: seq<string>, w: Option<NopWriteCloser>, closed: nat)
    requires lineCount != 0 && n < |lines| && n % lineCount == 0
    requires LineProgress(lines, n, lineCount, pathOf, refused, m0, m, writtenPaths, w, closed)
    requires pathOf(n / lineCount) in refused
    ensures LineCountOutcome(lines, scanFailed, lineCount, pathOf, refused, m0, m,
                             Failed([], OpenFailed(pathOf(n / lineCount))), if w.Some? then closed + 1 else closed,
                             |Chunks(lines[..n], Abs(lineCount))|)
  {
    var size := Abs(lineCount);
    var cs := Chunks(lines[..n], size);
    ChunkBoundary(lines, n, lineCount);
    FailedAt(lines, n, size);
    var all := Chunks(lines, size);
    var ps := ChunkPaths(|all|, lineCount, pathOf);
    assert writtenPaths == ps[..|cs|];
    assert ChunkTexts(cs) == ChunkTexts(all)[..|cs|];
    assert pathOf(n / lineCount) == ps[|cs|];
    assert n == 0 <==> cs == [];
  }

  /**
   * Line `n` starts a chunk: close the current writer, open the file of the
   * next chunk and write the line to it.
   */
  method StartChunk(lines: seq<string>, scanFailed: bool, n: nat, lineCount: int, pathOf: int -> string,
                    fs: SpyOpenFileFunc, ghost m0: map<string, string>,
                    writtenPaths: seq<string>, w: Option<NopWriteCloser>, ghost closed: nat)
    returns (path: string, w': Option<NopWriteCloser>, writtenPaths': seq<string>, ghost closed': nat)
    requires lineCount != 0 && n < |lines| && n % lineCount == 0
    requires LineProgress(lines, n, lineCount, pathOf, fs.refused, m0, fs.m, writtenPaths, w, closed)
    modifies fs
    ensures fs.closes == old(fs.closes) + (closed' - closed)
    ensures w'.None? ==>
      LineCountOutcome(lines, scanFailed, lineCount, pathOf, fs.refused, m0, fs.m,
                       Failed([], OpenFailed(path)), closed', |Chunks(lines[..n], Abs(lineCount))|)
    ensures w'.Some? ==> LineProgress(lines, n + 1, lineCount, pathOf, fs.refused, m0, fs.m, writtenPaths', w', closed')
  {
    closed' := closed;
    if w.Some? {
      var ok := fs.Close(w.value);
      closed' := closed + 1;
    }
    path := pathOf(n / lineCount);
    w' := fs.OpenFile(path, CreateWriteTruncate, FileMode);
    if w'.None? {
      OpenFailedStep(lines, scanFailed, n, lineCount, pathOf, fs.refused, m0, fs.m, writtenPaths, w, closed);
      writtenPaths' := writtenPaths;
      return;
    }
    OpenedStep(lines, n, lineCount, pathOf, fs.refused, m0, old(fs.m), writtenPaths, w, closed);
    writtenPaths' := writtenPaths + [path];
    fs.Write(w'.value, Lines.Record(false, lines[n]));
  }

  /** Line `n` joins the current chunk: write it to the current writer. */
  method ContinueChunk(lines: seq<string>, n: nat, lineCount: int, pathOf: int -> string,
                       fs: SpyOpenFileFunc, ghost m0: map<string, string>,
                       writtenPaths: seq<string>, w: Option<NopWriteCloser>, ghost closed: nat)
    requires lineCount != 0 && n < |lines| && n % lineCount != 0
    requires LineProgress(lines, n, lineCount, pathOf, fs.refused, m0, fs.m, writtenPaths, w, closed)
    modifies fs
    ensures fs.closes == old(fs.closes)
    ensures LineProgress(lines, n + 1, lineCount, pathOf, fs.refused, m0, fs.m, writtenPaths, w, closed)
  {
    ghost var size := Abs(lineCount);
    ghost var cs := Chunks(lines[..n], size);
    ChunksStep(lines, n, size);
    ChunkBoundary(lines, n, lineCount);
    ChunkTextsExtend(cs, lines[n]);
    var rec := Lines.Record(false, lines[n]);
    StoreWriteLast(m0, writtenPaths, ChunkTexts(cs), rec);
    fs.Write(w.value, rec);
  }

  /**
   * How the line-count split over `lines` ends when the spy's map went from
   * `m0` to `m`: the first `j` chunks were written to their files, and either
   * every chunk was (`j` is their number, and all files but the last were
   * closed) or the file of chunk `j` could not be opened (and all `j` files
   * opened before it were closed). `closed` counts the Close calls.
   */
  ghost predicate LineCountOutcome(lines: seq<string>, scanFailed: bool, lineCount: int, pathOf: int -> string,
                                   refused: set<string>, m0: map<string, string>, m: map<string, string>,
                                   r: SplitOutcome, closed: nat, j: nat)
    requires lineCount != 0
  {
    var cs := Chunks(lines, Abs(lineCount));
    var ps := ChunkPaths(|cs|, lineCount, pathOf);
    && j <= |cs|
    && (forall k :: 0 <= k < j ==> ps[k] !in refused)
    && m == Store(m0, ps[..j], ChunkTexts(cs)[..j])
    && (j < |cs| ==> ps[j] in refused && r == Failed([], OpenFailed(ps[j])) && closed == j)
    && (j == |cs| ==> r == (if scanFailed then Failed([], ScanFailed) else Split(ps)) && closed == Max(j - 1, 0))
  }

  /**
   * SplitByLineCount over the lines the scanner yields; `scanFailed` is the
   * scanner's error after the last line. `n % 0` panics at the first line.
   * A writer is closed when the next file is opened, but the last one is
   * never closed, as the spy's count of Close calls shows.
   */
  method SplitByLineCount(lines: seq<string>, scanFailed: bool, lineCount: int, pathOf: int -> string,
                          fs: SpyOpenFileFunc)
    returns (r: SplitOutcome, ghost closed: nat)
    modifies fs
    ensures fs.closes == old(fs.closes) + closed
    ensures lineCount == 0 && lines != [] ==> r == Panicked && fs.m == old(fs.m) && fs.closes == old(fs.closes)
    ensures lineCount == 0 && lines == [] ==>
      r == (if scanFailed then Failed([], ScanFailed) else Split([])) && fs.m == old(fs.m) && fs.closes == old(fs.closes)
    ensures lineCount != 0 ==>
      exists j: nat :: LineCountOutcome(lines, scanFailed, lineCount, pathOf, fs.refused, old(fs.m), fs.m, r, closed, j)
  {
    ghost var m0 := fs.m;
    ghost var c0 := fs.closes;
    var n := 0;
    var writtenPaths: seq<string> := [];
    var w: Option<NopWriteCloser> := None;
    closed := 0;
    if lineCount != 0 {
      assert Chunks(lines[..0], Abs(lineCount)) == [];
    }
    while n < |lines|
      invariant n <= |lines|
      invariant lineCount == 0 ==> n == 0 && fs.m == m0 && writtenPaths == [] && closed == 0
      invariant fs.closes == c0 + closed
      invariant lineCount != 0 ==> LineProgress(lines, n, lineCount, pathOf, fs.refused, m0, fs.m, writtenPaths, w, closed)
    {
      if lineCount == 0 {
        return Panicked, closed;
      }
      if n % lineCount == 0 {
        var path;
        path, w, writtenPaths, closed := StartChunk(lines, scanFailed, n, lineCount, pathOf, fs, m0, writtenPaths, w, closed);
        if w.None? {
          return Failed([], OpenFailed(path)), closed;
        }
      } else {
        ContinueChunk(lines, n, lineCount, pathOf, fs, m0, writtenPaths, w, closed);
      }
      n := n + 1;
    }
    assert lines[..n] == lines;
    if scanFailed {
      r := Failed([], ScanFailed);
    } else {
      r := Split(writtenPaths);
    }
    if lineCount != 0 {
      ghost var cs := Chunks(lines, Abs(lineCount));
      assert ChunkPaths(|cs|, lineCount, pathOf)[..|cs|] == writtenPaths;
      assert ChunkTexts(cs)[..|cs|] == ChunkTexts(cs);
      assert LineCountOutcome(lines, scanFailed, lineCount, pathOf, fs.refused, m0, fs.m, r, closed, |cs|);
    }
  }

  function Max(a: int, b: int): int {
    if a >= b then a else b
  }

  /** When opening the file for line `n` fails, the chunks before it are the first chunks of the whole split. */
  lemma FailedAt(lines: seq<string>, n: nat, size: nat)
    requires size > 0 && n < |lines|
    requires var cs := Chunks(lines[..n], size); cs == [] || |cs[|cs| - 1]| == size
    ensures var cs := Chunks(lines[..n], size); var all := Chunks(lines, size);
      |cs| < |all| && cs == all[..|cs|]
  {
    assert lines[..n + 1][..n] == lines[..n];
    assert lines[..|lines|] == lines;
    var cs := Chunks(lines[..n], size);
    assert Chunks(lines[..n + 1], size) == cs + [[lines[n]]];
    ChunksPrefix(lines, n + 1, |lines|, size);
  }

  /** Chunks only ever grow at their end as more lines are read. */
  lemma {:induction false} ChunksPrefix(lines: seq<string>, k: nat, k': nat, size: nat)
    requires size > 0 && k <= k' <= |lines|
    ensures var a := Chunks(lines[..k], size); var b := Chunks(lines[..k'], size);
      |a| <= |b| && (|a| > 0 ==> a[..|a| - 1] == b[..|a| - 1])
    decreases k' - k
  {
    if k < k' {
      ChunksPrefix(lines, k + 1, k', size);
      assert lines[..k + 1][..k] == lines[..k];
      var a := Chunks(lines[..k], size);
      var a1 := Chunks(lines[..k + 1], size);
      var b := Chunks(lines[..k'], size);
      if |a| > 0 {
        assert a1[..|a| - 1] == a[..|a| - 1];
        assert b[..|a| - 1] == b[..|a1| - 1][..|a| - 1];
      }
    }
  }

  /**
   * When the line-count split makes every file on distinct paths that the
   * spy did not hold, there are ceil(len / |lineCount|) files, file `k` is
   * named by generator argument `k` (`-k` for a negative count) and holds
   * chunk `k`, the chunks hold every line in order, and every file but the
   * last holds exactly |lineCount| lines.
   */
  lemma LineCountFiles(lines: seq<string>, scanFailed: bool, lineCount: int, pathOf: int -> string,
                       refused: set<string>, m0: map<string, string>, m: map<string, string>,
                       r: SplitOutcome, closed: nat, j: nat)
    requires lineCount != 0
    requires LineCountOutcome(lines, scanFailed, lineCount, pathOf, refused, m0, m, r, closed, j)
    requires r.Split?
    ensures var size := Abs(lineCount);
      var cs := Chunks(lines, size);
      && |cs| == (|lines| + size - 1) / size
      && r.paths == ChunkPaths(|cs|, lineCount, pathOf)
      && Flatten(cs) == lines
      && (forall k :: 0 <= k < |cs| - 1 ==> |cs[k]| == size)
      && ((forall k :: 0 <= k < |cs| ==> r.paths[k] !in m0) && (forall a, b :: 0 <= a < b < |cs| ==> r.paths[a] != r.paths[b])
          ==> forall k :: 0 <= k < |cs| ==> r.paths[k] in m && m[r.paths[k]] == Lines.Records(false, cs[k]))
  {
    var size := Abs(lineCount);
    var cs := Chunks(lines, size);
    ChunksLayout(lines, size);
    var ps := ChunkPaths(|cs|, lineCount, pathOf);
    var ts := ChunkTexts(cs);
    LineCountSplit(lines, scanFailed, lineCount, pathOf, refused, m0, m, r, closed, j);
    if (forall k :: 0 <= k < |cs| ==> ps[k] !in m0) && (forall a, b :: 0 <= a < b < |cs| ==> ps[a] != ps[b]) {
      StoreDistinct(m0, ps, ts);
    }
  }

  /** A line-count split that returns paths made every chunk's file and returns their paths. */
  lemma LineCountSplit(lines: seq<string>, scanFailed: bool, lineCount: int, pathOf: int -> string,
                       refused: set<string>, m0: map<string, string>, m: map<string, string>,
                       r: SplitOutcome, closed: nat, j: nat)
    requires lineCount != 0
    requires LineCountOutcome(lines, scanFailed, lineCount, pathOf, refused, m0, m, r, closed, j)
    requires r.Split?
    ensures var cs := Chunks(lines, Abs(lineCount));
      var ps := ChunkPaths(|cs|, lineCount, pathOf);
      j == |cs| && r.paths == ps && m == Store(m0, ps, ChunkTexts(cs))
  {
    var cs := Chunks(lines, Abs(lineCount));
    assert ChunkPaths(|cs|, lineCount, pathOf)[..j] == ChunkPaths(|cs|, lineCount, pathOf);
    assert ChunkTexts(cs)[..j] == ChunkTexts(cs);
  }

  // ---------------------------------------------------------------------
  // SplitByTotalCount
  // ---------------------------------------------------------------------

  /**
   * The lines per file: ceil(len / totalCount), for a positive count. For a
   * count that is not positive the value is never used, since no file is
   * made.
   */
  function LinesPerFile(len: nat, totalCount: int): (lc: nat)
    ensures totalCount > 0 ==> lc * totalCount >= len
    ensures totalCount > 0 && lc > 0 ==> (lc - 1) * totalCount < len
  {
    if totalCount > 0 then
      var lc := (len + totalCount - 1) / totalCount;
      CeilBounds(len, totalCount, lc, (len + totalCount - 1) % totalCount);
      lc
    else 0
  }

  lemma CeilBounds(len: nat, t: nat, q: nat, r: nat)
    requires t > 0 && len + t - 1 == q * t + r && 0 <= r < t
    ensures q * t >= len
    ensures q > 0 ==> (q - 1) * t < len
  {
    assert (q - 1) * t == q * t - t;
  }

  /**
   * File `i` gets the lines from `i * lc` up to `(i + 1) * lc`, both bounds
   * cut to the number of lines.
   */
  function Part(ls: seq<string>, lc: nat, i: nat): (p: seq<string>)
    ensures |p| <= lc
  {
    ls[Min(Offset(i, lc), |ls|)..Min(Offset(i, lc) + lc, |ls|)]
  }

  /**
   * `i * lc`, the first line of file `i`, as `i` steps of `lc`; proofs about
   * the parts then stay within linear arithmetic.
   */
  function Offset(i: nat, lc: nat): nat {
    if i == 0 then 0 else Offset(i - 1, lc) + lc
  }

  lemma {:induction false} OffsetIsProduct(i: nat, lc: nat)
    ensures Offset(i, lc) == i * lc
  {
    if i > 0 {
      OffsetIsProduct(i - 1, lc);
      MulPred(i, lc);
    }
  }

  /** The first `k` files' lines. */
  function Parts(ls: seq<string>, lc: nat, k: nat): (ps: seq<seq<string>>)
    ensures |ps| == k
  {
    seq(k, i requires 0 <= i < k => Part(ls, lc, i))
  }

  /** The paths of the first `k` files. */
  function PartPaths(k: nat, pathOf: int -> string): (ps: seq<string>)
    ensures |ps| == k
  {
    seq(k, i requires 0 <= i < k => pathOf(i))
  }

  /** Go slices `ls[start:end]` only when `start <= end`; file `i` starts past the last line. */
  predicate Overruns(len: nat, lc: nat, i: nat) {
    Offset(i, lc) > len
  }

  /** Away from an overrun, Part is the slice Go takes. */
  lemma PartIsSlice(ls: seq<string>, lc: nat, i: nat)
    requires i * lc <= |ls|
    ensures Part(ls, lc, i) == ls[i * lc..Min(i * lc + lc, |ls|)]
  {
    OffsetIsProduct(i, lc);
  }

  /** The first `k` files together hold the lines before `k * lc`, in order. */
  lemma {:induction false} PartsFlatten(ls: seq<string>, lc: nat, k: nat)
    ensures Flatten(Parts(ls, lc, k)) == ls[..Min(Offset(k, lc), |ls|)]
  {
    if k > 0 {
      var ps := Parts(ls, lc, k);
      assert ps[..k - 1] == Parts(ls, lc, k - 1);
      PartsFlatten(ls, lc, k - 1);
      var a := Min(Offset(k - 1, lc), |ls|);
      var b := Min(Offset(k, lc), |ls|);
      assert ps[k - 1] == ls[a..b];
      assert Flatten(ps) == Flatten(ps[..k - 1]) + ps[k - 1];
      assert ls[..a] + ls[a..b] == ls[..b];
    }
  }

  /**
   * With ceil(len / totalCount) lines per file, the files together hold
   * every line, in order, and none holds more than that many.
   */
  lemma PartsCover(ls: seq<string>, totalCount: nat)
    requires totalCount > 0
    ensures var lc := LinesPerFile(|ls|, totalCount);
      && Flatten(Parts(ls, lc, totalCount)) == ls
      && (forall i :: 0 <= i < totalCount ==> |Parts(ls, lc, totalCount)[i]| <= lc)
  {
    var lc := LinesPerFile(|ls|, totalCount);
    PartsFlatten(ls, lc, totalCount);
    OffsetIsProduct(totalCount, lc);
    assert totalCount * lc == lc * totalCount;
    assert ls[..|ls|] == ls;
  }

  /**
   * A file index overruns exactly when the last one does: the split as
   * written panics for a positive count exactly when
   * (totalCount - 1) * ceil(len / totalCount) > len.
   */
  lemma OverrunsIff(len: nat, totalCount: nat)
    requires totalCount > 0
    ensures var lc := LinesPerFile(len, totalCount);
      (exists i :: 0 <= i < totalCount && Overruns(len, lc, i)) <==> Overruns(len, lc, totalCount - 1)
  {
    var lc := LinesPerFile(len, totalCount);
    forall i | 0 <= i < totalCount && Overruns(len, lc, i)
      ensures Overruns(len, lc, totalCount - 1)
    {
      OffsetIsProduct(i, lc);
      OffsetIsProduct(totalCount - 1, lc);
      MulMonotone(i, totalCount - 1, lc);
    }
  }

  lemma MulMonotone(a: nat, b: nat, c: nat)
    requires a <= b
    ensures a * c <= b * c
  {
  }

  /** Five lines over four files: two lines per file, and the fourth file starts at line 6. */
  lemma FiveLinesOverFourFilesOverrun()
    ensures LinesPerFile(5, 4) == 2 && Overruns(5, 2, 3)
  {
    DivModUnique(8, 4, 2, 0);
  }

  /**
   * The state of the total-count split after `i` files: each was opened,
   * holds its lines and was closed again by the deferred Close. `clamped`
   * tells the corrected split, whose slices never overrun, from the one as
   * written.
   */
  ghost predicate TotalProgress(lines: seq<string>, lc: nat, clamped: bool, i: nat, pathOf: int -> string,
                                refused: set<string>, m0: map<string, string>, m: map<string, string>,
                                writtenPaths: seq<string>, closed: nat)
  {
    && writtenPaths == PartPaths(i, pathOf)
    && (forall k :: 0 <= k < i ==> writtenPaths[k] !in refused && (clamped || !Overruns(|lines|, lc, k)))
    && m == Store(m0, writtenPaths, ChunkTexts(Parts(lines, lc, i)))
    && closed == i
  }

  /** Opening file `i` and writing its lines to it keeps the split's progress. */
  lemma PartStep(lines: seq<string>, lc: nat, clamped: bool, i: nat, pathOf: int -> string,
                 refused: set<string>, m0: map<string, string>, m: map<string, string>,
                 writtenPaths: seq<string>, closed: nat)
    requires TotalProgress(lines, lc, clamped, i, pathOf, refused, m0, m, writtenPaths, closed)
    requires pathOf(i) !in refused && (clamped || !Overruns(|lines|, lc, i))
    ensures var path := pathOf(i);
      var m1 := if path in m then m else m[path := []];
      TotalProgress(lines, lc, clamped, i + 1, pathOf, refused, m0,
                    m1[path := m1[path] + Lines.Records(false, Part(lines, lc, i))],
                    writtenPaths + [path], closed + 1)
  {
    var path := pathOf(i);
    var texts := ChunkTexts(Parts(lines, lc, i));
    var text := Lines.Records(false, Part(lines, lc, i));
    StoreOpen(m0, writtenPaths, texts, path);
    StoreWriteLast(m0, writtenPaths + [path], texts + [[]], text);
    assert (texts + [[]])[i := [] + text] == ChunkTexts(Parts(lines, lc, i + 1)) by {
      assert [] + text == text;
    }
    assert writtenPaths + [path] == PartPaths(i + 1, pathOf);
  }

  /** Fprintln of every line of `ls[start:end]` to `f`. */
  method WritePart(fs: SpyOpenFileFunc, f: NopWriteCloser, ls: seq<string>, start: nat, end: nat)
    requires start <= end <= |ls| && f.path in fs.m
    modifies fs
    ensures fs.m == old(fs.m)[f.path := old(fs.m)[f.path] + Lines.Records(false, ls[start..end])]
    ensures fs.closes == old(fs.closes)
  {
    ghost var m := fs.m;
    var j := start;
    assert Lines.Records(false, ls[start..j]) == [];
    assert m[f.path] + [] == m[f.path];
    while j < end
      invariant start <= j <= end
      invariant fs.m == m[f.path := m[f.path] + Lines.Records(false, ls[start..j])]
      invariant fs.closes == old(fs.closes)
    {
      ghost var done := Lines.Records(false, ls[start..j]);
      fs.Write(f, Lines.Record(false, ls[j]));
      assert (m[f.path] + done) + Lines.Record(false, ls[j]) == m[f.path] + (done + Lines.Record(false, ls[j]));
      assert ls[start..j + 1][..j - start] == ls[start..j];
      assert Lines.Records(false, ls[start..j + 1]) == Lines.Records(false, ls[start..j]) + Lines.Record(false, ls[j]);
      j := j + 1;
    }
  }

  /**
   * How the total-count split ends when the lines were read without error:
   * the first `j` files were made, and then either every file was, or the
   * file `j` could not be opened, or (only as written) file `j` was opened
   * and the slice of its lines panicked.
   */
  ghost predicate TotalCountOutcome(lines: seq<string>, totalCount: int, clamped: bool, pathOf: int -> string,
                                    refused: set<string>, m0: map<string, string>, m: map<string, string>,
                                    r: SplitOutcome, closed: nat, j: nat)
  {
    var t := Max(totalCount, 0);
    var lc := LinesPerFile(|lines|, totalCount);
    var ps := PartPaths(t, pathOf);
    var ts := ChunkTexts(Parts(lines, lc, t));
    && j <= t
    && (forall k :: 0 <= k < j ==> ps[k] !in refused && (clamped || !Overruns(|lines|, lc, k)))
    && (j < t ==>
          || (ps[j] in refused && r == Failed(ps[..j], OpenFailed(ps[j]))
              && m == Store(m0, ps[..j], ts[..j]) && closed == j)
          || (!clamped && ps[j] !in refused && Overruns(|lines|, lc, j) && r == Panicked
              && m == Store(m0, ps[..j + 1], ts[..j] + [[]]) && closed == j + 1))
    && (j == t ==> r == Split(ps) && m == Store(m0, ps, ts) && closed == t)
  }

  /**
   * SplitByTotalCount as written: every line is read first; a scan error
   * returns before any file is opened. File `i` gets the slice from
   * `i * lc`, which panics when that start lies past the last line (the
   * deferred Close still runs). A failed open returns the paths made so far.
   */
  method SplitByTotalCount(lines: seq<string>, scanFailed: bool, totalCount: int, pathOf: int -> string,
                           fs: SpyOpenFileFunc)
    returns (r: SplitOutcome, ghost closed: nat)
    modifies fs
    ensures fs.closes == old(fs.closes) + closed
    ensures scanFailed ==> r == Failed([], ScanFailed) && fs.m == old(fs.m) && closed == 0
    ensures !scanFailed ==>
      exists j: nat :: TotalCountOutcome(lines, totalCount, false, pathOf, fs.refused, old(fs.m), fs.m, r, closed, j)
  {
    ghost var m0 := fs.m;
    ghost var c0 := fs.closes;
    var ls := ReadAll(lines);
    closed := 0;
    if scanFailed {
      return Failed([], ScanFailed), closed;
    }
    var lineCount := LinesPerFile(|ls|, totalCount);
    var writtenPaths: seq<string> := [];
    var i := 0;
    while i < totalCount
      invariant 0 <= i <= Max(totalCount, 0)
      invariant TotalProgress(lines, lineCount, false, i, pathOf, fs.refused, m0, fs.m, writtenPaths, closed)
      invariant fs.closes == c0 + closed
    {
      var stop;
      stop, r, writtenPaths, closed := MakeFile(ls, lineCount, i, pathOf, fs, writtenPaths, closed, totalCount, m0);
      if stop {
        return;
      }
      i := i + 1;
    }
    r := Split(writtenPaths);
    TotalDone(lines, totalCount, false, pathOf, fs.refused, m0, fs.m, writtenPaths, closed);
  }

  /**
   * The body of the loop as written, for file `i`: open it, stopping with the
   * paths made so far if that fails; take the slice from `i * lc`, which
   * panics when it would start past the last line; write it and close.
   */
  method MakeFile(ls: seq<string>, lineCount: nat, i: nat, pathOf: int -> string, fs: SpyOpenFileFunc,
                  writtenPaths: seq<string>, ghost closed: nat, ghost totalCount: int, ghost m0: map<string, string>)
    returns (stop: bool, r: SplitOutcome, writtenPaths': seq<string>, ghost closed': nat)
    requires lineCount == LinesPerFile(|ls|, totalCount) && i < totalCount
    requires TotalProgress(ls, lineCount, false, i, pathOf, fs.refused, m0, fs.m, writtenPaths, closed)
    modifies fs
    ensures fs.closes == old(fs.closes) + (closed' - closed)
    ensures stop ==> TotalCountOutcome(ls, totalCount, false, pathOf, fs.refused, m0, fs.m, r, closed', i)
    ensures !stop ==> TotalProgress(ls, lineCount, false, i + 1, pathOf, fs.refused, m0, fs.m, writtenPaths', closed')
  {
    ghost var mi := fs.m;
    var filePath := pathOf(i);
    var f := fs.OpenFile(filePath, CreateWriteTruncate, FileMode);
    if f.None? {
      TotalOpenFailed(ls, totalCount, false, i, pathOf, fs.refused, m0, fs.m, writtenPaths, closed);
      return true, Failed(writtenPaths, OpenFailed(filePath)), writtenPaths, closed;
    }
    ghost var m1 := fs.m;
    assert m1 == if filePath in mi then mi else mi[filePath := []];
    MulMonotone(0, i, lineCount);
    OffsetIsProduct(i, lineCount);
    var start := i * lineCount;
    var end := Min(start + lineCount, |ls|);
    if start > end {
      var ok := fs.Close(f.value);
      assert Overruns(|ls|, lineCount, i);
      TotalPanicked(ls, totalCount, i, pathOf, fs.refused, m0, mi, writtenPaths, closed);
      return true, Panicked, writtenPaths, closed + 1;
    }
    assert !Overruns(|ls|, lineCount, i);
    PartIsSlice(ls, lineCount, i);
    WritePartAndClose(ls, lineCount, false, i, pathOf, fs, f.value, start, end, writtenPaths, closed, m0, mi);
    stop, r, writtenPaths', closed' := false, Split(writtenPaths), writtenPaths + [filePath], closed + 1;
  }

  /**
   * The end of an iteration that did not panic: write the part of file `i`
   * to the file just opened, then the deferred Close.
   */
  method WritePartAndClose(ls: seq<string>, lineCount: nat, clamped: bool, i: nat, pathOf: int -> string,
                           fs: SpyOpenFileFunc, f: NopWriteCloser, start: nat, end: nat,
                           ghost writtenPaths: seq<string>, ghost closed: nat, ghost m0: map<string, string>,
                           ghost mi: map<string, string>)
    requires start <= end <= |ls| && Part(ls, lineCount, i) == ls[start..end]
    requires clamped || !Overruns(|ls|, lineCount, i)
    requires TotalProgress(ls, lineCount, clamped, i, pathOf, fs.refused, m0, mi, writtenPaths, closed)
    requires f.path == pathOf(i) && f.path !in fs.refused
    requires fs.m == if f.path in mi then mi else mi[f.path := []]
    modifies fs
    ensures fs.closes == old(fs.closes) + 1
    ensures TotalProgress(ls, lineCount, clamped, i + 1, pathOf, fs.refused, m0, fs.m, writtenPaths + [f.path], closed + 1)
  {
    PartStep(ls, lineCount, clamped, i, pathOf, fs.refused, m0, mi, writtenPaths, closed);
    WritePart(fs, f, ls, start, end);
    var ok := fs.Close(f);
  }

  /**
   * SplitByTotalCount with the start of each slice cut to the number of
   * lines, like its end: files past the last line are made empty instead of
   * panicking.
   */
  method SplitByTotalCountClamped(lines: seq<string>, scanFailed: bool, totalCount: int, pathOf: int -> string,
                                  fs: SpyOpenFileFunc)
    returns (r: SplitOutcome, ghost closed: nat)
    modifies fs
    ensures fs.closes == old(fs.closes) + closed
    ensures scanFailed ==> r == Failed([], ScanFailed) && fs.m == old(fs.m) && closed == 0
    ensures !scanFailed ==>
      exists j: nat :: TotalCountOutcome(lines, totalCount, true, pathOf, fs.refused, old(fs.m), fs.m, r, closed, j)
  {
    ghost var m0 := fs.m;
    ghost var c0 := fs.closes;
    var ls := ReadAll(lines);
    closed := 0;
    if scanFailed {
      return Failed([], ScanFailed), closed;
    }
    var lineCount := LinesPerFile(|ls|, totalCount);
    var writtenPaths: seq<string> := [];
    var i := 0;
    while i < totalCount
      invariant 0 <= i <= Max(totalCount, 0)
      invariant TotalProgress(lines, lineCount, true, i, pathOf, fs.refused, m0, fs.m, writtenPaths, closed)
      invariant fs.closes == c0 + closed
    {
      var stop;
      stop, r, writtenPaths, closed := MakeClampedFile(ls, lineCount, i, pathOf, fs, writtenPaths, closed, totalCount, m0);
      if stop {
        return;
      }
      i := i + 1;
    }
    r := Split(writtenPaths);
    TotalDone(lines, totalCount, true, pathOf, fs.refused, m0, fs.m, writtenPaths, closed);
  }

  /** The body of the corrected loop: the slice for file `i` starts at `min(i * lc, len)`. */
  method MakeClampedFile(ls: seq<string>, lineCount: nat, i: nat, pathOf: int -> string, fs: SpyOpenFileFunc,
                         writtenPaths: seq<string>, ghost closed: nat, ghost totalCount: int, ghost m0: map<string, string>)
    returns (stop: bool, r: SplitOutcome, writtenPaths': seq<string>, ghost closed': nat)
    requires lineCount == LinesPerFile(|ls|, totalCount) && i < totalCount
    requires TotalProgress(ls, lineCount, true, i, pathOf, fs.refused, m0, fs.m, writtenPaths, closed)
    modifies fs
    ensures fs.closes == old(fs.closes) + (closed' - closed)
    ensures stop ==> TotalCountOutcome(ls, totalCount, true, pathOf, fs.refused, m0, fs.m, r, closed', i)
    ensures !stop ==> TotalProgress(ls, lineCount, true, i + 1, pathOf, fs.refused, m0, fs.m, writtenPaths', closed')
  {
    ghost var mi := fs.m;
    var filePath := pathOf(i);
    var f := fs.OpenFile(filePath, CreateWriteTruncate, FileMode);
    if f.None? {
      TotalOpenFailed(ls, totalCount, true, i, pathOf, fs.refused, m0, fs.m, writtenPaths, closed);
      return true, Failed(writtenPaths, OpenFailed(filePath)), writtenPaths, closed;
    }
    ghost var m1 := fs.m;
    assert m1 == if filePath in mi then mi else mi[filePath := []];
    MulMonotone(0, i, lineCount);
    OffsetIsProduct(i, lineCount);
    var start := Min(i * lineCount, |ls|);
    var end := Min(i * lineCount + lineCount, |ls|);
    assert Part(ls, lineCount, i) == ls[start..end];
    WritePartAndClose(ls, lineCount, true, i, pathOf, fs, f.value, start, end, writtenPaths, closed, m0, mi);
    stop, r, writtenPaths', closed' := false, Split(writtenPaths), writtenPaths + [filePath], closed + 1;
  }

  /** The scan loop of SplitByTotalCount: every line, in order. */
  method ReadAll(lines: seq<string>) returns (ls: seq<string>)
    ensures ls == lines
  {
    ls := [];
    var k := 0;
    while k < |lines|
      invariant k <= |lines| && ls == lines[..k]
    {
      ls := ls + [lines[k]];
      k := k + 1;
    }
  }

  /** The open of file `i` failed: the split ends with the paths made so far. */
  lemma TotalOpenFailed(lines: seq<string>, totalCount: int, clamped: bool, i: nat, pathOf: int -> string,
                        refused: set<string>, m0: map<string, string>, m: map<string, string>,
                        writtenPaths: seq<string>, closed: nat)
    requires i < totalCount && pathOf(i) in refused
    requires TotalProgress(lines, LinesPerFile(|lines|, totalCount), clamped, i, pathOf, refused, m0, m, writtenPaths, closed)
    ensures TotalCountOutcome(lines, totalCount, clamped, pathOf, refused, m0, m,
                              Failed(writtenPaths, OpenFailed(pathOf(i))), closed, i)
  {
    var lc := LinesPerFile(|lines|, totalCount);
    var t := Max(totalCount, 0);
    assert PartPaths(t, pathOf)[..i] == writtenPaths;
    assert ChunkTexts(Parts(lines, lc, t))[..i] == ChunkTexts(Parts(lines, lc, i));
  }

  /** File `i` was opened and its slice panicked: the spy holds its empty buffer. */
  lemma TotalPanicked(lines: seq<string>, totalCount: int, i: nat, pathOf: int -> string,
                      refused: set<string>, m0: map<string, string>, m: map<string, string>,
                      writtenPaths: seq<string>, closed: nat)
    requires i < totalCount && pathOf(i) !in refused
    requires Overruns(|lines|, LinesPerFile(|lines|, totalCount), i)
    requires TotalProgress(lines, LinesPerFile(|lines|, totalCount), false, i, pathOf, refused, m0, m, writtenPaths, closed)
    ensures TotalCountOutcome(lines, totalCount, false, pathOf, refused, m0,
                              if pathOf(i) in m then m else m[pathOf(i) := []], Panicked, closed + 1, i)
  {
    var lc := LinesPerFile(|lines|, totalCount);
    var t := Max(totalCount, 0);
    var ps := PartPaths(t, pathOf);
    var ts := ChunkTexts(Parts(lines, lc, t));
    assert ps[..i] == writtenPaths;
    assert ps[..i + 1] == writtenPaths + [pathOf(i)];
    assert ts[..i] == ChunkTexts(Parts(lines, lc, i));
    StoreOpen(m0, writtenPaths, ts[..i], pathOf(i));
  }

  /** Every file was made. */
  lemma TotalDone(lines: seq<string>, totalCount: int, clamped: bool, pathOf: int -> string,
                  refused: set<string>, m0: map<string, string>, m: map<string, string>,
                  writtenPaths: seq<string>, closed: nat)
    requires TotalProgress(lines, LinesPerFile(|lines|, totalCount), clamped, Max(totalCount, 0), pathOf,
                           refused, m0, m, writtenPaths, closed)
    ensures TotalCountOutcome(lines, totalCount, clamped, pathOf, refused, m0, m, Split(writtenPaths), closed, Max(totalCount, 0))
  {
  }

  /**
   * Five lines over four files, as written: whatever the spy's starting map,
   * the split panics at the fourth file once the first three are made.
   */
  lemma FiveLinesOverFourFilesPanic(lines: seq<string>, pathOf: int -> string, m0: map<string, string>,
                                    m: map<string, string>, r: SplitOutcome, closed: nat, j: nat)
    requires |lines| == 5
    requires TotalCountOutcome(lines, 4, false, pathOf, {}, m0, m, r, closed, j)
    ensures r == Panicked && j == 3
  {
    DivModUnique(8, 4, 2, 0);
    assert LinesPerFile(5, 4) == 2;
    assert Overruns(5, 2, 3);
  }

  /**
   * The corrected split never panics; when it makes every file on distinct
   * paths that the spy did not hold, each file holds its part of the lines,
   * the parts hold every line in order, and none holds more than
   * ceil(len / totalCount) lines.
   */
  lemma ClampedSplitFiles(lines: seq<string>, totalCount: int, pathOf: int -> string, refused: set<string>,
                          m0: map<string, string>, m: map<string, string>, r: SplitOutcome, closed: nat, j: nat)
    requires TotalCountOutcome(lines, totalCount, true, pathOf, refused, m0, m, r, closed, j)
    ensures r != Panicked
    ensures r.Split? && totalCount > 0 ==>
      var lc := LinesPerFile(|lines|, totalCount);
      var parts := Parts(lines, lc, totalCount);
      && Flatten(parts) == lines
      && (forall k :: 0 <= k < totalCount ==> |parts[k]| <= lc)
      && ((forall k :: 0 <= k < totalCount ==> pathOf(k) !in m0) && (forall a, b :: 0 <= a < b < totalCount ==> pathOf(a) != pathOf(b))
          ==> forall k :: 0 <= k < totalCount ==> pathOf(k) in m && m[pathOf(k)] == Lines.Records(false, parts[k]))
  {
    if r.Split? && totalCount > 0 {
      var lc := LinesPerFile(|lines|, totalCount);
      PartsCover(lines, totalCount);
      var ps := PartPaths(totalCount, pathOf);
      var ts := ChunkTexts(Parts(lines, lc, totalCount));
      assert j == totalCount && m == Store(m0, ps, ts);
      if (forall k :: 0 <= k < totalCount ==> pathOf(k) !in m0) && (forall a, b :: 0 <= a < b < totalCount ==> pathOf(a) != pathOf(b)) {
        StoreDistinct(m0, ps, ts);
        forall k | 0 <= k < totalCount
          ensures pathOf(k) in m && m[pathOf(k)] == Lines.Records(false, Parts(lines, lc, totalCount)[k])
        {
          assert ps[k] == pathOf(k);
          assert ts[k] == Lines.Records(false, Parts(lines, lc, totalCount)[k]);
        }
      }
    }
  }
}
