/**
 * Package `markdown`: splitting a Markdown document into sections.
 *
 * `Sections` is the specification: the lines grouped into sections, where a
 * line opens a new section when it is an ATX heading (`#...`) or when the
 * line after it is a setext underline (`===`, or `---` under a non-empty
 * line). The first section holds whatever precedes the first such line and
 * may be empty. `SplitBySections` is the one-line-lookahead loop of the
 * package, proved to write exactly these sections, each line followed by a
 * newline, one writer per section.
 */
module Markdown {
  import opened Wrappers
  import opened GoStrings
  import opened Sequences
  import opened TestableIO
  import Lines

  // ---------------------------------------------------------------------
  // The specification of the split
  // ---------------------------------------------------------------------

  /** The line after line `j` underlines it: `===`, or `---` under a non-empty line. */
  predicate Underlined(lines: seq<string>, j: nat)
    requires j < |lines|
  {
    j + 1 < |lines| && (HasPrefix(lines[j + 1], "===") || (HasPrefix(lines[j + 1], "---") && lines[j] != ""))
  }

  /** Line `j` opens a new section. */
  predicate StartsSection(lines: seq<string>, j: nat)
    requires j < |lines|
  {
    Underlined(lines, j) || HasPrefix(lines[j], "#")
  }

  /** Which lines open a section. */
  function Opens(lines: seq<string>): (o: seq<bool>)
    ensures |o| == |lines|
  {
    seq(|lines|, j requires 0 <= j < |lines| => StartsSection(lines, j))
  }

  /**
   * The first `k` lines in groups, a new group beginning at each line that
   * `opens` marks; the lines before the first marked one form the first group.
   */
  function Group(lines: seq<string>, opens: seq<bool>, k: nat): (g: seq<seq<string>>)
    requires |opens| == |lines| && k <= |lines|
    ensures |g| >= 1
  {
    if k == 0 then [[]]
    else
      var g := Group(lines, opens, k - 1);
      if opens[k - 1] then g + [[lines[k - 1]]]
      else g[..|g| - 1] + [g[|g| - 1] + [lines[k - 1]]]
  }

  /** The sections that the first `k` lines fall into. */
  function Sections(lines: seq<string>, k: nat): (g: seq<seq<string>>)
    requires k <= |lines|
    ensures |g| >= 1
  {
    Group(lines, Opens(lines), k)
  }

  /** The text written for each section: its lines, each followed by a newline. */
  function Rendered(g: seq<seq<string>>): (r: seq<string>)
    ensures |r| == |g|
  {
    seq(|g|, s requires 0 <= s < |g| => Lines.Records(false, g[s]))
  }

  /**
   * Positions, counted in lines of the whole input, at which the sections
   * after the first one begin.
   */
  function StartOffsets(g: seq<seq<string>>): set<nat> {
    if |g| <= 1 then {} else StartOffsets(g[..|g| - 1]) + {|Flatten(g[..|g| - 1])|}
  }

  /** Only the first group can be empty. */
  lemma {:induction false} GroupNonEmpty(lines: seq<string>, opens: seq<bool>, k: nat)
    requires |opens| == |lines| && k <= |lines|
    ensures forall s :: 1 <= s < |Group(lines, opens, k)| ==> Group(lines, opens, k)[s] != []
  {
    if k > 0 {
      GroupNonEmpty(lines, opens, k - 1);
      var g := Group(lines, opens, k - 1);
      var l := lines[k - 1];
      if opens[k - 1] {
        assert Group(lines, opens, k) == g + [[l]];
      } else {
        assert Group(lines, opens, k) == g[..|g| - 1] + [g[|g| - 1] + [l]];
      }
    }
  }

  /** Every line lands in exactly one group, in input order. */
  lemma {:induction false} GroupCoverInput(lines: seq<string>, opens: seq<bool>, k: nat)
    requires |opens| == |lines| && k <= |lines|
    ensures Flatten(Group(lines, opens, k)) == lines[..k]
  {
    if k > 0 {
      GroupCoverInput(lines, opens, k - 1);
      var g := Group(lines, opens, k - 1);
      var l := lines[k - 1];
      assert lines[..k] == lines[..k - 1] + [l];
      if opens[k - 1] {
        var h := g + [[l]];
        assert Group(lines, opens, k) == h;
        assert h[..|h| - 1] == g;
        assert Flatten(h) == Flatten(g) + [l];
      } else {
        var p := g[..|g| - 1];
        var last := g[|g| - 1];
        var h := p + [last + [l]];
        assert Group(lines, opens, k) == h;
        assert h[..|h| - 1] == p;
        assert Flatten(h) == Flatten(p) + (last + [l]);
        assert Flatten(g) == Flatten(p) + last;
      }
    }
  }

  /** The marked lines among the first `k`. */
  function Marked(opens: seq<bool>, k: nat): set<nat>
    requires k <= |opens|
  {
    set j: nat | j < k && opens[j]
  }

  lemma MarkedStep(opens: seq<bool>, k: nat)
    requires k < |opens|
    ensures Marked(opens, k + 1) == if opens[k] then Marked(opens, k) + {k} else Marked(opens, k)
  {
    if opens[k] {
      assert forall j :: j in Marked(opens, k + 1) <==> j in Marked(opens, k) + {k};
    } else {
      assert forall j :: j in Marked(opens, k + 1) <==> j in Marked(opens, k);
    }
  }

  lemma StartOffsetsAppend(g: seq<seq<string>>, l: string)
    requires |g| >= 1
    ensures StartOffsets(g + [[l]]) == StartOffsets(g) + {|Flatten(g)|}
  {
    var h := g + [[l]];
    assert h[..|h| - 1] == g;
  }

  lemma StartOffsetsExtendLast(g: seq<seq<string>>, l: string)
    requires |g| >= 1
    ensures StartOffsets(g[..|g| - 1] + [g[|g| - 1] + [l]]) == StartOffsets(g)
  {
    var h := g[..|g| - 1] + [g[|g| - 1] + [l]];
    if |g| >= 2 {
      assert h[..|h| - 1] == g[..|g| - 1];
    }
  }

  /** The groups after the first begin exactly at the marked lines. */
  lemma {:induction false} GroupStarts(lines: seq<string>, opens: seq<bool>, k: nat)
    requires |opens| == |lines| && k <= |lines|
    ensures StartOffsets(Group(lines, opens, k)) == Marked(opens, k)
  {
    if k == 0 {
      assert Marked(opens, 0) == {};
    } else {
      GroupStarts(lines, opens, k - 1);
      MarkedStep(opens, k - 1);
      var g := Group(lines, opens, k - 1);
      var l := lines[k - 1];
      if opens[k - 1] {
        assert Group(lines, opens, k) == g + [[l]];
        GroupCoverInput(lines, opens, k - 1);
        assert |Flatten(g)| == k - 1;
        StartOffsetsAppend(g, l);
      } else {
        assert Group(lines, opens, k) == g[..|g| - 1] + [g[|g| - 1] + [l]];
        StartOffsetsExtendLast(g, l);
      }
    }
  }

  /** The sections as a whole render to the input, each line newline-terminated. */
  lemma {:induction false} RenderedFlatten(g: seq<seq<string>>)
    ensures Flatten(Rendered(g)) == Lines.Records(false, Flatten(g))
    decreases |g|
  {
    if g != [] {
      var h := g[..|g| - 1];
      assert Rendered(g)[..|g| - 1] == Rendered(h);
      RenderedFlatten(h);
      Lines.RecordsAppend(false, Flatten(h), g[|g| - 1]);
    }
  }

  /**
   * The concatenation of the section texts is the input with a newline after
   * every line, including a last line that had none.
   */
  lemma SectionsRenderInput(lines: seq<string>)
    ensures Flatten(Rendered(Sections(lines, |lines|))) == Lines.Records(false, lines)
  {
    GroupCoverInput(lines, Opens(lines), |lines|);
    assert lines[..|lines|] == lines;
    RenderedFlatten(Sections(lines, |lines|));
  }

  /** Line `j` begins a section of the whole split exactly when it opens one. */
  lemma SectionStartsAt(lines: seq<string>, j: nat)
    requires j < |lines|
    ensures j in StartOffsets(Sections(lines, |lines|)) <==> StartsSection(lines, j)
  {
    GroupStarts(lines, Opens(lines), |lines|);
    assert j in Marked(Opens(lines), |lines|) <==> Opens(lines)[j];
  }

  /** A heading line always begins a section, the last line included. */
  lemma HeadingStartsSection(lines: seq<string>, j: nat)
    requires j < |lines| && HasPrefix(lines[j], "#")
    ensures j in StartOffsets(Sections(lines, |lines|))
  {
    SectionStartsAt(lines, j);
  }

  /** A line with a setext underline under it begins a section. */
  lemma UnderlinedStartsSection(lines: seq<string>, j: nat)
    requires j + 1 < |lines|
    requires HasPrefix(lines[j + 1], "===") || (HasPrefix(lines[j + 1], "---") && lines[j] != "")
    ensures j in StartOffsets(Sections(lines, |lines|))
  {
    SectionStartsAt(lines, j);
  }

  /**
   * `---` after an empty line is a horizontal rule: the empty line does not
   * begin a section, and neither does the rule unless it is itself underlined.
   */
  lemma HorizontalRuleNeverSplits(lines: seq<string>, j: nat)
    requires j + 1 < |lines| && lines[j] == "" && HasPrefix(lines[j + 1], "---")
    ensures j !in StartOffsets(Sections(lines, |lines|))
    ensures j + 1 in StartOffsets(Sections(lines, |lines|)) <==> Underlined(lines, j + 1)
  {
    SectionStartsAt(lines, j);
    SectionStartsAt(lines, j + 1);
    FirstCharDecides(lines[j + 1], "---", "#");
    FirstCharDecides(lines[j + 1], "---", "===");
  }

  /** Two prefixes that start differently cannot both be prefixes of one string. */
  lemma FirstCharDecides(s: string, p: string, q: string)
    requires HasPrefix(s, p) && p != [] && q != [] && p[0] != q[0]
    ensures !HasPrefix(s, q)
  {
    assert s[0] == s[..|p|][0];
  }

  /** Later lines only ever add to the last group or open new ones. */
  lemma {:induction false} GroupPrefix(lines: seq<string>, opens: seq<bool>, k: nat, k': nat)
    requires |opens| == |lines| && k <= k' <= |lines|
    ensures |Group(lines, opens, k)| <= |Group(lines, opens, k')|
    ensures forall s :: 0 <= s < |Group(lines, opens, k)| - 1 ==> Group(lines, opens, k')[s] == Group(lines, opens, k)[s]
    decreases k'
  {
    if k < k' {
      GroupPrefix(lines, opens, k, k' - 1);
      GroupStep(lines, opens, k' - 1);
    }
  }

  /** One more line leaves every group but the last untouched. */
  lemma GroupStep(lines: seq<string>, opens: seq<bool>, k: nat)
    requires |opens| == |lines| && k < |lines|
    ensures |Group(lines, opens, k)| <= |Group(lines, opens, k + 1)|
    ensures forall s :: 0 <= s < |Group(lines, opens, k)| - 1 ==> Group(lines, opens, k + 1)[s] == Group(lines, opens, k)[s]
  {
    var a := Group(lines, opens, k);
    if opens[k] {
      assert Group(lines, opens, k + 1) == a + [[lines[k]]];
    } else {
      assert Group(lines, opens, k + 1) == a[..|a| - 1] + [a[|a| - 1] + [lines[k]]];
    }
  }

  /**
   * When line `k` opens a section, the sections before it are final: they are
   * the first sections of the whole split.
   */
  lemma EarlierSectionsAreFinal(lines: seq<string>, k: nat)
    requires k < |lines| && StartsSection(lines, k)
    ensures |Sections(lines, k)| < |Sections(lines, |lines|)|
    ensures Rendered(Sections(lines, |lines|))[..|Sections(lines, k)|] == Rendered(Sections(lines, k))
  {
    GroupPrefix(lines, Opens(lines), k + 1, |lines|);
    var a := Sections(lines, k);
    var b := Sections(lines, |lines|);
    assert Sections(lines, k + 1) == a + [[lines[k]]];
    assert forall s :: 0 <= s < |a| ==> b[s] == Sections(lines, k + 1)[s];
    assert b[..|a|] == a;
  }

  lemma RenderedAppendSection(g: seq<seq<string>>, l: string)
    ensures Rendered(g + [[l]]) == Rendered(g) + [Lines.Record(false, l)]
  {
    var r := Rendered(g + [[l]]);
    assert Lines.Records(false, [l]) == Lines.Record(false, l) by {
      assert [l][..0] == [];
    }
    assert r[|g|] == Lines.Record(false, l);
    assert r[..|g|] == Rendered(g);
    assert r == r[..|g|] + [r[|g|]];
  }

  lemma RenderedExtendLast(g: seq<seq<string>>, l: string)
    requires |g| >= 1
    ensures var n := |g| - 1;
      Rendered(g[..n] + [g[n] + [l]]) == Rendered(g)[n := Rendered(g)[n] + Lines.Record(false, l)]
  {
    var n := |g| - 1;
    assert (g[n] + [l])[..|g[n]|] == g[n];
  }

  // ---------------------------------------------------------------------
  // The writer generator of the tests and the split loop
  // ---------------------------------------------------------------------

  /** One step of the writer protocol, in the order the split performs them. */
  datatype WriterCall = Requested(index: int) | Closed

  /** Writers 0, 1, ..., count - 1, each requested and closed before the next. */
  function Protocol(count: nat): seq<WriterCall> {
    if count == 0 then [] else Protocol(count - 1) + [Requested(count - 1), Closed]
  }

  /** The protocol requests indices without gaps and closes each writer before the next request. */
  lemma {:induction false} ProtocolShape(count: nat)
    ensures |Protocol(count)| == 2 * count
    ensures forall i :: 0 <= i < count ==> Protocol(count)[2 * i] == Requested(i) && Protocol(count)[2 * i + 1] == Closed
  {
    if count > 0 {
      ProtocolShape(count - 1);
      var p := Protocol(count - 1);
      assert Protocol(count) == p + [Requested(count - 1), Closed];
      forall i | 0 <= i < count
        ensures Protocol(count)[2 * i] == Requested(i) && Protocol(count)[2 * i + 1] == Closed
      {
        if i < count - 1 {
          assert Protocol(count)[2 * i] == p[2 * i];
          assert Protocol(count)[2 * i + 1] == p[2 * i + 1];
        }
      }
    }
  }

  /** The NopWriteCloser that the spy generator hands out, over its buffer number `index`. */
  datatype SpyWriter = SpyWriter(index: nat)

  /**
   * SpyWriterGenerator: each call appends a fresh buffer, here its content,
   * to `bs` and returns a writer over it. The spy of the tests never fails;
   * `refused` names the indices for which generation fails, so that the
   * split's error path can be stated. `log` records the calls made on the
   * generator and on its writers' Close, in order.
   */
  class SpyWriterGenerator {
    var bs: seq<string>
    ghost var log: seq<WriterCall>
    const refused: set<int>

    constructor (refused: set<int>)
      ensures bs == [] && log == [] && this.refused == refused
    {
      bs := [];
      log := [];
      this.refused := refused;
    }

    method Generate(n: int) returns (w: Option<SpyWriter>)
      modifies this
      ensures log == old(log) + [Requested(n)]
      ensures n in refused ==> w == None && bs == old(bs)
      ensures n !in refused ==> w == Some(SpyWriter(|old(bs)|)) && bs == old(bs) + [[]]
    {
      log := log + [Requested(n)];
      if n in refused {
        return None;
      }
      bs := bs + [[]];
      w := Some(SpyWriter(|bs| - 1));
    }

    /** NopWriteCloser.Write: forwards to the buffer; the other buffers are unchanged. */
    method Write(w: SpyWriter, p: string)
      requires w.index < |bs|
      modifies this
      ensures bs == old(bs)[w.index := old(bs)[w.index] + p] && log == old(log)
    {
      bs := bs[w.index := bs[w.index] + p];
    }

    /** NopWriteCloser.Close returns nil and leaves every buffer as it is. */
    method Close(w: SpyWriter) returns (ok: bool)
      modifies this
      ensures ok && bs == old(bs) && log == old(log) + [Closed]
    {
      log := log + [Closed];
      ok := true;
    }
  }

  /** Why a split stopped early. */
  datatype SplitError = WriterFailed(index: nat) | ScanFailed

  /**
   * The closure of the split: close the previous writer, if any, and ask for
   * writer `n`. Close never fails, so the close error branch of the source is
   * never taken.
   */
  method NextWriter(gen: SpyWriterGenerator, prev: Option<SpyWriter>, n: nat) returns (w: Option<SpyWriter>)
    modifies gen
    ensures gen.log == old(gen.log) + (if prev.Some? then [Closed] else []) + [Requested(n)]
    ensures n in gen.refused ==> w == None && gen.bs == old(gen.bs)
    ensures n !in gen.refused ==> w == Some(SpyWriter(|old(gen.bs)|)) && gen.bs == old(gen.bs) + [[]]
  {
    if prev.Some? {
      var closed := gen.Close(prev.value);
    }
    w := gen.Generate(n);
  }

  /** The two writes of one line: the line, then a newline. */
  method Emit(gen: SpyWriterGenerator, w: SpyWriter, line: string)
    requires w.index < |gen.bs|
    modifies gen
    ensures gen.bs == old(gen.bs)[w.index := old(gen.bs)[w.index] + Lines.Record(false, line)]
    ensures gen.log == old(gen.log)
  {
    gen.Write(w, line);
    gen.Write(w, "\n");
    assert old(gen.bs)[w.index] + line + "\n" == old(gen.bs)[w.index] + Lines.Record(false, line);
  }

  /**
   * The state of the split once the first `done` lines are written: after
   * the `base` buffers, the buffers hold the rendered sections of those lines,
   * `n` of them, the current writer is the last one, and the generator's log,
   * `log0` before the split, shows writers 0..n-1 requested and all but the
   * last closed.
   */
  ghost predicate Progress(lines: seq<string>, done: nat, bs: seq<string>, refused: set<int>, w: SpyWriter, n: nat,
                           log0: seq<WriterCall>, log: seq<WriterCall>, base: seq<string>)
    requires done <= |lines|
  {
    && n == |Sections(lines, done)|
    && bs == base + Rendered(Sections(lines, done))
    && w.index == |bs| - 1
    && (forall j :: 0 <= j < n ==> j !in refused)
    && log == log0 + Protocol(n - 1) + [Requested(n - 1)]
  }

  /**
   * How a split ended: the buffers after `base` hold the first `made`
   * rendered sections. Either writer `made` could not be created, and the
   * log stops at its request, or every section was written and every
   * writer closed, and the result is the scanner's error.
   */
  ghost predicate SplitEnded(lines: seq<string>, scanFailed: bool, refused: set<int>, base: seq<string>,
                             bs: seq<string>, err: Option<SplitError>, log0: seq<WriterCall>, log: seq<WriterCall>,
                             made: nat)
  {
    var g := Sections(lines, |lines|);
    && made <= |g|
    && bs == base + Rendered(g)[..made]
    && (forall i :: 0 <= i < made ==> i !in refused)
    && (made < |g| ==> made in refused && err == Some(WriterFailed(made)) && log == log0 + Protocol(made) + [Requested(made)])
    && (made == |g| ==> err == (if scanFailed then Some(ScanFailed) else None) && log == log0 + Protocol(made))
  }

  /** Closing writer `n - 1` and requesting writer `n` extends the protocol by one writer. */
  lemma ProtocolNext(log0: seq<WriterCall>, n: nat)
    requires n > 0
    ensures log0 + Protocol(n - 1) + [Requested(n - 1)] + [Closed, Requested(n)] == log0 + Protocol(n) + [Requested(n)]
  {
    assert Protocol(n) == Protocol(n - 1) + [Requested(n - 1), Closed];
  }

  /**
   * The first two branches of the loop, and the heading branch after it:
   * line `k` opens a section, so the current writer is closed, the next one
   * requested, and the line written to it. A refused request leaves the
   * buffers as they were, returns no writer and ends the split.
   */
  method OpenSection(lines: seq<string>, scanFailed: bool, k: nat, prevLine: string, gen: SpyWriterGenerator,
                     w: SpyWriter, n: nat, ghost log0: seq<WriterCall>, ghost base: seq<string>)
    returns (w': Option<SpyWriter>, n': nat)
    requires k < |lines| && prevLine == lines[k] && StartsSection(lines, k)
    requires Progress(lines, k, gen.bs, gen.refused, w, n, log0, gen.log, base)
    modifies gen
    ensures w'.None? ==> n' == n && SplitEnded(lines, scanFailed, gen.refused, base, gen.bs, Some(WriterFailed(n)), log0, gen.log, n)
    ensures w'.Some? ==> Progress(lines, k + 1, gen.bs, gen.refused, w'.value, n', log0, gen.log, base)
  {
    ghost var g := Sections(lines, k);
    w' := NextWriter(gen, Some(w), n);
    ProtocolNext(log0, n);
    if w'.None? {
      n' := n;
      Stopped(lines, k, gen.bs, base, n);
      return;
    }
    n' := n + 1;
    ghost var before := base + Rendered(g);
    assert gen.bs == before + [""] && w'.value.index == |before|;
    Emit(gen, w'.value, prevLine);
    ghost var r := Lines.Record(false, prevLine);
    assert "" + r == r;
    assert gen.bs == (before + [""])[|before| := r];
    assert gen.bs == before + [r];
    RenderedAppendSection(g, prevLine);
    assert Sections(lines, k + 1) == g + [[prevLine]];
  }

  /** The last branch of the loop: line `k` continues the current section. */
  method ContinueSection(lines: seq<string>, k: nat, prevLine: string, gen: SpyWriterGenerator, w: SpyWriter,
                         n: nat, ghost log0: seq<WriterCall>, ghost base: seq<string>)
    requires k < |lines| && prevLine == lines[k] && !StartsSection(lines, k)
    requires Progress(lines, k, gen.bs, gen.refused, w, n, log0, gen.log, base)
    modifies gen
    ensures Progress(lines, k + 1, gen.bs, gen.refused, w, n, log0, gen.log, base)
  {
    ghost var g := Sections(lines, k);
    Emit(gen, w, prevLine);
    RenderedExtendLast(g, prevLine);
    assert Sections(lines, k + 1) == g[..|g| - 1] + [g[|g| - 1] + [prevLine]];
  }

  /**
   * SplitBySections over the lines the scanner yields; `scanFailed` is the
   * scanner's error after the last line. On success the buffers hold exactly
   * the rendered sections and the generator's log shows every writer
   * requested in turn and closed before the next; when writer `made` cannot
   * be created, the buffers before it hold the first `made` sections and the
   * split stops at that request.
   */
  method SplitBySections(lines: seq<string>, scanFailed: bool, gen: SpyWriterGenerator)
    returns (err: Option<SplitError>)
    modifies gen
    ensures exists made: nat :: SplitEnded(lines, scanFailed, gen.refused, old(gen.bs), gen.bs, err, old(gen.log), gen.log, made)
  {
    ghost var base := gen.bs;
    ghost var log0 := gen.log;
    var n: nat := 0;
    var w := NextWriter(gen, None, n);
    assert gen.log == log0 + Protocol(0) + [Requested(0)];
    if w.None? {
      err := Some(WriterFailed(0));
      assert gen.bs == base + Rendered(Sections(lines, |lines|))[..0];
      assert SplitEnded(lines, scanFailed, gen.refused, base, gen.bs, err, log0, gen.log, 0);
      return;
    }
    n := 1;
    var hasPrevLine := false;
    var prevLine := "";
    var i := 0;
    ghost var done: nat := 0;
    while i < |lines|
      invariant 0 <= i <= |lines|
      invariant hasPrevLine <==> i > 0
      invariant i > 0 ==> prevLine == lines[i - 1] && done == i - 1
      invariant i == 0 ==> done == 0
      invariant w.Some? && Progress(lines, done, gen.bs, gen.refused, w.value, n, log0, gen.log, base)
    {
      var line := lines[i];
      if hasPrevLine {
        if HasPrefix(line, "===") || (HasPrefix(line, "---") && prevLine != "") {
          w, n := OpenSection(lines, scanFailed, i - 1, prevLine, gen, w.value, n, log0, base);
          if w.None? {
            err := Some(WriterFailed(n));
            return;
          }
        } else if HasPrefix(prevLine, "#") {
          w, n := OpenSection(lines, scanFailed, i - 1, prevLine, gen, w.value, n, log0, base);
          if w.None? {
            err := Some(WriterFailed(n));
            return;
          }
        } else {
          ContinueSection(lines, i - 1, prevLine, gen, w.value, n, log0, base);
        }
      }
      hasPrevLine := true;
      prevLine := line;
      done := i;
      i := i + 1;
    }
    if hasPrevLine {
      if HasPrefix(prevLine, "#") {
        w, n := OpenSection(lines, scanFailed, i - 1, prevLine, gen, w.value, n, log0, base);
        if w.None? {
          err := Some(WriterFailed(n));
          return;
        }
      } else {
        ContinueSection(lines, i - 1, prevLine, gen, w.value, n, log0, base);
      }
    }
    ghost var logBefore := gen.log;
    var closed := gen.Close(w.value);
    if scanFailed {
      err := Some(ScanFailed);
    } else {
      err := None;
    }
    Finished(lines, scanFailed, gen.refused, base, gen.bs, w.value, n, log0, logBefore, err);
  }

  /** A split stopped at line `k` has written the sections that precede it. */
  lemma Stopped(lines: seq<string>, k: nat, bs: seq<string>, base: seq<string>, n: nat)
    requires k < |lines| && StartsSection(lines, k)
    requires n == |Sections(lines, k)| && bs == base + Rendered(Sections(lines, k))
    ensures n < |Sections(lines, |lines|)| && bs == base + Rendered(Sections(lines, |lines|))[..n]
  {
    EarlierSectionsAreFinal(lines, k);
  }

  /** A split that wrote every line and closes its last writer ends with every section written. */
  lemma Finished(lines: seq<string>, scanFailed: bool, refused: set<int>, base: seq<string>, bs: seq<string>,
                 w: SpyWriter, n: nat, log0: seq<WriterCall>, log: seq<WriterCall>, err: Option<SplitError>)
    requires Progress(lines, |lines|, bs, refused, w, n, log0, log, base)
    requires err == (if scanFailed then Some(ScanFailed) else None)
    ensures SplitEnded(lines, scanFailed, refused, base, bs, err, log0, log + [Closed], n)
  {
    var g := Sections(lines, |lines|);
    assert Rendered(g)[..n] == Rendered(g);
    assert Protocol(n) == Protocol(n - 1) + [Requested(n - 1), Closed];
  }
}
