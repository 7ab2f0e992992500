/**
 * Package `lines`: writing records, each followed by a NUL byte in null mode
 * or by a newline otherwise. `Unframe` is the inverse framing that the record
 * scanners apply when these records are read back.
 */
module Lines {
  import opened TestableIO

  /** The record terminator: NUL in null mode, a newline otherwise. */
  function Terminator(nullMode: bool): char {
    if nullMode then '\0' else '\n'
  }

  /** What WriteLine writes for one line. */
  function Record(nullMode: bool, line: string): string {
    line + [Terminator(nullMode)]
  }

  /** What WriteLines writes for a list of lines. */
  function Records(nullMode: bool, lines: seq<string>): string {
    if lines == [] then [] else Records(nullMode, lines[..|lines| - 1]) + Record(nullMode, lines[|lines| - 1])
  }

  /** WriteLine: the line followed by NUL in null mode, by a newline (Fprintln) otherwise. */
  method WriteLine(nullMode: bool, line: string, w: Buffer) returns (ok: bool)
    modifies w
    ensures ok
    ensures w.text == old(w.text) + Record(nullMode, line)
  {
    if nullMode {
      w.WriteString(line);
      w.WriteString("\0");
    } else {
      w.WriteString(line + "\n");
    }
    ok := true;
  }

  /**
   * WriteLines: every line through WriteLine, in order. WriteLine never
   * fails, so the loop never takes its early error return.
   */
  method WriteLines(nullMode: bool, lines: seq<string>, w: Buffer) returns (ok: bool)
    modifies w
    ensures ok
    ensures w.text == old(w.text) + Records(nullMode, lines)
  {
    var i := 0;
    while i < |lines|
      invariant i <= |lines|
      invariant w.text == old(w.text) + Records(nullMode, lines[..i])
    {
      ok := WriteLine(nullMode, lines[i], w);
      assert lines[..i + 1][..i] == lines[..i];
      i := i + 1;
    }
    assert lines[..i] == lines;
    ok := true;
  }

  /** Writing a list is writing its two halves one after the other. */
  lemma {:induction false} RecordsAppend(nullMode: bool, xs: seq<string>, ys: seq<string>)
    ensures Records(nullMode, xs + ys) == Records(nullMode, xs) + Records(nullMode, ys)
    decreases |ys|
  {
    if ys == [] {
      assert xs + ys == xs;
    } else {
      var n := |ys| - 1;
      assert (xs + ys)[..|xs + ys| - 1] == xs + ys[..n];
      RecordsAppend(nullMode, xs, ys[..n]);
    }
  }

  /** Position of the first `t` in `s`, or |s| when there is none. */
  function FindChar(s: string, t: char): (j: nat)
    ensures j <= |s|
    ensures j < |s| ==> s[j] == t
    ensures forall i :: 0 <= i < j ==> s[i] != t
  {
    if s == [] || s[0] == t then 0 else 1 + FindChar(s[1..], t)
  }

  /**
   * Read records back: split at every terminator; a final piece without a
   * terminator is a record too, and nothing follows the last terminator.
   */
  function Unframe(nullMode: bool, s: string): seq<string>
    decreases |s|
  {
    if s == [] then []
    else
      var j := FindChar(s, Terminator(nullMode));
      if j == |s| then [s] else [s[..j]] + Unframe(nullMode, s[j + 1..])
  }

  predicate NoTerminator(nullMode: bool, lines: seq<string>) {
    forall i, k :: 0 <= i < |lines| && 0 <= k < |lines[i]| ==> lines[i][k] != Terminator(nullMode)
  }

  /** A record whose line holds no terminator reads back as that line. */
  lemma UnframeFirst(nullMode: bool, l: string, rest: string)
    requires forall i :: 0 <= i < |l| ==> l[i] != Terminator(nullMode)
    ensures Unframe(nullMode, Record(nullMode, l) + rest) == [l] + Unframe(nullMode, rest)
  {
    var s := Record(nullMode, l) + rest;
    assert forall i :: 0 <= i < |l| ==> s[i] == l[i];
    assert s[|l|] == Terminator(nullMode);
    assert FindChar(s, Terminator(nullMode)) == |l|;
    assert s[..|l|] == l;
    assert s[|l| + 1..] == rest;
  }

  /**
   * Reading back what WriteLines wrote gives the lines again, as long as no
   * line contains the terminator.
   */
  lemma {:induction false} UnframeRecords(nullMode: bool, lines: seq<string>)
    requires NoTerminator(nullMode, lines)
    ensures Unframe(nullMode, Records(nullMode, lines)) == lines
    decreases |lines|
  {
    if lines != [] {
      var rest := lines[1..];
      RecordsAppend(nullMode, [lines[0]], rest);
      assert [lines[0]] + rest == lines;
      assert Records(nullMode, [lines[0]]) == Record(nullMode, lines[0]) by {
        assert [lines[0]][..0] == [];
      }
      UnframeFirst(nullMode, lines[0], Records(nullMode, rest));
      assert NoTerminator(nullMode, rest) by {
        forall i, k | 0 <= i < |rest| && 0 <= k < |rest[i]| ensures rest[i][k] != Terminator(nullMode) {
          assert rest[i] == lines[i + 1];
        }
      }
      UnframeRecords(nullMode, rest);
    }
  }
}
