/**
 * stdinexec's per-record work: rendering the command for a record, and the
 * lines a worker copies from its child's output streams.
 */
module StdinExec {
  import opened GoStrings
  import opened TestableIO
  import Lines

  /** The placeholder a record replaces in the command template. */
  const Placeholder: string := "{}"

  /**
   * The command for one record: a clone of the template with every
   * placeholder in every argument replaced by the record. The template
   * itself is a value here and is never changed.
   */
  method RenderCommand(template: seq<string>, line: string) returns (command: seq<string>)
    ensures |command| == |template|
    ensures forall j :: 0 <= j < |template| ==> command[j] == ReplaceAll(template[j], Placeholder, line)
  {
    var a := new string[|template|](j requires 0 <= j < |template| => template[j]);
    for j := 0 to a.Length
      invariant forall k :: 0 <= k < j ==> a[k] == ReplaceAll(template[k], Placeholder, line)
      invariant forall k :: j <= k < a.Length ==> a[k] == template[k]
    {
      a[j] := ReplaceAll(a[j], Placeholder, line);
    }
    command := a[..];
  }

  /** An argument without a placeholder is passed on unchanged. */
  lemma PlainArgumentUnchanged(arg: string, line: string)
    requires !Contains(arg, Placeholder)
    ensures ReplaceAll(arg, Placeholder, line) == arg
  {
    ReplaceAllWithoutOccurrence(arg, Placeholder, line);
  }

  /** Replacing a pattern by itself gives the string back. */
  lemma {:induction false} ReplaceAllSelf(s: string, pat: string)
    requires pat != []
    ensures ReplaceAll(s, pat, pat) == s
    decreases |s|
  {
    if s != [] {
      if HasPrefix(s, pat) {
        ReplaceAllSelf(s[|pat|..], pat);
        assert s[..|pat|] + s[|pat|..] == s;
      } else {
        ReplaceAllSelf(s[1..], pat);
        assert [s[0]] + s[1..] == s;
      }
    }
  }

  /** The record `{}` renders every argument as the template has it. */
  lemma RenderPlaceholderRecord(template: seq<string>)
    ensures forall j :: 0 <= j < |template| ==> ReplaceAll(template[j], Placeholder, Placeholder) == template[j]
  {
    forall j | 0 <= j < |template|
      ensures ReplaceAll(template[j], Placeholder, Placeholder) == template[j]
    {
      ReplaceAllSelf(template[j], Placeholder);
    }
  }

  /**
   * The line worker `i` writes for a line `text` of its child's output: the
   * bare line when there is one worker, the line tagged with the worker's
   * number and a tab otherwise.
   */
  function OutputLine(parallel: int, i: nat, text: string): string {
    if parallel == 1 then text + "\n" else Itoa(i) + "\t" + text + "\n"
  }

  /** The tag in front of each line. */
  function Tag(parallel: int, i: nat): string {
    if parallel == 1 then "" else Itoa(i) + "\t"
  }

  /** Writing one output line: Fprintln, or the four WriteString calls. */
  method WriteOutputLine(parallel: int, i: nat, text: string, out: Buffer)
    modifies out
    ensures out.text == old(out.text) + OutputLine(parallel, i, text)
  {
    if parallel == 1 {
      out.WriteString(text + "\n");
    } else {
      ghost var before := out.text;
      var d := Itoa(i);
      out.WriteString(d);
      out.WriteString("\t");
      out.WriteString(text);
      out.WriteString("\n");
      assert out.text == before + d + "\t" + text + "\n";
    }
  }

  /**
   * With several workers a line names its worker: up to the first tab it is
   * the worker's number in decimal, and the text lies between that tab and
   * the final newline.
   */
  lemma OutputLineTag(parallel: int, i: nat, text: string)
    requires parallel != 1
    ensures var s := OutputLine(parallel, i, text);
      var k := Index(s, "\t");
      && k == |Itoa(i)|
      && IsDecimal(s[..k]) && Atoi(s[..k]) == i
      && s[k + 1..|s| - 1] == text
      && s[|s| - 1] == '\n'
  {
    var s := OutputLine(parallel, i, text);
    var d := Itoa(i);
    var k := |d|;
    assert s == d + "\t" + text + "\n";
    assert OccursAt(s, "\t", k);
    forall j: nat | j < k
      ensures !OccursAt(s, "\t", j)
    {
      assert s[j..j + 1] == [d[j]];
      assert '0' <= d[j] <= '9';
    }
    assert s[..k] == d;
    AtoiItoa(i);
    assert s[k + 1..|s| - 1] == text;
  }

  /** Everything worker `i` writes for the lines of one stream. */
  function OutputLines(parallel: int, i: nat, texts: seq<string>): string {
    if texts == [] then [] else OutputLines(parallel, i, texts[..|texts| - 1]) + OutputLine(parallel, i, texts[|texts| - 1])
  }

  /**
   * The scan loop over one of the child's streams. The standard output and
   * the standard error loops are the same loop, and both write to the tool's
   * standard output. `ok` is false when the stream's scanner failed after
   * the lines it yielded.
   */
  method CopyOutput(parallel: int, i: nat, texts: seq<string>, scanFailed: bool, out: Buffer) returns (ok: bool)
    modifies out
    ensures ok == !scanFailed
    ensures out.text == old(out.text) + OutputLines(parallel, i, texts)
  {
    var k := 0;
    while k < |texts|
      invariant k <= |texts|
      invariant out.text == old(out.text) + OutputLines(parallel, i, texts[..k])
    {
      WriteOutputLine(parallel, i, texts[k], out);
      assert texts[..k + 1][..k] == texts[..k];
      k := k + 1;
    }
    assert texts[..k] == texts;
    ok := !scanFailed;
  }

  /** The lines of a stream, each behind its tag. */
  function Tagged(parallel: int, i: nat, texts: seq<string>): (ts: seq<string>)
    ensures |ts| == |texts|
  {
    seq(|texts|, k requires 0 <= k < |texts| => Tag(parallel, i) + texts[k])
  }

  /** The output of a stream is its tagged lines, each a newline-terminated record. */
  lemma {:induction false} OutputLinesAreRecords(parallel: int, i: nat, texts: seq<string>)
    ensures OutputLines(parallel, i, texts) == Lines.Records(false, Tagged(parallel, i, texts))
    decreases |texts|
  {
    if texts != [] {
      var n := |texts| - 1;
      var ts := Tagged(parallel, i, texts);
      var line := Tag(parallel, i) + texts[n];
      OutputLinesAreRecords(parallel, i, texts[..n]);
      assert OutputLine(parallel, i, texts[n]) == Lines.Record(false, line);
      assert Lines.Records(false, ts) == Lines.Records(false, Tagged(parallel, i, texts[..n])) + Lines.Record(false, line) by {
        assert ts[..n] == Tagged(parallel, i, texts[..n]);
        assert ts[n] == line;
      }
    }
  }

  /**
   * Reading the tool's output back line by line gives every line the child
   * wrote, in order, each behind its tag; the scanner's lines never contain
   * a newline.
   */
  lemma OutputReadBack(parallel: int, i: nat, texts: seq<string>)
    requires Lines.NoTerminator(false, texts)
    ensures Lines.Unframe(false, OutputLines(parallel, i, texts)) == Tagged(parallel, i, texts)
  {
    OutputLinesAreRecords(parallel, i, texts);
    var ts := Tagged(parallel, i, texts);
    var tag := Tag(parallel, i);
    assert Lines.NoTerminator(false, ts) by {
      forall j, k | 0 <= j < |ts| && 0 <= k < |ts[j]|
        ensures ts[j][k] != Lines.Terminator(false)
      {
        if k >= |tag| {
          assert ts[j][k] == texts[j][k - |tag|];
        } else if parallel != 1 && k < |Itoa(i)| {
          assert IsDecimal(Itoa(i));
        }
      }
    }
    Lines.UnframeRecords(false, ts);
  }
}
