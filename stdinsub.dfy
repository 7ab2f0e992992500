/**
 * stdinsub: the records of the minuend that occur in none of the
 * subtrahends, in minuend order. Every input is a stream of records split
 * at NUL in null mode and at newlines otherwise; a stream is modelled as the
 * records its scanner yields and whether the scanner failed after them.
 */
module StdinSub {
  import opened Wrappers
  import opened TestableIO
  import Lines

  datatype Stream = Stream(records: seq<string>, scanFailed: bool)

  datatype SubError = SubtrahendScanFailed(index: nat) | MinuendScanFailed

  /** The records of `rs`, as a set. */
  function RecordSet(rs: seq<string>): (s: set<string>)
    ensures forall x :: x in s <==> x in rs
  {
    if rs == [] then {} else RecordSet(rs[..|rs| - 1]) + {rs[|rs| - 1]}
  }

  /** The records of all the streams in `subs`. */
  function Union(subs: seq<Stream>): set<string> {
    if subs == [] then {} else Union(subs[..|subs| - 1]) + RecordSet(subs[|subs| - 1].records)
  }

  /** A record is in the union exactly when some subtrahend holds it. */
  lemma {:induction false} UnionMembers(subs: seq<Stream>, x: string)
    ensures x in Union(subs) <==> exists i :: 0 <= i < |subs| && x in subs[i].records
    decreases |subs|
  {
    if subs != [] {
      var n := |subs| - 1;
      UnionMembers(subs[..n], x);
      if exists i :: 0 <= i < n && x in subs[..n][i].records {
        var i :| 0 <= i < n && x in subs[..n][i].records;
        assert x in subs[i].records;
      }
      if exists i :: 0 <= i < |subs| && x in subs[i].records {
        var i :| 0 <= i < |subs| && x in subs[i].records;
        if i < n {
          assert x in subs[..n][i].records;
        }
      }
    }
  }

  /** The records of `xs` not in `removed`, in order, duplicates included. */
  function Difference(xs: seq<string>, removed: set<string>): seq<string> {
    if xs == [] then []
    else
      var n := |xs| - 1;
      Difference(xs[..n], removed) + (if xs[n] in removed then [] else [xs[n]])
  }

  /** The index of the first failed subtrahend, if any. */
  function FirstFailed(subs: seq<Stream>): (r: Option<nat>)
    ensures r.Some? ==> r.value < |subs| && subs[r.value].scanFailed && forall i :: 0 <= i < r.value ==> !subs[i].scanFailed
    ensures r.None? ==> forall i :: 0 <= i < |subs| ==> !subs[i].scanFailed
  {
    if subs == [] then None
    else if subs[0].scanFailed then Some(0)
    else match FirstFailed(subs[1..]) {
      case None => None
      case Some(k) => Some(k + 1)
    }
  }

  /**
   * The subtrahend loop: every record of every subtrahend goes into the set
   * `m`, one stream after the other, until a stream's scanner fails.
   */
  method ReadSubtrahends(subs: seq<Stream>) returns (m: set<string>, failed: Option<nat>)
    ensures failed == FirstFailed(subs)
    ensures failed.None? ==> m == Union(subs)
  {
    m := {};
    var i := 0;
    while i < |subs|
      invariant i <= |subs|
      invariant m == Union(subs[..i])
      invariant forall k :: 0 <= k < i ==> !subs[k].scanFailed
    {
      m := AddRecords(m, subs[i].records);
      assert subs[..i + 1][..i] == subs[..i];
      if subs[i].scanFailed {
        FirstFailedAt(subs, i);
        return m, Some(i);
      }
      i := i + 1;
    }
    assert subs[..i] == subs;
    failed := None;
  }

  /** The scan loop over one subtrahend. */
  method AddRecords(m: set<string>, rs: seq<string>) returns (m': set<string>)
    ensures m' == m + RecordSet(rs)
  {
    m' := m;
    var j := 0;
    while j < |rs|
      invariant j <= |rs|
      invariant m' == m + RecordSet(rs[..j])
    {
      m' := m' + {rs[j]};
      assert rs[..j + 1][..j] == rs[..j];
      j := j + 1;
    }
    assert rs[..j] == rs;
  }

  lemma FirstFailedAt(subs: seq<Stream>, i: nat)
    requires i < |subs| && subs[i].scanFailed && forall k :: 0 <= k < i ==> !subs[k].scanFailed
    ensures FirstFailed(subs) == Some(i)
  {
  }

  /**
   * The minuend loop: every record not in `m` is written, followed by NUL
   * in null mode and by a newline otherwise.
   */
  method WriteDifference(nullMode: bool, ms: seq<string>, m: set<string>, out: Buffer)
    modifies out
    ensures out.text == old(out.text) + Lines.Records(nullMode, Difference(ms, m))
  {
    ghost var start := out.text;
    var k := 0;
    while k < |ms|
      invariant k <= |ms|
      invariant out.text == start + Lines.Records(nullMode, Difference(ms[..k], m))
    {
      KeepOrSkip(nullMode, ms, m, k, out, start);
      k := k + 1;
    }
    assert ms[..k] == ms;
  }

  /** One turn of the loop: record `k` is written when it is in no subtrahend. */
  method KeepOrSkip(nullMode: bool, ms: seq<string>, m: set<string>, k: nat, out: Buffer, ghost start: string)
    requires k < |ms| && out.text == start + Lines.Records(nullMode, Difference(ms[..k], m))
    modifies out
    ensures out.text == start + Lines.Records(nullMode, Difference(ms[..k + 1], m))
  {
    DifferenceRecordsStep(nullMode, ms, m, k);
    ghost var before := Lines.Records(nullMode, Difference(ms[..k], m));
    ghost var after := Lines.Records(nullMode, Difference(ms[..k + 1], m));
    if ms[k] !in m {
      WriteRecord(nullMode, ms[k], out);
      assert after == before + Lines.Record(nullMode, ms[k]);
      assert out.text == start + (before + Lines.Record(nullMode, ms[k]));
    } else {
      assert after == before;
    }
  }

  /** One more minuend record: written when it is in no subtrahend. */
  lemma DifferenceRecordsStep(nullMode: bool, ms: seq<string>, m: set<string>, k: nat)
    requires k < |ms|
    ensures ms[k] in m ==> Lines.Records(nullMode, Difference(ms[..k + 1], m)) == Lines.Records(nullMode, Difference(ms[..k], m))
    ensures ms[k] !in m ==>
      Lines.Records(nullMode, Difference(ms[..k + 1], m)) == Lines.Records(nullMode, Difference(ms[..k], m)) + Lines.Record(nullMode, ms[k])
  {
    DifferenceStep(ms, m, k);
    var kept := Difference(ms[..k], m);
    if ms[k] in m {
      assert kept + [] == kept;
    } else {
      RecordsPush(nullMode, kept, ms[k]);
    }
  }

  /** The two writes for a kept line: the line, then NUL in null mode or a newline. */
  method WriteRecord(nullMode: bool, x: string, out: Buffer)
    modifies out
    ensures out.text == old(out.text) + Lines.Record(nullMode, x)
  {
    out.WriteString(x);
    if nullMode {
      out.WriteString("\0");
    } else {
      out.WriteString("\n");
    }
  }

  /** The difference grows by line `k` exactly when it is kept. */
  lemma DifferenceStep(ms: seq<string>, m: set<string>, k: nat)
    requires k < |ms|
    ensures Difference(ms[..k + 1], m) == Difference(ms[..k], m) + (if ms[k] in m then [] else [ms[k]])
  {
    assert ms[..k + 1][..k] == ms[..k];
  }

  /** Writing one more record appends it. */
  lemma RecordsPush(nullMode: bool, xs: seq<string>, x: string)
    ensures Lines.Records(nullMode, xs + [x]) == Lines.Records(nullMode, xs) + Lines.Record(nullMode, x)
  {
    assert (xs + [x])[..|xs|] == xs;
  }

  /**
   * MainCommandByOptions from the choice of scanner on: the first
   * subtrahend that fails ends the command before any output; otherwise the
   * minuend's records not in any subtrahend are written, and a failure of the
   * minuend's scanner is reported after the records it yielded.
   */
  method Subtract(nullMode: bool, subs: seq<Stream>, minuend: Stream, out: Buffer) returns (err: Option<SubError>)
    modifies out
    ensures match FirstFailed(subs)
      case Some(i) => err == Some(SubtrahendScanFailed(i)) && out.text == old(out.text)
      case None =>
        && out.text == old(out.text) + Lines.Records(nullMode, Difference(minuend.records, Union(subs)))
        && err == (if minuend.scanFailed then Some(MinuendScanFailed) else None)
  {
    var m, failed := ReadSubtrahends(subs);
    if failed.Some? {
      return Some(SubtrahendScanFailed(failed.value));
    }
    WriteDifference(nullMode, minuend.records, m, out);
    err := if minuend.scanFailed then Some(MinuendScanFailed) else None;
  }

  /**
   * `xs` is `ys` with some elements left out: `idx` tells, in increasing
   * order, where in `ys` each element of `xs` comes from.
   */
  predicate SubsequenceAt(xs: seq<string>, ys: seq<string>, idx: seq<nat>) {
    && |idx| == |xs|
    && (forall k :: 0 <= k < |idx| ==> idx[k] < |ys| && xs[k] == ys[idx[k]])
    && (forall j, k :: 0 <= j < k < |idx| ==> idx[j] < idx[k])
  }

  /** Where in the minuend each output record comes from. */
  function Kept(xs: seq<string>, removed: set<string>): seq<nat> {
    if xs == [] then []
    else
      var n := |xs| - 1;
      Kept(xs[..n], removed) + (if xs[n] in removed then [] else [n])
  }

  /** The output is a subsequence of the minuend. */
  lemma {:induction false} DifferenceIsSubsequence(xs: seq<string>, removed: set<string>)
    ensures SubsequenceAt(Difference(xs, removed), xs, Kept(xs, removed))
    decreases |xs|
  {
    if xs != [] {
      var n := |xs| - 1;
      DifferenceIsSubsequence(xs[..n], removed);
    }
  }

  /**
   * Each record occurs in the output as often as in the minuend when no
   * subtrahend holds it, and not at all otherwise: duplicates are kept.
   */
  lemma {:induction false} DifferenceCounts(xs: seq<string>, removed: set<string>, x: string)
    ensures multiset(Difference(xs, removed))[x] == if x in removed then 0 else multiset(xs)[x]
    decreases |xs|
  {
    if xs != [] {
      var n := |xs| - 1;
      var front := xs[..n];
      var y := xs[n];
      DifferenceCounts(front, removed, x);
      assert xs == front + [y];
      CountSnoc(front, y, x);
      var d := Difference(front, removed);
      if y in removed {
        assert Difference(xs, removed) == d + [];
        assert d + [] == d;
      } else {
        assert Difference(xs, removed) == d + [y];
        CountSnoc(d, y, x);
      }
    }
  }

  lemma CountSnoc(s: seq<string>, y: string, x: string)
    ensures multiset(s + [y])[x] == multiset(s)[x] + (if y == x then 1 else 0)
  {
    assert multiset(s + [y]) == multiset(s) + multiset{y};
  }

  /** Without subtrahends every minuend record is written. */
  lemma {:induction false} NoSubtrahends(xs: seq<string>)
    ensures Union([]) == {} && Difference(xs, {}) == xs
    decreases |xs|
  {
    if xs != [] {
      NoSubtrahends(xs[..|xs| - 1]);
    }
  }
}
