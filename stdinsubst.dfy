/**
 * stdinsubst: each replacement's file is read, the pairs are flattened into
 * the argument list of strings.NewReplacer, and the template read from
 * standard input is written out with the replacer applied.
 */
module StdinSubst {
  import opened Wrappers
  import opened GoStrings
  import opened TestableIO
  import opened StdinSubstOptions

  datatype SubstError = ReadFailed(path: string) | TemplateReadFailed

  /**
   * The first replacement whose file cannot be read; `files` maps each
   * readable path to its content.
   */
  function FirstUnreadable(rs: seq<Replacement>, files: map<string, string>): (r: Option<nat>)
    ensures r.Some? ==> r.value < |rs| && rs[r.value].after !in files && forall i :: 0 <= i < r.value ==> rs[i].after in files
    ensures r.None? ==> forall i :: 0 <= i < |rs| ==> rs[i].after in files
  {
    if rs == [] then None
    else if rs[0].after !in files then Some(0)
    else match FirstUnreadable(rs[1..], files) {
      case None => None
      case Some(k) => Some(k + 1)
    }
  }

  /** The replacements with each file path replaced by the file's content. */
  function Loaded(rs: seq<Replacement>, files: map<string, string>): (ls: seq<Replacement>)
    requires forall i :: 0 <= i < |rs| ==> rs[i].after in files
    ensures |ls| == |rs|
  {
    seq(|rs|, i requires 0 <= i < |rs| => Replacement(rs[i].before, files[rs[i].after]))
  }

  /**
   * The argument loop: argument `2i` is the string to replace and argument
   * `2i + 1` the content of the replacement's file; the first file that
   * cannot be read stops the loop.
   */
  method ReplacerArgs(rs: seq<Replacement>, files: map<string, string>) returns (args: seq<string>, failed: Option<nat>)
    ensures failed == FirstUnreadable(rs, files)
    ensures failed.None? ==> args == Flat(Loaded(rs, files))
  {
    var a := new string[|rs| * 2];
    var i := 0;
    while i < |rs|
      invariant i <= |rs|
      invariant forall k :: 0 <= k < i ==> rs[k].after in files
      invariant forall k :: 0 <= k < i ==> a[2 * k] == rs[k].before && a[2 * k + 1] == files[rs[k].after]
    {
      a[i * 2] := rs[i].before;
      if rs[i].after !in files {
        FirstUnreadableAt(rs, files, i);
        return a[..], Some(i);
      }
      a[i * 2 + 1] := files[rs[i].after];
      i := i + 1;
    }
    args := a[..];
    failed := None;
    FlatOfPairs(Loaded(rs, files), args);
  }

  lemma FirstUnreadableAt(rs: seq<Replacement>, files: map<string, string>, i: nat)
    requires i < |rs| && rs[i].after !in files && forall k :: 0 <= k < i ==> rs[k].after in files
    ensures FirstUnreadable(rs, files) == Some(i)
  {
  }

  /**
   * MainCommandByOptions after the Help and Version checks. A replacement
   * file that cannot be read, or a template that cannot be read, ends the
   * command before anything is written. `template` is None when reading
   * standard input fails.
   */
  method Substitute(rs: seq<Replacement>, files: map<string, string>, template: Option<string>, out: Buffer)
    returns (err: Option<SubstError>)
    modifies out
    ensures match FirstUnreadable(rs, files)
      case Some(i) => err == Some(ReadFailed(rs[i].after)) && out.text == old(out.text)
      case None =>
        if template.None? then err == Some(TemplateReadFailed) && out.text == old(out.text)
        else err == None && out.text == old(out.text) + Replace(Flat(Loaded(rs, files)), template.value)
  {
    var args, failed := ReplacerArgs(rs, files);
    if failed.Some? {
      return Some(ReadFailed(rs[failed.value].after));
    }
    if template.None? {
      return Some(TemplateReadFailed);
    }
    out.WriteString(Replace(args, template.value));
    err := None;
  }

  /** Without replacements the template is written as it is. */
  lemma NoReplacementsCopyTemplate(files: map<string, string>, template: string)
    ensures Replace(Flat(Loaded([], files)), template) == template
  {
    ReplaceWithoutPairs(template);
  }

  /**
   * With one replacement every occurrence of its string is replaced, left
   * to right and without overlaps, as strings.ReplaceAll does.
   */
  lemma OneReplacementReplacesEvery(before: string, path: string, files: map<string, string>, template: string)
    requires path in files
    ensures Replace(Flat(Loaded([Replacement(before, path)], files)), template) == ReplaceAll(template, before, files[path])
  {
    assert Flat(Loaded([Replacement(before, path)], files)) == [before, files[path]];
    SinglePairIsReplaceAll(before, files[path], template);
  }
}
