/**
 * stdinsubst's option resolution once the flags are parsed: the positional
 * arguments, taken two by two, are the replacements.
 */
module StdinSubstOptions {
  import opened Wrappers
  import opened CommonOptions

  /** A string to replace, and the path of the file holding its replacement. */
  datatype Replacement = Replacement(before: string, after: string)

  datatype Options = Options(common: CommonOptions, replacements: seq<Replacement>)

  datatype OptionError = FlagError | OddArguments

  /** Options carrying only the common options, as the early returns build them. */
  function Only(common: CommonOptions): Options {
    Options(common, [])
  }

  /** The replacements as the flat list [before0, after0, before1, after1, ...]. */
  function Flat(rs: seq<Replacement>): (args: seq<string>)
    ensures |args| == 2 * |rs|
  {
    if rs == [] then [] else Flat(rs[..|rs| - 1]) + [rs[|rs| - 1].before, rs[|rs| - 1].after]
  }

  lemma {:induction false} FlatAt(rs: seq<Replacement>, i: nat)
    requires i < |rs|
    ensures Flat(rs)[2 * i] == rs[i].before && Flat(rs)[2 * i + 1] == rs[i].after
    decreases |rs|
  {
    if i < |rs| - 1 {
      FlatAt(rs[..|rs| - 1], i);
    }
  }

  /**
   * The loop of ParseOptions: with `2k` positional arguments, `k`
   * replacements, the `i`th made of arguments `2i` and `2i + 1`.
   */
  method Pair(args: seq<string>) returns (rs: seq<Replacement>)
    requires |args| % 2 == 0
    ensures Flat(rs) == args
  {
    var replacements := new Replacement[|args| / 2];
    var i := 0;
    while i < |args|
      invariant 0 <= i <= |args| && i % 2 == 0
      invariant forall k :: 0 <= k < i / 2 ==> replacements[k] == Replacement(args[2 * k], args[2 * k + 1])
    {
      replacements[i / 2] := Replacement(args[i], args[i + 1]);
      i := i + 2;
    }
    rs := replacements[..];
    FlatOfPairs(rs, args);
  }

  /** The arguments whose even entries are the strings to replace and odd entries their replacements are Flat. */
  lemma {:induction false} FlatOfPairs(rs: seq<Replacement>, args: seq<string>)
    requires |args| == 2 * |rs|
    requires forall k :: 0 <= k < |rs| ==> args[2 * k] == rs[k].before && args[2 * k + 1] == rs[k].after
    ensures Flat(rs) == args
    decreases |rs|
  {
    if rs != [] {
      var n := |rs| - 1;
      var front := args[..2 * n];
      forall k | 0 <= k < n
        ensures front[2 * k] == rs[..n][k].before && front[2 * k + 1] == rs[..n][k].after
      {
      }
      FlatOfPairs(rs[..n], front);
      assert args == front + [args[2 * n], args[2 * n + 1]];
    }
  }

  /** Flattening is one-to-one, so the pairs `Pair` makes are the only ones that flatten to the arguments. */
  lemma FlatInjective(rs: seq<Replacement>, qs: seq<Replacement>)
    requires Flat(rs) == Flat(qs)
    ensures rs == qs
  {
    forall i | 0 <= i < |rs|
      ensures rs[i] == qs[i]
    {
      FlatAt(rs, i);
      FlatAt(qs, i);
    }
  }

  /**
   * ParseOptions after flag.Parse; `args` are the positional arguments. A
   * full result does not carry the common options.
   */
  method ParseOptions(status: ParseStatus, raw: CommonRawOptions, args: seq<string>)
    returns (r: Result<Options, OptionError>)
    ensures status == HelpRequested ==> r == Ok(Only(HelpOption))
    ensures status == ParseFailed ==> r == Err(FlagError)
    ensures status == Parsed && ValidateCommonOptions(raw).version ==> r == Ok(Only(ValidateCommonOptions(raw)))
    ensures status == Parsed && !ValidateCommonOptions(raw).version ==>
      && (r == Err(OddArguments) <==> |args| % 2 != 0)
      && (r.Ok? <==> |args| % 2 == 0)
      && (r.Ok? ==> r.value.common == CommonOptions(false, false) && Flat(r.value.replacements) == args)
  {
    match status
    case HelpRequested => return Ok(Only(HelpOption));
    case ParseFailed => return Err(FlagError);
    case Parsed =>
      var common := ValidateCommonOptions(raw);
      if common.version {
        return Ok(Only(common));
      }
      if |args| % 2 != 0 {
        return Err(OddArguments);
      }
      var replacements := Pair(args);
      r := Ok(Options(CommonOptions(false, false), replacements));
  }
}
