/**
 * stdinexec's option resolution once the flags are parsed: the degree of
 * parallelism and the command to run.
 */
module StdinExecOptions {
  import opened Wrappers
  import opened CommonOptions

  /** The values of stdinexec's own flags after flag.Parse. */
  datatype Flags = Flags(
    nullMode: bool, // -0
    p: int,         // -p
    parallel: int   // -parallel
  )

  datatype Options = Options(common: CommonOptions, commandAndArgs: seq<string>, nullMode: bool, parallel: int)

  datatype OptionError = FlagError | ParallelNotPositive | CommandRequired

  /** Options carrying only the common options, as the early returns build them. */
  function Only(common: CommonOptions): Options {
    Options(common, [], false, 0)
  }

  /**
   * ParseOptions after flag.Parse; `args` are the positional arguments.
   * `-parallel` wins over `-p` when it is non-zero, an unset value means 1
   * and a negative one is an error. A full result does not carry the common
   * options.
   */
  function ParseOptions(status: ParseStatus, raw: CommonRawOptions, flags: Flags, args: seq<string>)
    : (r: Result<Options, OptionError>)
    ensures status == HelpRequested ==> r == Ok(Only(HelpOption))
    ensures status == ParseFailed ==> r == Err(FlagError)
    ensures status == Parsed && ValidateCommonOptions(raw).version ==> r == Ok(Only(ValidateCommonOptions(raw)))
    // a full result runs the positional arguments with at least one worker
    ensures r.Ok? && status == Parsed && !ValidateCommonOptions(raw).version ==>
      && r.value.parallel >= 1
      && r.value.commandAndArgs == args && args != []
      && r.value.nullMode == flags.nullMode
      && r.value.common == CommonOptions(false, false)
      && (flags.parallel > 0 ==> r.value.parallel == flags.parallel)
      && (flags.parallel == 0 && flags.p > 0 ==> r.value.parallel == flags.p)
      && (flags.parallel == 0 && flags.p == 0 ==> r.value.parallel == 1)
    ensures status == Parsed && !ValidateCommonOptions(raw).version ==>
      (r.Ok? <==> Prefer(flags.parallel, flags.p, 0) >= 0 && args != [])
    ensures r == Err(ParallelNotPositive) <==>
      status == Parsed && !ValidateCommonOptions(raw).version && Prefer(flags.parallel, flags.p, 0) < 0
    ensures r == Err(CommandRequired) <==>
      status == Parsed && !ValidateCommonOptions(raw).version && Prefer(flags.parallel, flags.p, 0) >= 0 && args == []
  {
    match status
    case HelpRequested => Ok(Only(HelpOption))
    case ParseFailed => Err(FlagError)
    case Parsed =>
      var common := ValidateCommonOptions(raw);
      if common.version then Ok(Only(common))
      else
        var parallel := Prefer(flags.parallel, flags.p, 0);
        if parallel < 0 then Err(ParallelNotPositive)
        else if args == [] then Err(CommandRequired)
        else Ok(Options(CommonOptions(false, false), args, flags.nullMode, if parallel == 0 then 1 else parallel))
  }
}
