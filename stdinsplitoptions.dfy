/**
 * stdinsplit's option resolution once the flags are parsed: the long and
 * short spelling of each option, the required output directory, exactly one
 * of the two counts, and the default basename template.
 *
 * The flag values are named after the flags they are bound to. For the
 * template the source binds its `templateLong` variable to `-t` and its
 * `templateShort` to `-template`, so it is `-t` that wins.
 */
module StdinSplitOptions {
  import opened Wrappers
  import opened CommonOptions

  const DefaultTemplate: string := "%03d.txt"

  /** The values of stdinsplit's own flags after flag.Parse. */
  datatype Flags = Flags(
    nullMode: bool,  // -0
    t: string,       // -t
    template: string, // -template
    outDir: string,  // -out-dir
    o: string,       // -o
    l: int,          // -l
    lineCount: int,  // -line-count
    n: int,          // -n
    totalCount: int  // -total-count
  )

  datatype Options = Options(common: CommonOptions, nullMode: bool, outDir: string, template: string,
                             lineCount: int, totalCount: int)

  /** The errors ParseOptions reports; both count conditions share one message. */
  datatype OptionError = FlagError | OutDirRequired | OutDirUnusable | EitherCountRequired

  /** Options carrying only the common options, as the early returns build them. */
  function Only(common: CommonOptions): Options {
    Options(common, false, "", "", 0, 0)
  }

  /**
   * ParseOptions after flag.Parse. `outDirUsable` stands for the
   * stat-and-create step on the output directory, which is file-system I/O.
   */
  function ParseOptions(status: ParseStatus, raw: CommonRawOptions, flags: Flags, outDirUsable: bool)
    : (r: Result<Options, OptionError>)
    ensures status == HelpRequested ==> r == Ok(Only(HelpOption))
    ensures status == ParseFailed ==> r == Err(FlagError)
    ensures status == Parsed && ValidateCommonOptions(raw).version ==> r == Ok(Only(ValidateCommonOptions(raw)))
    // every full result names an output directory, exactly one count and a template
    ensures r.Ok? && status == Parsed && !r.value.common.version ==>
      && r.value.outDir != ""
      && (r.value.lineCount != 0 <==> r.value.totalCount == 0)
      && r.value.template != ""
    // the long spelling wins whenever it is set, the short one is used otherwise; `-t` wins over `-template`
    ensures r.Ok? && status == Parsed && !r.value.common.version ==>
      && r.value.common == ValidateCommonOptions(raw)
      && r.value.nullMode == flags.nullMode
      && (flags.outDir != "" ==> r.value.outDir == flags.outDir)
      && (flags.outDir == "" ==> r.value.outDir == flags.o)
      && (flags.lineCount != 0 ==> r.value.lineCount == flags.lineCount)
      && (flags.lineCount == 0 ==> r.value.lineCount == flags.l)
      && (flags.totalCount != 0 ==> r.value.totalCount == flags.totalCount)
      && (flags.totalCount == 0 ==> r.value.totalCount == flags.n)
      && (flags.t != "" ==> r.value.template == flags.t)
      && (flags.t == "" && flags.template != "" ==> r.value.template == flags.template)
      && (flags.t == "" && flags.template == "" ==> r.value.template == DefaultTemplate)
    // a parsed command line without -v succeeds exactly when no check fails
    ensures status == Parsed && !ValidateCommonOptions(raw).version ==>
      (r.Ok? <==>
        && Prefer(flags.outDir, flags.o, "") != "" && outDirUsable
        && (Prefer(flags.lineCount, flags.l, 0) == 0 <==> Prefer(flags.totalCount, flags.n, 0) != 0))
    // the errors, in the order they are checked
    ensures r == Err(OutDirRequired) <==>
      status == Parsed && !ValidateCommonOptions(raw).version && flags.outDir == "" && flags.o == ""
    ensures r == Err(EitherCountRequired) <==>
      && status == Parsed && !ValidateCommonOptions(raw).version
      && Prefer(flags.outDir, flags.o, "") != "" && outDirUsable
      && (Prefer(flags.lineCount, flags.l, 0) == 0 <==> Prefer(flags.totalCount, flags.n, 0) == 0)
    ensures r == Err(OutDirUnusable) <==>
      status == Parsed && !ValidateCommonOptions(raw).version && Prefer(flags.outDir, flags.o, "") != "" && !outDirUsable
  {
    match status
    case HelpRequested => Ok(Only(HelpOption))
    case ParseFailed => Err(FlagError)
    case Parsed =>
      var common := ValidateCommonOptions(raw);
      if common.version then Ok(Only(common))
      else
        var outDir := Prefer(flags.outDir, flags.o, "");
        if outDir == "" then Err(OutDirRequired)
        else if !outDirUsable then Err(OutDirUnusable)
        else
          var lineCount := Prefer(flags.lineCount, flags.l, 0);
          var totalCount := Prefer(flags.totalCount, flags.n, 0);
          if lineCount == 0 && totalCount == 0 then Err(EitherCountRequired)
          else if lineCount != 0 && totalCount != 0 then Err(EitherCountRequired)
          else
            var template := Prefer(flags.t, flags.template, "");
            var template := if template == "" then DefaultTemplate else template;
            Ok(Options(common, flags.nullMode, outDir, template, lineCount, totalCount))
  }
}
