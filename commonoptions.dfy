/**
 * Package `tools`: the options every tool shares. The flag set binds `-v`
 * and `-version`; the raw Help field is bound by no flag, and the tools
 * report `-h` through the flag package's ErrHelp instead.
 */
module CommonOptions {

  /** The flag values as parsed. */
  datatype CommonRawOptions = CommonRawOptions(help: bool, versionShort: bool, versionLong: bool)

  datatype CommonOptions = CommonOptions(help: bool, version: bool)

  /** HelpOption. */
  const HelpOption := CommonOptions(true, false)

  /**
   * How flag.Parse ended for a tool's flag set: it parsed, it met `-h` or
   * `-help` (ErrHelp), or it failed on a bad flag.
   */
  datatype ParseStatus = Parsed | HelpRequested | ParseFailed

  /**
   * How the tools resolve an option with two spellings: the value of the
   * preferred one when it is set (not the zero value), the other one otherwise.
   */
  function Prefer<T(==)>(preferred: T, other: T, unset: T): T {
    if preferred != unset then preferred else other
  }

  /**
   * ValidateCommonOptions. It never returns an error, so the model returns
   * the options only.
   */
  function ValidateCommonOptions(raw: CommonRawOptions): (r: CommonOptions)
    ensures r.help <==> raw.help
    ensures r.version <==> !raw.help && (raw.versionShort || raw.versionLong)
    ensures !(r.help && r.version)
    ensures !raw.help && !raw.versionShort && !raw.versionLong ==> r == CommonOptions(false, false)
  {
    if raw.help then HelpOption
    else if raw.versionShort || raw.versionLong then CommonOptions(false, true)
    else CommonOptions(false, false)
  }
}
