/**
 * ImageScaler.run and ImageScaler.validateArgs over a parsed command line.
 *
 * The commons-cli parser is an oracle from the argument list to a parsed command line,
 * and File.getAbsolutePath, File.isDirectory and the readable files are facts of the
 * file system passed in. The messages written to System.err are modelled as the list of
 * failed checks, in the order they are printed.
 */
module ImageScaler {
  import opened Wrappers
  import opened JavaText
  import opened CLIOptions
  import opened FileUtils

  /** A parsed command line: each option present, with its value if it has one, and the positional arguments. */
  datatype CommandLine = CommandLine(options: map<string, Option<string>>, args: seq<string>)
  {
    predicate HasOption(name: string) {
      name in options
    }

    /** getOptionValue: the option's value, or None (Java's null) when it is absent or has no value. */
    function OptionValue(name: string): Option<string> {
      if name in options then options[name] else None
    }
  }

  /** What File.getAbsolutePath and File.isDirectory answer, and the files that can be read with their text. */
  datatype FileSystem = FileSystem(absolutePath: string -> string, isDirectory: string -> bool, files: map<string, string>)

  /** Both output options carry a value, so the two File objects can be built. */
  predicate HasOutputs(cl: CommandLine) {
    cl.OptionValue(ThumbOut).Some? && cl.OptionValue(FullOut).Some?
  }

  /**
   * What DefaultParser.parse guarantees when it returns: only declared options occur, the
   * required ones are present, and every option that takes a value has one.
   */
  predicate WellFormed(cl: CommandLine) {
    && ThumbOut in cl.options && FullOut in cl.options
    && (forall name :: name in cl.options ==> TakesValue(name) || name == Overwrite)
    && (forall name :: name in cl.options && TakesValue(name) ==> cl.options[name].Some?)
  }

  lemma WellFormedHasOutputs(cl: CommandLine)
    requires WellFormed(cl)
    ensures HasOutputs(cl)
  {
  }

  // ------------------------------------------------------------------ the checks

  /** Neither an input file nor any positional file is given. */
  predicate NoInputGiven(cl: CommandLine) {
    !cl.HasOption(InputFile) && |cl.args| == 0
  }

  /** The two output directories have absolute paths that are equal ignoring case. */
  predicate SameOutputDirs(cl: CommandLine, fs: FileSystem)
    requires HasOutputs(cl)
  {
    EqualsIgnoreCase(fs.absolutePath(cl.OptionValue(ThumbOut).value), fs.absolutePath(cl.OptionValue(FullOut).value))
  }

  /**
   * The directory check: as written it rejects unless thumb-out is a directory and
   * full-out is not; the intended check rejects unless both are directories.
   */
  datatype DirectoryCheck = AsWritten | Intended

  predicate DirectoriesRejected(check: DirectoryCheck, thumbIsDir: bool, fullIsDir: bool) {
    match check
    case AsWritten => !thumbIsDir || fullIsDir
    case Intended => !thumbIsDir || !fullIsDir
  }

  predicate OutputsRejected(cl: CommandLine, fs: FileSystem, check: DirectoryCheck)
    requires HasOutputs(cl)
  {
    DirectoriesRejected(check, fs.isDirectory(cl.OptionValue(ThumbOut).value), fs.isDirectory(cl.OptionValue(FullOut).value))
  }

  /** A width option that is given but whose value is not a 32-bit integer of at least 1. */
  predicate WidthRejected(cl: CommandLine, name: string) {
    && cl.HasOption(name)
    && !(cl.OptionValue(name).Some? && ParseInt(cl.OptionValue(name).value).Some?
         && ParseInt(cl.OptionValue(name).value).value >= 1)
  }

  /** The message each failed check prints. */
  datatype ArgError = NoInput | SameOutputs | OutputsNotDirectories | BadThumbWidth | BadFullWidth

  /** The verdict of each check of validateArgs, true where the check fails. */
  datatype Checks = Checks(noInput: bool, sameOutputs: bool, notDirectories: bool, badThumbWidth: bool, badFullWidth: bool)

  function RunChecks(cl: CommandLine, fs: FileSystem, check: DirectoryCheck): Checks
    requires HasOutputs(cl)
  {
    Checks(NoInputGiven(cl), SameOutputDirs(cl, fs), OutputsRejected(cl, fs, check),
           WidthRejected(cl, ThumbWidth), WidthRejected(cl, FullWidth))
  }

  /** Whether the check that prints e fails. */
  predicate Failed(e: ArgError, c: Checks) {
    match e
    case NoInput => c.noInput
    case SameOutputs => c.sameOutputs
    case OutputsNotDirectories => c.notDirectories
    case BadThumbWidth => c.badThumbWidth
    case BadFullWidth => c.badFullWidth
  }

  predicate Fails(e: ArgError, cl: CommandLine, fs: FileSystem, check: DirectoryCheck)
    requires HasOutputs(cl)
  {
    Failed(e, RunChecks(cl, fs, check))
  }

  /** The position of each check in validateArgs. */
  function Rank(e: ArgError): nat {
    match e
    case NoInput => 0
    case SameOutputs => 1
    case OutputsNotDirectories => 2
    case BadThumbWidth => 3
    case BadFullWidth => 4
  }

  /** The arguments pass when no check fails. */
  predicate Accepted(cl: CommandLine, fs: FileSystem, check: DirectoryCheck)
    requires HasOutputs(cl)
  {
    && !NoInputGiven(cl)
    && !SameOutputDirs(cl, fs)
    && !OutputsRejected(cl, fs, check)
    && !WidthRejected(cl, ThumbWidth)
    && !WidthRejected(cl, FullWidth)
  }

  /** The message a check prints: its error when it fails, nothing otherwise. */
  function Report(e: ArgError, failed: bool): seq<ArgError> {
    if failed then [e] else []
  }

  /** The messages of all the checks, in the order they run. */
  function Messages(c: Checks): seq<ArgError> {
    Report(NoInput, c.noInput) + Report(SameOutputs, c.sameOutputs)
      + Report(OutputsNotDirectories, c.notDirectories)
      + Report(BadThumbWidth, c.badThumbWidth) + Report(BadFullWidth, c.badFullWidth)
  }

  predicate RankOrdered(s: seq<ArgError>) {
    forall k, m :: 0 <= k < m < |s| ==> Rank(s[k]) < Rank(s[m])
  }

  /** Every failing check is reported and nothing else is. */
  lemma MessagesExact(c: Checks)
    ensures forall e :: e in Messages(c) <==> Failed(e, c)
    ensures Messages(c) == [] <==>
      !c.noInput && !c.sameOutputs && !c.notDirectories && !c.badThumbWidth && !c.badFullWidth
  {
  }

  /** The messages come in the order of the checks, each at most once. */
  lemma MessagesOrdered(c: Checks)
    ensures RankOrdered(Messages(c))
  {
  }

  // ------------------------------------------------------------------ validateArgs

  /**
   * validateArgs: every check runs, whatever the earlier ones found; each failure clears
   * `valid` and prints its message. Returns the flag and the messages printed, in order.
   */
  method ValidateArgs(cl: CommandLine, fs: FileSystem, check: DirectoryCheck)
    returns (valid: bool, errors: seq<ArgError>)
    requires HasOutputs(cl)
    ensures errors == Messages(RunChecks(cl, fs, check))
    ensures valid <==> errors == []
    ensures valid <==> Accepted(cl, fs, check)
    ensures forall e :: e in errors <==> Fails(e, cl, fs, check)
    ensures forall k, m :: 0 <= k < m < |errors| ==> Rank(errors[k]) < Rank(errors[m])
  {
    ghost var c := RunChecks(cl, fs, check);
    valid := true;
    errors := [];
    if !cl.HasOption(InputFile) && |cl.args| == 0 {
      valid := false;
      errors := errors + [NoInput];
    }
    assert errors == Report(NoInput, c.noInput) && (valid <==> errors == []);

    var thumbFile := cl.OptionValue(ThumbOut).value;
    var fullFile := cl.OptionValue(FullOut).value;
    ghost var before := errors;
    if EqualsIgnoreCase(fs.absolutePath(thumbFile), fs.absolutePath(fullFile)) {
      valid := false;
      errors := errors + [SameOutputs];
    }
    assert errors == before + Report(SameOutputs, c.sameOutputs) && (valid <==> errors == []);

    before := errors;
    if DirectoriesRejected(check, fs.isDirectory(thumbFile), fs.isDirectory(fullFile)) {
      valid := false;
      errors := errors + [OutputsNotDirectories];
    }
    assert errors == before + Report(OutputsNotDirectories, c.notDirectories) && (valid <==> errors == []);

    valid, errors := CheckWidth(cl, ThumbWidth, BadThumbWidth, valid, errors);
    valid, errors := CheckWidth(cl, FullWidth, BadFullWidth, valid, errors);
    MessagesMeaning(cl, fs, check, errors);
  }

  /** What the printed messages say: exactly the failing checks, in order, none when accepted. */
  lemma MessagesMeaning(cl: CommandLine, fs: FileSystem, check: DirectoryCheck, errors: seq<ArgError>)
    requires HasOutputs(cl)
    requires errors == Messages(RunChecks(cl, fs, check))
    ensures errors == [] <==> Accepted(cl, fs, check)
    ensures forall e :: e in errors <==> Fails(e, cl, fs, check)
    ensures forall k, m :: 0 <= k < m < |errors| ==> Rank(errors[k]) < Rank(errors[m])
  {
    var c := RunChecks(cl, fs, check);
    MessagesExact(c);
    MessagesOrdered(c);
    AcceptedIffNoCheckFails(cl, fs, check);
  }

  /** The arguments are accepted exactly when none of the checks fails. */
  lemma AcceptedIffNoCheckFails(cl: CommandLine, fs: FileSystem, check: DirectoryCheck)
    requires HasOutputs(cl)
    ensures var c := RunChecks(cl, fs, check);
      Accepted(cl, fs, check) <==>
        !c.noInput && !c.sameOutputs && !c.notDirectories && !c.badThumbWidth && !c.badFullWidth
  {
  }

  /**
   * One width check of validateArgs (thumb-width and full-width run the same code):
   * parsedVal stays -1 when Integer.parseInt throws, and a value below 1 fails.
   */
  method CheckWidth(cl: CommandLine, name: string, e: ArgError, valid: bool, errors: seq<ArgError>)
    returns (valid': bool, errors': seq<ArgError>)
    ensures errors' == errors + Report(e, WidthRejected(cl, name))
    ensures valid' <==> valid && !WidthRejected(cl, name)
  {
    valid', errors' := valid, errors;
    if cl.HasOption(name) {
      var parsedVal := -1;
      var value := cl.OptionValue(name);
      if value.Some? {
        var parsed := ParseInt(value.value);
        if parsed.Some? {
          parsedVal := parsed.value;
        }
      }
      if parsedVal < 1 {
        valid' := false;
        errors' := errors' + [e];
      }
    }
  }

  // ------------------------------------------------------------------ properties

  /** Accepted width options hold a 32-bit value of at least 1. */
  lemma AcceptedWidthInRange(cl: CommandLine, fs: FileSystem, check: DirectoryCheck, name: string)
    requires HasOutputs(cl) && Accepted(cl, fs, check)
    requires name == ThumbWidth || name == FullWidth
    requires cl.HasOption(name)
    ensures cl.OptionValue(name).Some?
    ensures var w := ParseInt(cl.OptionValue(name).value); w.Some? && 1 <= w.value <= MaxInt
  {
  }

  /** The outputs count as the same exactly when their absolute paths have the same lower-case form. */
  lemma SameOutputDirsIffSameLowerCase(cl: CommandLine, fs: FileSystem)
    requires HasOutputs(cl)
    ensures SameOutputDirs(cl, fs) <==>
      LowerCase(fs.absolutePath(cl.OptionValue(ThumbOut).value))
        == LowerCase(fs.absolutePath(cl.OptionValue(FullOut).value))
  {
    EqualsIgnoreCaseIffSameLowerCase(fs.absolutePath(cl.OptionValue(ThumbOut).value),
                                     fs.absolutePath(cl.OptionValue(FullOut).value));
  }

  /** As written, validation can pass only when full-out is not a directory. */
  lemma AsWrittenRejectsDirectoryFullOut(cl: CommandLine, fs: FileSystem)
    requires HasOutputs(cl) && Accepted(cl, fs, AsWritten)
    ensures fs.isDirectory(cl.OptionValue(ThumbOut).value)
    ensures !fs.isDirectory(cl.OptionValue(FullOut).value)
  {
  }

  /**
   * A command line the program is meant to run: an input file and two distinct output
   * directories. As written it is rejected; with the intended check it is accepted.
   */
  lemma DirectoryCheckCounterexample() returns (cl: CommandLine, fs: FileSystem)
    ensures WellFormed(cl) && HasOutputs(cl)
    ensures fs.isDirectory(cl.OptionValue(ThumbOut).value) && fs.isDirectory(cl.OptionValue(FullOut).value)
    ensures !Accepted(cl, fs, AsWritten)
    ensures Accepted(cl, fs, Intended)
  {
    cl := CommandLine(map[InputFile := Some("urls.txt"), ThumbOut := Some("thumbs"), FullOut := Some("full")], []);
    fs := FileSystem(p => "/work/" + p, p => true, map[]);
    assert |fs.absolutePath("thumbs")| != |fs.absolutePath("full")|;
  }

  /** With the intended check, passing validation means both outputs are directories. */
  lemma IntendedAcceptsOnlyDirectories(cl: CommandLine, fs: FileSystem)
    requires HasOutputs(cl)
    ensures !OutputsRejected(cl, fs, Intended) <==>
      fs.isDirectory(cl.OptionValue(ThumbOut).value) && fs.isDirectory(cl.OptionValue(FullOut).value)
  {
  }

  // ------------------------------------------------------------------------- run

  /** The manifest step of run: no input file, its entries, or the IOException path. */
  datatype Manifest = NotGiven | Loaded(paths: seq<string>) | Unreadable(path: string)

  /**
   * How run ends: help for an empty argument list, help after a ParseException, the
   * messages of the failed checks, or the widths and the manifest it goes on with.
   */
  datatype Outcome =
    | NoArguments
    | ParseFailed
    | Rejected(errors: seq<ArgError>)
    | Configured(thumbWidth: int, fullWidth: int, manifest: Manifest)

  /** The parser returns a command line for a non-empty argument list. */
  predicate Parses(parse: seq<string> -> Option<CommandLine>, args: seq<string>) {
    |args| > 0 && parse(args).Some? && WellFormed(parse(args).value)
  }

  /** The width run goes on with: the default when the option is absent, else the parsed value. */
  predicate WidthChosen(cl: CommandLine, name: string, default: int, w: int) {
    && (!cl.HasOption(name) ==> w == default)
    && (cl.HasOption(name) ==> cl.OptionValue(name).Some? && ParseInt(cl.OptionValue(name).value) == Some(w))
  }

  method Run(args: seq<string>, parse: seq<string> -> Option<CommandLine>, fs: FileSystem, check: DirectoryCheck)
    returns (outcome: Outcome)
    ensures |args| == 0 <==> outcome == NoArguments
    ensures outcome == ParseFailed <==> |args| > 0 && !Parses(parse, args)
    ensures outcome.Rejected? || outcome.Configured? ==> Parses(parse, args) && HasOutputs(parse(args).value)
    ensures outcome.Rejected? ==> !Accepted(parse(args).value, fs, check)
    ensures outcome.Rejected? ==> forall e :: e in outcome.errors <==> Fails(e, parse(args).value, fs, check)
    ensures outcome.Configured? ==> Accepted(parse(args).value, fs, check)
    ensures Parses(parse, args) && HasOutputs(parse(args).value) && Accepted(parse(args).value, fs, check)
      ==> outcome.Configured?
    ensures outcome.Configured? ==>
      && WidthChosen(parse(args).value, ThumbWidth, DefaultThumbWidth, outcome.thumbWidth)
      && WidthChosen(parse(args).value, FullWidth, DefaultFullWidth, outcome.fullWidth)
      && 1 <= outcome.thumbWidth <= MaxInt && 1 <= outcome.fullWidth <= MaxInt
    ensures outcome.Configured? ==>
      var cl := parse(args).value;
      && (!cl.HasOption(InputFile) ==> outcome.manifest == NotGiven)
      && (cl.HasOption(InputFile) ==>
            match ReadManifest(fs.files, cl.OptionValue(InputFile).value)
            case Ok(paths) => outcome.manifest == Loaded(paths)
            case Err(_) => outcome.manifest == Unreadable(cl.OptionValue(InputFile).value))
  {
    if |args| == 0 {
      return NoArguments;
    }
    var parsed := parse(args);
    if parsed.None? || !WellFormed(parsed.value) {
      return ParseFailed;
    }
    var cl := parsed.value;
    WellFormedHasOutputs(cl);
    var valid, errors := ValidateArgs(cl, fs, check);
    if !valid {
      return Rejected(errors);
    }

    var thumbW := DefaultThumbWidth;
    if cl.HasOption(ThumbWidth) {
      AcceptedWidthInRange(cl, fs, check, ThumbWidth);
      thumbW := ParseInt(cl.OptionValue(ThumbWidth).value).value;
    }
    var fullW := DefaultFullWidth;
    if cl.HasOption(FullWidth) {
      AcceptedWidthInRange(cl, fs, check, FullWidth);
      fullW := ParseInt(cl.OptionValue(FullWidth).value).value;
    }

    var manifest := NotGiven;
    if cl.HasOption(InputFile) {
      assert TakesValue(InputFile);
      var inFile := cl.OptionValue(InputFile).value;
      var loaded := LoadPathsFromFile(fs.files, inFile);
      match loaded
      case Ok(paths) => manifest := Loaded(paths);
      case Err(_) => manifest := Unreadable(inFile);
    }
    return Configured(thumbW, fullW, manifest);
  }
}
