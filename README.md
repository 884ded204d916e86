# ImageScaler, modelled in Dafny

ImageScaler is a Java command-line tool. It reads a list of image paths, either from a
manifest file or from the positional arguments. It can download remote images into the
working directory, and it is meant to write a thumbnail and a full-size copy of each image.
This project models the parts of it that can be stated precisely, and proves what they do:

- **Manifest loading** (`FileUtils.loadPathsFromFile`), in `file_utils.dfy`. The file is a
  string in a map from readable paths to their text. `JavaIo.LineReader` is a class over
  that text whose `ReadLine` splits lines as `BufferedReader.readLine` does: a line ends
  at `\n`, `\r` or `\r\n`, and a last line without a terminator still counts. The loader
  is a method with the source's read loop. It is proved equal to the specification
  function `ReadManifest`, which gives `FileNotFound` for a path that cannot be opened and
  otherwise the trimmed non-blank lines in order. `JavaText.Trim` is `String.trim`: it
  strips leading and trailing characters up to U+0020. Its two index loops are written as
  two recursive functions that compute the same indices.
- **The download list** (`NetworkUtils.downloadFilesByURLs`), in `network_utils.dfy`. The
  URL parser and the network are an oracle (`Network`). The working directory is a
  `WorkingDirectory` object holding the set of file names present. The method has the
  source's `for` loop and is proved equal to the left fold `Run` of one-URL `Step`s.
  The lemmas then prove order, the bound on the result, skip-if-exists, failure
  isolation and the behaviour of a second call. The local name is
  `FilenameUtils.getName` of the URL's path (`GetName`): the text after the last `/` or `\`.
- **Argument validation and the start of `run`** (`ImageScaler.validateArgs`, `run`),
  in `image_scaler.dfy`:
  - A parsed command line is a map from the option names present to their values (if
    any), plus the positional arguments.
  - `File.getAbsolutePath`, `File.isDirectory` and the readable files come from a
    `FileSystem` value.
  - The validator is a method with the source's sequence of checks, none of them
    short-circuited. It returns the flag and the messages printed, in order.
    `Integer.parseInt` is `JavaText.ParseInt`, and `equalsIgnoreCase` is
    `JavaText.EqualsIgnoreCase`.
  - `Run` covers the empty-argument help path, the parse-failure path, the rejection
    path, the width defaults (150 and 400), and loading the manifest when `input-file`
    is given.
- **`ScaleResult`**, in `scaling.dfy`. It is an immutable datatype. Its time and byte fields are Java
  longs (`Long`, a 64-bit newtype), and `file` is a string. The getters of the Java class are the datatype's
  fields, so a field returns exactly the constructor's argument on every read.
  `getProcessingTimeInMillis` subtracts with 64-bit wrap-around.

`cli_options.dfy` holds the option names and defaults of `CLIOptions`, and
`wrappers.dfy` holds the `Option` and `Result` datatypes.

There are three points where the model departs from the code as written. The third, the
width casts in `run`, is recorded on the `ImageScaler.Run` line under "Left out".

- **Constant names.** `ImageScaler.java` refers to `CLIOptions.OPTION_IN_FILE`,
  `OPTION_THUMB_WIDTH` and `OPTION_FULL_WIDTH`, which `CLIOptions.java` does not declare.
  The model uses the declared constants with the same meaning: `OPTION_INPUT_FILE`
  (`input-file`), `THUMB_WIDTH` (`thumb-width`) and `FULL_WIDTH` (`full-width`).
- **The directory check.** The check at `ImageScaler.java:97` rejects unless full-out is
  *not* a directory (see Findings). `ValidateArgs` and `Run` therefore take a
  `DirectoryCheck` parameter:
  - `AsWritten` is the code as written.
  - `Intended` is the check the message describes: both outputs must be directories.

  Every other property is proved for both.

The model states its specification through these definitions, which carry no contract of
their own. The lemmas and methods in the table are about them:

- `JavaIo.Lines`: the successive results of `readLine` over a whole text (`utils/FileUtils.java:31`).
- `JavaText.EqualsIgnoreCase`: `String.equalsIgnoreCase` (`ImageScaler.java:90`).
- `FileUtils.ReadManifest`: what `loadPathsFromFile` returns for a path (`utils/FileUtils.java:27-37`).
- `NetworkUtils.Step` and `NetworkUtils.Run`: one iteration of the download loop, and the whole
  loop (`utils/NetworkUtils.java:36-52`).
- `ImageScaler.NoInputGiven`, `SameOutputDirs`, `OutputsRejected` and `WidthRejected`: the
  conditions of the five checks in `validateArgs` (`ImageScaler.java:80-125`).

In the source, `run` computes the manifest paths and never uses them. The model's `Run`
stops at the same point and returns the widths and the manifest outcome.

## Model

| member | source | states |
|---|---|---|
| `JavaText.TrimStart` | src/main/java/com/centumengineering/imagescaler/utils/FileUtils.java:32-33 | the start index of the trim stops at the end or at the first character above U+0020 |
| `JavaText.TrimEnd` | src/main/java/com/centumengineering/imagescaler/utils/FileUtils.java:32-33 | the end index of the trim stops at the start or after the last character above U+0020 |
| `JavaText.Trim` | src/main/java/com/centumengineering/imagescaler/utils/FileUtils.java:32-33 | `trim` never lengthens a string, and its result has no character up to U+0020 at either end |
| `JavaText.TrimStartSkipsTrimmable` | src/main/java/com/centumengineering/imagescaler/utils/FileUtils.java:32-33 | every character the start loop skips is at most U+0020 |
| `JavaText.TrimEndDropsTrimmable` | src/main/java/com/centumengineering/imagescaler/utils/FileUtils.java:32-33 | every character the end loop drops is at most U+0020 |
| `JavaText.TrimInterval` | src/main/java/com/centumengineering/imagescaler/utils/FileUtils.java:32-33 | the trim is one contiguous slice of the line, and everything cut off on either side is at most U+0020 |
| `JavaText.TrimOfTrimmed` | src/main/java/com/centumengineering/imagescaler/utils/FileUtils.java:33 | a string with nothing to strip at either end is its own trim |
| `JavaText.TrimIdempotent` | src/main/java/com/centumengineering/imagescaler/utils/FileUtils.java:33 | trimming twice gives the same as trimming once |
| `JavaText.TrimEmptyIff` | src/main/java/com/centumengineering/imagescaler/utils/FileUtils.java:32 | a line trims to the empty string exactly when every character in it is at most U+0020 |
| `JavaText.EqualsIgnoreCaseIffSameLowerCase` | src/main/java/com/centumengineering/imagescaler/ImageScaler.java:90 | two strings are equal ignoring case exactly when their lower-case forms are equal |
| `JavaText.ParseInt` | src/main/java/com/centumengineering/imagescaler/ImageScaler.java:104-108 | `parseInt` succeeds exactly when the text after an optional `-` or `+` is a non-empty string of decimal digits whose signed value lies in the 32-bit range, and the value returned is that signed value |
| `JavaText.Unsigned` | src/main/java/com/centumengineering/imagescaler/ImageScaler.java:106 | the digits are the whole text, or the text after its leading sign |
| `JavaText.ParseIntAcceptsNonCanonical` | src/main/java/com/centumengineering/imagescaler/ImageScaler.java:104-108 | `+5`, `007` and `-0` are accepted, as 5, 7 and 0 |
| `JavaText.ParseIntRejectsNonDigits` | src/main/java/com/centumengineering/imagescaler/ImageScaler.java:104-108 | `12x`, `0x`, the empty text, a lone `-` and ` 5` are rejected |
| `JavaText.ParseIntBounds` | src/main/java/com/centumengineering/imagescaler/ImageScaler.java:104-108 | -2147483648 is accepted and 2147483648, one past the largest int, is rejected |
| `JavaText.NatToStringDigits` | src/main/java/com/centumengineering/imagescaler/ImageScaler.java:106 | the decimal form of a natural number is a non-empty digit string whose value is that number |
| `JavaText.ParseIntOfToString` | src/main/java/com/centumengineering/imagescaler/ImageScaler.java:106 | `parseInt` reads back the decimal form of every 32-bit value, so every such width is accepted by its text |
| `JavaText.NatToStringOfDigits` | src/main/java/com/centumengineering/imagescaler/ImageScaler.java:106 | a digit string without a leading zero is the decimal form of its own value |
| `JavaText.ToStringOfParseInt` | src/main/java/com/centumengineering/imagescaler/ImageScaler.java:106 | conversely, an accepted text without `+`, leading zeros or `-0` is exactly the decimal form of the value parsed |
| `JavaIo.LineLength` | src/main/java/com/centumengineering/imagescaler/utils/FileUtils.java:31 | a line runs up to the first `\n` or `\r`, or to the end of the text, and holds no terminator |
| `JavaIo.TerminatorLength` | src/main/java/com/centumengineering/imagescaler/utils/FileUtils.java:31 | the terminator consumed after a line ends inside the text |
| `JavaIo.TerminatorText` | src/main/java/com/centumengineering/imagescaler/utils/FileUtils.java:31 | each terminator is one or two characters starting with a line-terminator character, and only LF starts with `\n` |
| `JavaIo.LinesShape` | src/main/java/com/centumengineering/imagescaler/utils/FileUtils.java:31 | no line read contains a terminator, and a text has no more lines than characters |
| `JavaIo.LinesOfJoin` | src/main/java/com/centumengineering/imagescaler/utils/FileUtils.java:31 | a text made from lines each followed by its own terminator (`\n`, `\r` or `\r\n`, mixed freely), plus an optional last unterminated line, reads back as exactly those lines, unless a lone `\r` is followed by an empty line ended by `\n` |
| `JavaIo.MixedTerminators` | src/main/java/com/centumengineering/imagescaler/utils/FileUtils.java:31 | lines ended by `\r\n`, `\n` and `\r` within one text, then an unterminated line, read back as those four lines |
| `JavaIo.LoneCrBeforeEmptyLfMerges` | src/main/java/com/centumengineering/imagescaler/utils/FileUtils.java:31 | a line ended by `\r` followed by an empty line ended by `\n` is the text `a\r\n`, which reads as one line: the excluded case of the round trip cannot be read back |
| `JavaIo.LineReader.constructor` | src/main/java/com/centumengineering/imagescaler/utils/FileUtils.java:29 | a new reader has the whole text still to read |
| `JavaIo.LineReader.ReadLine` | src/main/java/com/centumengineering/imagescaler/utils/FileUtils.java:31 | `readLine` returns null exactly at the end of the text; otherwise it returns the next line of the remaining text and consumes it with its terminator |
| `FileUtils.Entries` | src/main/java/com/centumengineering/imagescaler/utils/FileUtils.java:31-36 | there are never more entries than lines read |
| `FileUtils.LoadPathsFromFile` | src/main/java/com/centumengineering/imagescaler/utils/FileUtils.java:27-37 | the read loop returns `FileNotFound` for a path that cannot be opened, else exactly the entries of the file's lines |
| `FileUtils.EntriesAreTrimmed` | src/main/java/com/centumengineering/imagescaler/utils/FileUtils.java:32-33 | every entry is non-empty and equal to its own trim |
| `FileUtils.EntriesAppend` | src/main/java/com/centumengineering/imagescaler/utils/FileUtils.java:31-35 | the entries of two stretches of lines are the entries of the first followed by those of the second |
| `FileUtils.BlankLineContributesNothing` | src/main/java/com/centumengineering/imagescaler/utils/FileUtils.java:32 | an empty or whitespace-only line can be removed without changing the result |
| `FileUtils.EntriesOfTrimmed` | src/main/java/com/centumengineering/imagescaler/utils/FileUtils.java:32-33 | lines that are already non-empty and trimmed are returned unchanged |
| `FileUtils.Kept` | src/main/java/com/centumengineering/imagescaler/utils/FileUtils.java:31-35 | the indices of the lines kept all fall within the file |
| `FileUtils.KeptMatchesEntries` | src/main/java/com/centumengineering/imagescaler/utils/FileUtils.java:31-35 | entry k is the trim of the k-th kept line |
| `FileUtils.KeptIncreasing` | src/main/java/com/centumengineering/imagescaler/utils/FileUtils.java:31-35 | the kept lines are taken in file order |
| `FileUtils.KeptComplete` | src/main/java/com/centumengineering/imagescaler/utils/FileUtils.java:32 | every line whose trim is non-empty is kept |
| `FileUtils.EntriesInFileOrder` | src/main/java/com/centumengineering/imagescaler/utils/FileUtils.java:30-36 | the output is exactly the trimmed non-blank lines in file order: none reordered, duplicated or lost |
| `FileUtils.ManifestRoundTrip` | src/main/java/com/centumengineering/imagescaler/utils/FileUtils.java:27-37 | writing trimmed, non-empty entries one per line, each with any terminator, and loading the file gives back those entries |
| `NetworkUtils.GetName` | src/main/java/com/centumengineering/imagescaler/utils/NetworkUtils.java:39 | the local name is a suffix of the URL path with no `/` or `\`, and it is either the whole path or is preceded by one of them |
| `NetworkUtils.GetNameOfChild` | src/main/java/com/centumengineering/imagescaler/utils/NetworkUtils.java:39 | the name of `dir/name` is `name` |
| `NetworkUtils.StepEffect` | src/main/java/com/centumengineering/imagescaler/utils/NetworkUtils.java:38-46 | one URL adds its local name to the result exactly when the file exists at its turn or its download completes; files are never removed; an added name exists and is a bare name; a URL whose file exists at its turn is not downloaded and changes no file |
| `NetworkUtils.SameNameReused` | src/main/java/com/centumengineering/imagescaler/utils/NetworkUtils.java:40-46 | a URL following one that added a file of the same local name is not downloaded and returns that file a second time |
| `NetworkUtils.RunAppend` | src/main/java/com/centumengineering/imagescaler/utils/NetworkUtils.java:36 | the loop over two lists is the loop over the second, started where the first ended |
| `NetworkUtils.RunGrows` | src/main/java/com/centumengineering/imagescaler/utils/NetworkUtils.java:35-55 | the loop only appends: the result and the downloads started grow as prefixes, by at most one per URL, and no file is ever removed |
| `NetworkUtils.ResultBound` | src/main/java/com/centumengineering/imagescaler/utils/NetworkUtils.java:35-55 | the result has at most one file per input URL |
| `NetworkUtils.ResultFilesExist` | src/main/java/com/centumengineering/imagescaler/utils/NetworkUtils.java:39-46 | every returned file is a non-empty bare name present in the working directory afterwards |
| `NetworkUtils.Contributing` | src/main/java/com/centumengineering/imagescaler/utils/NetworkUtils.java:36-46 | the indices of the URLs that add a file all fall within the URL list |
| `NetworkUtils.ContributingMatchesResult` | src/main/java/com/centumengineering/imagescaler/utils/NetworkUtils.java:36-46 | result k is the local name of the k-th contributing URL |
| `NetworkUtils.ContributingIncreasing` | src/main/java/com/centumengineering/imagescaler/utils/NetworkUtils.java:36-46 | the contributing URLs are taken in list order |
| `NetworkUtils.ContributingExact` | src/main/java/com/centumengineering/imagescaler/utils/NetworkUtils.java:40-46 | a URL contributes exactly when, at its turn, its file exists or its download completes |
| `NetworkUtils.ResultInUrlOrder` | src/main/java/com/centumengineering/imagescaler/utils/NetworkUtils.java:36-46 | the returned files are the local names of the contributing URLs, in the order of their URLs, each chosen exactly when its file existed or its download completed |
| `NetworkUtils.MalformedUrlIgnored` | src/main/java/com/centumengineering/imagescaler/utils/NetworkUtils.java:38-48 | a malformed URL changes nothing: the call behaves as if it were absent, and the loop goes on |
| `NetworkUtils.FailedDownloadAddsNothing` | src/main/java/com/centumengineering/imagescaler/utils/NetworkUtils.java:43-52 | a failed download adds no entry, is recorded as attempted, and the loop continues with the remaining URLs |
| `NetworkUtils.RunIgnoresAttempted` | src/main/java/com/centumengineering/imagescaler/utils/NetworkUtils.java:36-52 | the result and the files do not depend on which downloads were started before |
| `NetworkUtils.ConnectFailureIsolated` | src/main/java/com/centumengineering/imagescaler/utils/NetworkUtils.java:43-52 | a download that fails before writing anything leaves every other URL's outcome as it would be without that URL |
| `NetworkUtils.TransferFailureLeavesPartialFile` | src/main/java/com/centumengineering/imagescaler/utils/NetworkUtils.java:40-52 | a transfer that breaks after creating the file adds no entry, but a later occurrence of the URL returns that file without a new download |
| `NetworkUtils.ExistingNeverDownloaded` | src/main/java/com/centumengineering/imagescaler/utils/NetworkUtils.java:40-43 | a URL whose file exists at the start is never downloaded |
| `NetworkUtils.ExistingReturned` | src/main/java/com/centumengineering/imagescaler/utils/NetworkUtils.java:40-46 | a URL whose file exists at the start has that file in the result |
| `NetworkUtils.SecondCallSkipsReturnedFiles` | src/main/java/com/centumengineering/imagescaler/utils/NetworkUtils.java:40-46 | on a second call over the same URLs, no URL whose file the first call returned is downloaded again, and that file is returned again, whatever the network does |
| `NetworkUtils.WorkingDirectory.constructor` | src/main/java/com/centumengineering/imagescaler/utils/NetworkUtils.java:40 | the working directory starts with the given files |
| `NetworkUtils.CopyUrlToFile` | src/main/java/com/centumengineering/imagescaler/utils/NetworkUtils.java:43 | `copyURLToFile` succeeds exactly when the body arrives into a named file; the file exists afterwards unless the connection failed first |
| `NetworkUtils.DownloadFilesByUrls` | src/main/java/com/centumengineering/imagescaler/utils/NetworkUtils.java:33-56 | the loop's result, the working directory afterwards and the downloads attempted are those of the specification `Run` |
| `ImageScaler.WellFormedHasOutputs` | src/main/java/com/centumengineering/imagescaler/CLIOptions.java:69-83 | a command line the parser accepts has values for both required output options |
| `ImageScaler.MessagesExact` | src/main/java/com/centumengineering/imagescaler/ImageScaler.java:78-126 | the messages printed are exactly those of the failing checks, and there are none only when no check fails |
| `ImageScaler.MessagesOrdered` | src/main/java/com/centumengineering/imagescaler/ImageScaler.java:78-126 | the messages come in the order of the checks, each at most once |
| `ImageScaler.AcceptedIffNoCheckFails` | src/main/java/com/centumengineering/imagescaler/ImageScaler.java:78-126 | the arguments pass exactly when none of the five checks fails |
| `ImageScaler.MessagesMeaning` | src/main/java/com/centumengineering/imagescaler/ImageScaler.java:78-126 | the messages are empty exactly when the arguments pass, name every failing check and no other, and keep check order |
| `ImageScaler.ValidateArgs` | src/main/java/com/centumengineering/imagescaler/ImageScaler.java:77-127 | every check runs whatever the earlier ones found; the result is true exactly when no check fails; each failing check prints its message once, in check order |
| `ImageScaler.CheckWidth` | src/main/java/com/centumengineering/imagescaler/ImageScaler.java:103-125 | a width option that is given but is not a 32-bit integer of at least 1 (a missing value included) clears the flag and prints its message; otherwise nothing changes |
| `ImageScaler.AcceptedWidthInRange` | src/main/java/com/centumengineering/imagescaler/ImageScaler.java:103-125 | after validation passes, every width option given parses to a value from 1 to 2^31-1 |
| `ImageScaler.SameOutputDirsIffSameLowerCase` | src/main/java/com/centumengineering/imagescaler/ImageScaler.java:87-94 | the outputs count as the same exactly when their absolute paths have the same lower-case form |
| `ImageScaler.AsWrittenRejectsDirectoryFullOut` | src/main/java/com/centumengineering/imagescaler/ImageScaler.java:97-101 | as written, validation can pass only when thumb-out is a directory and full-out is not |
| `ImageScaler.DirectoryCheckCounterexample` | src/main/java/com/centumengineering/imagescaler/ImageScaler.java:97-101 | a parseable command line with an input file and two distinct output directories is rejected as written and accepted with the intended check |
| `ImageScaler.IntendedAcceptsOnlyDirectories` | src/main/java/com/centumengineering/imagescaler/ImageScaler.java:96-101 | the intended directory check passes exactly when both outputs are directories |
| `ImageScaler.Run` | src/main/java/com/centumengineering/imagescaler/ImageScaler.java:30-67 | the help-only outcome `NoArguments` is returned exactly for zero arguments; otherwise a parse failure (which also prints help, `ImageScaler.java:64`), or else a rejection carrying exactly the failing checks; on acceptance the widths are 150 and 400 unless the option is given, in which case they are its parsed value, between 1 and 2^31-1; the manifest is loaded exactly when input-file is given |
| `Scaling.WrapLong` | src/main/java/com/centumengineering/imagescaler/scaling/ScaleResult.java:49 | the long that 64-bit arithmetic yields is congruent to the exact result modulo 2^64, and equals it when the result fits in a long |
| `Scaling.WrapLongUnique` | src/main/java/com/centumengineering/imagescaler/scaling/ScaleResult.java:49 | that long is the only one congruent to the exact result |
| `Scaling.ScaleResult.ProcessingTimeInMillis` | src/main/java/com/centumengineering/imagescaler/scaling/ScaleResult.java:48-50 | the processing time is endTime - startTime in long arithmetic: the exact difference whenever it fits in a long |
| `Scaling.ProcessingTimeNonNegative` | src/main/java/com/centumengineering/imagescaler/scaling/ScaleResult.java:48-50 | with non-negative times and end not before start, the time is exactly end - start and not negative |
| `Scaling.ProcessingTimeWrapsAround` | src/main/java/com/centumengineering/imagescaler/scaling/ScaleResult.java:48-50 | without that bound the subtraction overflows: from the least long to the greatest gives -1 |

## Left out

- `ScaleTask`: not part of this model. It relies on ImageIO and the Scalr resize library, computes the target height in floating point, and runs tasks concurrently.
- The `overwrite` option: it is declared but never read, so there is no behaviour to model.
- Real file and network I/O: streams, `copyURLToFile`, `File.exists`, `isDirectory` and `getAbsolutePath` are inputs or oracles. A readable file is its decoded text, so charset decoding is not modelled, and neither is an `IOException` raised part-way through reading a file.
- Logging and console output: `System.out` and `System.err` messages, `printHelp` and `main`. Only the identity of each validation message is modelled (`ArgError`).
- Argument parsing by commons-cli. `DefaultParser.parse` is an oracle. `WellFormed` states what a successful parse guarantees: only declared options, both required options present, and a value for every option that takes one. `getParsedOptionValue` for a width is modelled as `Integer.parseInt` of the option's text, because the library's conversion is not part of this model. The width options are declared with `.type(Integer.TYPE)` (`CLIOptions.java:41`, `:51`), the primitive `int` class. The type conversion of commons-cli has no case for it, and depending on the version it returns null or the text itself. So the `(Integer)` casts at `ImageScaler.java:42` and `:46` probably fail with a NullPointerException or a ClassCastException whenever a width is given and validation passes. That path is not modelled: the model's `Run` gives the parsed value there.
- ImageScaler.Run: a given width is taken to be its `parseInt` value. The exception the casts at `ImageScaler.java:42` and `:46` probably raise (see the commons-cli line) is not modelled.
- The reader left open by `loadPathsFromFile`: it is a resource leak, with no effect on the result.
- Java strings are UTF-16 code units. Here they are Dafny `char` sequences, compared character by character.
- JavaText.EqualsIgnoreCaseIffSameLowerCase: JavaText.EqualsIgnoreCase maps only ASCII letters between cases. So for paths with non-ASCII letters, ImageScaler.SameOutputDirs is weaker than Java's `equalsIgnoreCase`.
- JavaText.ParseInt: only the ASCII digits 0-9 are accepted. Java's `Character.digit` also accepts other Unicode decimal digits.
- NetworkUtils.Exists: the empty name is taken never to exist, as `new File("").exists()` is false on the JDKs of the code's time. A JDK on which the empty pathname behaves as the current directory would skip the download for a URL whose local name is empty, such as `http://host/dir/`, and return that empty name.
- NetworkUtils.Exists: the working directory is taken to be case-sensitive, so `File.exists` is exact membership of the name, and `Step` adds that exact name. On the case-insensitive file systems of Windows and macOS, `exists()` is also true for a case variant. For example, take `http://a/X.png` (fetched) followed by `http://b/x.png` (whose connection would fail). Java downloads once and returns `[X.png, x.png]`. The model starts two downloads and returns `["X.png"]`.
- NetworkUtils.GetName: the check by newer commons-io versions that rejects a path containing a NUL character is not modelled. That exception would be caught and the URL ignored.
- NetworkUtils.DownloadFilesByUrls: `new URL(s).getPath()` and the outcome of each download are an oracle, keyed by the URL text and fixed for one call. So a URL that appears twice always meets the same network behaviour within one call.

## Findings

| source | as written | input that shows it | evidently intended | confidence | as-written member | corrected member |
|---|---|---|---|---|---|---|
| src/main/java/com/centumengineering/imagescaler/ImageScaler.java:97 | validation fails unless thumb-out is a directory and full-out is not a directory | `--input-file urls.txt --thumb-out thumbs --full-out full`, where `thumbs` and `full` are two distinct existing directories: rejected with "must be directories" | fail unless both thumb-out and full-out are directories, as the comment and the message say | high; not executed | `ImageScaler.DirectoryCheckCounterexample` | `ImageScaler.IntendedAcceptsOnlyDirectories` |
