/**
 * NetworkUtils.downloadFilesByURLs: for each URL string, derive the local file name
 * (the last segment of the URL's path), reuse the file when it already exists in the
 * working directory, otherwise download it; malformed URLs and failed downloads are
 * dropped and the loop goes on. The URL parser and the network are an oracle; the
 * working directory is the set of names of the entries that exist in it.
 */
module NetworkUtils {
  import opened Wrappers

  // ----------------------------------------------------- FilenameUtils.getName

  predicate IsPathSeparator(c: char) {
    c == '/' || c == '\\'
  }

  predicate NoPathSeparator(s: string) {
    forall k :: 0 <= k < |s| ==> !IsPathSeparator(s[k])
  }

  /** FilenameUtils.getName: the text after the last '/' or '\' (all of it if there is none). */
  function GetName(path: string): (name: string)
    ensures |name| <= |path| && name == path[|path| - |name|..]
    ensures NoPathSeparator(name)
    ensures |name| == |path| || IsPathSeparator(path[|path| - |name| - 1])
  {
    if path == [] || IsPathSeparator(path[|path| - 1]) then []
    else
      var name := GetName(path[..|path| - 1]) + [path[|path| - 1]];
      assert path[|path| - |name|..] == path[..|path| - 1][|path| - |name|..] + [path[|path| - 1]];
      name
  }

  /** The name of a file inside a directory is the file's own name. */
  lemma {:induction false} GetNameOfChild(dir: string, sep: char, name: string)
    requires IsPathSeparator(sep) && NoPathSeparator(name)
    ensures GetName(dir + [sep] + name) == name
  {
    var path := dir + [sep] + name;
    if name != [] {
      var init := name[..|name| - 1];
      assert path[..|path| - 1] == dir + [sep] + init;
      GetNameOfChild(dir, sep, init);
      assert init + [name[|name| - 1]] == name;
    }
  }

  // ------------------------------------------------------------ environment

  /** What copyURLToFile does with one URL: the whole body arrives; the connection fails
      before anything is written; or the transfer breaks after the file was created. */
  datatype FetchOutcome = Fetched | ConnectFailed | TransferFailed

  /**
   * `urlPath(s)` is `new URL(s).getPath()`, or None for a MalformedURLException;
   * `fetch(s)` is how a download of `s` ends during this call.
   */
  datatype Network = Network(urlPath: string -> Option<string>, fetch: string -> FetchOutcome)

  /** The local file a URL maps to, or None for a malformed URL. */
  function LocalName(net: Network, url: string): Option<string>
  {
    match net.urlPath(url)
    case None => None
    case Some(p) => Some(GetName(p))
  }

  /**
   * File.exists for a name in the working directory. The empty name is never a file, as
   * `new File("").exists()` is false on the JDKs this code was written for.
   */
  predicate Exists(files: set<string>, name: string) {
    name != [] && name in files
  }

  // ----------------------------------------------------------- specification

  /** The loop's state: newPaths so far, the working directory, and the URLs downloaded from. */
  datatype DownloadState = DownloadState(paths: seq<string>, files: set<string>, attempted: seq<string>)

  function Start(files: set<string>): DownloadState {
    DownloadState([], files, [])
  }

  /** One iteration of the loop, on one URL. */
  function Step(net: Network, st: DownloadState, url: string): DownloadState
  {
    match LocalName(net, url)
    case None => st
    case Some(name) =>
      if Exists(st.files, name) then st.(paths := st.paths + [name])
      else if name == [] then st.(attempted := st.attempted + [url])
      else
        match net.fetch(url)
        case Fetched => DownloadState(st.paths + [name], st.files + {name}, st.attempted + [url])
        case ConnectFailed => st.(attempted := st.attempted + [url])
        case TransferFailed => st.(files := st.files + {name}, attempted := st.attempted + [url])
  }

  /** The loop over `urls`, in order, from state `st`. */
  function Run(net: Network, urls: seq<string>, st: DownloadState): DownloadState
  {
    if urls == [] then st else Step(net, Run(net, urls[..|urls| - 1], st), urls[|urls| - 1])
  }

  /** Whether a URL adds its local name to the result when the directory is `files`. */
  predicate Contributes(net: Network, files: set<string>, url: string) {
    match LocalName(net, url)
    case None => false
    case Some(name) => Exists(files, name) || (name != [] && net.fetch(url) == Fetched)
  }

  // ------------------------------------------------------------- properties

  /** One URL adds its local name exactly when it contributes, and never removes a file. */
  lemma StepEffect(net: Network, st: DownloadState, url: string)
    ensures Step(net, st, url).paths
      == st.paths + (if Contributes(net, st.files, url) then [LocalName(net, url).value] else [])
    ensures st.files <= Step(net, st, url).files
    ensures Contributes(net, st.files, url) ==>
      Exists(Step(net, st, url).files, LocalName(net, url).value) && NoPathSeparator(LocalName(net, url).value)
    ensures LocalName(net, url).Some? && Exists(st.files, LocalName(net, url).value) ==>
      Step(net, st, url).attempted == st.attempted && Step(net, st, url).files == st.files
  {
  }

  /**
   * The existence test runs at each URL's own turn: a later URL with the same local name
   * as one that just added its file is not downloaded, and returns that file a second time.
   */
  lemma SameNameReused(net: Network, st: DownloadState, first: string, second: string)
    requires LocalName(net, first).Some? && LocalName(net, second) == LocalName(net, first)
    requires Contributes(net, st.files, first)
    ensures Run(net, [first, second], st).paths == st.paths + [LocalName(net, first).value, LocalName(net, first).value]
    ensures Run(net, [first, second], st).attempted == Step(net, st, first).attempted
    ensures Run(net, [first, second], st).files == Step(net, st, first).files
  {
    var mid := Step(net, st, first);
    assert [first, second][..1] == [first];
    assert Run(net, [first], st) == mid;
    StepEffect(net, st, first);
    StepEffect(net, mid, second);
  }

  /** The loop over a + b is the loop over b continued from where the loop over a ended. */
  lemma {:induction false} RunAppend(net: Network, a: seq<string>, b: seq<string>, st: DownloadState)
    ensures Run(net, a + b, st) == Run(net, b, Run(net, a, st))
  {
    if b == [] {
      assert a + b == a;
    } else {
      assert (a + b)[..|a + b| - 1] == a + b[..|b| - 1];
      RunAppend(net, a, b[..|b| - 1], st);
    }
  }

  /**
   * The loop only extends: earlier results stay a prefix of the result, existing files stay,
   * and each URL adds at most one result and at most one download.
   */
  lemma {:induction false} RunGrows(net: Network, urls: seq<string>, st: DownloadState)
    ensures var r := Run(net, urls, st);
      && st.paths <= r.paths && |r.paths| <= |st.paths| + |urls|
      && st.files <= r.files
      && st.attempted <= r.attempted && |r.attempted| <= |st.attempted| + |urls|
  {
    if urls != [] {
      RunGrows(net, urls[..|urls| - 1], st);
    }
  }

  /** At most one result per input URL. */
  lemma ResultBound(net: Network, urls: seq<string>, files: set<string>)
    ensures |Run(net, urls, Start(files)).paths| <= |urls|
  {
    RunGrows(net, urls, Start(files));
  }

  /** Every entry of a state's result is a bare, non-empty name present in its directory. */
  predicate PathsExist(st: DownloadState) {
    forall k :: 0 <= k < |st.paths| ==> Exists(st.files, st.paths[k]) && NoPathSeparator(st.paths[k])
  }

  /** Every returned file is a bare, non-empty name that exists in the working directory. */
  lemma {:induction false} ResultFilesExist(net: Network, urls: seq<string>, files: set<string>)
    ensures PathsExist(Run(net, urls, Start(files)))
  {
    if urls != [] {
      var init, url := urls[..|urls| - 1], urls[|urls| - 1];
      ResultFilesExist(net, init, files);
      var before := Run(net, init, Start(files));
      var r := Step(net, before, url);
      assert r == Run(net, urls, Start(files));
      StepEffect(net, before, url);
      forall k | 0 <= k < |r.paths|
        ensures Exists(r.files, r.paths[k]) && NoPathSeparator(r.paths[k])
      {
        if k < |before.paths| {
          assert r.paths[k] == before.paths[k];
        } else {
          assert Contributes(net, before.files, url);
          assert r.paths[k] == LocalName(net, url).value;
        }
      }
    }
  }

  /** The indices of the URLs that add their file to the result, in order. */
  function Contributing(net: Network, urls: seq<string>, files: set<string>): (idx: seq<nat>)
    ensures forall k :: 0 <= k < |idx| ==> idx[k] < |urls|
  {
    if urls == [] then []
    else
      var n := |urls| - 1;
      var before := Run(net, urls[..n], Start(files));
      Contributing(net, urls[..n], files) + (if Contributes(net, before.files, urls[n]) then [n] else [])
  }

  lemma {:induction false} ContributingMatchesResult(net: Network, urls: seq<string>, files: set<string>)
    ensures var idx, r := Contributing(net, urls, files), Run(net, urls, Start(files));
      && |idx| == |r.paths|
      && forall k :: 0 <= k < |idx| ==> LocalName(net, urls[idx[k]]) == Some(r.paths[k])
  {
    if urls != [] {
      var n := |urls| - 1;
      var init := urls[..n];
      ContributingMatchesResult(net, init, files);
      var prev, before := Contributing(net, init, files), Run(net, init, Start(files));
      var c := Contributes(net, before.files, urls[n]);
      var idx := prev + (if c then [n] else []);
      var paths := before.paths + (if c then [LocalName(net, urls[n]).value] else []);
      assert idx == Contributing(net, urls, files);
      StepEffect(net, before, urls[n]);
      assert paths == Run(net, urls, Start(files)).paths;
      forall k | 0 <= k < |idx|
        ensures LocalName(net, urls[idx[k]]) == Some(paths[k])
      {
        if k < |prev| {
          assert idx[k] == prev[k] && paths[k] == before.paths[k];
          assert init[prev[k]] == urls[prev[k]];
        }
      }
    }
  }

  predicate StrictlyIncreasing(s: seq<nat>) {
    forall k, m :: 0 <= k < m < |s| ==> s[k] < s[m]
  }

  lemma {:induction false} ContributingIncreasing(net: Network, urls: seq<string>, files: set<string>)
    ensures StrictlyIncreasing(Contributing(net, urls, files))
  {
    if urls != [] {
      var n := |urls| - 1;
      var init := urls[..n];
      ContributingIncreasing(net, init, files);
      var prev := Contributing(net, init, files);
      var idx := prev + (if Contributes(net, Run(net, init, Start(files)).files, urls[n]) then [n] else []);
      assert idx == Contributing(net, urls, files);
      forall k, m | 0 <= k < m < |idx|
        ensures idx[k] < idx[m]
      {
        if m < |prev| {
          assert idx[k] == prev[k] && idx[m] == prev[m];
        } else {
          assert idx[m] == n;
          assert idx[k] == prev[k] < |init|;
        }
      }
    }
  }

  lemma {:induction false} ContributingExact(net: Network, urls: seq<string>, files: set<string>)
    ensures forall j :: 0 <= j < |urls| ==>
      (j in Contributing(net, urls, files) <==> Contributes(net, Run(net, urls[..j], Start(files)).files, urls[j]))
  {
    if urls != [] {
      var n := |urls| - 1;
      var init := urls[..n];
      ContributingExact(net, init, files);
      var prev := Contributing(net, init, files);
      var c := Contributes(net, Run(net, init, Start(files)).files, urls[n]);
      var idx := prev + (if c then [n] else []);
      assert idx == Contributing(net, urls, files);
      forall j | 0 <= j < |urls|
        ensures j in idx <==> Contributes(net, Run(net, urls[..j], Start(files)).files, urls[j])
      {
        if j < n {
          assert init[j] == urls[j] && init[..j] == urls[..j];
          assert j in idx <==> j in prev;
        } else {
          assert urls[..j] == init;
          assert n !in prev;
        }
      }
    }
  }

  /**
   * The result lists the local files of the contributing URLs in the order of the URLs:
   * entry k comes from URL idx[k], the indices increase strictly, and a URL is chosen
   * exactly when its file existed at its turn or its download completed.
   */
  lemma ResultInUrlOrder(net: Network, urls: seq<string>, files: set<string>) returns (idx: seq<nat>)
    ensures var r := Run(net, urls, Start(files));
      && |idx| == |r.paths|
      && (forall k :: 0 <= k < |idx| ==> idx[k] < |urls| && LocalName(net, urls[idx[k]]) == Some(r.paths[k]))
      && StrictlyIncreasing(idx)
      && (forall j :: 0 <= j < |urls| ==> (j in idx <==> Contributes(net, Run(net, urls[..j], Start(files)).files, urls[j])))
  {
    idx := Contributing(net, urls, files);
    ContributingMatchesResult(net, urls, files);
    ContributingIncreasing(net, urls, files);
    ContributingExact(net, urls, files);
  }

  /** A malformed URL adds nothing and changes nothing: the call is as if it were absent. */
  lemma MalformedUrlIgnored(net: Network, a: seq<string>, url: string, b: seq<string>, st: DownloadState)
    requires net.urlPath(url).None?
    ensures Run(net, a + [url] + b, st) == Run(net, a + b, st)
  {
    assert (a + [url])[..|a|] == a;
    RunAppend(net, a + [url], b, st);
    RunAppend(net, a, b, st);
  }

  /**
   * A URL whose file does not exist and whose download fails adds no entry, and the loop
   * goes on with the URLs after it.
   */
  lemma FailedDownloadAddsNothing(net: Network, a: seq<string>, url: string, b: seq<string>, st: DownloadState)
    requires LocalName(net, url).Some?
    requires !Exists(Run(net, a, st).files, LocalName(net, url).value)
    requires LocalName(net, url).value == [] || net.fetch(url) != Fetched
    ensures Run(net, a + [url], st).paths == Run(net, a, st).paths
    ensures Run(net, a + [url], st).attempted == Run(net, a, st).attempted + [url]
    ensures Run(net, a + [url] + b, st) == Run(net, b, Run(net, a + [url], st))
  {
    assert (a + [url])[..|a|] == a;
    RunAppend(net, a + [url], b, st);
  }

  /** Two states that differ only in the download record lead to the same results. */
  lemma {:induction false} RunIgnoresAttempted(net: Network, urls: seq<string>, st1: DownloadState, st2: DownloadState)
    requires st1.paths == st2.paths && st1.files == st2.files
    ensures Run(net, urls, st1).paths == Run(net, urls, st2).paths
    ensures Run(net, urls, st1).files == Run(net, urls, st2).files
  {
    if urls != [] {
      RunIgnoresAttempted(net, urls[..|urls| - 1], st1, st2);
    }
  }

  /**
   * Failure isolation: a URL whose download fails before any file is written leaves every
   * other URL's outcome as it would be without it.
   */
  lemma ConnectFailureIsolated(net: Network, a: seq<string>, url: string, b: seq<string>, st: DownloadState)
    requires LocalName(net, url).Some?
    requires !Exists(Run(net, a, st).files, LocalName(net, url).value)
    requires LocalName(net, url).value == [] || net.fetch(url) == ConnectFailed
    ensures Run(net, a + [url] + b, st).paths == Run(net, a + b, st).paths
    ensures Run(net, a + [url] + b, st).files == Run(net, a + b, st).files
  {
    FailedDownloadAddsNothing(net, a, url, b, st);
    RunAppend(net, a, b, st);
    RunIgnoresAttempted(net, b, Run(net, a + [url], st), Run(net, a, st));
  }

  /**
   * A transfer that breaks after the file was created adds no entry but leaves the partial
   * file behind, and a later occurrence of the same URL returns that file without downloading.
   */
  lemma TransferFailureLeavesPartialFile(net: Network, a: seq<string>, url: string, st: DownloadState)
    requires LocalName(net, url).Some? && LocalName(net, url).value != []
    requires !Exists(Run(net, a, st).files, LocalName(net, url).value)
    requires net.fetch(url) == TransferFailed
    ensures Run(net, a + [url], st).paths == Run(net, a, st).paths
    ensures Run(net, a + [url, url], st).paths == Run(net, a, st).paths + [LocalName(net, url).value]
    ensures Run(net, a + [url, url], st).attempted == Run(net, a, st).attempted + [url]
  {
    assert (a + [url])[..|a|] == a;
    assert (a + [url, url])[..|a| + 1] == a + [url];
  }

  /** A URL whose file exists when the call starts is never downloaded during the call. */
  lemma {:induction false} ExistingNeverDownloaded(net: Network, urls: seq<string>, files: set<string>, url: string)
    requires LocalName(net, url).Some? && Exists(files, LocalName(net, url).value)
    ensures url !in Run(net, urls, Start(files)).attempted
  {
    if urls != [] {
      var init := urls[..|urls| - 1];
      ExistingNeverDownloaded(net, init, files, url);
      RunGrows(net, init, Start(files));
      var before := Run(net, init, Start(files));
      assert Exists(before.files, LocalName(net, url).value);
      var after := Step(net, before, urls[|urls| - 1]);
      assert after == Run(net, urls, Start(files));
      if urls[|urls| - 1] == url {
        assert after.attempted == before.attempted;
      } else {
        assert after.attempted <= before.attempted + [urls[|urls| - 1]];
      }
    }
  }

  /** A URL whose file exists when the call starts has that file in the result. */
  lemma {:induction false} ExistingReturned(net: Network, urls: seq<string>, files: set<string>, url: string)
    requires url in urls
    requires LocalName(net, url).Some? && Exists(files, LocalName(net, url).value)
    ensures LocalName(net, url).value in Run(net, urls, Start(files)).paths
  {
    var n := |urls| - 1;
    var init := urls[..n];
    RunGrows(net, init, Start(files));
    if urls[n] != url {
      assert url in init;
      ExistingReturned(net, init, files, url);
      RunGrows(net, [urls[n]], Run(net, init, Start(files)));
      assert [urls[n]][..0] == [];
    }
  }

  /**
   * Calling again on the same URLs, with a directory that still holds what the first call
   * left, downloads none of the URLs whose file the first call returned, and returns their
   * files again, whatever the network does the second time.
   */
  lemma SecondCallSkipsReturnedFiles(urlPath: string -> Option<string>, fetch1: string -> FetchOutcome,
                                     fetch2: string -> FetchOutcome, urls: seq<string>,
                                     files1: set<string>, files2: set<string>, url: string)
    requires Run(Network(urlPath, fetch1), urls, Start(files1)).files <= files2
    requires url in urls && LocalName(Network(urlPath, fetch1), url).Some?
    requires LocalName(Network(urlPath, fetch1), url).value in Run(Network(urlPath, fetch1), urls, Start(files1)).paths
    ensures url !in Run(Network(urlPath, fetch2), urls, Start(files2)).attempted
    ensures LocalName(Network(urlPath, fetch1), url).value in Run(Network(urlPath, fetch2), urls, Start(files2)).paths
  {
    var net1, net2 := Network(urlPath, fetch1), Network(urlPath, fetch2);
    ResultFilesExist(net1, urls, files1);
    assert LocalName(net2, url) == LocalName(net1, url);
    ExistingNeverDownloaded(net2, urls, files2, url);
    ExistingReturned(net2, urls, files2, url);
  }

  // ----------------------------------------------------------------- method

  /** The working directory the downloads go to. */
  class WorkingDirectory {
    var files: set<string>

    constructor (files: set<string>)
      ensures this.files == files
    {
      this.files := files;
    }
  }

  /**
   * FileUtils.copyURLToFile(url, file) from commons-io: opens the URL, then creates the
   * file and copies the body into it. Reports whether the whole body was written.
   */
  method CopyUrlToFile(net: Network, url: string, name: string, dir: WorkingDirectory) returns (ok: bool)
    modifies dir
    ensures ok <==> name != [] && net.fetch(url) == Fetched
    ensures dir.files == if name != [] && net.fetch(url) != ConnectFailed then old(dir.files) + {name} else old(dir.files)
  {
    var outcome := net.fetch(url);
    if name == [] || outcome == ConnectFailed {
      return false;
    }
    dir.files := dir.files + {name};
    ok := outcome == Fetched;
  }

  /** downloadFilesByURLs; `attempted` records the URLs a download was started for. */
  method DownloadFilesByUrls(net: Network, urls: seq<string>, dir: WorkingDirectory)
    returns (newPaths: seq<string>, ghost attempted: seq<string>)
    modifies dir
    ensures DownloadState(newPaths, dir.files, attempted) == Run(net, urls, Start(old(dir.files)))
  {
    newPaths, attempted := [], [];
    for i := 0 to |urls|
      invariant DownloadState(newPaths, dir.files, attempted) == Run(net, urls[..i], Start(old(dir.files)))
    {
      assert urls[..i + 1][..i] == urls[..i];
      var path := urls[i];
      match net.urlPath(path) {
        case None =>
          // MalformedURLException: the entry is ignored
        case Some(urlPath) =>
          var downloadedFile := GetName(urlPath);
          if Exists(dir.files, downloadedFile) {
            newPaths := newPaths + [downloadedFile];
          } else {
            attempted := attempted + [path];
            var ok := CopyUrlToFile(net, path, downloadedFile, dir);
            if ok {
              newPaths := newPaths + [downloadedFile];
            }
          }
      }
    }
    assert urls[..|urls|] == urls;
  }
}
