/**
 * The three processing paths of main.c: process_largest_file,
 * process_smallest_file and process_specified_file. Each picks a file,
 * reads it into a fresh movie list with process_file and hands the list to
 * create_directory_and_files.
 *
 * The environment is a value: what opendir/readdir/stat report, which
 * names access() finds, the contents of the files fopen can open for
 * reading, the number rand() gives, and how mkdir and fopen in append mode
 * fare.
 */
module Pipeline {
  import opened CLib
  import opened Records
  import opened RecordParser
  import opened OutputWriter
  import opened FileSelector

  /**
   * `listing` is the current directory in readdir order, None when opendir
   * fails; `existing` the names access(name, F_OK) accepts; `contents` the
   * files fopen(name, "r") opens, with their text; `suffix` is rand() % 100000;
   * `mkdirOk` says whether mkdir succeeds; `failsAt` the fopen(path, "a")
   * calls that fail, numbered from 0 in the order they are made.
   */
  datatype World = World(
    listing: Option<seq<Entry>>,
    existing: set<string>,
    contents: map<string, string>,
    suffix: nat,
    mkdirOk: bool,
    failsAt: set<nat>)

  /** How one processing request ends. */
  datatype RunResult =
    | CannotOpenDirectory
    | NoSuitableFile
    | FileNotFound(name: string)
    | Processed(name: string, count: int, output: WriteOutcome)

  /** What fopen(name, "r") gives: the file's text, or None for NULL. */
  function Open(w: World, name: string): Option<string>
  {
    if name in w.contents then Some(w.contents[name]) else None
  }

  /** The file main.c processes can be read, if it can be opened at all. */
  predicate Readable(w: World, name: string)
  {
    name in w.contents ==> WellFormed(w.contents[name])
  }

  /**
   * What processing `name` gives: process_file's count (-1 when fopen
   * fails), then create_directory_and_files on the movies read, which are
   * none when fopen failed.
   */
  function Run(w: World, name: string): (r: RunResult)
    requires Readable(w, name)
    ensures r.Processed? && r.name == name
    ensures r.count == -1 <==> name !in w.contents
  {
    match Open(w, name)
    case None => Processed(name, -1, Output([], w.suffix, w.mkdirOk, w.failsAt))
    case Some(text) =>
      Processed(name, |DataLines(text)|, Output(ParseFile(text).value, w.suffix, w.mkdirOk, w.failsAt))
  }

  /**
   * The common tail of the three paths: `Movie *head = NULL;`,
   * process_file, create_directory_and_files. The count process_file
   * returns is not looked at, so a file that cannot be opened still gets
   * an (empty) output directory.
   */
  method ProcessChosenFile(w: World, name: string) returns (r: RunResult)
    requires w.suffix < SuffixBound
    requires Readable(w, name)
    ensures r == Run(w, name)
  {
    var list := new MovieList();
    var content := Open(w, name);
    var count := ProcessFile(content, list);
    ghost var movies := if content.Some? then ParseFile(content.value).value else [];
    assert list.Contents == movies;
    var output := CreateDirectoryAndFiles(list, w.suffix, w.mkdirOk, w.failsAt);
    r := Processed(name, count, output);
  }

  /** process_largest_file. */
  method ProcessLargestFile(w: World) returns (r: RunResult)
    requires w.suffix < SuffixBound
    requires w.listing.Some? ==>
      forall k :: IsFirstLargest(w.listing.value, k) ==> Readable(w, w.listing.value[k].name)
    ensures w.listing.None? ==> r == CannotOpenDirectory
    ensures w.listing.Some? && NoCandidate(w.listing.value) ==> r == NoSuitableFile
    ensures w.listing.Some? && !NoCandidate(w.listing.value) ==>
      exists k :: IsFirstLargest(w.listing.value, k) && r == Run(w, w.listing.value[k].name)
  {
    if w.listing.None? {
      return CannotOpenDirectory;
    }
    var entries := w.listing.value;
    var chosen := SelectLargest(entries);
    if chosen.None? {
      return NoSuitableFile;
    }
    r := ProcessChosenFile(w, entries[chosen.value].name);
  }

  /** process_smallest_file. */
  method ProcessSmallestFile(w: World) returns (r: RunResult)
    requires w.suffix < SuffixBound
    requires w.listing.Some? ==>
      forall k :: IsFirstSmallest(w.listing.value, k) ==> Readable(w, w.listing.value[k].name)
    ensures w.listing.None? ==> r == CannotOpenDirectory
    ensures w.listing.Some? && NoCandidate(w.listing.value) ==> r == NoSuitableFile
    ensures w.listing.Some? && !NoCandidate(w.listing.value) ==>
      exists k :: IsFirstSmallest(w.listing.value, k) && r == Run(w, w.listing.value[k].name)
  {
    if w.listing.None? {
      return CannotOpenDirectory;
    }
    var entries := w.listing.value;
    var chosen := SelectSmallest(entries);
    if chosen.None? {
      return NoSuitableFile;
    }
    r := ProcessChosenFile(w, entries[chosen.value].name);
  }

  /** process_specified_file, given the name scanf read. */
  method ProcessSpecifiedFile(w: World, name: string) returns (r: RunResult)
    requires w.suffix < SuffixBound
    requires name in w.existing ==> Readable(w, name)
    ensures name !in w.existing ==> r == FileNotFound(name)
    ensures name in w.existing ==> r == Run(w, name)
  {
    if name !in w.existing {
      return FileNotFound(name);
    }
    r := ProcessChosenFile(w, name);
  }

  /**
   * A file that exists but cannot be opened is reported with count -1, and
   * an empty output directory is still created when mkdir succeeds.
   */
  lemma UnopenableFileLeavesEmptyDirectory(w: World, name: string)
    requires name !in w.contents
    ensures Run(w, name).count == -1
    ensures w.mkdirOk ==> Run(w, name).output == Written(DirName(w.suffix), DirMode, map[], false)
    ensures !w.mkdirOk ==> Run(w, name).output == MkdirFailed(DirName(w.suffix))
  {
    assert FirstFailure(0, w.failsAt) == 0;
  }

  /**
   * End to end: when every fopen of a year file succeeds, the directory holds one
   * file per year of the movies read, and the file for year Y holds their
   * titles of that year, in file order, one per line, with mode 0640.
   */
  lemma RunWritesTitlesByYear(w: World, name: string)
    requires name in w.contents && WellFormed(w.contents[name])
    requires w.mkdirOk
    requires forall i :: 0 <= i < |ParseFile(w.contents[name]).value| ==> i !in w.failsAt
    ensures var ms := ParseFile(w.contents[name]).value;
      var out := Run(w, name).output;
      && out.Written? && !out.stopped && out.dir == DirName(w.suffix) && out.dirMode == DirMode
      && out.files.Keys == Years(ms)
      && forall y :: y in out.files ==> out.files[y] == YearFile(Unlines(TitlesOf(ms, y)), FileMode)
  {
    var ms := ParseFile(w.contents[name]).value;
    UnblockedWritesAll(ms, w.suffix, w.failsAt);
    WriteAllContents(ms);
  }

  /**
   * A file written as a header line and one line per movie is read back
   * as exactly those movies, so its year files hold exactly their titles.
   */
  lemma RenderedFileRoundTrip(w: World, name: string, header: string, ms: seq<Movie>, ratings: seq<string>)
    requires IsFullLine(header) && |ratings| == |ms|
    requires forall i :: 0 <= i < |ms| ==> Writable(ms[i], ratings[i])
    requires name in w.contents && w.contents[name] == RenderFile(header, ms, ratings)
    requires w.mkdirOk && forall i :: 0 <= i < |ms| ==> i !in w.failsAt
    ensures WellFormed(w.contents[name])
    ensures Run(w, name) == Processed(name, |ms|, Written(DirName(w.suffix), DirMode, WriteAll(ms), false))
  {
    ParseRenderedFile(header, ms, ratings);
    UnblockedWritesAll(ms, w.suffix, w.failsAt);
  }
}
