/**
 * The output writer: create_directory_and_files makes a directory named
 * after the program's ONID and a random number, then walks the movie list
 * and appends every title to the file named after its year.
 *
 * The file system is replaced by values: whether mkdir succeeds is a
 * boolean, the fopen calls that fail are a set of call numbers (the n-th
 * call, counting from 0, is the one made for the n-th movie of the list),
 * and the directory that results is a map from year to the file written
 * for it.
 */
module OutputWriter {
  import opened CLib
  import opened Records

  /** The ONID written into every directory name. */
  const Onid: string := "jamiessa"

  /** rand() % 100000 is below this bound. */
  const SuffixBound: nat := 100000

  /** The mode mkdir is asked for, octal 0750 (rwxr-x---). */
  const DirMode: nat := 488

  /** The mode every year file is given by chmod, octal 0640 (rw-r-----). */
  const FileMode: nat := 416

  /** "jamiessa.movies.%d" filled with the random suffix. */
  function DirName(suffix: nat): string
  {
    Onid + ".movies." + ShowInt(suffix)
  }

  /** A directory name is the fixed prefix followed by digits that atoi reads back as the suffix. */
  lemma DirNameSuffix(suffix: nat)
    ensures var d := DirName(suffix);
      |d| > |Onid| + 8 && d[..|Onid| + 8] == Onid + ".movies." && Atoi(d[|Onid| + 8..]) == suffix
  {
    var d := DirName(suffix);
    AtoiOfShowInt(suffix, []);
    assert d[|Onid| + 8..] == ShowInt(suffix) + [];
  }

  /** Different suffixes give different directory names. */
  lemma DirNamesDistinct(a: nat, b: nat)
    requires a != b
    ensures DirName(a) != DirName(b)
  {
    DirNameSuffix(a);
    DirNameSuffix(b);
  }

  /**
   * "%d.txt": the name of a year's file inside the directory. The year can
   * be read back from it, so two years never share a file.
   */
  function FileName(year: int): (r: string)
    ensures |r| > 4 && r[|r| - 4..] == ".txt"
    ensures Atoi(r) == year
  {
    AtoiOfShowInt(year, ".txt");
    ShowInt(year) + ".txt"
  }

  lemma FileNamesDistinct(a: int, b: int)
    requires a != b
    ensures FileName(a) != FileName(b)
  {
  }

  /** One file in the output directory: what has been written to it, and its mode. */
  datatype YearFile = YearFile(text: string, mode: nat)

  /**
   * What create_directory_and_files leaves behind: either mkdir failed and
   * nothing was written, or the directory exists and holds one file per
   * year written; `stopped` says that an fopen failure ended the walk early.
   */
  datatype WriteOutcome =
    | MkdirFailed(dir: string)
    | Written(dir: string, dirMode: nat, files: map<int, YearFile>, stopped: bool)

  /** The text of a year file before anything is appended: empty, or what is already there. */
  function TextOf(files: map<int, YearFile>, year: int): string
  {
    if year in files then files[year].text else []
  }

  /**
   * One pass of the loop body: fopen in append mode, fprintf of the title
   * and a newline, chmod to 0640. The other files are not touched.
   */
  function AppendTitle(files: map<int, YearFile>, m: Movie): (r: map<int, YearFile>)
    ensures r.Keys == files.Keys + {m.year}
    ensures r[m.year] == YearFile(TextOf(files, m.year) + m.title + "\n", FileMode)
    ensures forall y :: y in files && y != m.year ==> r[y] == files[y]
  {
    files[m.year := YearFile(TextOf(files, m.year) + m.title + "\n", FileMode)]
  }

  /** The directory after every movie of `ms` has been appended, in order, starting from an empty directory. */
  function WriteAll(ms: seq<Movie>): (r: map<int, YearFile>)
    ensures forall y :: y in r ==> r[y].text != [] && r[y].mode == FileMode
  {
    if ms == [] then map[] else AppendTitle(WriteAll(ms[..|ms| - 1]), ms[|ms| - 1])
  }

  /** The number of the first of `n` fopen calls that fails, or `n` if none of them does. */
  function FirstFailure(n: nat, failsAt: set<nat>): (k: nat)
    ensures k <= n
    ensures forall i :: 0 <= i < k ==> i !in failsAt
    ensures k < n ==> k in failsAt
  {
    if n == 0 then 0
    else
      var k := FirstFailure(n - 1, failsAt);
      if k < n - 1 then k else if n - 1 in failsAt then n - 1 else n
  }

  /** What create_directory_and_files produces for the movies `ms`. */
  function Output(ms: seq<Movie>, suffix: nat, mkdirOk: bool, failsAt: set<nat>): (r: WriteOutcome)
    ensures r.MkdirFailed? <==> !mkdirOk
    ensures r.Written? ==> (r.stopped <==> exists i :: 0 <= i < |ms| && i in failsAt)
  {
    if !mkdirOk then MkdirFailed(DirName(suffix))
    else
      var k := FirstFailure(|ms|, failsAt);
      Written(DirName(suffix), DirMode, WriteAll(ms[..k]), k < |ms|)
  }

  /**
   * create_directory_and_files: mkdir, then one append per node from
   * `head` onwards, the n-th node with the n-th fopen call; the first
   * fopen failure ends the call at once.
   */
  method CreateDirectoryAndFiles(list: MovieList, suffix: nat, mkdirOk: bool, failsAt: set<nat>)
    returns (r: WriteOutcome)
    requires list.Valid()
    requires suffix < SuffixBound
    ensures r == Output(list.Contents, suffix, mkdirOk, failsAt)
  {
    var dir := DirName(suffix);
    if !mkdirOk {
      return MkdirFailed(dir);
    }
    var files: map<int, YearFile> := map[];
    var temp := list.head;
    var call: nat := 0;  // the number of the next fopen call
    while temp != null
      invariant call <= |list.nodes|
      invariant temp == if call < |list.nodes| then list.nodes[call] else null
      invariant FirstFailure(call, failsAt) == call
      invariant files == WriteAll(list.Contents[..call])
      decreases |list.nodes| - call
    {
      if call in failsAt {
        BlockedAt(|list.Contents|, failsAt, call);
        return Written(dir, DirMode, files, true);
      }
      var before := if temp.year in files then files[temp.year].text else [];
      files := files[temp.year := YearFile(before + temp.title + "\n", FileMode)];
      WriteAllStep(list.Contents, call);
      temp := temp.next;
      call := call + 1;
    }
    BlockedAt(|list.Contents|, failsAt, call);
    assert list.Contents[..call] == list.Contents;
    return Written(dir, DirMode, files, false);
  }

  /** The walk's next step appends the next movie's title. */
  lemma WriteAllStep(ms: seq<Movie>, k: nat)
    requires k < |ms|
    ensures WriteAll(ms[..k + 1]) == AppendTitle(WriteAll(ms[..k]), ms[k])
  {
    assert ms[..k + 1][..k] == ms[..k];
  }

  /** The first failing call is the first call in the set, or the end. */
  lemma BlockedAt(n: nat, failsAt: set<nat>, k: nat)
    requires k <= n
    requires forall i :: 0 <= i < k ==> i !in failsAt
    requires k == n || k in failsAt
    ensures FirstFailure(n, failsAt) == k
  {
  }

  // ------------------------------------------------------- what is written

  /** The titles of the movies of year `year`, in list order. */
  function TitlesOf(ms: seq<Movie>, year: int): seq<string>
  {
    if ms == [] then []
    else TitlesOf(ms[..|ms| - 1], year) + (if ms[|ms| - 1].year == year then [ms[|ms| - 1].title] else [])
  }

  /** Each string followed by a newline, one after the other: what `fprintf(f, "%s\n", …)` calls write. */
  function Unlines(ts: seq<string>): string
  {
    if ts == [] then [] else Unlines(ts[..|ts| - 1]) + ts[|ts| - 1] + "\n"
  }

  /** The years some movie of `ms` has. */
  function Years(ms: seq<Movie>): set<int>
  {
    set i | 0 <= i < |ms| :: ms[i].year
  }

  /** The years of a sequence with one more movie are the earlier years and that movie's year. */
  lemma YearsOfSnoc(ms: seq<Movie>, m: Movie)
    ensures Years(ms + [m]) == Years(ms) + {m.year}
  {
    var ns := ms + [m];
    forall y | y in Years(ns) ensures y in Years(ms) + {m.year} {
      var i :| 0 <= i < |ns| && ns[i].year == y;
      if i < |ms| {
        assert ms[i].year == y;
      }
    }
    forall y | y in Years(ms) ensures y in Years(ns) {
      var i :| 0 <= i < |ms| && ms[i].year == y;
      assert ns[i].year == y;
    }
    assert ns[|ms|].year == m.year;
  }

  /** After all the movies are written, there is a file for exactly the years that occur. */
  lemma {:induction false} WriteAllYears(ms: seq<Movie>)
    ensures WriteAll(ms).Keys == Years(ms)
  {
    if ms != [] {
      var init, m := ms[..|ms| - 1], ms[|ms| - 1];
      WriteAllYears(init);
      YearsOfSnoc(init, m);
      assert init + [m] == ms;
    }
  }

  /**
   * The file for year Y holds the titles of the movies of year Y in list
   * order, each followed by a newline, and has mode 0640.
   */
  lemma {:induction false} WriteAllText(ms: seq<Movie>)
    ensures forall y :: y in WriteAll(ms) ==> WriteAll(ms)[y] == YearFile(Unlines(TitlesOf(ms, y)), FileMode)
  {
    if ms != [] {
      var init, m := ms[..|ms| - 1], ms[|ms| - 1];
      WriteAllText(init);
      forall y | y in WriteAll(ms)
        ensures WriteAll(ms)[y] == YearFile(Unlines(TitlesOf(ms, y)), FileMode)
      {
        if y == m.year {
          TextOfYear(init, y);
          var ts := TitlesOf(init, y);
          assert TitlesOf(ms, y) == ts + [m.title];
          assert (ts + [m.title])[..|ts|] == ts;
          assert Unlines(ts + [m.title]) == Unlines(ts) + m.title + "\n";
          assert WriteAll(ms) == AppendTitle(WriteAll(init), m);
          assert TextOf(WriteAll(init), y) == Unlines(ts);
        } else {
          assert y in WriteAll(init);
          assert TitlesOf(ms, y) == TitlesOf(init, y) + [];
          assert TitlesOf(init, y) + [] == TitlesOf(init, y);
          assert WriteAll(ms)[y] == WriteAll(init)[y];
        }
      }
    }
  }

  /** Before a movie of year Y is appended, its file holds the titles of year Y so far, or nothing. */
  lemma TextOfYear(ms: seq<Movie>, year: int)
    requires forall y :: y in WriteAll(ms) ==> WriteAll(ms)[y] == YearFile(Unlines(TitlesOf(ms, y)), FileMode)
    ensures TextOf(WriteAll(ms), year) == Unlines(TitlesOf(ms, year))
  {
    if year !in WriteAll(ms) {
      WriteAllYears(ms);
      NoTitlesOfAbsentYear(ms, year);
    }
  }

  /**
   * After all the movies are written, there is a file for exactly the years
   * that occur, the file for year Y holds the titles of the movies of year Y
   * in list order, each followed by a newline, and every file has mode 0640.
   */
  lemma WriteAllContents(ms: seq<Movie>)
    ensures WriteAll(ms).Keys == Years(ms)
    ensures forall y :: y in WriteAll(ms) ==> WriteAll(ms)[y] == YearFile(Unlines(TitlesOf(ms, y)), FileMode)
  {
    WriteAllYears(ms);
    WriteAllText(ms);
  }

  /** A year no movie has gets no titles. */
  lemma {:induction false} NoTitlesOfAbsentYear(ms: seq<Movie>, year: int)
    requires year !in Years(ms)
    ensures TitlesOf(ms, year) == []
  {
    if ms != [] {
      var init := ms[..|ms| - 1];
      YearsOfSnoc(init, ms[|ms| - 1]);
      assert init + [ms[|ms| - 1]] == ms;
      NoTitlesOfAbsentYear(init, year);
    }
  }

  /**
   * Appending never overwrites: every file written for a prefix of the
   * movies is still there after more movies are written, and what it held
   * is the beginning of what it holds now.
   */
  lemma {:induction false} WriteAllGrows(ms: seq<Movie>, k: nat)
    requires k <= |ms|
    ensures WriteAll(ms[..k]).Keys <= WriteAll(ms).Keys
    ensures forall y :: y in WriteAll(ms[..k]) ==> WriteAll(ms[..k])[y].text <= WriteAll(ms)[y].text
    decreases |ms|
  {
    if k == |ms| {
      assert ms[..k] == ms;
    } else {
      var init := ms[..|ms| - 1];
      WriteAllGrows(init, k);
      assert init[..k] == ms[..k];
    }
  }

  /** Each movie adds exactly one line to the file of its year and changes no other file. */
  lemma OneLinePerMovie(ms: seq<Movie>, m: Movie)
    ensures WriteAll(ms + [m])[m.year].text == TextOf(WriteAll(ms), m.year) + m.title + "\n"
    ensures forall y :: y != m.year && y in WriteAll(ms) ==> y in WriteAll(ms + [m]) && WriteAll(ms + [m])[y] == WriteAll(ms)[y]
    ensures WriteAll(ms + [m]).Keys == WriteAll(ms).Keys + {m.year}
  {
    assert (ms + [m])[..|ms|] == ms;
  }

  /** If mkdir fails, no file is written. */
  lemma MkdirFailureWritesNothing(ms: seq<Movie>, suffix: nat, failsAt: set<nat>)
    ensures Output(ms, suffix, false, failsAt).MkdirFailed?
  {
  }

  /**
   * An fopen failure for the k-th movie stops the walk there: the files
   * hold the lines of every earlier movie and of no later one, and each of
   * them is the beginning of the file an unhindered run would have written.
   */
  lemma StopKeepsEarlierLines(ms: seq<Movie>, suffix: nat, failsAt: set<nat>)
    requires Output(ms, suffix, true, failsAt).stopped
    ensures var k := FirstFailure(|ms|, failsAt);
      && k < |ms| && k in failsAt
      && (forall i :: 0 <= i < k ==> i !in failsAt)
      && Output(ms, suffix, true, failsAt).files == WriteAll(ms[..k])
    ensures var files := Output(ms, suffix, true, failsAt).files;
      && files.Keys <= WriteAll(ms).Keys
      && forall y :: y in files ==> files[y].text <= WriteAll(ms)[y].text
  {
    WriteAllGrows(ms, FirstFailure(|ms|, failsAt));
  }

  /**
   * Any fopen call can fail, the one for a year whose file already exists
   * included: then the walk stops before that movie's line is appended.
   */
  lemma FailureOnExistingYearFile(ms: seq<Movie>, suffix: nat, k: nat)
    requires 0 < k < |ms| && ms[0].year == ms[k].year
    ensures var out := Output(ms, suffix, true, {k});
      && out.stopped && ms[k].year in out.files
      && out.files == WriteAll(ms[..k])
  {
    BlockedAt(|ms|, {k}, k);
    WriteAllYears(ms[..k]);
    assert ms[..k][0] == ms[0];
  }

  /** When every fopen call succeeds, the directory holds exactly the files the whole list gives. */
  lemma UnblockedWritesAll(ms: seq<Movie>, suffix: nat, failsAt: set<nat>)
    requires forall i :: 0 <= i < |ms| ==> i !in failsAt
    ensures Output(ms, suffix, true, failsAt) == Written(DirName(suffix), DirMode, WriteAll(ms), false)
  {
    assert ms[..|ms|] == ms;
  }
}
