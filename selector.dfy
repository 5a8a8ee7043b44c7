/**
 * The file selector: process_largest_file and process_smallest_file read the
 * current directory and keep the largest, or the smallest, regular file
 * whose name starts with "movies_" and contains ".csv".
 *
 * The directory listing is a sequence of entries in readdir order; each
 * entry carries what stat reports about it.
 */
module FileSelector {
  import opened CLib

  /**
   * One directory entry: its name, its size, and whether stat succeeded on
   * it and reported a regular file.
   */
  datatype Entry = Entry(name: string, size: nat, regular: bool)

  /**
   * The name test: `strncmp(name, "movies_", 7) == 0` and
   * `strstr(name, ".csv") != NULL`. The ".csv" cannot overlap the prefix,
   * so the shortest name that passes is "movies_.csv".
   */
  predicate NameMatches(name: string)
    ensures NameMatches(name) ==> |name| >= 11
  {
    MatchingNameLength(name);
    StartsWith(name, "movies_") && Contains(name, ".csv")
  }

  lemma MatchingNameLength(name: string)
    ensures StartsWith(name, "movies_") && Contains(name, ".csv") ==> |name| >= 11
  {
    if StartsWith(name, "movies_") && Contains(name, ".csv") {
      ContainsAt(name, ".csv");
      var i :| OccursAt(name, ".csv", i);
      assert name[i] == '.' by {
        assert name[i..i + 4][0] == name[i];
      }
    }
  }

  /** The name test spelled out: the first seven characters are "movies_" and ".csv" occurs at some position. */
  lemma NameMatchesAt(name: string)
    ensures NameMatches(name) <==>
      |name| >= 7 && name[..7] == "movies_" && exists i :: OccursAt(name, ".csv", i)
  {
    ContainsAt(name, ".csv");
  }

  /**
   * Every name made of "movies_", any text, ".csv" and any further text
   * passes: ".csv" need not be the extension.
   */
  lemma PrefixAndInfixMatch(middle: string, tail: string)
    ensures NameMatches("movies_" + middle + ".csv" + tail)
  {
    var n := "movies_" + middle + ".csv" + tail;
    assert n[..7] == "movies_";
    assert n[7 + |middle|..7 + |middle| + 4] == ".csv";
    NameMatchesAt(n);
    assert OccursAt(n, ".csv", 7 + |middle|);
  }

  /** The prefix must include the underscore, and it is case-sensitive. */
  lemma PrefixRequired()
    ensures !NameMatches("movies.csv")
    ensures !NameMatches("Movies_sample.csv")
  {
    assert "movies.csv"[..7] != "movies_" by {
      assert "movies.csv"[6] == '.';
    }
    assert "Movies_sample.csv"[..7] != "movies_" by {
      assert "Movies_sample.csv"[0] == 'M';
    }
  }

  /** A name without ".csv" fails. */
  lemma ExtensionRequired()
    ensures !NameMatches("movies_sample.txt")
  {
    var n := "movies_sample.txt";
    assert 'c' in ".csv";
    assert forall j :: 0 <= j < |n| ==> n[j] != 'c';
    AbsentCharNotContained(n, ".csv", 'c');
  }

  /** A text lacking one of the characters of `p` does not contain `p`. */
  lemma {:induction false} AbsentCharNotContained(s: string, p: string, c: char)
    requires c in p && c !in s
    ensures !Contains(s, p)
    decreases |s|
  {
    var j :| 0 <= j < |p| && p[j] == c;
    if |p| <= |s| {
      assert s[..|p|][j] != p[j];
    }
    if s != [] {
      AbsentCharNotContained(s[1..], p, c);
    }
  }

  /** An entry either selection loop considers. */
  predicate IsCandidate(e: Entry)
    ensures IsCandidate(e) ==> e.regular && |e.name| >= 11
  {
    NameMatches(e.name) && e.regular
  }

  /** No entry is a candidate. */
  predicate NoCandidate(es: seq<Entry>)
  {
    forall i :: 0 <= i < |es| ==> !IsCandidate(es[i])
  }

  /**
   * Among the first n entries, entry k is a candidate at least as large as
   * every candidate, and strictly larger than every candidate before it.
   */
  predicate LargestAmong(es: seq<Entry>, n: int, k: int)
    requires 0 <= n <= |es|
  {
    && 0 <= k < n
    && IsCandidate(es[k])
    && (forall i :: 0 <= i < n && IsCandidate(es[i]) ==> es[i].size <= es[k].size)
    && (forall i :: 0 <= i < k && IsCandidate(es[i]) ==> es[i].size < es[k].size)
  }

  /** The mirror image of LargestAmong for the smallest candidate. */
  predicate SmallestAmong(es: seq<Entry>, n: int, k: int)
    requires 0 <= n <= |es|
  {
    && 0 <= k < n
    && IsCandidate(es[k])
    && (forall i :: 0 <= i < n && IsCandidate(es[i]) ==> es[k].size <= es[i].size)
    && (forall i :: 0 <= i < k && IsCandidate(es[i]) ==> es[k].size < es[i].size)
  }

  /** Entry k is the first largest candidate of the whole listing. */
  predicate IsFirstLargest(es: seq<Entry>, k: int)
  {
    LargestAmong(es, |es|, k)
  }

  /** Entry k is the first smallest candidate of the whole listing. */
  predicate IsFirstSmallest(es: seq<Entry>, k: int)
  {
    SmallestAmong(es, |es|, k)
  }

  /**
   * The readdir loop of process_largest_file: `largest_size` starts at -1
   * and a candidate replaces the choice only when strictly larger. The
   * result is the position of the chosen entry, None for NULL.
   */
  method SelectLargest(entries: seq<Entry>) returns (chosen: Option<nat>)
    ensures chosen.None? <==> NoCandidate(entries)
    ensures chosen.Some? ==> IsFirstLargest(entries, chosen.value)
  {
    chosen := None;
    var largestSize: int := -1;
    for i := 0 to |entries|
      invariant chosen.None? ==> largestSize == -1 && NoCandidate(entries[..i])
      invariant chosen.Some? ==> LargestAmong(entries, i, chosen.value) && largestSize == entries[chosen.value].size
    {
      var e := entries[i];
      if NameMatches(e.name) {
        if e.regular {
          if e.size > largestSize {
            largestSize := e.size;
            chosen := Some(i);
          }
        }
      }
      assert entries[..i + 1] == entries[..i] + [e];
    }
    assert entries[..|entries|] == entries;
  }

  /**
   * The readdir loop of process_smallest_file: `smallest_size` starts at -1
   * as "nothing yet" and a candidate replaces the choice only when strictly
   * smaller.
   */
  method SelectSmallest(entries: seq<Entry>) returns (chosen: Option<nat>)
    ensures chosen.None? <==> NoCandidate(entries)
    ensures chosen.Some? ==> IsFirstSmallest(entries, chosen.value)
  {
    chosen := None;
    var smallestSize: int := -1;
    for i := 0 to |entries|
      invariant chosen.None? ==> smallestSize == -1 && NoCandidate(entries[..i])
      invariant chosen.Some? ==> SmallestAmong(entries, i, chosen.value) && smallestSize == entries[chosen.value].size
    {
      var e := entries[i];
      if NameMatches(e.name) {
        if e.regular {
          if smallestSize == -1 || e.size < smallestSize {
            smallestSize := e.size;
            chosen := Some(i);
          }
        }
      }
      assert entries[..i + 1] == entries[..i] + [e];
    }
    assert entries[..|entries|] == entries;
  }

  /** At most one entry is the first largest candidate, so the choice is determined by the listing. */
  lemma FirstLargestUnique(es: seq<Entry>, a: int, b: int)
    requires IsFirstLargest(es, a) && IsFirstLargest(es, b)
    ensures a == b
  {
  }

  /** At most one entry is the first smallest candidate. */
  lemma FirstSmallestUnique(es: seq<Entry>, a: int, b: int)
    requires IsFirstSmallest(es, a) && IsFirstSmallest(es, b)
    ensures a == b
  {
  }

  /** With a single candidate, both selections pick it. */
  lemma SingleCandidate(es: seq<Entry>, k: int)
    requires 0 <= k < |es| && IsCandidate(es[k])
    requires forall i :: 0 <= i < |es| && i != k ==> !IsCandidate(es[i])
    ensures IsFirstLargest(es, k) && IsFirstSmallest(es, k)
  {
  }

  /** Candidates of equal size tie, and the one read first wins in both modes. */
  lemma TieGoesToFirst(es: seq<Entry>, a: int, b: int)
    requires 0 <= a < b < |es| && IsCandidate(es[a]) && IsCandidate(es[b])
    requires es[a].size == es[b].size
    ensures !IsFirstLargest(es, b) && !IsFirstSmallest(es, b)
  {
  }

  /** Two data files of 10 and 1000 bytes: largest mode picks the big one, smallest mode the small one. */
  lemma TwoFilesExample()
    ensures var es := [Entry("movies_small.csv", 10, true), Entry("movies_big.csv", 1000, true)];
      IsFirstLargest(es, 1) && IsFirstSmallest(es, 0)
  {
    var es := [Entry("movies_small.csv", 10, true), Entry("movies_big.csv", 1000, true)];
    ExampleNamesMatch();
    assert IsCandidate(es[0]) && IsCandidate(es[1]);
  }

  lemma ExampleNamesMatch()
    ensures NameMatches("movies_small.csv") && NameMatches("movies_big.csv")
  {
    PrefixAndInfixMatch("small", "");
    assert "movies_" + "small" + ".csv" + "" == "movies_small.csv";
    PrefixAndInfixMatch("big", "");
    assert "movies_" + "big" + ".csv" + "" == "movies_big.csv";
  }
}
