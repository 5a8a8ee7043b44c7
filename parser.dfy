/**
 * The record parser: process_file reads a CSV stream with fgets, skips the
 * header line, cuts every other line with strtok and appends one movie per
 * line to the list.
 */
module RecordParser {
  import opened CLib
  import opened Records

  /** The lines after the header, as fgets returns them. */
  function DataLines(content: string): (r: seq<string>)
    ensures r == if Lines(content) == [] then [] else Lines(content)[1..]
  {
    match Fgets(content)
    case None => []
    case Some((_, rest)) => Lines(rest)
  }

  /**
   * A data line gives strtok at least four tokens. With fewer, one of the
   * four calls returns NULL and main.c passes it on to atoi, strdup or atof.
   */
  predicate HasFourTokens(line: string)
  {
    |Tokens(CStr(line))| >= 4
  }

  /**
   * One data line: the title is the first strtok token, the year is atoi of
   * the second, the languages are the third; the fourth (the rating) is
   * read but not kept. None for a line with fewer than four tokens, which
   * main.c has no defined behaviour for.
   */
  function ParseLine(line: string): (r: Option<Movie>)
    ensures r.Some? <==> HasFourTokens(line)
  {
    var ts := Tokens(CStr(line));
    if |ts| < 4 then None else Some(Movie(ts[0], Atoi(ts[1]), ts[2]))
  }

  /**
   * Applies a partial conversion to every element, in order; None as soon as
   * one element cannot be converted.
   */
  function MapAll<A, B>(f: A -> Option<B>, xs: seq<A>): (r: Option<seq<B>>)
    ensures r.Some? ==> |r.value| == |xs|
  {
    if xs == [] then Some([])
    else
      match (MapAll(f, xs[..|xs| - 1]), f(xs[|xs| - 1]))
      case (Some(ys), Some(y)) => Some(ys + [y])
      case _ => None
  }

  /** The elements convert exactly when each one does, and the i-th result comes from the i-th element. */
  lemma {:induction false} MapAllPointwise<A, B>(f: A -> Option<B>, xs: seq<A>)
    ensures MapAll(f, xs).Some? <==> forall i :: 0 <= i < |xs| ==> f(xs[i]).Some?
    ensures MapAll(f, xs).Some? ==>
      forall i :: 0 <= i < |xs| ==> f(xs[i]) == Some(MapAll(f, xs).value[i])
  {
    if xs != [] {
      var init := xs[..|xs| - 1];
      MapAllPointwise(f, init);
      assert forall i :: 0 <= i < |init| ==> init[i] == xs[i];
    }
  }

  /** Results given element by element are what the conversion of the whole sequence gives. */
  lemma {:induction false} MapAllOf<A, B>(f: A -> Option<B>, xs: seq<A>, ys: seq<B>)
    requires |xs| == |ys|
    requires forall i :: 0 <= i < |xs| ==> f(xs[i]) == Some(ys[i])
    ensures MapAll(f, xs) == Some(ys)
  {
    if xs != [] {
      var n := |xs| - 1;
      MapAllOf(f, xs[..n], ys[..n]);
      assert ys == ys[..n] + [ys[n]];
    }
  }

  /** A convertible sequence has convertible prefixes, which give the prefix of the results. */
  lemma {:induction false} MapAllPrefix<A, B>(f: A -> Option<B>, xs: seq<A>, k: int)
    requires MapAll(f, xs).Some?
    requires 0 <= k <= |xs|
    ensures MapAll(f, xs[..k]) == Some(MapAll(f, xs).value[..k])
    decreases |xs|
  {
    if k == |xs| {
      assert xs[..k] == xs;
      assert MapAll(f, xs).value[..k] == MapAll(f, xs).value;
    } else {
      var init := xs[..|xs| - 1];
      assert MapAll(f, init).Some? && MapAll(f, xs).value == MapAll(f, init).value + [f(xs[|xs| - 1]).value];
      MapAllPrefix(f, init, k);
      assert init[..k] == xs[..k];
      assert MapAll(f, xs).value[..k] == MapAll(f, init).value[..k];
    }
  }

  /** One movie per line, in line order; None when some line cannot be parsed. */
  function ParseAll(ls: seq<string>): Option<seq<Movie>>
  {
    MapAll(ParseLine, ls)
  }

  /** The movies a file holds, in file order; None when some data line has fewer than four tokens. */
  function ParseFile(content: string): (r: Option<seq<Movie>>)
    ensures r.Some? ==> |r.value| == |DataLines(content)|
  {
    ParseAll(DataLines(content))
  }

  /** A file main.c can read: every data line has four tokens. */
  predicate WellFormed(content: string)
  {
    ParseFile(content).Some?
  }

  /** A file is readable exactly when each of its data lines has four tokens, and the i-th movie comes from the i-th data line. */
  lemma ParseFilePointwise(content: string)
    ensures WellFormed(content) <==>
      forall i :: 0 <= i < |DataLines(content)| ==> HasFourTokens(DataLines(content)[i])
    ensures WellFormed(content) ==> |ParseFile(content).value| == |DataLines(content)|
    ensures WellFormed(content) ==> forall i :: 0 <= i < |DataLines(content)| ==>
      ParseLine(DataLines(content)[i]) == Some(ParseFile(content).value[i])
  {
    MapAllPointwise(ParseLine, DataLines(content));
  }

  /**
   * process_file: None stands for a file that fopen cannot open, in which
   * case it returns -1 and leaves the list alone. Otherwise it discards the
   * first line, appends one movie per remaining line in file order and
   * returns how many it appended.
   */
  method ProcessFile(content: Option<string>, list: MovieList) returns (count: int)
    requires list.Valid()
    requires content.Some? ==> WellFormed(content.value)
    modifies list.Repr
    ensures list.Valid() && fresh(list.Repr - old(list.Repr))
    ensures content.None? ==> count == -1 && unchanged(list) && list.Contents == old(list.Contents)
    ensures content.Some? ==> count == |DataLines(content.value)|
    ensures content.Some? ==> list.Contents == old(list.Contents) + ParseFile(content.value).value
  {
    if content.None? {
      return -1;
    }
    var rest := content.value;
    var header := Fgets(rest);
    if header.Some? {
      rest := header.value.1;
    }
    assert Lines(rest) == DataLines(content.value);
    count := ReadMovies(rest, list);
  }

  /**
   * The loop of process_file: one movie per line fgets returns from `rest`,
   * appended in line order, and the number of lines read.
   */
  method ReadMovies(rest: string, list: MovieList) returns (count: int)
    requires list.Valid()
    requires ParseAll(Lines(rest)).Some?
    modifies list.Repr
    ensures list.Valid() && fresh(list.Repr - old(list.Repr))
    ensures count == |Lines(rest)|
    ensures list.Contents == old(list.Contents) + ParseAll(Lines(rest)).value
  {
    ghost var lines := Lines(rest);
    var unread := rest;
    ghost var parsed: seq<Movie> := [];
    count := 0;
    var read := Fgets(unread);
    while read.Some?
      invariant read == Fgets(unread)
      invariant list.Valid()
      invariant fresh(list.Repr - old(list.Repr))
      invariant 0 <= count <= |lines| && Lines(unread) == lines[count..]
      invariant ParseAll(lines[..count]) == Some(parsed)
      invariant list.Contents == old(list.Contents) + parsed
      decreases |unread|
    {
      var line := read.value.0;
      NextLine(lines, count, unread);
      MapAllNext(ParseLine, lines, count);
      var movie := ParseLine(line).value;
      list.AddMovie(movie.title, movie.year, movie.languages);
      AppendAssoc(old(list.Contents), parsed, [movie]);
      parsed := parsed + [movie];
      count := count + 1;
      unread := read.value.1;
      read := Fgets(unread);
    }
    assert lines[..count] == lines;
  }

  lemma AppendAssoc<T>(a: seq<T>, b: seq<T>, c: seq<T>)
    ensures (a + b) + c == a + (b + c)
  {
  }

  /** When fgets still returns a line, it is the next of the lines still to be read. */
  lemma NextLine(lines: seq<string>, k: int, rest: string)
    requires 0 <= k <= |lines| && Lines(rest) == lines[k..]
    requires Fgets(rest).Some?
    ensures k < |lines| && Fgets(rest).value.0 == lines[k]
    ensures Lines(Fgets(rest).value.1) == lines[k + 1..]
  {
    var line := Fgets(rest).value.0;
    var after := Fgets(rest).value.1;
    assert Lines(rest) == [line] + Lines(after);
    assert lines[k..][0] == lines[k];
    assert lines[k..][1..] == lines[k + 1..];
  }

  /** Converting one more element of a convertible sequence appends its result. */
  lemma MapAllNext<A, B>(f: A -> Option<B>, xs: seq<A>, k: int)
    requires MapAll(f, xs).Some?
    requires 0 <= k < |xs|
    ensures f(xs[k]).Some? && MapAll(f, xs[..k]).Some? && MapAll(f, xs[..k + 1]).Some?
    ensures MapAll(f, xs[..k + 1]).value == MapAll(f, xs[..k]).value + [f(xs[k]).value]
  {
    MapAllPrefix(f, xs, k + 1);
    assert xs[..k + 1][..k] == xs[..k];
  }

  /** strtok drops empty fields, so the parsed fields are the first three non-empty comma-separated fields. */
  lemma ParseLineFields(line: string)
    requires HasFourTokens(line)
    ensures var fs := NonEmpty(Fields(CStr(line)));
      |fs| >= 4 && ParseLine(line) == Some(Movie(fs[0], Atoi(fs[1]), fs[2]))
  {
    TokensAreNonEmptyFields(CStr(line));
  }

  /** Text that cannot end a field or a line early: no comma, newline or NUL. */
  predicate PlainText(s: string)
  {
    ',' !in s && '\n' !in s && '\0' !in s
  }

  lemma JoinFieldsAvoids(fs: seq<string>, c: char)
    requires c != ','
    requires forall f :: f in fs ==> c !in f
    ensures c !in JoinFields(fs)
  {
    if |fs| > 1 {
      assert fs[0] in fs;
      assert forall g :: g in fs[1..] ==> g in fs;
      JoinFieldsAvoids(fs[1..], c);
    } else if |fs| == 1 {
      assert fs[0] in fs;
    }
  }

  lemma JoinFour(a: string, b: string, c: string, d: string)
    ensures JoinFields([a, b, c, d]) == a + "," + (b + "," + (c + "," + d))
  {
    assert [c, d][1..] == [d];
    assert JoinFields([c, d]) == c + "," + d;
    assert [b, c, d][1..] == [c, d];
    assert JoinFields([b, c, d]) == b + "," + (c + "," + d);
    assert [a, b, c, d][1..] == [b, c, d];
  }

  /** A line of four plain, non-empty fields parses to its title, atoi of its year text and its languages. */
  lemma ParseFieldsLine(title: string, yearText: string, languages: string, rating: string)
    requires title != [] && yearText != [] && languages != [] && rating != []
    requires PlainText(title) && PlainText(yearText) && PlainText(languages) && PlainText(rating)
    ensures ParseLine(JoinFields([title, yearText, languages, rating]) + "\n")
      == Some(Movie(title, Atoi(yearText), languages))
  {
    var fs := [title, yearText, languages, rating];
    var line := JoinFields(fs) + "\n";
    JoinFour(title, yearText, languages, rating);
    var gs := [title, yearText, languages, rating + "\n"];
    JoinFour(title, yearText, languages, rating + "\n");
    assert line == JoinFields(gs);
    JoinFieldsAvoids(fs, '\0');
    assert CStr(line) == line;
    assert forall g :: g in gs ==> g != [] && ',' !in g;
    TokensOfJoinFields(gs);
  }

  /** A non-numeric year such as "N/A" becomes 0; the line is still read. */
  lemma ParseNotAvailableYear(title: string, languages: string, rating: string)
    requires title != [] && languages != [] && rating != []
    requires PlainText(title) && PlainText(languages) && PlainText(rating)
    ensures ParseLine(JoinFields([title, "N/A", languages, rating]) + "\n") == Some(Movie(title, 0, languages))
  {
    ParseFieldsLine(title, "N/A", languages, rating);
    AtoiOfNotAvailable();
  }

  /** A movie written as a CSV data line: title, year, languages and rating, then a newline. */
  function RenderLine(m: Movie, rating: string): string
  {
    JoinFields([m.title, ShowInt(m.year), m.languages, rating]) + "\n"
  }

  /** A movie that can be written as one line which fgets reads whole. */
  predicate Writable(m: Movie, rating: string)
  {
    && m.title != [] && m.languages != [] && rating != []
    && PlainText(m.title) && PlainText(m.languages) && PlainText(rating)
    && |RenderLine(m, rating)| < LineBuffer
  }

  lemma ShowIntIsPlain(n: int)
    ensures PlainText(ShowInt(n))
  {
    var s := ShowInt(n);
    forall i | 0 <= i < |s|
      ensures s[i] != ',' && s[i] != '\n' && s[i] != '\0'
    {
      if i > 0 || n >= 0 {
        assert IsDigit(s[i]);
      }
    }
  }

  /** Parsing a written line gives back the movie. */
  lemma ParseRenderedLine(m: Movie, rating: string)
    requires Writable(m, rating)
    ensures ParseLine(RenderLine(m, rating)) == Some(m)
  {
    ShowIntIsPlain(m.year);
    ParseFieldsLine(m.title, ShowInt(m.year), m.languages, rating);
    AtoiOfShowInt(m.year, []);
    assert ShowInt(m.year) + [] == ShowInt(m.year);
  }

  /** fgets reads a written line whole: it fits the buffer and its only newline is the last character. */
  lemma RenderedLineIsFull(m: Movie, rating: string)
    requires Writable(m, rating)
    ensures IsFullLine(RenderLine(m, rating))
  {
    ShowIntIsPlain(m.year);
    var fs := [m.title, ShowInt(m.year), m.languages, rating];
    JoinFieldsAvoids(fs, '\n');
    var line := RenderLine(m, rating);
    assert line[..|line| - 1] == JoinFields(fs);
  }

  /** A header line followed by one written line per movie. */
  function RenderFile(header: string, ms: seq<Movie>, ratings: seq<string>): string
    requires |ratings| == |ms|
  {
    header + Concat(seq(|ms|, i requires 0 <= i < |ms| => RenderLine(ms[i], ratings[i])))
  }

  /**
   * A file of one header line and N written movies has N data lines and
   * parses back to exactly those movies, in order.
   */
  lemma ParseRenderedFile(header: string, ms: seq<Movie>, ratings: seq<string>)
    requires IsFullLine(header)
    requires |ratings| == |ms|
    requires forall i :: 0 <= i < |ms| ==> Writable(ms[i], ratings[i])
    ensures |DataLines(RenderFile(header, ms, ratings))| == |ms|
    ensures ParseFile(RenderFile(header, ms, ratings)) == Some(ms)
  {
    var rendered := seq(|ms|, i requires 0 <= i < |ms| => RenderLine(ms[i], ratings[i]));
    var ls := [header] + rendered;
    forall i | 0 <= i < |ms|
      ensures IsFullLine(rendered[i]) && ParseLine(rendered[i]) == Some(ms[i])
    {
      ParseRenderedLine(ms[i], ratings[i]);
      RenderedLineIsFull(ms[i], ratings[i]);
    }
    assert forall l :: l in ls ==> IsFullLine(l);
    assert ls[1..] == rendered;
    var s := RenderFile(header, ms, ratings);
    assert Concat(ls) == s;
    LinesOfConcat(ls);
    assert DataLines(s) == rendered;
    MapAllOf(ParseLine, rendered, ms);
  }
}
