/**
 * The parts of the C library that main.c relies on, written as functions on
 * strings: reading a line with fgets, cutting a line with strtok, reading a
 * number with atoi, printing an int with %d, and the strncmp / strstr tests
 * of the file-name filter.
 *
 * A `string` read from a file stands for the file's bytes, one char per
 * byte, so lengths count bytes as the C functions do.
 */
module CLib {

  datatype Option<T> = None | Some(value: T)

  /** main.c reads into `char line[1024]`, so one fgets call stores at most 1023 bytes. */
  const LineBuffer: nat := 1024

  function Min(a: int, b: int): int { if a < b then a else b }

  /** Index of the first `c` in `s`, or |s| when `s` has none. */
  function IndexOf(s: string, c: char): (k: nat)
    ensures k <= |s|
    ensures k < |s| ==> s[k] == c
    ensures forall i :: 0 <= i < k ==> s[i] != c
  {
    if s == [] then 0
    else if s[0] == c then 0
    else 1 + IndexOf(s[1..], c)
  }

  /** The text the string functions see in a buffer: everything before the first NUL. */
  function CStr(s: string): (r: string)
    ensures r <= s && '\0' !in r
    ensures |r| < |s| ==> s[|r|] == '\0'
    ensures '\0' !in s ==> r == s
  {
    s[..IndexOf(s, '\0')]
  }

  /** Concatenation of a sequence of strings. */
  function Concat(ss: seq<string>): string
  {
    if ss == [] then [] else ss[0] + Concat(ss[1..])
  }

  // ---------------------------------------------------------------- fgets

  /**
   * One call `fgets(line, 1024, f)` when `s` is what is still unread in `f`:
   * None (NULL) at end of file; otherwise the characters stored in `line`
   * and the rest of the stream. It stops after the first newline, after
   * 1023 bytes, or at end of file, whichever comes first.
   */
  function Fgets(s: string): (r: Option<(string, string)>)
    ensures r.None? <==> s == []
    ensures r.Some? ==> r.value.0 + r.value.1 == s && 0 < |r.value.0| < LineBuffer
    ensures r.Some? ==> '\n' !in r.value.0[..|r.value.0| - 1]
    ensures r.Some? ==>
      var line := r.value.0;
      line[|line| - 1] == '\n' || |line| == LineBuffer - 1 || r.value.1 == []
  {
    if s == [] then None
    else
      var k := IndexOf(s, '\n');
      var n := Min(if k < |s| then k + 1 else |s|, LineBuffer - 1);
      Some((s[..n], s[n..]))
  }

  /** What successive fgets calls return on a stream holding `s`, until NULL. */
  function Lines(s: string): (r: seq<string>)
    ensures forall i :: 0 <= i < |r| ==> r[i] != [] && |r[i]| < LineBuffer
    decreases |s|
  {
    match Fgets(s)
    case None => []
    case Some((line, rest)) => [line] + Lines(rest)
  }

  /** Reading a stream line by line loses nothing and adds nothing. */
  lemma {:induction false} ConcatLines(s: string)
    ensures Concat(Lines(s)) == s
    decreases |s|
  {
    match Fgets(s)
    case None =>
    case Some((line, rest)) =>
      ConcatLines(rest);
  }

  /** A line that one fgets call returns whole: it ends in its only newline and fits the buffer. */
  predicate IsFullLine(l: string)
  {
    0 < |l| < LineBuffer && l[|l| - 1] == '\n' && '\n' !in l[..|l| - 1]
  }

  /** A stream written as full lines is read back as exactly those lines. */
  lemma {:induction false} LinesOfConcat(ls: seq<string>)
    requires forall l :: l in ls ==> IsFullLine(l)
    ensures Lines(Concat(ls)) == ls
  {
    if ls != [] {
      var l, rest := ls[0], Concat(ls[1..]);
      assert l in ls;
      var s := l + rest;
      assert s == Concat(ls);
      var k := IndexOf(s, '\n');
      assert s[|l| - 1] == '\n';
      assert k == |l| - 1;
      assert s[..|l|] == l && s[|l|..] == rest;
      assert Fgets(s) == Some((l, rest));
      LinesOfConcat(ls[1..]);
    }
  }

  // --------------------------------------------------------------- strtok

  /** Drops the leading commas (strtok's delimiters). */
  function SkipCommas(s: string): (t: string)
    ensures |t| <= |s| && t == s[|s| - |t|..]
    ensures t == [] || t[0] != ','
  {
    if s != [] && s[0] == ',' then SkipCommas(s[1..]) else s
  }

  /** What SkipCommas drops is commas only. */
  lemma {:induction false} SkipCommasDropsCommas(s: string)
    ensures forall i :: 0 <= i < |s| - |SkipCommas(s)| ==> s[i] == ','
  {
    if s != [] && s[0] == ',' {
      SkipCommasDropsCommas(s[1..]);
      forall i | 1 <= i < |s| - |SkipCommas(s)|
        ensures s[i] == ','
      {
        assert s[1..][i - 1] == s[i];
      }
    }
  }

  /**
   * One call of strtok with the delimiter string ",", where `s` is the text
   * still to scan (the buffer on the first call, the saved position on the
   * calls with NULL). Leading commas are skipped; None (NULL) when nothing
   * is left; otherwise the token, which runs up to the next comma or the
   * end, and the text after that comma, where the next call resumes.
   */
  function Strtok(s: string): (r: Option<(string, string)>)
    ensures r.Some? ==> r.value.0 != [] && ',' !in r.value.0 && |r.value.1| < |s|
  {
    CutToken(SkipCommas(s))
  }

  /** The token at the start of `t`, up to the next comma or the end, and the text after that comma. */
  function CutToken(t: string): (r: Option<(string, string)>)
    ensures r.None? <==> t == []
    ensures r.Some? ==> ',' !in r.value.0 && |r.value.1| < |t|
    ensures r.Some? && t[0] != ',' ==> r.value.0 != []
  {
    if t == [] then None
    else
      var k := IndexOf(t, ',');
      Some((t[..k], if k < |t| then t[k + 1..] else []))
  }

  /** strtok returns NULL exactly when nothing but commas is left. */
  lemma {:induction false} StrtokNone(s: string)
    ensures Strtok(s).None? <==> forall i :: 0 <= i < |s| ==> s[i] == ','
  {
    SkipCommasDropsCommas(s);
    var t := SkipCommas(s);
    if t != [] {
      assert s[|s| - |t|] == t[0];
    }
  }

  /**
   * The tokens of `s`, by cases on its first character: a comma is skipped,
   * anything else starts a token that runs to the next comma.
   */
  function Tokens(s: string): (r: seq<string>)
    ensures forall i :: 0 <= i < |r| ==> r[i] != [] && ',' !in r[i]
    decreases |s|
  {
    if s == [] then []
    else if s[0] == ',' then Tokens(s[1..])
    else
      var k := IndexOf(s, ',');
      [s[..k]] + (if k < |s| then Tokens(s[k + 1..]) else [])
  }

  /**
   * Tokens lists what successive strtok(…, ",") calls return before NULL:
   * nothing when the first call returns NULL, otherwise its token followed
   * by the tokens of the text where the next call resumes.
   */
  lemma {:induction false} TokensAreStrtokCalls(s: string)
    ensures Strtok(s).None? ==> Tokens(s) == []
    ensures Strtok(s).Some? ==> Tokens(s) == [Strtok(s).value.0] + Tokens(Strtok(s).value.1)
    decreases |s|
  {
    if s != [] && s[0] == ',' {
      StrtokAfterComma(s);
      TokensAreStrtokCalls(s[1..]);
    } else if s != [] {
      StrtokAtToken(s);
    }
  }

  /** A leading comma is skipped. */
  lemma {:induction false} StrtokAfterComma(s: string)
    requires s != [] && s[0] == ','
    ensures Strtok(s) == Strtok(s[1..])
  {
    assert SkipCommas(s) == SkipCommas(s[1..]);
  }

  /** Text that does not start with a comma starts the token. */
  lemma {:induction false} StrtokAtToken(s: string)
    requires s != [] && s[0] != ','
    ensures Strtok(s) == CutToken(s)
  {
    assert SkipCommas(s) == s;
  }

  /** `s` cut at every comma, empty pieces included. */
  function Fields(s: string): (fs: seq<string>)
    ensures |fs| > 0
    decreases |s|, 1
  {
    FieldsCutAt(s, IndexOf(s, ','))
  }

  /** The fields of `s` when its first comma is at `k` (`k == |s|` when it has none). */
  function FieldsCutAt(s: string, k: nat): (fs: seq<string>)
    requires k <= |s|
    ensures |fs| > 0
    decreases |s|, 0
  {
    if k == |s| then [s] else [s[..k]] + Fields(s[k + 1..])
  }

  /** The non-empty strings of `fs`, in order. */
  function NonEmpty(fs: seq<string>): seq<string>
  {
    if fs == [] then [] else (if fs[0] == [] then [] else [fs[0]]) + NonEmpty(fs[1..])
  }

  /** A leading comma ends an empty field, which NonEmpty drops. */
  lemma {:induction false} FieldsAfterComma(s: string)
    requires s != [] && s[0] == ','
    ensures NonEmpty(Fields(s)) == NonEmpty(Fields(s[1..]))
  {
    assert IndexOf(s, ',') == 0;
    assert Fields(s) == [[]] + Fields(s[1..]);
    NonEmptyCons([], Fields(s[1..]));
  }

  lemma {:induction false} NonEmptyCons(f: string, fs: seq<string>)
    ensures NonEmpty([f] + fs) == (if f == [] then [] else [f]) + NonEmpty(fs)
  {
    assert ([f] + fs)[1..] == fs;
  }

  /** Comma-free non-empty text is a single non-empty field. */
  lemma {:induction false} FieldsOfLastField(s: string)
    requires s != [] && IndexOf(s, ',') == |s|
    ensures NonEmpty(Fields(s)) == [s]
  {
    assert Fields(s) == [s] + [];
    NonEmptyCons(s, []);
  }

  /** Text that does not start with a comma has a non-empty first field. */
  lemma {:induction false} FieldsOfFirstField(s: string)
    requires s != [] && s[0] != ',' && IndexOf(s, ',') < |s|
    ensures var k := IndexOf(s, ',');
      NonEmpty(Fields(s)) == [s[..k]] + NonEmpty(Fields(s[k + 1..]))
  {
    var k := IndexOf(s, ',');
    var rest := Fields(s[k + 1..]);
    assert s[..k] != [] by {
      assert s[..k][0] == s[0];
    }
    FieldsAtComma(s);
    NonEmptyCons(s[..k], rest);
  }

  /** A comma ends the first field. */
  lemma {:induction false} FieldsAtComma(s: string)
    requires IndexOf(s, ',') < |s|
    ensures var k := IndexOf(s, ',');
      Fields(s) == [s[..k]] + Fields(s[k + 1..])
  {
    var k := IndexOf(s, ',');
    assert Fields(s) == FieldsCutAt(s, k);
  }

  /** strtok returns exactly the non-empty comma-separated fields: a run of commas yields no empty field. */
  lemma {:induction false} TokensAreNonEmptyFields(s: string)
    ensures Tokens(s) == NonEmpty(Fields(s))
    decreases |s|
  {
    if s == [] {
      assert Fields(s) == [[]];
    } else if s[0] == ',' {
      FieldsAfterComma(s);
      TokensAreNonEmptyFields(s[1..]);
    } else if IndexOf(s, ',') == |s| {
      FieldsOfLastField(s);
      assert s[..|s|] == s;
    } else {
      FieldsOfFirstField(s);
      TokensAreNonEmptyFields(s[IndexOf(s, ',') + 1..]);
    }
  }

  lemma IndexOfAbsent(s: string, c: char)
    requires c !in s
    ensures IndexOf(s, c) == |s|
  {
  }

  /** The first `c` in `f + [c] + u` is the one after `f` when `f` has none. */
  lemma {:induction false} IndexOfAfter(f: string, c: char, u: string)
    requires c !in f
    ensures IndexOf(f + [c] + u, c) == |f|
  {
    var s := f + [c] + u;
    var k := IndexOf(s, c);
    assert s[|f|] == c;
  }

  /** A comma-free first field followed by a comma is the first token; strtok resumes after that comma. */
  lemma {:induction false} TokensOfFieldThen(f: string, rest: string)
    requires f != [] && ',' !in f
    ensures Tokens(f + "," + rest) == [f] + Tokens(rest)
  {
    var s := f + "," + rest;
    IndexOfAfter(f, ',', rest);
    assert s[0] == f[0];
    assert s[..|f|] == f && s[|f| + 1..] == rest;
  }

  /** The fields written out with one comma between each two. */
  function JoinFields(fs: seq<string>): string
  {
    if |fs| == 0 then [] else if |fs| == 1 then fs[0] else fs[0] + "," + JoinFields(fs[1..])
  }

  /** Non-empty, comma-free fields joined by commas are what strtok returns, one token per field. */
  lemma {:induction false} TokensOfJoinFields(fs: seq<string>)
    requires forall f :: f in fs ==> f != [] && ',' !in f
    ensures Tokens(JoinFields(fs)) == fs
  {
    if |fs| == 1 {
      var f := fs[0];
      assert f in fs;
      assert JoinFields(fs) == f;
      IndexOfAbsent(f, ',');
      assert f[..|f|] == f;
    } else if |fs| > 1 {
      var f, rest := fs[0], JoinFields(fs[1..]);
      assert f in fs;
      assert JoinFields(fs) == f + "," + rest;
      TokensOfFieldThen(f, rest);
      assert forall g :: g in fs[1..] ==> g in fs;
      TokensOfJoinFields(fs[1..]);
    }
  }

  // ----------------------------------------------------------------- atoi

  /** isspace in the "C" locale. */
  predicate IsSpace(c: char)
  {
    c == ' ' || c == '\t' || c == '\n' || c == '\U{000B}' || c == '\U{000C}' || c == '\r'
  }

  predicate IsDigit(c: char) { '0' <= c <= '9' }

  /** Drops leading white space. */
  function SkipSpaces(s: string): (t: string)
    ensures |t| <= |s| && t == s[|s| - |t|..]
    ensures t == [] || !IsSpace(t[0])
  {
    if s != [] && IsSpace(s[0]) then SkipSpaces(s[1..]) else s
  }

  /** What atoi skips before the number is white space only. */
  lemma {:induction false} SkipSpacesDropsSpaces(s: string)
    ensures forall i :: 0 <= i < |s| - |SkipSpaces(s)| ==> IsSpace(s[i])
  {
    if s != [] && IsSpace(s[0]) {
      SkipSpacesDropsSpaces(s[1..]);
      forall i | 1 <= i < |s| - |SkipSpaces(s)|
        ensures IsSpace(s[i])
      {
        assert s[1..][i - 1] == s[i];
      }
    }
  }

  /** The longest prefix of `s` made of decimal digits. */
  function DigitRun(s: string): (ds: string)
    ensures ds <= s
    ensures forall i :: 0 <= i < |ds| ==> IsDigit(ds[i])
    ensures |ds| < |s| ==> !IsDigit(s[|ds|])
  {
    if s != [] && IsDigit(s[0]) then [s[0]] + DigitRun(s[1..]) else []
  }

  /** The number a string of decimal digits denotes. */
  function DigitsValue(ds: string): nat
    requires forall i :: 0 <= i < |ds| ==> IsDigit(ds[i])
  {
    if ds == [] then 0
    else
      assert IsDigit(ds[|ds| - 1]);
      10 * DigitsValue(ds[..|ds| - 1]) + (ds[|ds| - 1] as int - '0' as int)
  }

  /**
   * atoi: skips white space, takes an optional sign, then as many decimal
   * digits as follow; without digits the result is 0.
   */
  function Atoi(s: string): (r: int)
    ensures r < 0 ==> SkipSpaces(s) != [] && SkipSpaces(s)[0] == '-'
  {
    SignedValue(SkipSpaces(s))
  }

  /** What atoi reads once the white space is skipped: an optional sign, then the digits. */
  function SignedValue(t: string): int
  {
    if t != [] && t[0] == '-' then -(DigitsValue(DigitRun(t[1..])) as int)
    else if t != [] && t[0] == '+' then DigitsValue(DigitRun(t[1..]))
    else DigitsValue(DigitRun(t))
  }

  /** Text that does not start with white space is read as it stands. */
  lemma {:induction false} AtoiOfUnspaced(t: string)
    requires t == [] || !IsSpace(t[0])
    ensures Atoi(t) == SignedValue(t)
  {
    assert SkipSpaces(t) == t;
  }

  /** A field that is not a number, such as "N/A", converts to 0 rather than failing. */
  lemma AtoiOfNotAvailable()
    ensures Atoi("N/A") == 0
  {
    AtoiOfNoNumber("N/A");
  }

  /** White space before the number changes nothing. */
  lemma {:induction false} AtoiSkipsSpaces(w: string, t: string)
    requires forall i :: 0 <= i < |w| ==> IsSpace(w[i])
    ensures Atoi(w + t) == Atoi(t)
  {
    SkipSpacesOfSpaces(w, t);
  }

  lemma {:induction false} SkipSpacesOfSpaces(w: string, t: string)
    requires forall i :: 0 <= i < |w| ==> IsSpace(w[i])
    ensures SkipSpaces(w + t) == SkipSpaces(t)
  {
    if w == [] {
      assert w + t == t;
    } else {
      assert (w + t)[0] == w[0];
      assert (w + t)[1..] == w[1..] + t;
      SkipSpacesOfSpaces(w[1..], t);
    }
  }

  /** A plus sign before the digits changes nothing. */
  lemma {:induction false} AtoiOfPlus(t: string)
    requires t == [] || (!IsSpace(t[0]) && t[0] != '+' && t[0] != '-')
    ensures Atoi(['+'] + t) == Atoi(t)
  {
    var u := ['+'] + t;
    AtoiOfPlusStart(u);
    assert u[1..] == t;
    AtoiOfUnsignedStart(t);
  }

  /** atoi of a text that starts with a plus sign reads the digit run after it. */
  lemma {:induction false} AtoiOfPlusStart(u: string)
    requires u != [] && u[0] == '+'
    ensures Atoi(u) == DigitsValue(DigitRun(u[1..]))
  {
    AtoiOfUnspaced(u);
  }

  /** atoi of a text that starts with no white space and no sign reads the digit run at its start. */
  lemma {:induction false} AtoiOfUnsignedStart(t: string)
    requires t == [] || (!IsSpace(t[0]) && t[0] != '+' && t[0] != '-')
    ensures Atoi(t) == DigitsValue(DigitRun(t))
  {
    AtoiOfUnspaced(t);
  }

  /** Text that starts with no white space, sign or digit converts to 0. */
  lemma {:induction false} AtoiOfNoNumber(s: string)
    requires s == [] || (!IsSpace(s[0]) && s[0] != '+' && s[0] != '-' && !IsDigit(s[0]))
    ensures Atoi(s) == 0
  {
    AtoiOfUnspaced(s);
    assert DigitRun(s) == [];
  }

  // ----------------------------------------------------------- printf %d

  function DigitChar(d: nat): char
    requires d < 10
  {
    ('0' as int + d) as char
  }

  /** printf's %d of a non-negative value: its decimal digits without leading zeros. */
  function ShowNat(n: nat): (s: string)
    ensures s != [] && forall i :: 0 <= i < |s| ==> IsDigit(s[i])
    ensures |s| > 1 ==> s[0] != '0'
  {
    if n < 10 then [DigitChar(n)] else ShowNat(n / 10) + [DigitChar(n % 10)]
  }

  /** printf's %d: a minus sign exactly for negative values, then the digits. */
  function ShowInt(n: int): (s: string)
    ensures s != [] && (s[0] == '-' <==> n < 0)
    ensures forall i :: (if n < 0 then 1 else 0) <= i < |s| ==> IsDigit(s[i])
  {
    if n < 0 then "-" + ShowNat(-n) else ShowNat(n)
  }

  lemma {:induction false} DigitsValueOfShowNat(n: nat)
    ensures DigitsValue(ShowNat(n)) == n
  {
    if n >= 10 {
      var s := ShowNat(n);
      assert s[..|s| - 1] == ShowNat(n / 10);
      DigitsValueOfShowNat(n / 10);
    }
  }

  lemma {:induction false} DigitRunOfDigits(ds: string, rest: string)
    requires forall i :: 0 <= i < |ds| ==> IsDigit(ds[i])
    requires rest == [] || !IsDigit(rest[0])
    ensures DigitRun(ds + rest) == ds
  {
    if ds != [] {
      assert (ds + rest)[1..] == ds[1..] + rest;
      DigitRunOfDigits(ds[1..], rest);
    }
  }

  /** atoi of a text that starts with a digit reads the digit run. */
  lemma {:induction false} AtoiOfDigitStart(t: string)
    requires t != [] && IsDigit(t[0])
    ensures Atoi(t) == DigitsValue(DigitRun(t))
  {
    AtoiOfUnspaced(t);
  }

  /** atoi of a text that starts with a minus sign negates the digit run after it. */
  lemma {:induction false} AtoiOfMinusStart(t: string)
    requires t != [] && t[0] == '-'
    ensures Atoi(t) == -(DigitsValue(DigitRun(t[1..])) as int)
  {
    AtoiOfUnspaced(t);
  }

  /** atoi of a run of digits followed by a non-digit is the value of the run. */
  lemma AtoiOfDigits(ds: string, rest: string)
    requires ds != [] && forall i :: 0 <= i < |ds| ==> IsDigit(ds[i])
    requires rest == [] || !IsDigit(rest[0])
    ensures Atoi(ds + rest) == DigitsValue(ds)
  {
    var t := ds + rest;
    assert t[0] == ds[0];
    AtoiOfDigitStart(t);
    DigitRunOfDigits(ds, rest);
  }

  /** The same with a minus sign in front: the value is negated. */
  lemma AtoiOfNegatedDigits(ds: string, rest: string)
    requires ds != [] && forall i :: 0 <= i < |ds| ==> IsDigit(ds[i])
    requires rest == [] || !IsDigit(rest[0])
    ensures Atoi(['-'] + (ds + rest)) == -(DigitsValue(ds) as int)
  {
    var u := ds + rest;
    var t := ['-'] + u;
    AtoiOfMinusStart(t);
    assert t[1..] == u;
    DigitRunOfDigits(ds, rest);
  }

  /** atoi reads back what %d prints for a negative value. */
  lemma AtoiOfShowNegative(n: int, rest: string)
    requires n < 0
    requires rest == [] || !IsDigit(rest[0])
    ensures Atoi(ShowInt(n) + rest) == n
  {
    var m: nat := -n;
    assert ShowInt(n) + rest == ['-'] + (ShowNat(m) + rest);
    AtoiOfMinusShowNat(m, rest);
  }

  lemma AtoiOfMinusShowNat(m: nat, rest: string)
    requires rest == [] || !IsDigit(rest[0])
    ensures Atoi(['-'] + (ShowNat(m) + rest)) == -(m as int)
  {
    AtoiOfNegatedDigits(ShowNat(m), rest);
    DigitsValueOfShowNat(m);
  }

  /** atoi reads back what %d prints for a non-negative value. */
  lemma AtoiOfShowNonNegative(m: nat, rest: string)
    requires rest == [] || !IsDigit(rest[0])
    ensures Atoi(ShowInt(m) + rest) == m
  {
    var ds := ShowNat(m);
    assert Atoi(ShowInt(m) + rest) == DigitsValue(ds) by {
      AtoiOfDigits(ds, rest);
    }
    DigitsValueOfShowNat(m);
  }

  /** atoi reads back what %d prints, whatever non-digit text follows it. */
  lemma AtoiOfShowInt(n: int, rest: string)
    requires rest == [] || !IsDigit(rest[0])
    ensures Atoi(ShowInt(n) + rest) == n
  {
    if n < 0 {
      AtoiOfShowNegative(n, rest);
    } else {
      AtoiOfShowNonNegative(n, rest);
    }
  }

  /** Different values print differently. */
  lemma ShowIntInjective(a: int, b: int)
    requires a != b
    ensures ShowInt(a) != ShowInt(b)
  {
    AtoiOfShowInt(a, []);
    AtoiOfShowInt(b, []);
    assert ShowInt(a) + [] == ShowInt(a) && ShowInt(b) + [] == ShowInt(b);
  }

  // ------------------------------------------------------ strncmp, strstr

  /** strncmp(s, p, |p|) == 0, for a NUL-free `s`. */
  predicate StartsWith(s: string, p: string)
    ensures StartsWith(s, p) <==> |p| <= |s| && forall i :: 0 <= i < |p| ==> s[i] == p[i]
  {
    |p| <= |s| && s[..|p|] == p
  }

  /** strstr(s, p) != NULL: `p` occurs somewhere in `s`. */
  predicate Contains(s: string, p: string)
    ensures p == [] ==> Contains(s, p)
    ensures Contains(s, p) ==> |p| <= |s|
    decreases |s|
  {
    StartsWith(s, p) || (s != [] && Contains(s[1..], p))
  }

  /** `p` occurs in `s` starting at index `i`. */
  predicate OccursAt(s: string, p: string, i: int)
  {
    0 <= i <= |s| - |p| && s[i..i + |p|] == p
  }

  /** Contains finds `p` exactly when `p` occurs at some position of `s`. */
  lemma {:induction false} ContainsAt(s: string, p: string)
    ensures Contains(s, p) <==> exists i :: OccursAt(s, p, i)
    decreases |s|
  {
    if StartsWith(s, p) {
      assert OccursAt(s, p, 0);
    } else if s == [] {
      assert forall i :: !OccursAt(s, p, i);
    } else {
      ContainsAt(s[1..], p);
      if Contains(s, p) {
        var j :| OccursAt(s[1..], p, j);
        assert s[1..][j..j + |p|] == s[j + 1..j + 1 + |p|];
        assert OccursAt(s, p, j + 1);
      } else {
        forall i | OccursAt(s, p, i)
          ensures false
        {
          assert i > 0;
          assert s[1..][i - 1..i - 1 + |p|] == s[i..i + |p|];
          assert OccursAt(s[1..], p, i - 1);
        }
      }
    }
  }
}
