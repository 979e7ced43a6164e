/**
 * The string operations of Python and C that the analysis scripts and the
 * fuzzer rely on, written out over `seq<char>`: line splitting and joining
 * (`str.split("\n")`, `"\n".join`), `str.split("\n", n)[n]`,
 * `str.replace(p, "")`, `os.path.basename`, C's `strlen`, the truncation
 * done by `snprintf` into a fixed buffer, and decimal rendering by
 * `%d`/`%lld`/`%llu`.
 */
module Text {

  /** `[a-z]` in a Python regular expression. */
  predicate IsLower(c: char) {
    'a' <= c <= 'z'
  }

  predicate IsDigit(c: char) {
    '0' <= c <= '9'
  }

  predicate StartsWith(s: string, p: string) {
    |p| <= |s| && s[..|p|] == p
  }

  predicate EndsWith(s: string, p: string) {
    |p| <= |s| && s[|s| - |p|..] == p
  }

  /** `p` occurs in `s` starting at index `i`. */
  predicate OccursAt(s: string, p: string, i: int) {
    0 <= i <= |s| - |p| && s[i..i + |p|] == p
  }

  /** Python's `p in s` for strings: `p` occurs somewhere in `s`. */
  predicate Contains(s: string, p: string) {
    exists i :: 0 <= i <= |s| - |p| && OccursAt(s, p, i)
  }

  /** Number of occurrences of the character `c` in `s`. */
  function Count(s: string, c: char): (n: nat)
    ensures n <= |s|
    ensures n == 0 <==> c !in s
  {
    if |s| == 0 then 0 else (if s[0] == c then 1 else 0) + Count(s[1..], c)
  }

  lemma {:induction false} CountAppend(a: string, b: string, c: char)
    ensures Count(a + b, c) == Count(a, c) + Count(b, c)
  {
    if |a| == 0 {
      assert a + b == b;
    } else {
      assert (a + b)[1..] == a[1..] + b;
      CountAppend(a[1..], b, c);
    }
  }

  // ---------------------------------------------------------------------
  // str.split(sep) and sep.join(pieces)

  /** Python's `s.split(sep)` for a one-character separator: the pieces
      between separators, so there is always one more piece than there are
      separators, and empty pieces are kept. */
  function Split(s: string, sep: char): (r: seq<string>)
    ensures |r| == Count(s, sep) + 1
    ensures forall k :: 0 <= k < |r| ==> sep !in r[k]
  {
    if |s| == 0 then [""]
    else
      var rest := Split(s[1..], sep);
      if s[0] == sep then [""] + rest
      else [[s[0]] + rest[0]] + rest[1..]
  }

  /** Python's `sep.join(pieces)`; joining no pieces gives `""`. */
  function Join(pieces: seq<string>, sep: char): string {
    if |pieces| == 0 then ""
    else if |pieces| == 1 then pieces[0]
    else pieces[0] + [sep] + Join(pieces[1..], sep)
  }

  /** Joining the pieces of a split gives the original text back. */
  lemma {:induction false} JoinSplit(s: string, sep: char)
    ensures Join(Split(s, sep), sep) == s
  {
    if |s| > 0 {
      var rest := Split(s[1..], sep);
      JoinSplit(s[1..], sep);
      if s[0] == sep {
        assert Split(s, sep)[1..] == rest;
      } else {
        var r := Split(s, sep);
        if |rest| == 1 {
          assert r == [[s[0]] + rest[0]];
        } else {
          assert r[1..] == rest[1..];
          assert Join(r, sep) == [s[0]] + rest[0] + [sep] + Join(rest[1..], sep);
        }
      }
    }
  }

  /** Splitting a join of separator-free pieces gives the pieces back. */
  lemma {:induction false} SplitJoin(pieces: seq<string>, sep: char)
    requires |pieces| >= 1
    requires forall k :: 0 <= k < |pieces| ==> sep !in pieces[k]
    ensures Split(Join(pieces, sep), sep) == pieces
  {
    if |pieces| == 1 {
      SplitNoSep(pieces[0], sep);
    } else {
      SplitJoin(pieces[1..], sep);
      SplitPrefix(pieces[0], Join(pieces[1..], sep), sep);
    }
  }

  /** A text without separator splits into itself. */
  lemma {:induction false} SplitNoSep(s: string, sep: char)
    requires sep !in s
    ensures Split(s, sep) == [s]
  {
    if |s| > 0 {
      SplitNoSep(s[1..], sep);
      assert [s[0]] + s[1..] == s;
    }
  }

  /** Splitting `w + sep + t`, for a separator-free `w`, yields `w` and then
      the pieces of `t`. */
  lemma {:induction false} SplitPrefix(w: string, t: string, sep: char)
    requires sep !in w
    ensures Split(w + [sep] + t, sep) == [w] + Split(t, sep)
  {
    if |w| == 0 {
      assert w + [sep] + t == [sep] + t;
      assert ([sep] + t)[1..] == t;
    } else {
      assert (w + [sep] + t)[1..] == w[1..] + [sep] + t;
      SplitPrefix(w[1..], t, sep);
      assert [w[0]] + w[1..] == w;
    }
  }

  // ---------------------------------------------------------------------
  // str.split("\n", n)[n]

  /** Python's `s.split("\n", n)[n]`: the text after the `n`-th newline, or
      `None` where Python raises `IndexError` (fewer than `n` newlines). */
  function AfterNewlines(s: string, n: nat): (r: Option<string>)
    ensures r.None? <==> Count(s, '\n') < n
    ensures r.Some? ==> |r.value| <= |s| && s[|s| - |r.value|..] == r.value
  {
    if n == 0 then Some(s)
    else if |s| == 0 then None
    else if s[0] == '\n' then AfterNewlines(s[1..], n - 1)
    else AfterNewlines(s[1..], n)
  }

  /** Dropping the first of the lines consumes exactly that line. */
  lemma {:induction false} AfterNewlinesLine(line: string, rest: string, n: nat)
    requires '\n' !in line
    requires n >= 1
    ensures AfterNewlines(line + "\n" + rest, n) == AfterNewlines(rest, n - 1)
  {
    if |line| == 0 {
      assert line + "\n" + rest == "\n" + rest;
      assert ("\n" + rest)[1..] == rest;
    } else {
      assert (line + "\n" + rest)[1..] == line[1..] + "\n" + rest;
      AfterNewlinesLine(line[1..], rest, n);
    }
  }

  // ---------------------------------------------------------------------
  // str.replace(p, "") and os.path.basename

  /** Python's `s.replace(p, "")`: every occurrence of `p` found scanning
      from the left, without overlaps, is removed. */
  function RemoveAll(s: string, p: string): (r: string)
    requires |p| > 0
    ensures |r| <= |s|
    ensures p[0] !in s ==> r == s
    decreases |s|
  {
    if |s| < |p| then s
    else if s[..|p|] == p then RemoveAll(s[|p|..], p)
    else
      var r := [s[0]] + RemoveAll(s[1..], p);
      assert p[0] !in s ==> r == [s[0]] + s[1..] == s;
      r
  }

  /** A text that shares no character with the first character of `p`
      loses nothing, and `p` itself appended is removed once. */
  lemma {:induction false} RemoveAllSuffix(stem: string, p: string)
    requires |p| > 0
    requires p[0] !in stem
    ensures RemoveAll(stem + p, p) == stem
  {
    if |stem| == 0 {
      assert (stem + p)[..|p|] == p;
      assert (stem + p)[|p|..] == "";
    } else {
      assert (stem + p)[..|p|][0] == stem[0];
      assert (stem + p)[1..] == stem[1..] + p;
      RemoveAllSuffix(stem[1..], p);
      assert [stem[0]] + stem[1..] == stem;
    }
  }

  /** Python's `s.replace(c, "")` for a single character `c`. */
  function RemoveChar(s: string, c: char): (r: string)
    ensures c !in r && |r| <= |s|
    ensures forall x :: x in r <==> x in s && x != c
  {
    if |s| == 0 then ""
    else (if s[0] == c then "" else [s[0]]) + RemoveChar(s[1..], c)
  }

  /** Removing a character that does not occur changes nothing. */
  lemma {:induction false} RemoveCharAbsent(s: string, c: char)
    requires c !in s
    ensures RemoveChar(s, c) == s
  {
    if |s| > 0 {
      RemoveCharAbsent(s[1..], c);
      assert [s[0]] + s[1..] == s;
    }
  }

  lemma {:induction false} RemoveCharAppend(a: string, b: string, c: char)
    ensures RemoveChar(a + b, c) == RemoveChar(a, c) + RemoveChar(b, c)
  {
    if |a| == 0 {
      assert a + b == b;
    } else {
      assert (a + b)[1..] == a[1..] + b;
      RemoveCharAppend(a[1..], b, c);
    }
  }

  /** POSIX `os.path.basename`: the text after the last `/`. */
  function Basename(path: string): (r: string)
    ensures '/' !in r
    ensures |r| <= |path| && path[|path| - |r|..] == r
    ensures |r| < |path| ==> path[|path| - |r| - 1] == '/'
  {
    if |path| == 0 then ""
    else if path[|path| - 1] == '/' then ""
    else Basename(path[..|path| - 1]) + [path[|path| - 1]]
  }

  // ---------------------------------------------------------------------
  // C strings

  /** C's `strlen`: the length up to the first NUL character. */
  function Strlen(s: string): (n: nat)
    ensures n <= |s|
    ensures '\0' !in s[..n]
    ensures n < |s| ==> s[n] == '\0'
  {
    if |s| == 0 || s[0] == '\0' then 0 else 1 + Strlen(s[1..])
  }

  /** What `snprintf(buf, size, ...)` leaves in `buf`: at most `size - 1`
      characters of the formatted text, then the terminating NUL. */
  function Truncate(s: string, size: nat): (r: string)
    requires size >= 1
    ensures |r| <= size - 1 && StartsWith(s, r)
    ensures |s| <= size - 1 ==> r == s
  {
    if |s| <= size - 1 then s else s[..size - 1]
  }

  // ---------------------------------------------------------------------
  // Decimal rendering (%d, %lld, %llu)

  function DigitChar(d: nat): (c: char)
    requires d < 10
    ensures IsDigit(c)
  {
    ('0' as int + d) as char
  }

  /** `%llu`: the decimal digits of `n`, without leading zeros. */
  function NatToDecimal(n: nat): (r: string)
    ensures 1 <= |r|
    ensures forall k :: 0 <= k < |r| ==> IsDigit(r[k])
    ensures |r| > 1 ==> r[0] != '0'
  {
    if n < 10 then [DigitChar(n)] else NatToDecimal(n / 10) + [DigitChar(n % 10)]
  }

  /** `%lld`: a minus sign before the digits of a negative value. */
  function IntToDecimal(x: int): (r: string)
    ensures x < 0 <==> (|r| > 0 && r[0] == '-')
  {
    if x < 0 then "-" + NatToDecimal(-x) else NatToDecimal(x)
  }

  /** Reading decimal digits back (what a CSV reader does with a column). */
  function ParseDecimal(s: string): nat
    requires forall k :: 0 <= k < |s| ==> IsDigit(s[k])
  {
    if |s| == 0 then 0
    else
      assert IsDigit(s[|s| - 1]);
      10 * ParseDecimal(s[..|s| - 1]) + (s[|s| - 1] as int - '0' as int)
  }

  lemma {:induction false} DecimalRoundTrip(n: nat)
    ensures ParseDecimal(NatToDecimal(n)) == n
  {
    if n >= 10 {
      DecimalRoundTrip(n / 10);
      var r := NatToDecimal(n);
      assert r[..|r| - 1] == NatToDecimal(n / 10);
    }
  }

  /** A rendered number never contains the CSV separator, a newline or a
      bracket, so it cannot disturb the record structure around it. */
  lemma DecimalIsPlain(x: int)
    ensures ',' !in IntToDecimal(x) && '\n' !in IntToDecimal(x)
    ensures '[' !in IntToDecimal(x) && ']' !in IntToDecimal(x)
  {
    var r := IntToDecimal(x);
    if x < 0 {
      assert forall k :: 1 <= k < |r| ==> IsDigit(r[k]);
    }
  }

  datatype Option<+T> = None | Some(value: T)

  /** A value, or the Python exception or C error the source raises. */
  datatype Result<+T> = Ok(value: T) | Error(error: string)
}
