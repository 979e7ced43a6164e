/**
 * The text handling of the report generators (analysis/latex_generator.py
 * and the older analysis/data_analysis.py): reading the bracketed tokens of
 * a result file's first line, trimming compiler output down to the function
 * body, cutting the head off a program listing and deriving a program's
 * file name from its result file.
 */
module ReportText {
  import opened Text

  // ---------------------------------------------------------------------
  // re.findall(r"\[.*?\]", aux) with the brackets stripped

  /** Where the lazy `.*?\]` that starts at `j` ends: the first `]` at or
      after `j`, provided no newline (which `.` does not match) comes
      first. */
  function CloseAt(s: string, j: nat): (r: Option<nat>)
    requires j <= |s|
    ensures r.Some? ==> j <= r.value < |s| && s[r.value] == ']'
    ensures r.Some? ==> forall k :: j <= k < r.value ==> s[k] != ']' && s[k] != '\n'
    ensures r.None? ==> forall k :: j <= k < |s| && s[k] == ']' ==> '\n' in s[j..k]
    decreases |s| - j
  {
    if j == |s| then None
    else if s[j] == ']' then Some(j)
    else if s[j] == '\n' then None
    else
      var r := CloseAt(s, j + 1);
      assert r.None? ==> forall k :: j + 1 <= k < |s| && s[k] == ']' ==>
        '\n' in s[j..k] by {
        forall k | j + 1 <= k < |s| && s[k] == ']' && r.None?
          ensures '\n' in s[j..k]
        {
          assert '\n' in s[j + 1..k];
          var t :| t in s[j + 1..k] && t == '\n';
          assert s[j + 1..k] == s[j..k][1..];
        }
      }
      r
  }

  /** A matched token with every opening and closing bracket removed. */
  function StripBrackets(m: string): (r: string)
    ensures '[' !in r && ']' !in r
    ensures forall c :: c in r <==> c in m && c != '[' && c != ']'
  {
    RemoveChar(RemoveChar(m, '['), ']')
  }

  /** The bracket tokens of a line, in order, brackets removed. A match
      starts at a `[` that is closed on the same line; scanning resumes
      after the `]`. */
  function BracketTokens(s: string): (r: seq<string>)
    ensures forall k :: 0 <= k < |r| ==> '[' !in r[k] && ']' !in r[k] && '\n' !in r[k]
    ensures '[' !in s ==> r == []
    decreases |s|
  {
    if |s| == 0 then []
    else if s[0] == '[' then
      match CloseAt(s, 1)
      case Some(c) =>
        assert '\n' !in s[..c + 1] by {
          forall k | 0 <= k < c + 1 ensures s[k] != '\n' { }
        }
        [StripBrackets(s[..c + 1])] + BracketTokens(s[c + 1..])
      case None => BracketTokens(s[1..])
    else
      assert '[' in s[1..] ==> '[' in s;
      BracketTokens(s[1..])
  }

  /** Text without `[` contributes no token and is skipped. */
  lemma {:induction false} TokensAfterPlain(p: string, rest: string)
    requires '[' !in p
    ensures BracketTokens(p + rest) == BracketTokens(rest)
  {
    if |p| > 0 {
      assert p[0] in p;
      assert (p + rest)[0] == p[0] && p[0] != '[';
      assert (p + rest)[1..] == p[1..] + rest;
      assert BracketTokens(p + rest) == BracketTokens(p[1..] + rest);
      assert '[' !in p[1..] by {
        forall c | c in p[1..] ensures c in p { }
      }
      TokensAfterPlain(p[1..], rest);
    } else {
      assert p + rest == rest;
    }
  }

  /** A bracketed word without brackets or newline is read back as itself. */
  lemma TokenAtFront(w: string, rest: string)
    requires Plain(w)
    ensures BracketTokens("[" + w + "]" + rest) == [w] + BracketTokens(rest)
  {
    var s := "[" + w + "]" + rest;
    var c := |w| + 1;
    assert CloseAt(s, 1) == Some(c) by {
      assert forall k :: 1 <= k < c ==> s[k] == w[k - 1];
      CloseAtPlain(s, 1, c);
    }
    assert s[..c + 1] == "[" + w + "]";
    assert s[c + 1..] == rest;
    StripBracketed(w);
  }

  lemma StripBracketed(w: string)
    requires '[' !in w && ']' !in w
    ensures StripBrackets("[" + w + "]") == w
  {
    var open := "[";
    var close := "]";
    assert "[" + w + "]" == (open + w) + close;
    RemoveCharAppend(open + w, close, '[');
    RemoveCharAppend(open, w, '[');
    RemoveCharAbsent(w, '[');
    assert RemoveChar(open, '[') == "";
    assert RemoveChar(close, '[') == close;
    assert RemoveChar("[" + w + "]", '[') == w + close;
    RemoveCharAppend(w, close, ']');
    RemoveCharAbsent(w, ']');
    assert RemoveChar(close, ']') == "";
  }

  lemma {:induction false} CloseAtPlain(s: string, j: nat, c: nat)
    requires j <= c < |s| && s[c] == ']'
    requires forall k :: j <= k < c ==> s[k] != ']' && s[k] != '\n'
    ensures CloseAt(s, j) == Some(c)
    decreases c - j
  {
    if j < c {
      CloseAtPlain(s, j + 1, c);
    }
  }

  /** The auxiliary line written at the head of a result file
      (fuzzer/fuzzer.c:34, and the second line of a kernel fuzzer record). */
  function FlagsLine(flag: string, fuzzClass: string): string {
    "# compile flags: [" + flag + "], fuzz class: [" + fuzzClass + "]\n"
  }

  /** Values that survive the round trip through a bracket token. */
  predicate Plain(w: string) {
    '[' !in w && ']' !in w && '\n' !in w
  }

  /** `ParsedCSV.__init__`: compile flag and fuzz class are the first two
      bracket tokens of the first line; fewer than two is an `IndexError`. */
  function ParseCsvAux(aux: string): (r: Result<(string, string)>)
    ensures r.Error? <==> |BracketTokens(aux)| < 2
    ensures r.Ok? ==> r.value.0 == BracketTokens(aux)[0] && r.value.1 == BracketTokens(aux)[1]
  {
    var res := BracketTokens(aux);
    if |res| < 2 then Error("IndexError") else Ok((res[0], res[1]))
  }

  /** `parse_aux_info`: the same parse, whose two tokens are read as seed
      and compile flag. */
  function ParseAuxInfo(aux: string): (r: Result<(string, string)>)
    ensures r.Error? <==> |BracketTokens(aux)| < 2
    ensures r.Ok? ==> r.value.0 == BracketTokens(aux)[0] && r.value.1 == BracketTokens(aux)[1]
    ensures '[' !in aux ==> r.Error?
  {
    ParseCsvAux(aux)
  }

  /** The header the fuzzer writes is parsed back into the compile flag and
      fuzz class it was written with. */
  lemma FlagsLineRoundTrip(flag: string, fuzzClass: string)
    requires Plain(flag) && Plain(fuzzClass)
    ensures ParseCsvAux(FlagsLine(flag, fuzzClass)) == Ok((flag, fuzzClass))
  {
    var lead, mid := "# compile flags: ", ", fuzz class: ";
    assert FlagsLine(flag, fuzzClass) == lead + ("[" + flag + "]" + (mid + ("[" + fuzzClass + "]" + "\n")));
    TwoTokens(lead, flag, mid, fuzzClass);
  }

  /** Two bracketed words behind text without `[`, and a newline, are the
      line's only tokens. */
  lemma TwoTokens(lead: string, flag: string, mid: string, fuzzClass: string)
    requires '[' !in lead && '[' !in mid && Plain(flag) && Plain(fuzzClass)
    ensures BracketTokens(lead + ("[" + flag + "]" + (mid + ("[" + fuzzClass + "]" + "\n")))) == [flag, fuzzClass]
  {
    var second := "[" + fuzzClass + "]" + "\n";
    var tail := mid + second;
    var first := "[" + flag + "]" + tail;
    TokensAfterPlain(lead, first);
    TokenAtFront(flag, tail);
    TokensAfterPlain(mid, second);
    TokenAtFront(fuzzClass, "\n");
    assert BracketTokens("\n") == [];
  }

  // ---------------------------------------------------------------------
  // trim_assembly

  /** The index of the first line starting with `.LFE0`; `None` is where
      `next` raises `StopIteration`. */
  function FirstFunctionEnd(lines: seq<string>): (r: Option<nat>)
    ensures r.Some? ==> r.value < |lines| && StartsWith(lines[r.value], ".LFE0")
    ensures r.Some? ==> forall k :: 0 <= k < r.value ==> !StartsWith(lines[k], ".LFE0")
    ensures r.None? ==> forall k :: 0 <= k < |lines| ==> !StartsWith(lines[k], ".LFE0")
  {
    if |lines| == 0 then None
    else if StartsWith(lines[0], ".LFE0") then Some(0)
    else match FirstFunctionEnd(lines[1..])
      case None => None
      case Some(e) => Some(e + 1)
  }

  /** The lines that do not mention `.cfi`, in their order. */
  function DropCfi(lines: seq<string>): (r: seq<string>)
    ensures |r| <= |lines|
    ensures forall k :: 0 <= k < |r| ==> !Contains(r[k], ".cfi") && r[k] in lines
    ensures forall l :: l in lines && !Contains(l, ".cfi") ==> l in r
  {
    if |lines| == 0 then []
    else (if Contains(lines[0], ".cfi") then [] else [lines[0]]) + DropCfi(lines[1..])
  }

  /** The filter keeps the order: it distributes over concatenation. */
  lemma {:induction false} DropCfiAppend(a: seq<string>, b: seq<string>)
    ensures DropCfi(a + b) == DropCfi(a) + DropCfi(b)
  {
    if |a| == 0 {
      assert a + b == b;
    } else {
      assert (a + b)[1..] == a[1..] + b;
      DropCfiAppend(a[1..], b);
    }
  }

  /** The lines kept before filtering: `asm[4]` and `asm[e]` overwritten by
      `"..."`, then the slice `asm[4:e + 1]`, empty when `e < 4`. */
  function KeptLines(lines: seq<string>, e: nat): seq<string>
    requires 4 < |lines| && e < |lines|
  {
    var marked := lines[4 := "..."][e := "..."];
    if e < 4 then [] else marked[4..e + 1]
  }

  /** What the kept lines are: nothing when `.LFE0` comes before line 4,
      a lone `"..."` when it is line 4, and otherwise `"..."`, the lines
      strictly between line 4 and the `.LFE0` line, and `"..."`. */
  lemma KeptLinesShape(lines: seq<string>, e: nat)
    requires 4 < |lines| && e < |lines|
    ensures e < 4 ==> KeptLines(lines, e) == []
    ensures e == 4 ==> KeptLines(lines, e) == ["..."]
    ensures e > 4 ==> KeptLines(lines, e) == ["..."] + lines[5..e] + ["..."]
  {
    if e > 4 {
      var marked := lines[4 := "..."][e := "..."];
      assert marked[4..e + 1] == ["..."] + lines[5..e] + ["..."];
    }
  }

  /** The trimmed compiler output: the lines from index 4 to the first `.LFE0`
      line, both boundary lines shown as `"..."`, without `.cfi`
      directives. `StopIteration` when there is no `.LFE0` line, and
      `IndexError` when there are fewer than five lines. */
  function TrimAssembly(asm: string): (r: Result<string>)
    ensures r.Error? <==>
      FirstFunctionEnd(Split(asm, '\n')).None? || |Split(asm, '\n')| < 5
    ensures r.Ok? ==> r.value == Join(DropCfi(KeptLines(Split(asm, '\n'),
                                   FirstFunctionEnd(Split(asm, '\n')).value)), '\n')
  {
    var lines := Split(asm, '\n');
    match FirstFunctionEnd(lines)
    case None => Error("StopIteration")
    case Some(e) =>
      if |lines| < 5 then Error("IndexError")
      else Ok(Join(DropCfi(KeptLines(lines, e)), '\n'))
  }

  /** Reading the trimmed text back line by line gives exactly the kept
      lines without `.cfi`: the boundary markers first and last, and in
      between every line after line 4 and before `.LFE0` that does not
      mention `.cfi`, in their original order. */
  lemma TrimAssemblyLines(asm: string)
    requires TrimAssembly(asm).Ok?
    requires FirstFunctionEnd(Split(asm, '\n')).value > 4
    ensures var lines := Split(asm, '\n');
            var e := FirstFunctionEnd(lines).value;
            Split(TrimAssembly(asm).value, '\n') == ["..."] + DropCfi(lines[5..e]) + ["..."]
  {
    var lines := Split(asm, '\n');
    var e := FirstFunctionEnd(lines).value;
    KeptLinesShape(lines, e);
    var body := lines[5..e];
    assert forall k :: 0 <= k < |body| ==> body[k] == lines[k + 5];
    MarkedDropCfi(body);
    SplitJoin(["..."] + DropCfi(body) + ["..."], '\n');
  }

  /** The boundary markers survive the `.cfi` filter, and no kept line
      holds a newline when no input line does. */
  lemma MarkedDropCfi(body: seq<string>)
    requires forall k :: 0 <= k < |body| ==> '\n' !in body[k]
    ensures DropCfi(["..."] + body + ["..."]) == ["..."] + DropCfi(body) + ["..."]
    ensures var kept := ["..."] + DropCfi(body) + ["..."];
            forall k :: 0 <= k < |kept| ==> '\n' !in kept[k]
  {
    var dots := "...";
    assert !Contains(dots, ".cfi");
    assert DropCfi([dots]) == [dots];
    DropCfiAppend([dots] + body, [dots]);
    DropCfiAppend([dots], body);
    var kept := [dots] + DropCfi(body) + [dots];
    forall k | 0 <= k < |kept| ensures '\n' !in kept[k] {
      if 0 < k < |kept| - 1 {
        assert kept[k] in DropCfi(body);
        assert kept[k] in body;
      }
    }
  }

  /** No `.LFE0` line, no result; and a function end at line 4 or before
      leaves at most the marker. */
  lemma TrimAssemblyShort(asm: string)
    requires TrimAssembly(asm).Ok?
    requires FirstFunctionEnd(Split(asm, '\n')).value <= 4
    ensures FirstFunctionEnd(Split(asm, '\n')).value < 4 ==> TrimAssembly(asm).value == ""
    ensures FirstFunctionEnd(Split(asm, '\n')).value == 4 ==> TrimAssembly(asm).value == "..."
  {
    var lines := Split(asm, '\n');
    KeptLinesShape(lines, FirstFunctionEnd(lines).value);
    var dots := "...";
    assert !Contains(dots, ".cfi");
    assert DropCfi([dots]) == [dots];
  }

  // ---------------------------------------------------------------------
  // Listings and file names

  /** The program without its first `n` lines, headed by an ellipsis line; `IndexError` when the program has fewer
      than `n` newlines. `get_program_source` uses `n = 2`, the older
      generator `n = 3`. */
  function ProgramListing(prog: string, n: nat): (r: Result<string>)
    ensures r.Error? <==> Count(prog, '\n') < n
    ensures r.Ok? ==> StartsWith(r.value, "...\n") && EndsWith(prog, r.value[4..])
  {
    match AfterNewlines(prog, n)
    case None => Error("IndexError")
    case Some(rest) =>
      var r := "...\n" + rest;
      assert r[4..] == rest;
      Ok(r)
  }

  /** The lines dropped from a listing are exactly the first `n` ones. */
  lemma ListingDropsLines(head: seq<string>, rest: string)
    requires |head| >= 1
    requires forall k :: 0 <= k < |head| ==> '\n' !in head[k]
    ensures ProgramListing(Join(head, '\n') + "\n" + rest, |head|) == Ok("...\n" + rest)
  {
    DropHeadLines(head, rest);
  }

  lemma {:induction false} DropHeadLines(head: seq<string>, rest: string)
    requires |head| >= 1
    requires forall k :: 0 <= k < |head| ==> '\n' !in head[k]
    ensures AfterNewlines(Join(head, '\n') + "\n" + rest, |head|) == Some(rest)
  {
    if |head| == 1 {
      AfterNewlinesLine(head[0], rest, 1);
    } else {
      var tail := head[1..];
      var more := Join(tail, '\n') + "\n" + rest;
      DropHeadLines(tail, rest);
      JoinFirstLine(head, rest);
      AfterNewlinesLine(head[0], more, |head|);
    }
  }

  /** Lines joined by newlines begin with the first line and a newline. */
  lemma JoinFirstLine(head: seq<string>, rest: string)
    requires |head| >= 2
    ensures Join(head, '\n') + "\n" + rest == head[0] + "\n" + (Join(head[1..], '\n') + "\n" + rest)
  {
    assert Join(head, '\n') == head[0] + "\n" + Join(head[1..], '\n');
  }

  /** The older generator's program name: the base name of the result
      file with every `.csv` removed. */
  function ProgramFilename(path: string): (r: string)
    ensures '/' !in r
    ensures |r| <= |path|
  {
    var b := Basename(path);
    var r := RemoveAll(b, ".csv");
    assert forall c :: c in r ==> c in b by { RemovedIsSub(b, ".csv"); }
    r
  }

  lemma {:induction false} RemovedIsSub(s: string, p: string)
    requires |p| > 0
    ensures forall c :: c in RemoveAll(s, p) ==> c in s
    decreases |s|
  {
    if |s| >= |p| {
      if s[..|p|] == p {
        RemovedIsSub(s[|p|..], p);
      } else {
        RemovedIsSub(s[1..], p);
      }
    }
  }

  /** A result file `dir/name.csv` names the program `name`, for a name
      without a dot. */
  lemma ProgramFilenameRoundTrip(dir: string, name: string)
    requires '/' !in name && '.' !in name
    ensures ProgramFilename(dir + "/" + name + ".csv") == name
  {
    var path := dir + "/" + name + ".csv";
    BasenameAfterSlash(dir, name + ".csv");
    assert dir + "/" + (name + ".csv") == path;
    RemoveAllSuffix(name, ".csv");
  }

  lemma {:induction false} BasenameAfterSlash(dir: string, name: string)
    requires '/' !in name
    ensures Basename(dir + "/" + name) == name
    decreases |name|
  {
    var path := dir + "/" + name;
    if |name| == 0 {
      assert path[|path| - 1] == '/';
    } else {
      assert path[..|path| - 1] == dir + "/" + name[..|name| - 1];
      BasenameAfterSlash(dir, name[..|name| - 1]);
      assert name[..|name| - 1] + [name[|name| - 1]] == name;
    }
  }

  /** `replace` is a single left-to-right pass: an occurrence of the
      pattern that only forms once another one is removed stays. With
      `p = ".csv"` the name `.c.csvsv` comes out as `.csv`. */
  lemma ReplaceIsSinglePass(p: string)
    requires |p| >= 2 && p[1] != p[0]
    ensures RemoveAll(p[..1] + p + p[1..], p) == p
  {
    var t := p + p[1..];
    assert p[..1] + p + p[1..] == [p[0]] + t;
    RemoveAllMiss(p[0], t, p, 1);
    RemoveAllMatch(p, p[1..]);
    assert [p[0]] + p[1..] == p;
  }

  /** An occurrence of the pattern at the front is removed whole. */
  lemma RemoveAllMatch(p: string, t: string)
    requires |p| > 0
    ensures RemoveAll(p + t, p) == RemoveAll(t, p)
  {
    assert (p + t)[..|p|] == p && (p + t)[|p|..] == t;
  }

  /** A front character that does not start an occurrence is kept. */
  lemma RemoveAllMiss(c: char, t: string, p: string, k: nat)
    requires k < |p| <= |t| + 1 && ([c] + t)[k] != p[k]
    ensures RemoveAll([c] + t, p) == [c] + RemoveAll(t, p)
  {
    assert ([c] + t)[..|p|][k] != p[k];
    assert ([c] + t)[1..] == t;
  }
}
