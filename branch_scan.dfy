/**
 * The branch signature of an assembly text: what Python's `re.findall`
 * returns for the two mnemonic patterns of the analysis scripts.
 *
 * - `JumpAny` is `\t(j[a-z]+)` (analysis/assembly_inspection.py): a tab,
 *   then `j` and one or more lower-case letters; the group is the mnemonic,
 *   `jmp` included.
 * - `CondBranch` is `\t(j(?!mp)[a-z][a-z]*)|(loop[a-z]*) `
 *   (analysis/latex_generator.py), following Table 7-4 of the Intel 64 and
 *   IA-32 Architectures Software Developer's Manual, Volume 1: the first
 *   alternative is the same as `JumpAny` except that the letters after `j`
 *   must not begin with `mp`; the second alternative is `loop`, further
 *   lower-case letters and a space, which the match consumes but the group
 *   does not.
 *
 * `findall` scans from the left: at each position it tries the pattern; on
 * a match it records it and resumes at the end of the match, otherwise it
 * moves one character on. Both patterns use greedy `[a-z]` runs with nothing
 * after them that could force backtracking, so a match always takes the
 * whole run of lower-case letters.
 */
module BranchScan {
  import opened Text

  datatype Pattern = JumpAny | CondBranch

  /** One match: the text positions `[start, end)` it consumed and its two
      groups, `""` standing for a group that did not take part (as in the
      tuples `findall` returns for a pattern with two groups). */
  datatype Hit = Hit(start: nat, end: nat, jump: string, loop: string)

  /** End of the maximal run of lower-case letters that starts at `i`. */
  function RunEnd(s: string, i: nat): (e: nat)
    requires i <= |s|
    ensures i <= e <= |s|
    ensures forall k :: i <= k < e ==> IsLower(s[k])
    ensures e == |s| || !IsLower(s[e])
    decreases |s| - i
  {
    if i < |s| && IsLower(s[i]) then RunEnd(s, i + 1) else i
  }

  /** `\tj[a-z]` starts at `i`. */
  predicate JumpHead(s: string, i: nat) {
    i + 2 < |s| && s[i] == '\t' && s[i + 1] == 'j' && IsLower(s[i + 2])
  }

  /** The negative lookahead `(?!mp)` fails right after the `j` at `i + 1`. */
  predicate JmpAhead(s: string, i: nat) {
    i + 4 <= |s| && s[i + 2] == 'm' && s[i + 3] == 'p'
  }

  /** `loop` starts at `i`. */
  predicate LoopHead(s: string, i: nat) {
    i + 4 <= |s| && s[i..i + 4] == "loop"
  }

  /** The match of pattern `p` that starts exactly at `i`, if there is one. */
  function MatchAt(p: Pattern, s: string, i: nat): (r: Option<Hit>)
    ensures r.Some? ==> r.value.start == i < r.value.end <= |s|
    ensures r.Some? ==> (r.value.jump == "") != (r.value.loop == "")
    ensures r.Some? && p == JumpAny ==> r.value.loop == ""
  {
    if JumpHead(s, i) && (p == JumpAny || !JmpAhead(s, i)) then
      var e := RunEnd(s, i + 2);
      Some(Hit(i, e, s[i + 1..e], ""))
    else if p == CondBranch && LoopHead(s, i) then
      var e := RunEnd(s, i + 4);
      if e < |s| && s[e] == ' ' then Some(Hit(i, e + 1, "", s[i..e])) else None
    else
      None
  }

  /** The hits `r` found from position `i` on are matches of `p` at their
      own starts, in text order and without overlap. */
  ghost predicate Sound(p: Pattern, s: string, i: nat, r: seq<Hit>) {
    && (forall k :: 0 <= k < |r| ==> MatchAt(p, s, r[k].start) == Some(r[k]))
    && (forall k :: 0 <= k < |r| ==> i <= r[k].start)
    && (forall k :: 0 < k < |r| ==> r[k - 1].end <= r[k].start)
  }

  /** `findall` from position `i` on: try the pattern at `i`; on a match
      keep it and resume at its end, otherwise move one character on. */
  function FindAllFrom(p: Pattern, s: string, i: nat): seq<Hit>
    requires i <= |s|
    decreases |s| - i
  {
    if i == |s| then []
    else
      match MatchAt(p, s, i)
      case None => FindAllFrom(p, s, i + 1)
      case Some(h) => [h] + FindAllFrom(p, s, h.end)
  }

  /** Soundness of `findall`: every hit is a match at its own start, at or
      after `i`, and the hits follow one another without overlap. */
  lemma {:induction false} FindAllSound(p: Pattern, s: string, i: nat)
    requires i <= |s|
    ensures Sound(p, s, i, FindAllFrom(p, s, i))
    decreases |s| - i
  {
    if i < |s| {
      match MatchAt(p, s, i)
      case None =>
        FindAllAtNone(p, s, i);
        FindAllSound(p, s, i + 1);
      case Some(h) =>
        FindAllAtMatch(p, s, i, h);
        FindAllSound(p, s, h.end);
        SoundCons(p, s, i, h, FindAllFrom(p, s, h.end));
    }
  }

  /** A match at `i` followed by sound hits from its end on is sound from
      `i` on. */
  lemma SoundCons(p: Pattern, s: string, i: nat, h: Hit, rest: seq<Hit>)
    requires MatchAt(p, s, i) == Some(h) && Sound(p, s, h.end, rest)
    ensures Sound(p, s, i, [h] + rest)
  {
    var r := [h] + rest;
    assert forall k :: 0 < k < |r| ==> r[k] == rest[k - 1];
  }

  /** Position `q` lies inside one of the hits. */
  predicate Covered(hits: seq<Hit>, q: nat) {
    exists k :: 0 <= k < |hits| && hits[k].start <= q < hits[k].end
  }

  /** Completeness of `findall`: every position where the pattern matches
      lies inside one of the hits, so the leftmost match is never skipped.
      With `Sound`, this pins the result down completely. */
  lemma {:induction false} FindAllComplete(p: Pattern, s: string, i: nat, q: nat)
    requires i <= q < |s|
    requires MatchAt(p, s, q).Some?
    ensures Covered(FindAllFrom(p, s, i), q)
    decreases |s| - i
  {
    match MatchAt(p, s, i)
    case None =>
      FindAllAtNone(p, s, i);
      FindAllComplete(p, s, i + 1, q);
    case Some(h) =>
      FindAllAtMatch(p, s, i, h);
      var rest := FindAllFrom(p, s, h.end);
      if q >= h.end {
        FindAllComplete(p, s, h.end, q);
      }
      CoveredCons(h, rest, q);
  }

  /** A hit put in front keeps every covered position covered, and covers
      its own span. */
  lemma CoveredCons(h: Hit, rest: seq<Hit>, q: nat)
    requires h.start <= q < h.end || Covered(rest, q)
    ensures Covered([h] + rest, q)
  {
    var r := [h] + rest;
    if h.start <= q < h.end {
      assert r[0] == h;
    } else {
      var k :| 0 <= k < |rest| && rest[k].start <= q < rest[k].end;
      assert r[k + 1] == rest[k];
    }
  }

  /** `findall` at a position where the pattern matches. */
  lemma FindAllAtMatch(p: Pattern, s: string, i: nat, h: Hit)
    requires i < |s| && MatchAt(p, s, i) == Some(h)
    ensures FindAllFrom(p, s, i) == [h] + FindAllFrom(p, s, h.end)
  {
  }

  /** `findall` at a position where the pattern does not match. */
  lemma FindAllAtNone(p: Pattern, s: string, i: nat)
    requires i < |s| && MatchAt(p, s, i).None?
    ensures FindAllFrom(p, s, i) == FindAllFrom(p, s, i + 1)
  {
  }

  function FindAll(p: Pattern, s: string): seq<Hit> {
    FindAllFrom(p, s, 0)
  }

  /** A mnemonic as the patterns capture it: lower-case letters only. */
  predicate AllLower(m: string) {
    forall k :: 0 <= k < |m| ==> IsLower(m[k])
  }

  predicate IsCondJump(m: string) {
    |m| >= 2 && m[0] == 'j' && AllLower(m) && !StartsWith(m, "jmp")
  }

  predicate IsLoop(m: string) {
    StartsWith(m, "loop") && AllLower(m)
  }

  /** What a hit of the jump alternative is: the text after the tab up to
      the end of the run of letters; it begins with `jmp` exactly when the
      lookahead of the newer pattern fails. */
  lemma JumpHitShape(p: Pattern, s: string, h: Hit)
    requires MatchAt(p, s, h.start) == Some(h) && h.jump != ""
    ensures JumpHead(s, h.start) && h.end == RunEnd(s, h.start + 2) && h.loop == ""
    ensures h.jump == s[h.start + 1..h.end]
    ensures |h.jump| >= 2 && h.jump[0] == 'j' && AllLower(h.jump)
    ensures OccursAt(s, "\t" + h.jump, h.start)
    ensures StartsWith(h.jump, "jmp") <==> JmpAhead(s, h.start)
    ensures p == CondBranch ==> !JmpAhead(s, h.start)
  {
    var i := h.start;
    assert JumpHead(s, i);
    assert s[i..h.end] == "\t" + h.jump;
    if JmpAhead(s, i) {
      assert IsLower(s[i + 3]);
      assert h.jump[..3] == s[i + 1..i + 4];
    }
    if StartsWith(h.jump, "jmp") {
      assert h.jump[1] == s[i + 2] && h.jump[2] == s[i + 3];
    }
  }

  /** What a hit of the `loop` alternative is: `loop` and the rest of the run
      of letters, followed by the space the match consumed. */
  lemma LoopHitShape(s: string, h: Hit)
    requires MatchAt(CondBranch, s, h.start) == Some(h) && h.loop != ""
    ensures !JumpHead(s, h.start) || JmpAhead(s, h.start)
    ensures LoopHead(s, h.start) && h.end - 1 == RunEnd(s, h.start + 4) && h.jump == ""
    ensures h.loop == s[h.start..h.end - 1] && s[h.end - 1] == ' '
    ensures IsLoop(h.loop) && s[h.start] == 'l'
    ensures OccursAt(s, h.loop + " ", h.start)
  {
    var i := h.start;
    assert s[i..i + 4] == "loop";
    assert h.loop[..4] == s[i..i + 4];
    assert s[i..h.end] == h.loop + " ";
  }

  // ---------------------------------------------------------------------
  // The older signature (assembly_inspection.py)

  function Groups(hits: seq<Hit>): (r: seq<string>)
    ensures |r| == |hits| && forall k :: 0 <= k < |r| ==> r[k] == hits[k].jump
  {
    if |hits| == 0 then [] else [hits[0].jump] + Groups(hits[1..])
  }

  /** `jmp_regex.findall(asm)` for `\t(j[a-z]+)`: one mnemonic per match, in
      text order; each is `j` followed by at least one lower-case letter
      and appears in the text right after a tab. A text without a tab has
      an empty signature. */
  function Signature(asm: string): (sig: seq<string>)
    ensures |sig| == |FindAll(JumpAny, asm)|
    ensures forall k :: 0 <= k < |sig| ==>
              |sig[k]| >= 2 && sig[k][0] == 'j' && AllLower(sig[k])
    ensures forall k :: 0 <= k < |sig| ==> Contains(asm, "\t" + sig[k])
    ensures '\t' !in asm ==> sig == []
  {
    var hits := FindAll(JumpAny, asm);
    FindAllSound(JumpAny, asm, 0);
    var sig := Groups(hits);
    forall k | 0 <= k < |sig|
      ensures |sig[k]| >= 2 && sig[k][0] == 'j' && AllLower(sig[k])
      ensures Contains(asm, "\t" + sig[k])
    {
      JumpHitShape(JumpAny, asm, hits[k]);
    }
    sig
  }

  // ---------------------------------------------------------------------
  // The newer extractor (latex_generator.py)

  /** The non-empty first groups (the conditional jumps), in match order. */
  function JumpGroups(hits: seq<Hit>): (r: seq<string>)
    ensures |r| <= |hits|
  {
    if |hits| == 0 then []
    else (if hits[0].jump != "" then [hits[0].jump] else []) + JumpGroups(hits[1..])
  }

  /** The non-empty second groups (the `loop` mnemonics), in match order. */
  function LoopGroups(hits: seq<Hit>): (r: seq<string>)
    ensures |r| <= |hits|
  {
    if |hits| == 0 then []
    else (if hits[0].loop != "" then [hits[0].loop] else []) + LoopGroups(hits[1..])
  }

  /** Every hit is a match of the newer pattern at its own start. */
  predicate WellFormedHits(s: string, hits: seq<Hit>) {
    forall k :: 0 <= k < |hits| ==> MatchAt(CondBranch, s, hits[k].start) == Some(hits[k])
  }

  /** The first group of every hit is a conditional jump other than `jmp…`. */
  lemma {:induction false} JumpGroupsShape(s: string, hits: seq<Hit>)
    requires WellFormedHits(s, hits)
    ensures forall k :: 0 <= k < |JumpGroups(hits)| ==> IsCondJump(JumpGroups(hits)[k])
  {
    if |hits| > 0 {
      JumpGroupsShape(s, hits[1..]);
      if hits[0].jump != "" {
        JumpHitShape(CondBranch, s, hits[0]);
      }
    }
  }

  /** The second group of every hit is a `loop` mnemonic. */
  lemma {:induction false} LoopGroupsShape(s: string, hits: seq<Hit>)
    requires WellFormedHits(s, hits)
    ensures forall k :: 0 <= k < |LoopGroups(hits)| ==> IsLoop(LoopGroups(hits)[k])
  {
    if |hits| > 0 {
      LoopGroupsShape(s, hits[1..]);
      if hits[0].loop != "" {
        LoopHitShape(s, hits[0]);
      }
    }
  }

  lemma {:induction false} GroupsCount(hits: seq<Hit>)
    requires forall k :: 0 <= k < |hits| ==> (hits[k].jump == "") != (hits[k].loop == "")
    ensures |JumpGroups(hits)| + |LoopGroups(hits)| == |hits|
  {
    if |hits| > 0 {
      GroupsCount(hits[1..]);
    }
  }

  /** Conditional jumps followed by loops: a loop is never followed by a
      jump, and nothing begins with `jmp`. */
  lemma JumpsThenLoops(x: seq<string>, y: seq<string>)
    requires forall k :: 0 <= k < |x| ==> IsCondJump(x[k])
    requires forall k :: 0 <= k < |y| ==> IsLoop(y[k])
    ensures forall k :: 0 <= k < |x + y| ==> IsCondJump((x + y)[k]) || IsLoop((x + y)[k])
    ensures forall k :: 0 <= k < |x + y| ==> !StartsWith((x + y)[k], "jmp")
    ensures forall a, b :: 0 <= a < b < |x + y| && IsLoop((x + y)[a]) ==> IsLoop((x + y)[b])
  {
    var r := x + y;
    forall k | 0 <= k < |r|
      ensures IsCondJump(r[k]) || IsLoop(r[k])
      ensures !StartsWith(r[k], "jmp")
      ensures IsLoop(r[k]) <==> k >= |x|
    {
      if k < |x| {
        assert r[k] == x[k];
        assert r[k][0] == 'j';
      } else {
        assert r[k] == y[k - |x|];
        assert r[k][0] == 'l';
      }
    }
  }

  /** `extract_conditional_branching_instructions(s)`: all conditional
      jumps in text order, then all `loop` instructions in text order. No
      mnemonic begins with `jmp`, and a `loop` never comes before a jump.
      A text with neither a tab nor an `l` gives none. */
  function ExtractConditionalBranching(s: string): (r: seq<string>)
    ensures |r| == |FindAll(CondBranch, s)|
    ensures forall k :: 0 <= k < |r| ==> IsCondJump(r[k]) || IsLoop(r[k])
    ensures forall k :: 0 <= k < |r| ==> !StartsWith(r[k], "jmp")
    ensures forall a, b :: 0 <= a < b < |r| && IsLoop(r[a]) ==> IsLoop(r[b])
    ensures '\t' !in s && 'l' !in s ==> r == []
  {
    var hits := FindAll(CondBranch, s);
    FindAllSound(CondBranch, s, 0);
    assert '\t' !in s && 'l' !in s ==> hits == [] by {
      if '\t' !in s && 'l' !in s {
        NoCandidateNoHits(s, 0);
      }
    }
    JumpGroupsShape(s, hits);
    LoopGroupsShape(s, hits);
    GroupsCount(hits);
    JumpsThenLoops(JumpGroups(hits), LoopGroups(hits));
    JumpGroups(hits) + LoopGroups(hits)
  }

  /** Where neither alternative of the newer pattern can start, `findall`
      finds nothing. */
  lemma {:induction false} NoCandidateNoHits(s: string, i: nat)
    requires i <= |s|
    requires '\t' !in s && 'l' !in s
    ensures FindAllFrom(CondBranch, s, i) == []
    decreases |s| - i
  {
    if i < |s| {
      assert s[i] != '\t' && s[i] != 'l';
      assert i + 4 <= |s| ==> s[i..i + 4][0] == s[i];
      FindAllAtNone(CondBranch, s, i);
      NoCandidateNoHits(s, i + 1);
    }
  }

  /** A `loop` mnemonic is only reported when a space follows it. */
  lemma {:induction false} LoopNeedsSpace(s: string, hits: seq<Hit>)
    requires WellFormedHits(s, hits)
    ensures forall k :: 0 <= k < |LoopGroups(hits)| ==> Contains(s, LoopGroups(hits)[k] + " ")
  {
    if |hits| > 0 {
      LoopNeedsSpace(s, hits[1..]);
      if hits[0].loop != "" {
        LoopHitShape(s, hits[0]);
      }
    }
  }

  // ---------------------------------------------------------------------
  // How the two extractors relate

  /** The older signature without the `jmp` family. */
  function DropJmp(sig: seq<string>): (r: seq<string>)
    ensures |r| <= |sig|
  {
    if |sig| == 0 then []
    else (if StartsWith(sig[0], "jmp") then [] else [sig[0]]) + DropJmp(sig[1..])
  }

  lemma GroupsCons(h: Hit, rest: seq<Hit>)
    ensures Groups([h] + rest) == [h.jump] + Groups(rest)
  {
    assert ([h] + rest)[1..] == rest;
  }

  lemma JumpGroupsCons(h: Hit, rest: seq<Hit>)
    ensures JumpGroups([h] + rest) == (if h.jump != "" then [h.jump] else []) + JumpGroups(rest)
  {
    assert ([h] + rest)[1..] == rest;
  }

  lemma DropJmpCons(m: string, rest: seq<string>)
    ensures DropJmp([m] + rest) == (if StartsWith(m, "jmp") then [] else [m]) + DropJmp(rest)
  {
    assert ([m] + rest)[1..] == rest;
  }

  /** Positions where a pattern cannot match can be skipped. */
  lemma {:induction false} SkipNoMatch(p: Pattern, s: string, a: nat, b: nat)
    requires a <= b <= |s|
    requires forall q :: a <= q < b ==> MatchAt(p, s, q).None?
    ensures FindAllFrom(p, s, a) == FindAllFrom(p, s, b)
    decreases b - a
  {
    if a < b {
      SkipNoMatch(p, s, a + 1, b);
    }
  }

  lemma {:induction false} RunEndOfRun(s: string, i: nat, e: nat)
    requires i <= e <= |s|
    requires forall k :: i <= k < e ==> IsLower(s[k])
    requires e == |s| || !IsLower(s[e])
    ensures RunEnd(s, i) == e
    decreases e - i
  {
    if i < e {
      RunEndOfRun(s, i + 1, e);
    }
  }

  /** Inside a run of lower-case letters that ends at `e`, the newer scanner
      finds no conditional jump before `e` (only, possibly, a `loop` that
      ends with the character at `e`). */
  lemma {:induction false} NewScanThroughRun(s: string, q: nat, e: nat)
    requires q <= e <= |s|
    requires forall k :: q <= k < e ==> IsLower(s[k])
    requires e == |s| || !IsLower(s[e])
    ensures JumpGroups(FindAllFrom(CondBranch, s, q)) == JumpGroups(FindAllFrom(CondBranch, s, e))
    decreases e - q
  {
    if q < e {
      assert !JumpHead(s, q);
      match MatchAt(CondBranch, s, q)
      case None =>
        NewScanThroughRun(s, q + 1, e);
      case Some(h) =>
        LoopEndsRun(s, q, e, h);
        var rest := FindAllFrom(CondBranch, s, e);
        assert ([h] + rest)[1..] == rest;
    }
  }

  /** A match inside such a run is a `loop` that ends with the space at
      `e`, and the scan goes on from `e` as if the run had not been there. */
  lemma LoopEndsRun(s: string, q: nat, e: nat, h: Hit)
    requires q < e <= |s|
    requires forall k :: q <= k < e ==> IsLower(s[k])
    requires e == |s| || !IsLower(s[e])
    requires MatchAt(CondBranch, s, q) == Some(h)
    ensures h.jump == "" && FindAllFrom(CondBranch, s, q) == [h] + FindAllFrom(CondBranch, s, e)
  {
    LoopMatchInRun(s, q, e, h);
    assert !JumpHead(s, e) && !LoopHead(s, e);
    FindAllAtMatch(CondBranch, s, q, h);
    FindAllAtNone(CondBranch, s, e);
  }

  /** Such a match is the `loop` alternative, and the space it consumes
      is the character at `e`. */
  lemma LoopMatchInRun(s: string, q: nat, e: nat, h: Hit)
    requires q < e <= |s|
    requires forall k :: q <= k < e ==> IsLower(s[k])
    requires e == |s| || !IsLower(s[e])
    requires MatchAt(CondBranch, s, q) == Some(h)
    ensures h.jump == "" && e < |s| && s[e] == ' ' && h.end == e + 1
  {
    assert !JumpHead(s, q) && LoopHead(s, q);
    assert s[q + 1] == 'o' && s[q + 2] == 'o' && s[q + 3] == 'p';
    RunEndOfRun(s, q + 4, e);
  }

  /** One step of the correspondence where the older pattern matches a
      `jmp…` mnemonic at `i`: the newer pattern skips it. */
  lemma JmpStep(s: string, i: nat, h: Hit)
    requires i < |s| && MatchAt(JumpAny, s, i) == Some(h) && JmpAhead(s, i)
    ensures JumpGroups(FindAllFrom(CondBranch, s, i)) == JumpGroups(FindAllFrom(CondBranch, s, h.end))
    ensures StartsWith(h.jump, "jmp")
  {
    JumpHitShape(JumpAny, s, h);
    assert MatchAt(CondBranch, s, i).None?;
    FindAllAtNone(CondBranch, s, i);
    NewScanThroughRun(s, i + 1, h.end);
  }

  /** One step of the correspondence where the older pattern matches at `i`. */
  lemma JumpStep(s: string, i: nat, h: Hit)
    requires i < |s| && MatchAt(JumpAny, s, i) == Some(h)
    requires JumpGroups(FindAllFrom(CondBranch, s, h.end)) ==
             DropJmp(Groups(FindAllFrom(JumpAny, s, h.end)))
    ensures JumpGroups(FindAllFrom(CondBranch, s, i)) == DropJmp(Groups(FindAllFrom(JumpAny, s, i)))
  {
    JumpHitShape(JumpAny, s, h);
    var oldRest := FindAllFrom(JumpAny, s, h.end);
    FindAllAtMatch(JumpAny, s, i, h);
    GroupsCons(h, oldRest);
    DropJmpCons(h.jump, Groups(oldRest));
    if JmpAhead(s, i) {
      JmpStep(s, i, h);
    } else {
      assert MatchAt(CondBranch, s, i) == Some(h);
      FindAllAtMatch(CondBranch, s, i, h);
      JumpGroupsCons(h, FindAllFrom(CondBranch, s, h.end));
    }
  }

  /** No tab between `i` and `e`: the older pattern finds nothing there. */
  lemma NoTabNoJump(s: string, i: nat, e: nat)
    requires i <= e <= |s|
    requires forall q :: i <= q < e ==> s[q] != '\t'
    ensures FindAllFrom(JumpAny, s, i) == FindAllFrom(JumpAny, s, e)
  {
    forall q | i <= q < e
      ensures MatchAt(JumpAny, s, q).None?
    {
      assert !JumpHead(s, q);
    }
    SkipNoMatch(JumpAny, s, i, e);
  }

  /** One step of the correspondence where only the `loop` alternative of
      the newer pattern matches at `i`. */
  lemma LoopStep(s: string, i: nat, h: Hit)
    requires i < |s| && MatchAt(CondBranch, s, i) == Some(h) && h.loop != ""
    requires JumpGroups(FindAllFrom(CondBranch, s, h.end)) ==
             DropJmp(Groups(FindAllFrom(JumpAny, s, h.end)))
    ensures JumpGroups(FindAllFrom(CondBranch, s, i)) == DropJmp(Groups(FindAllFrom(JumpAny, s, i)))
  {
    LoopHitShape(s, h);
    assert forall q :: i <= q < h.end ==> s[q] != '\t' by {
      assert forall q :: i <= q < h.end - 1 ==> IsLower(s[q]);
    }
    NoTabNoJump(s, i, h.end);
    FindAllAtMatch(CondBranch, s, i, h);
    JumpGroupsCons(h, FindAllFrom(CondBranch, s, h.end));
  }

  /** The newer extractor's conditional jumps are exactly the older
      signature with every `jmp…` mnemonic dropped: the two versions differ
      only by that exclusion and by the `loop` instructions appended at the
      end. */
  lemma {:induction false} JumpsAreSignatureWithoutJmp(s: string, i: nat)
    requires i <= |s|
    ensures JumpGroups(FindAllFrom(CondBranch, s, i)) == DropJmp(Groups(FindAllFrom(JumpAny, s, i)))
    decreases |s| - i
  {
    if i < |s| {
      match MatchAt(JumpAny, s, i)
      case Some(h) =>
        JumpsAreSignatureWithoutJmp(s, h.end);
        JumpStep(s, i, h);
      case None =>
        match MatchAt(CondBranch, s, i)
        case None =>
          JumpsAreSignatureWithoutJmp(s, i + 1);
          FindAllAtNone(JumpAny, s, i);
          FindAllAtNone(CondBranch, s, i);
        case Some(h) =>
          assert h.loop != "";
          JumpsAreSignatureWithoutJmp(s, h.end);
          LoopStep(s, i, h);
    }
  }

  /** The whole-text form: conditional jumps of the newer extractor are the
      older signature minus `jmp…`, and the rest are `loop` mnemonics. */
  lemma NewExtractorRefinesOld(s: string)
    ensures ExtractConditionalBranching(s) ==
            DropJmp(Signature(s)) + LoopGroups(FindAll(CondBranch, s))
  {
    JumpsAreSignatureWithoutJmp(s, 0);
  }
}
