/**
 * The divergence check of analysis/assembly_inspection.py: every C program
 * is compiled at the five optimisation levels, the jump signature of each
 * assembly text is extracted, and the program is flagged when the
 * signatures of O1, O2 or O3 are not all equal to that of O0.
 *
 * Compiling is not modelled: the assembly text per level is an input.
 */
module AssemblyInspection {
  import opened Text
  import opened BranchScan

  /** The levels in the order the script compiles them. */
  const OptimizationFlags: seq<string> := ["O0", "O1", "O2", "O3", "Os"]

  /** The four lists are not all equal. A chained comparison in Python is
      the conjunction of the neighbouring equalities. */
  predicate Flagged(o0: seq<string>, o1: seq<string>, o2: seq<string>, o3: seq<string>) {
    !(o0 == o1 && o1 == o2 && o2 == o3)
  }

  /** The verdict for one program, given its assembly text per level. */
  predicate Verdict(asmFor: map<string, string>)
    requires forall f :: f in OptimizationFlags ==> f in asmFor
  {
    Flagged(Signature(asmFor["O0"]), Signature(asmFor["O1"]),
            Signature(asmFor["O2"]), Signature(asmFor["O3"]))
  }

  /** By transitivity the chain is flagged exactly when one of O1, O2, O3
      has a signature that differs from O0's as a list, so order and
      multiplicity of the mnemonics matter. */
  lemma FlaggedIffSomeDiffers(o0: seq<string>, o1: seq<string>, o2: seq<string>, o3: seq<string>)
    ensures Flagged(o0, o1, o2, o3) <==> (o1 != o0 || o2 != o0 || o3 != o0)
  {
  }

  /** With no jump at O0, any jump at O1, O2 or O3 flags the program; with
      no jump at any of the four levels it is never flagged. */
  lemma EmptySignatures(o0: seq<string>, o1: seq<string>, o2: seq<string>, o3: seq<string>)
    ensures o0 == [] && (o1 != [] || o2 != [] || o3 != []) ==> Flagged(o0, o1, o2, o3)
    ensures o0 == [] && o1 == [] && o2 == [] && o3 == [] ==> !Flagged(o0, o1, o2, o3)
  {
  }

  /** The Os text is compiled and scanned but never decides the verdict. */
  lemma OsIgnored(a: map<string, string>, b: map<string, string>)
    requires forall f :: f in OptimizationFlags ==> f in a && f in b
    requires a["O0"] == b["O0"] && a["O1"] == b["O1"]
    requires a["O2"] == b["O2"] && a["O3"] == b["O3"]
    ensures Verdict(a) == Verdict(b)
  {
  }

  /** A tab, `j` and a lower-case letter in a text give it a non-empty
      signature. */
  lemma {:induction false} JumpGivesSignature(asm: string, q: nat)
    requires JumpHead(asm, q)
    ensures |Signature(asm)| > 0
  {
    assert MatchAt(JumpAny, asm, q).Some?;
    FindAllComplete(JumpAny, asm, 0, q);
  }

  /** An O0 text without tabs against an O1 text with a jump is flagged. */
  lemma JumpOnlyAboveO0IsFlagged(asmFor: map<string, string>, q: nat)
    requires forall f :: f in OptimizationFlags ==> f in asmFor
    requires '\t' !in asmFor["O0"]
    requires JumpHead(asmFor["O1"], q)
    ensures Verdict(asmFor)
  {
    JumpGivesSignature(asmFor["O1"], q);
  }

  /** `analyze(file)`: the first loop stores the assembly text of every
      level in `out`, the second replaces each text by its signature; the
      verdict is then taken on O0 to O3. */
  method Analyze(asmFor: map<string, string>) returns (out: map<string, seq<string>>, flagged: bool)
    requires forall f :: f in OptimizationFlags ==> f in asmFor
    ensures forall f :: f in out <==> f in OptimizationFlags
    ensures forall f :: f in OptimizationFlags ==> out[f] == Signature(asmFor[f])
    ensures flagged == Verdict(asmFor)
  {
    var flags := OptimizationFlags;
    var texts: map<string, string> := map[];
    for n := 0 to |flags|
      invariant forall f :: f in texts <==> f in flags[..n]
      invariant forall f :: f in texts ==> texts[f] == asmFor[f]
    {
      assert flags[..n + 1] == flags[..n] + [flags[n]];
      texts := texts[flags[n] := asmFor[flags[n]]];
    }
    assert flags[..|flags|] == flags;
    out := map[];
    for n := 0 to |flags|
      invariant forall f :: f in out <==> f in flags[..n]
      invariant forall f :: f in out ==> out[f] == Signature(texts[f])
    {
      assert flags[..n + 1] == flags[..n] + [flags[n]];
      var f := flags[n];
      out := out[f := Signature(texts[f])];
    }
    flagged := Flagged(out["O0"], out["O1"], out["O2"], out["O3"]);
  }

  /** The walk over the programs folder keeps the files whose name ends in
      `.c`, in the order they are listed. */
  function CSources(fnames: seq<string>): (r: seq<string>)
    ensures forall k :: 0 <= k < |r| ==> EndsWith(r[k], ".c") && r[k] in fnames
    ensures forall f :: f in fnames && EndsWith(f, ".c") ==> f in r
    ensures |r| <= |fnames|
  {
    if |fnames| == 0 then []
    else (if EndsWith(fnames[0], ".c") then [fnames[0]] else []) + CSources(fnames[1..])
  }
}
