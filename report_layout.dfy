/**
 * How analysis/latex_generator.py lays out a program's report: the compile
 * flags are cut into groups of three (at most five groups, one per page),
 * each group gets the next three colours, and each figure is a row of
 * subfigure slots, one plot per flag with blank slots where asked.
 */
module ReportLayout {
  import opened Text

  /** `COLORS`: fifteen plot colours. */
  const Colors: seq<string> := [
    "firstCol", "secondCol", "thirdCol", "fourthCol", "fifthCol",
    "sixthCol", "seventhCol", "eighthCol", "ninthCol", "tenthCol",
    "eleventhCol", "twelfthCol", "thirteenthCol", "fourteenthCol", "fifteenthCol"
  ]

  /** More groups than this raise "Cannot handle more than 15 compile flags". */
  const MaxGroups := 5

  function Min(a: int, b: int): int {
    if a < b then a else b
  }

  // ---------------------------------------------------------------------
  // grouped_in_three

  /** Consecutive groups of three, the last one possibly shorter. */
  function GroupInThree(items: seq<string>): (r: seq<seq<string>>)
    ensures |r| == (|items| + 2) / 3
    ensures forall j :: 0 <= j < |r| ==> 1 <= |r[j]| <= 3
    ensures forall j :: 0 <= j < |r| - 1 ==> |r[j]| == 3
  {
    seq((|items| + 2) / 3, j requires 0 <= j < (|items| + 2) / 3 =>
      items[3 * j .. Min(3 * j + 3, |items|)])
  }

  function Flatten(groups: seq<seq<string>>): seq<string> {
    if |groups| == 0 then [] else groups[0] + Flatten(groups[1..])
  }

  /** Peeling off the first group. */
  lemma GroupInThreeCons(items: seq<string>)
    requires |items| > 0
    ensures GroupInThree(items) ==
            [items[..Min(3, |items|)]] + GroupInThree(items[Min(3, |items|)..])
  {
    var g := GroupInThree(items);
    var rest := items[Min(3, |items|)..];
    var h := GroupInThree(rest);
    assert |g| == 1 + |h|;
    forall j | 1 <= j < |g| ensures g[j] == h[j - 1] {
      assert items[3 * j .. Min(3 * j + 3, |items|)] ==
             rest[3 * (j - 1) .. Min(3 * (j - 1) + 3, |rest|)];
    }
  }

  /** The groups, read one after another, are the flags in their order. */
  lemma {:induction false} FlattenGroupInThree(items: seq<string>)
    ensures Flatten(GroupInThree(items)) == items
    decreases |items|
  {
    if |items| > 0 {
      GroupInThreeCons(items);
      var k := Min(3, |items|);
      FlattenGroupInThree(items[k..]);
      var g := GroupInThree(items);
      assert g[1..] == GroupInThree(items[k..]);
      assert items[..k] + items[k..] == items;
    }
  }

  // ---------------------------------------------------------------------
  // gen_latex_doc

  /** One page of the report: its flags, the colours handed to it, the
      slots left blank and whether the program listing heads it. */
  datatype Group = Group(flags: seq<string>, colors: seq<string>, blanks: seq<int>, hasProgram: bool)

  /** The slot numbers among 1, 2, 3 that a group of `n` flags leaves free. */
  function LeaveOut(n: nat): (r: seq<int>)
    requires n <= 3
    ensures |r| == 3 - n
    ensures forall k :: 0 <= k < |r| ==> r[k] == n + 1 + k
  {
    seq(3 - n, k requires 0 <= k < 3 - n => n + 1 + k)
  }

  /** `gen_latex_doc`: the pages of a program's report; an error for more
      than fifteen compile flags. */
  function LatexDocGroups(flags: seq<string>): (r: Result<seq<Group>>)
    ensures r.Error? <==> |flags| > 3 * MaxGroups
    ensures r.Ok? ==> |r.value| == |GroupInThree(flags)|
    ensures r.Ok? ==> forall j :: 0 <= j < |r.value| ==>
              r.value[j].flags == GroupInThree(flags)[j] &&
              r.value[j].colors == Colors[3 * j .. 3 * j + 3] &&
              r.value[j].hasProgram == (j == 0)
  {
    var groups := GroupInThree(flags);
    if |groups| > MaxGroups then Error("Cannot handle more than 15 compile flags")
    else Ok(seq(|groups|, j requires 0 <= j < |groups| =>
      Group(groups[j], Colors[3 * j .. 3 * j + 3], LeaveOut(|groups[j]|), j == 0)))
  }

  /** Every page is given at least as many colours as it has flags, so the
      colour check of `gen_plot_asm_fig` never fails, and every page has
      three slots: its plots first, then the blanks. */
  lemma PagesAreWellFormed(flags: seq<string>)
    requires LatexDocGroups(flags).Ok?
    ensures forall g :: g in LatexDocGroups(flags).value ==>
              |g.colors| >= |g.flags| &&
              PlotAsmFig(|g.flags|, |g.colors|, g.blanks) ==
                Ok(PlotRun(0, |g.flags|) + Blanks(3 - |g.flags|))
  {
    forall g | g in LatexDocGroups(flags).value
      ensures |g.colors| >= |g.flags|
      ensures PlotAsmFig(|g.flags|, |g.colors|, g.blanks) ==
                Ok(PlotRun(0, |g.flags|) + Blanks(3 - |g.flags|))
    {
      var n := |g.flags|;
      forall v | v in g.blanks ensures v > n { }
      LayoutPastBlanks(1, n, g.blanks);
    }
  }

  // ---------------------------------------------------------------------
  // gen_plot_asm_fig

  /** A subfigure slot: the plot of the flag with the given index, or a
      blank placeholder. */
  datatype Slot = Plot(flag: nat) | Blank

  function Blanks(k: nat): (r: seq<Slot>)
    ensures |r| == k && forall j :: 0 <= j < k ==> r[j] == Blank
  {
    if k == 0 then [] else [Blank] + Blanks(k - 1)
  }

  /** Plots of the flags with indices `lo` to `hi - 1`, in order. */
  function PlotRun(lo: nat, hi: nat): (r: seq<Slot>)
    ensures |r| == if lo <= hi then hi - lo else 0
    ensures forall j :: 0 <= j < |r| ==> r[j] == Plot(lo + j)
    decreases hi - lo
  {
    if lo >= hi then [] else [Plot(lo)] + PlotRun(lo + 1, hi)
  }

  /** Python's `list.remove(x)`: drop the first occurrence. */
  function RemoveFirst(s: seq<int>, x: int): (r: seq<int>)
    requires x in s
    ensures |r| == |s| - 1
    ensures multiset(r) == multiset(s) - multiset{x}
  {
    if s[0] == x then
      assert s == [s[0]] + s[1..];
      s[1..]
    else
      assert s == [s[0]] + s[1..];
      [s[0]] + RemoveFirst(s[1..], x)
  }

  /** The slots from position `i` on, while `bl` indices are still to be
      left blank: a slot index still listed becomes a blank (and is struck
      from the list), any other gets the next plot; the indices never
      reached become trailing blanks. */
  function Layout(i: nat, n: nat, bl: seq<int>): seq<Slot>
    requires i >= 1
    decreases n + 1 - i, |bl|
  {
    if i > n then Blanks(|bl|)
    else if i in bl then [Blank] + Layout(i, n, RemoveFirst(bl, i))
    else [Plot(i - 1)] + Layout(i + 1, n, bl)
  }

  /** Every flag and every blank index takes exactly one slot, which is why
      the width is computed from the number of flags plus the number of blanks. */
  lemma {:induction false} LayoutLength(i: nat, n: nat, bl: seq<int>)
    requires 1 <= i <= n + 1
    ensures |Layout(i, n, bl)| == n + 1 - i + |bl|
    decreases n + 1 - i, |bl|
  {
    if i <= n {
      if i in bl {
        LayoutLength(i, n, RemoveFirst(bl, i));
      } else {
        LayoutLength(i + 1, n, bl);
      }
    }
  }

  /** The plots of a layout: the flags from `i - 1` on, each once, in order. */
  function Plots(slots: seq<Slot>): seq<nat> {
    if |slots| == 0 then []
    else (if slots[0].Plot? then [slots[0].flag] else []) + Plots(slots[1..])
  }

  lemma PlotsAppend(a: seq<Slot>, b: seq<Slot>)
    ensures Plots(a + b) == Plots(a) + Plots(b)
  {
    if |a| > 0 {
      assert (a + b)[1..] == a[1..] + b;
      PlotsAppend(a[1..], b);
    } else {
      assert a + b == b;
    }
  }

  lemma {:induction false} LayoutPlots(i: nat, n: nat, bl: seq<int>)
    requires 1 <= i <= n + 1
    ensures Plots(Layout(i, n, bl)) == seq(n + 1 - i, j => i - 1 + j)
    decreases n + 1 - i, |bl|
  {
    if i > n {
      BlanksHaveNoPlots(|bl|);
    } else if i in bl {
      LayoutPlots(i, n, RemoveFirst(bl, i));
      PlotsAppend([Blank], Layout(i, n, RemoveFirst(bl, i)));
    } else {
      LayoutPlots(i + 1, n, bl);
      PlotsAppend([Plot(i - 1)], Layout(i + 1, n, bl));
      assert seq(n + 1 - i, j => i - 1 + j) == [i - 1] + seq(n - i, j => i + j);
    }
  }

  lemma {:induction false} BlanksHaveNoPlots(k: nat)
    ensures Plots(Blanks(k)) == []
  {
    if k > 0 {
      BlanksHaveNoPlots(k - 1);
    }
  }

  /** With every blank index past the last plot, the layout is the plots
      followed by the blanks. */
  lemma {:induction false} LayoutPastBlanks(i: nat, n: nat, bl: seq<int>)
    requires 1 <= i <= n + 1
    requires forall v :: v in bl ==> v > n
    ensures Layout(i, n, bl) == PlotRun(i - 1, n) + Blanks(|bl|)
    decreases n + 1 - i
  {
    if i <= n {
      LayoutPastBlanks(i + 1, n, bl);
    }
  }

  /** The plot loop of `gen_plot_asm_fig` together with the loop over the
      remaining blank indices: the subfigure slots of one figure, or the
      exception raised when there are fewer colours than flags or no
      subfigures to share the width. */
  method PlotAsmFigSlots(n: nat, colorCount: nat, blankIndexes: seq<int>) returns (r: Result<seq<Slot>>)
    ensures r == PlotAsmFig(n, colorCount, blankIndexes)
  {
    if colorCount < n {
      return Error("Not enough colors provided to color parsed CSVs");
    }
    if n + |blankIndexes| == 0 {
      return Error("division by zero");
    }
    var slots: seq<Slot> := [];
    var bl := blankIndexes;
    var i := 1;
    while i <= n
      invariant 1 <= i <= n + 1
      invariant slots + Layout(i, n, bl) == Layout(1, n, blankIndexes)
      decreases n + 1 - i, |bl|
    {
      if i in bl {
        ghost var rest := Layout(i, n, RemoveFirst(bl, i));
        assert Layout(i, n, bl) == [Blank] + rest;
        assert (slots + [Blank]) + rest == slots + ([Blank] + rest);
        slots := slots + [Blank];
        bl := RemoveFirst(bl, i);
        continue;
      }
      ghost var rest := Layout(i + 1, n, bl);
      assert Layout(i, n, bl) == [Plot(i - 1)] + rest;
      assert (slots + [Plot(i - 1)]) + rest == slots + ([Plot(i - 1)] + rest);
      slots := slots + [Plot(i - 1)];
      i := i + 1;
    }
    assert Layout(i, n, bl) == Blanks(|bl|);
    for k := 0 to |bl|
      invariant slots + Blanks(|bl| - k) == Layout(1, n, blankIndexes)
    {
      assert Blanks(|bl| - k) == [Blank] + Blanks(|bl| - k - 1);
      assert (slots + [Blank]) + Blanks(|bl| - k - 1) == slots + Blanks(|bl| - k);
      slots := slots + [Blank];
    }
    assert slots == Layout(1, n, blankIndexes);
    return Ok(slots);
  }

  /** What `gen_plot_asm_fig` lays out: an error when colours are short or
      when there are no subfigures at all (the width divides by their
      number), otherwise the slots that `Layout` describes. */
  function PlotAsmFig(n: nat, colorCount: nat, blankIndexes: seq<int>): (r: Result<seq<Slot>>)
    ensures r.Error? <==> colorCount < n || n + |blankIndexes| == 0
    ensures r.Ok? ==> |r.value| == n + |blankIndexes|
    ensures r.Ok? ==> Plots(r.value) == seq(n, j => j)
  {
    LayoutLength(1, n, blankIndexes);
    LayoutPlots(1, n, blankIndexes);
    assert seq(n + 1 - 1, j => 1 - 1 + j) == seq(n, j => j);
    if colorCount < n then Error("Not enough colors provided to color parsed CSVs")
    else if n + |blankIndexes| == 0 then Error("division by zero")
    else Ok(Layout(1, n, blankIndexes))
  }
}
