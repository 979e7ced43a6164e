/**
 * The measuring side of the kernel-module fuzzer (fuzzer/km_fuzzer/main.c,
 * with `write_data` shared by fuzzer/km_fuzzer/km_fuzzer.c): the
 * five-distribution `set_values`, the record that `write_data` appends to
 * the output list for one run, and `start`, which runs the five fuzz
 * classes in a fixed order.
 *
 * `snprintf` into the 100-byte conversion buffer is modelled with its
 * truncation, and the rendered numbers are shown to fit.
 */
module KernelFuzzer {
  import opened Text
  import opened FuzzerCore
  import opened KernelBuffer
  import ReportText

  // ---------------------------------------------------------------------
  // Drawing inputs in the kernel module

  /** `TOTAL_DISTRIBUTIONS`: the kernel module's `distribution_et` has the
      first five enumerators of the user-space one, with the same values. */
  const TotalDistributions: nat := 5

  /** `set_values(dist, &a, &b)` of the kernel module: the five known
      distributions draw exactly as the user-space generator does; any
      other value only logs an error and leaves `*a` and `*b` as they were. */
  method LegacySetValues(dist: Dist, d: Draw, a0: Int64, b0: Int64) returns (a: Int64, b: Int64)
    ensures Code(dist) < TotalDistributions ==> Input(a, b) == Drawn(dist, d)
    ensures Code(dist) >= TotalDistributions ==> a == a0 && b == b0
  {
    a, b := a0, b0;
    match dist {
      case Uniformly =>
        a := d.first;
        b := d.second;
      case Equal =>
        a := d.first;
        b := a;
      case Max64 =>
        a, b := Int64Max, Int64Max;
        if Random(d.coin) { a := d.first; } else { b := d.first; }
      case Umax64 =>
        a, b := -1, -1;
        if Random(d.coin) { a := d.first; } else { b := d.first; }
      case Zero =>
        a, b := 0, 0;
        if Random(d.coin) { a := d.first; } else { b := d.first; }
      case _ =>
    }
  }

  /** `generate_inputs` of the kernel module. */
  method LegacyGenerateInputs(dist: Dist, inputs: array<Input>, count: nat, draws: seq<Draw>)
    requires Code(dist) < TotalDistributions
    requires count <= inputs.Length && count <= |draws|
    modifies inputs
    ensures forall i :: 0 <= i < count ==> inputs[i] == Drawn(dist, draws[i])
    ensures forall i :: count <= i < inputs.Length ==> inputs[i] == old(inputs[i])
  {
    for i := 0 to count
      invariant forall k :: 0 <= k < i ==> inputs[k] == Drawn(dist, draws[k])
      invariant forall k :: i <= k < inputs.Length ==> inputs[k] == old(inputs[k])
    {
      var a, b := LegacySetValues(dist, draws[i], inputs[i].a, inputs[i].b);
      inputs[i] := Input(a, b);
    }
  }

  // ---------------------------------------------------------------------
  // The record of one run

  /** A C string argument: the characters before its terminating zero. */
  predicate CString(s: string) {
    '\0' !in s
  }

  /** What `write_string` takes from a character buffer: the part before
      its first zero. */
  function CStr(s: string): string {
    s[..Strlen(s)]
  }

  lemma CStrPlain(s: string)
    requires '\0' !in s
    ensures CStr(s) == s
  {
  }

  function Pow10(k: nat): (p: nat)
    ensures p >= 1
  {
    if k == 0 then 1 else 10 * Pow10(k - 1)
  }

  /** A number below `10^k` has at most `k` digits. */
  lemma {:induction false} DecimalLength(n: nat, k: nat)
    requires 1 <= k && n < Pow10(k)
    ensures |NatToDecimal(n)| <= k
  {
    if n >= 10 && k > 1 {
      assert n / 10 < Pow10(k - 1);
      DecimalLength(n / 10, k - 1);
    }
  }

  lemma Pow10Values()
    ensures Pow10(19) == 10_000_000_000_000_000_000
    ensures Pow10(20) == 100_000_000_000_000_000_000
  {
    assert Pow10(5) == 100_000;
    assert Pow10(10) == 10_000_000_000;
    assert Pow10(15) == 1_000_000_000_000_000;
  }

  lemma DigitsHaveNoZeroByte(n: nat)
    ensures '\0' !in NatToDecimal(n) && ',' !in NatToDecimal(n) && '\n' !in NatToDecimal(n)
  {
    var r := NatToDecimal(n);
    assert forall k :: 0 <= k < |r| ==> IsDigit(r[k]);
  }

  /** The 64-bit values rendered by `%lld` and `%llu` fit the buffer. */
  lemma Int64Rendering(x: Int64)
    ensures 1 <= |IntToDecimal(x)| <= 20
    ensures '\0' !in IntToDecimal(x) && ',' !in IntToDecimal(x) && '\n' !in IntToDecimal(x)
  {
    Pow10Values();
    if x < 0 {
      DecimalLength(-(x as int), 19);
    } else {
      DecimalLength(x, 19);
    }
    DecimalIsPlain(x);
    DigitsHaveNoZeroByte(if x < 0 then -(x as int) else x);
  }

  lemma Uint64Rendering(x: Uint64)
    ensures 1 <= |NatToDecimal(x)| <= 20
  {
    Pow10Values();
    DecimalLength(x, 20);
  }

  /** `",it1,it2,...,itn"` */
  function ItHeader(n: nat): string {
    Concat(ItNames(n))
  }

  /** The pieces of the header loop: `",it"` and the pass number, for the
      passes `1` to `n`. */
  function ItNames(n: nat): (names: seq<string>)
    ensures |names| == n
  {
    seq(n, i requires 0 <= i < n => ",it" + NatToDecimal(i + 1))
  }

  /** One more pass adds one more column name. */
  lemma ItHeaderStep(n: nat)
    ensures ItHeader(n + 1) == ItHeader(n) + ",it" + NatToDecimal(n + 1)
  {
    assert ItNames(n + 1)[..n] == ItNames(n);
  }

  /** The column header line for `n` passes. */
  function ColumnHeader(n: nat): string {
    "input_a,input_b,min_clock_measured" + ItHeader(n) + "\n"
  }

  /** The minimum over the first `n` passes, starting from `UINT64_MAX`. */
  function RowMin(col: seq<Uint64>, n: nat): Uint64
    requires n <= |col|
  {
    if n == 0 then Uint64Max else Min(RowMin(col, n - 1), col[n - 1])
  }

  /** `",%llu"` */
  function Cell(v: Uint64): string {
    "," + NatToDecimal(v)
  }

  /** `",v1,v2,...,vn"` */
  function Cells(col: seq<Uint64>, n: nat): string
    requires n <= |col|
  {
    if n == 0 then "" else Cells(col, n - 1) + Cell(col[n - 1])
  }

  /** `"%lld,%lld"` */
  function Pair(input: Input): string {
    IntToDecimal(input.a) + "," + IntToDecimal(input.b)
  }

  /** One data row: the inputs, the minimum clock count of the row and the
      clock count of every pass. */
  function Row(input: Input, col: seq<Uint64>): string
    requires |col| == Iterations
  {
    Pair(input) + Cell(RowMin(col, Iterations)) + Cells(col, Iterations) + "\n"
  }

  function Rows(inputs: seq<Input>, cols: seq<seq<Uint64>>, n: nat): string
    requires n <= |inputs| && n <= |cols|
    requires forall i :: 0 <= i < |cols| ==> |cols[i]| == Iterations
  {
    if n == 0 then "" else Rows(inputs, cols, n - 1) + Row(inputs[n - 1], cols[n - 1])
  }

  /** The three header lines `write_data` starts a record with. */
  function Header(filename: string, flags: string, fuzzClass: string): string {
    "# FILE: [" + filename + "]\n" + ReportText.FlagsLine(flags, fuzzClass) + ColumnHeader(Iterations)
  }

  /** What `write_data` appends for one run. */
  function Record(filename: string, flags: string, fuzzClass: string, inputs: seq<Input>, cols: seq<seq<Uint64>>): string
    requires |inputs| == |cols|
    requires forall i :: 0 <= i < |cols| ==> |cols[i]| == Iterations
  {
    Header(filename, flags, fuzzClass) + Rows(inputs, cols, |inputs|)
  }

  /** The pass values of input `i`: column `i` of the matrix. */
  function Column(m: array2<Uint64>, i: nat): (col: seq<Uint64>)
    requires m.Length0 == Iterations && i < m.Length1
    reads m
    ensures |col| == Iterations
  {
    seq(Iterations, j requires 0 <= j < Iterations reads m => m[j, i])
  }

  function Columns(m: array2<Uint64>, count: nat): (cols: seq<seq<Uint64>>)
    requires m.Length0 == Iterations && count <= m.Length1
    reads m
    ensures |cols| == count && forall i :: 0 <= i < count ==> |cols[i]| == Iterations
  {
    seq(count, i requires 0 <= i < count reads m => Column(m, i))
  }

  // ---------------------------------------------------------------------
  // What the record promises

  /** The minimum column of a row is at most every pass value of the row
      and is one of them. */
  lemma {:induction false} RowMinIsMinimum(col: seq<Uint64>, n: nat)
    requires 1 <= n <= |col|
    ensures forall j :: 0 <= j < n ==> RowMin(col, n) <= col[j]
    ensures exists j :: 0 <= j < n && RowMin(col, n) == col[j]
  {
    if n == 1 {
      assert RowMin(col, 1) == col[0];
    } else {
      RowMinIsMinimum(col, n - 1);
      var j :| 0 <= j < n - 1 && RowMin(col, n - 1) == col[j];
      if RowMin(col, n) == col[n - 1] {
        assert RowMin(col, n) == col[n - 1];
      } else {
        assert RowMin(col, n) == col[j];
      }
    }
  }

  lemma {:induction false} ItHeaderCommas(n: nat)
    ensures Count(ItHeader(n), ',') == n && '\n' !in ItHeader(n)
  {
    if n > 0 {
      ItHeaderCommas(n - 1);
      ItHeaderStep(n - 1);
      DigitsHaveNoZeroByte(n);
      CountAppend(ItHeader(n - 1), ",it", ',');
      CountAppend(ItHeader(n - 1) + ",it", NatToDecimal(n), ',');
      assert Count(",it", ',') == 1;
    }
  }

  /** A cell is one comma and digits. */
  lemma CellComma(v: Uint64)
    ensures Count(Cell(v), ',') == 1 && '\n' !in Cell(v)
  {
    DigitsHaveNoZeroByte(v);
    NoComma(NatToDecimal(v));
    CountAppend(",", NatToDecimal(v), ',');
    assert Count(",", ',') == 1;
  }

  lemma {:induction false} CellsCommas(col: seq<Uint64>, n: nat)
    requires n <= |col|
    ensures Count(Cells(col, n), ',') == n && '\n' !in Cells(col, n)
  {
    if n > 0 {
      CellsCommas(col, n - 1);
      CellComma(col[n - 1]);
      CountAppend(Cells(col, n - 1), Cell(col[n - 1]), ',');
    }
  }

  lemma NoComma(w: string)
    requires ',' !in w
    ensures Count(w, ',') == 0
  {
  }

  lemma LeadWords()
    ensures "input_a,input_b,min_clock_measured" == "input_a" + "," + "input_b" + "," + "min_clock_measured"
  {
  }

  /** Three comma-free words joined by commas hold two commas. */
  lemma CommaJoined3(a: string, b: string, c: string)
    requires ',' !in a && ',' !in b && ',' !in c
    ensures Count(a + "," + b + "," + c, ',') == 2
  {
    NoComma(a);
    NoComma(b);
    NoComma(c);
    assert Count(",", ',') == 1;
    CountAppend(a, ",", ',');
    CountAppend(a + ",", b, ',');
    CountAppend(a + "," + b, ",", ',');
    CountAppend(a + "," + b + ",", c, ',');
  }

  /** The fixed part of the column header names three columns. */
  lemma LeadCommas()
    ensures Count("input_a,input_b,min_clock_measured", ',') == 2
  {
    LeadWords();
    CommaJoined3("input_a", "input_b", "min_clock_measured");
  }

  /** The column header names the two inputs, the minimum and one column
      per pass. */
  lemma ColumnHeaderFields(n: nat)
    ensures Count(ColumnHeader(n), ',') == 2 + n
  {
    LeadCommas();
    HeaderCount("input_a,input_b,min_clock_measured", n);
  }

  /** A lead with two commas, the pass columns and a newline. */
  lemma HeaderCount(lead: string, n: nat)
    requires Count(lead, ',') == 2
    ensures Count(lead + ItHeader(n) + "\n", ',') == 2 + n
  {
    NoComma("\n");
    ItHeaderCommas(n);
    CountAppend(lead, ItHeader(n), ',');
    CountAppend(lead + ItHeader(n), "\n", ',');
  }

  /** Every data row has as many fields as the column header: the two
      inputs, the minimum and one value per pass. */
  lemma RowMatchesHeader(input: Input, col: seq<Uint64>)
    requires |col| == Iterations
    ensures Count(Row(input, col), ',') == Count(ColumnHeader(Iterations), ',')
  {
    ColumnHeaderFields(Iterations);
    var a, b := IntToDecimal(input.a), IntToDecimal(input.b);
    var m := NatToDecimal(RowMin(col, Iterations));
    var cells := Cells(col, Iterations);
    Int64Rendering(input.a);
    Int64Rendering(input.b);
    DigitsHaveNoZeroByte(RowMin(col, Iterations));
    CellsCommas(col, Iterations);
    var pair, cell := Pair(input), Cell(RowMin(col, Iterations));
    NoComma(a);
    NoComma(b);
    NoComma(m);
    NoComma("\n");
    assert Count(",", ',') == 1;
    CountAppend(a, ",", ',');
    CountAppend(a + ",", b, ',');
    CountAppend(",", m, ',');
    CountAppend(pair, cell, ',');
    CountAppend(pair + cell, cells, ',');
    CountAppend(pair + cell + cells, "\n", ',');
  }

  /** The second header line is the one the report generator reads the
      compile flag and fuzz class back from. */
  lemma HeaderCarriesFlags(filename: string, flags: string, fuzzClass: string)
    requires ReportText.Plain(flags) && ReportText.Plain(fuzzClass) && '\n' !in filename
    ensures Split(Header(filename, flags, fuzzClass), '\n')[1] == "# compile flags: [" + flags + "], fuzz class: [" + fuzzClass + "]"
    ensures ReportText.ParseCsvAux(ReportText.FlagsLine(flags, fuzzClass)) == Ok((flags, fuzzClass))
  {
    ReportText.FlagsLineRoundTrip(flags, fuzzClass);
    var first := "# FILE: [" + filename + "]";
    var second := "# compile flags: [" + flags + "], fuzz class: [" + fuzzClass + "]";
    assert "# FILE: [" + filename + "]\n" == first + "\n";
    assert ReportText.FlagsLine(flags, fuzzClass) == second + "\n";
    SecondLine(first, second, ColumnHeader(Iterations));
  }

  /** The second of the lines `first` and `second` followed by anything. */
  lemma SecondLine(first: string, second: string, rest: string)
    requires '\n' !in first && '\n' !in second
    ensures Split(first + "\n" + (second + "\n") + rest, '\n')[1] == second
  {
    assert first + "\n" + (second + "\n") + rest == first + "\n" + (second + "\n" + rest);
    SplitPrefix(first, second + "\n" + rest, '\n');
    SplitPrefix(second, rest, '\n');
  }

  // ---------------------------------------------------------------------
  // Writing the record

  /** The column header as the loop of `write_data` builds it: the fixed
      lead, then `",it"` and the pass number printed with `%d` into the
      conversion buffer, for every pass. */
  method FormatColumnHeader() returns (text: string)
    ensures text == ColumnHeader(Iterations)
  {
    var lead := "input_a,input_b,min_clock_measured";
    text := lead;
    for i := 1 to Iterations + 1
      invariant text == lead + ItHeader(i - 1)
    {
      assert Pow10(2) == 100;
      DecimalLength(i, 2);
      DigitsHaveNoZeroByte(i);
      var conv := Truncate(NatToDecimal(i), 100);
      CStrPlain(conv);
      ItHeaderStep(i - 1);
      text := text + ",it" + CStr(conv);
    }
    text := text + "\n";
  }

  /** One cell: a comma and the decimal value, formatted into the 100-byte
      conversion buffer and passed on up to its zero byte. */
  method FormatCell(v: Uint64) returns (text: string)
    ensures text == Cell(v)
  {
    Uint64Rendering(v);
    DigitsHaveNoZeroByte(v);
    var conv := Truncate("," + NatToDecimal(v), 100);
    CStrPlain(conv);
    text := CStr(conv);
  }

  /** The minimum loop of `write_data` for input `i`. */
  method RowMinimum(m: array2<Uint64>, i: nat) returns (min: Uint64)
    requires m.Length0 == Iterations && i < m.Length1
    ensures min == RowMin(Column(m, i), Iterations)
    ensures forall j :: 0 <= j < Iterations ==> min <= m[j, i]
  {
    ghost var col := Column(m, i);
    min := Uint64Max;
    for j := 0 to Iterations
      invariant min == RowMin(col, j)
    {
      min := Min(min, m[j, i]);
    }
    RowMinIsMinimum(col, Iterations);
    assert forall j :: 0 <= j < Iterations ==> col[j] == m[j, i];
  }

  /** One iteration of the row loop of `write_data`: the input pair, the
      minimum and every pass value of input `i`. */
  method FormatRow(input: Input, m: array2<Uint64>, i: nat) returns (text: string)
    requires m.Length0 == Iterations && i < m.Length1
    ensures text == Row(input, Column(m, i))
  {
    ghost var col := Column(m, i);
    Int64Rendering(input.a);
    Int64Rendering(input.b);
    var conv := Truncate(Pair(input), 100);
    CStrPlain(conv);
    text := CStr(conv);
    var min := RowMinimum(m, i);
    var cell := FormatCell(min);
    text := text + cell;
    ghost var head := text;
    for j := 0 to Iterations
      invariant text == head + Cells(col, j)
    {
      cell := FormatCell(m[j, i]);
      text := text + cell;
    }
    text := text + "\n";
  }

  /** The three header lines, each C string argument up to its zero byte. */
  method FormatHeader(filename: string, flags: string, fuzzClass: string) returns (text: string)
    requires CString(filename) && CString(flags) && CString(fuzzClass)
    ensures text == Header(filename, flags, fuzzClass)
  {
    var columns := FormatColumnHeader();
    text := "# FILE: [" + filename + "]\n" + ReportText.FlagsLine(flags, fuzzClass) + columns;
  }

  /** The row loop of `write_data` over the first `count` inputs. */
  method FormatRows(inputs: array<Input>, m: array2<Uint64>, count: nat) returns (text: string)
    requires count <= inputs.Length && m.Length0 == Iterations && count <= m.Length1
    ensures text == Rows(inputs[..], Columns(m, count), count)
  {
    ghost var cols := Columns(m, count);
    text := "";
    for i := 0 to count
      invariant text == Rows(inputs[..], cols, i)
    {
      var row := FormatRow(inputs[i], m, i);
      text := text + row;
    }
  }

  /** Everything `write_data(filename, flags, fuzz_class, analysis)` hands
      to `write_string`, in order. */
  method FormatRecord(filename: string, flags: string, fuzzClass: string, analysis: Analysis) returns (text: string)
    requires CString(filename) && CString(flags) && CString(fuzzClass) && analysis.Valid()
    ensures text == Record(filename, flags, fuzzClass, analysis.inputs[..], Columns(analysis.measurements, analysis.count))
  {
    var header := FormatHeader(filename, flags, fuzzClass);
    var rows := FormatRows(analysis.inputs, analysis.measurements, analysis.count);
    text := header + rows;
  }

  /** Hands a whole text to the output list: `write_chars` with the
      text's full length. */
  method Emit(out: OutputList, text: string)
    requires out.Valid()
    modifies out.Repr
    ensures out.Valid() && fresh(out.Repr - old(out.Repr))
    ensures out.Contents() == old(out.Contents()) + text
  {
    out.WriteChars(text, |text|);
    assert text[..|text|] == text;
  }

  /** `write_data(filename, flags, fuzz_class, analysis)`: the record is
      appended to the output list; the analysis is only read. */
  method WriteData(out: OutputList, filename: string, flags: string, fuzzClass: string, analysis: Analysis)
    requires CString(filename) && CString(flags) && CString(fuzzClass)
    requires out.Valid() && analysis.Valid()
    requires Apart(out, analysis)
    modifies out.Repr
    ensures out.Valid() && fresh(out.Repr - old(out.Repr))
    ensures out.Contents() == old(out.Contents())
      + Record(filename, flags, fuzzClass, analysis.inputs[..], Columns(analysis.measurements, analysis.count))
  {
    var text := FormatRecord(filename, flags, fuzzClass, analysis);
    Emit(out, text);
  }

  // ---------------------------------------------------------------------
  // Running the fuzz classes

  /** The timing table read column by column, as `write_data` reads the
      matrix after a run. */
  function Transpose(timing: seq<seq<Uint64>>, count: nat): (cols: seq<seq<Uint64>>)
    requires CoversPasses(timing, count)
    ensures |cols| == count && forall i :: 0 <= i < count ==> |cols[i]| == Iterations
  {
    seq(count, i requires 0 <= i < count => seq(Iterations, j requires 0 <= j < Iterations => timing[j][i]))
  }

  /** The record a run of one class leaves in the output list. */
  function RunRecord(outFile: string, flags: string, fuzzClass: string, dist: Dist, count: nat, draws: seq<Draw>, timing: seq<seq<Uint64>>): string
    requires count <= |draws| && CoversPasses(timing, count)
  {
    Record(outFile, flags, fuzzClass, DrawnInputs(dist, count, draws), Transpose(timing, count))
  }

  /** The analysis lives outside the output list: writing the record
      cannot disturb the inputs or the matrix, and measuring cannot disturb
      the list. */
  ghost predicate Apart(out: OutputList, analysis: Analysis)
    reads out, analysis
  {
    analysis !in out.Repr && analysis.inputs !in out.Repr && analysis.measurements !in out.Repr
  }

  /** The inputs `generate_inputs` draws for `count` slots. */
  function DrawnInputs(dist: Dist, count: nat, draws: seq<Draw>): (inputs: seq<Input>)
    requires count <= |draws|
    ensures |inputs| == count
  {
    seq(count, i requires 0 <= i < count => Drawn(dist, draws[i]))
  }

  /** The first three steps of `run`: draw the inputs, reset the matrix
      and measure; afterwards the matrix read column by column is the
      timing table. */
  method Measurement(analysis: Analysis, draws: seq<Draw>, timing: seq<seq<Uint64>>)
    requires analysis.Valid() && Code(analysis.dist) < TotalDistributions
    requires analysis.count <= |draws| && CoversPasses(timing, analysis.count)
    modifies analysis.inputs, analysis.measurements
    ensures analysis.Valid()
    ensures analysis.inputs[..] == DrawnInputs(analysis.dist, analysis.count, draws)
    ensures Columns(analysis.measurements, analysis.count) == Transpose(timing, analysis.count)
  {
    var count, dist := analysis.count, analysis.dist;
    LegacyGenerateInputs(dist, analysis.inputs, count, draws);
    InitializeMeasurements(analysis.measurements, count);
    Measure(analysis.measurements, count, timing);
    assert analysis.inputs[..] == DrawnInputs(dist, count, draws);
    forall i | 0 <= i < count
      ensures Column(analysis.measurements, i) == Transpose(timing, count)[i]
    {
    }
  }

  /** `run(analysis, out_file, flags, fuzz_class)` of the kernel module:
      draw the inputs, reset the matrix, measure, and append the record. */
  method Run(out: OutputList, analysis: Analysis, outFile: string, flags: string, fuzzClass: string, draws: seq<Draw>, timing: seq<seq<Uint64>>)
    requires CString(outFile) && CString(flags) && CString(fuzzClass)
    requires out.Valid() && analysis.Valid() && Code(analysis.dist) < TotalDistributions
    requires Apart(out, analysis)
    requires analysis.count <= |draws| && CoversPasses(timing, analysis.count)
    modifies out.Repr, analysis.inputs, analysis.measurements
    ensures out.Valid() && fresh(out.Repr - old(out.Repr)) && analysis.Valid()
    ensures Apart(out, analysis)
    ensures out.Contents() == old(out.Contents()) + RunRecord(outFile, flags, fuzzClass, analysis.dist, analysis.count, draws, timing)
  {
    Measurement(analysis, draws, timing);
    out.Untouched();
    WriteData(out, outFile, flags, fuzzClass, analysis);
  }

  /** The order in which `start` runs the classes. */
  const ClassOrder: seq<Dist> := [Uniformly, Equal, Zero, Max64, Umax64]

  /** The order runs every distribution the kernel module knows exactly
      once. */
  lemma ClassOrderCoversEnum()
    ensures |ClassOrder| == TotalDistributions
    ensures forall k :: 0 <= k < |ClassOrder| ==> Code(ClassOrder[k]) < TotalDistributions
    ensures forall d: Dist :: Code(d) < TotalDistributions ==> d in ClassOrder
    ensures forall k, l :: 0 <= k < l < |ClassOrder| ==> ClassOrder[k] != ClassOrder[l]
  {
    forall d: Dist | Code(d) < TotalDistributions ensures d in ClassOrder {
      assert d == GetDist(Code(d)) by { GetDistBijection(); }
    }
  }

  /** The file name `start` hands to `run` for a class. */
  function ResultFile(d: Dist): string {
    "./result-" + Name(d) + ".csv"
  }

  /** Draws and timings for every class of `start`, each covering the
      `count` inputs. */
  ghost predicate Scheduled(draws: seq<seq<Draw>>, timings: seq<seq<seq<Uint64>>>, count: nat) {
    |draws| == |timings| == |ClassOrder|
    && forall k :: 0 <= k < |ClassOrder| ==> count <= |draws[k]| && CoversPasses(timings[k], count)
  }

  /** The record of the `k`-th class of `start`. */
  function ClassRecord(flags: string, count: nat, draws: seq<seq<Draw>>, timings: seq<seq<seq<Uint64>>>, k: nat): string
    requires Scheduled(draws, timings, count) && k < |ClassOrder|
  {
    RunRecord(ResultFile(ClassOrder[k]), flags, Name(ClassOrder[k]), ClassOrder[k], count, draws[k], timings[k])
  }

  /** The class names and file names `start` passes are C strings. */
  lemma NamesAreCStrings(d: Dist)
    ensures CString(Name(d)) && CString(ResultFile(d))
  {
    var name := Name(d);
    assert forall k :: 0 <= k < |name| ==> IsLower(name[k]) || IsDigit(name[k]);
  }

  /** The records of the first `n` classes, in order. */
  function StartRecords(flags: string, count: nat, draws: seq<seq<Draw>>, timings: seq<seq<seq<Uint64>>>, n: nat): string
    requires Scheduled(draws, timings, count) && n <= |ClassOrder|
  {
    if n == 0 then "" else StartRecords(flags, count, draws, timings, n - 1) + ClassRecord(flags, count, draws, timings, n - 1)
  }

  /** `run` up to the text it appends: draw, reset, measure and format
      the record. */
  method RunText(analysis: Analysis, outFile: string, flags: string, fuzzClass: string, draws: seq<Draw>, timing: seq<seq<Uint64>>) returns (text: string)
    requires CString(outFile) && CString(flags) && CString(fuzzClass)
    requires analysis.Valid() && Code(analysis.dist) < TotalDistributions
    requires analysis.count <= |draws| && CoversPasses(timing, analysis.count)
    modifies analysis.inputs, analysis.measurements
    ensures analysis.Valid()
    ensures text == RunRecord(outFile, flags, fuzzClass, analysis.dist, analysis.count, draws, timing)
  {
    Measurement(analysis, draws, timing);
    text := FormatRecord(outFile, flags, fuzzClass, analysis);
  }

  /** The `k`-th class of `start`: the shared analysis takes that class's
      distribution and is run with its file name. */
  method RunClass(analysis: Analysis, optFlags: string, draws: seq<seq<Draw>>, timings: seq<seq<seq<Uint64>>>, k: nat) returns (record: string)
    requires CString(optFlags) && analysis.Valid()
    requires Scheduled(draws, timings, analysis.count) && k < |ClassOrder|
    modifies analysis, analysis.inputs, analysis.measurements
    ensures record == ClassRecord(optFlags, analysis.count, draws, timings, k)
  {
    var dist := ClassOrder[k];
    ClassOrderCoversEnum();
    NamesAreCStrings(dist);
    analysis.dist := dist;
    record := RunText(analysis, ResultFile(dist), optFlags, Name(dist), draws[k], timings[k]);
  }

  /** The runs of `start`: one analysis over `fuzz_count` inputs, reused
      for every class in order; class `k` takes the `k`-th draws and
      timings. Returns the records the runs hand to the output list. */
  method StartRuns(optFlags: string, fuzzCount: nat, draws: seq<seq<Draw>>, timings: seq<seq<seq<Uint64>>>) returns (text: string)
    requires CString(optFlags) && Scheduled(draws, timings, fuzzCount)
    ensures text == StartRecords(optFlags, fuzzCount, draws, timings, |ClassOrder|)
  {
    var analysis := new Analysis(fuzzCount);
    text := "";
    for k := 0 to |ClassOrder|
      invariant text == StartRecords(optFlags, fuzzCount, draws, timings, k)
      modifies analysis, analysis.inputs, analysis.measurements
    {
      var record := RunClass(analysis, optFlags, draws, timings, k);
      text := text + record;
    }
  }

  /** `start(opt_flags)`: the five records reach the output list in the
      order the classes run. */
  method Start(out: OutputList, optFlags: string, fuzzCount: nat, draws: seq<seq<Draw>>, timings: seq<seq<seq<Uint64>>>)
    requires CString(optFlags) && out.Valid() && Scheduled(draws, timings, fuzzCount)
    modifies out.Repr
    ensures out.Valid() && fresh(out.Repr - old(out.Repr))
    ensures out.Contents() == old(out.Contents()) + StartRecords(optFlags, fuzzCount, draws, timings, |ClassOrder|)
  {
    var text := StartRuns(optFlags, fuzzCount, draws, timings);
    out.Untouched();
    Emit(out, text);
  }
}
