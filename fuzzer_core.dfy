/**
 * The measurement bookkeeping of the user-space fuzzer (fuzzer/fuzzer_core.c
 * and fuzzer/fuzzer_core.h): the fixed table of input distributions, the
 * generators that draw an input pair `(a, b)` from a distribution, the
 * `ITERATIONS x count` matrix of clock counts that is reset to `UINT64_MAX`
 * and then lowered in place with `MIN`, and the result file name.
 *
 * Randomness is a parameter: a `Draw` holds the values the random source
 * hands out for one input pair. The cycle timer is a parameter too: a
 * table `timing[j][i]` holds what `get_time` reports for input `i` in pass
 * `j`.
 */
module FuzzerCore {
  import opened Text

  // ---------------------------------------------------------------------
  // Machine integers

  const Int64Max: int := 0x7fff_ffff_ffff_ffff
  const Uint64Max: int := 0xffff_ffff_ffff_ffff
  const Uint32Max: int := 0xffff_ffff

  type Int64 = x: int | -0x8000_0000_0000_0000 <= x <= 0x7fff_ffff_ffff_ffff
  type Uint64 = x: int | 0 <= x <= 0xffff_ffff_ffff_ffff
  type Uint32 = x: int | 0 <= x <= 0xffff_ffff
  type Byte = x: int | 0 <= x < 256

  /** `ITERATIONS`: the passes over all inputs. */
  const Iterations: nat := 10

  /** `MIN(x, y)`: `x` when `x < y`, otherwise `y`. */
  function Min(x: int, y: int): (r: int)
    ensures r <= x && r <= y
    ensures r == x || r == y
    ensures x < y ==> r == x
  {
    if x < y then x else y
  }

  /** `RANDOM`: the coin is heads when the drawn 32-bit word lies above
      `UINT32_MAX / 2`, that is, when its top bit is set. */
  predicate Random(u: Uint32)
    ensures Random(u) <==> u >= 0x8000_0000
  {
    u > Uint32Max / 2
  }

  // ---------------------------------------------------------------------
  // Distributions

  /** `distribution_et`, in declaration order. */
  datatype Dist = Uniformly | Equal | Max64 | Umax64 | Zero | XLtY | YLtX | Small

  /** `DIST_COUNT` */
  const DistCount: nat := 8

  /** The value C gives each enumerator. */
  function Code(d: Dist): (n: nat)
    ensures n < DistCount
  {
    match d
    case Uniformly => 0
    case Equal => 1
    case Max64 => 2
    case Umax64 => 3
    case Zero => 4
    case XLtY => 5
    case YLtX => 6
    case Small => 7
  }

  /** The `dists` table. */
  const Dists: seq<Dist> := [Uniformly, Equal, Max64, Umax64, Zero, XLtY, YLtX, Small]

  /** `get_dist(index)`: the enumerator whose value is `index`. */
  function GetDist(index: nat): (d: Dist)
    requires index < DistCount
    ensures Code(d) == index
  {
    Dists[index]
  }

  /** The table lists every enumerator exactly once: `DIST_COUNT` matches
      the enumeration and `get_dist` is a bijection onto it. */
  lemma GetDistBijection()
    ensures |Dists| == DistCount
    ensures forall d: Dist :: GetDist(Code(d)) == d
    ensures forall i, j :: 0 <= i < j < DistCount ==> GetDist(i) != GetDist(j)
  {
    forall d: Dist ensures GetDist(Code(d)) == d {
      match d
      case Uniformly =>
      case Equal =>
      case Max64 =>
      case Umax64 =>
      case Zero =>
      case XLtY =>
      case YLtX =>
      case Small =>
    }
  }

  /** `dist_to_string(dist)` for the integer value of `dist`: the name of an
      enumerator, `None` (the `NULL` of the source) for any other value. */
  function DistToString(code: int): (r: Option<string>)
    ensures r.Some? <==> 0 <= code < DistCount
    ensures r.Some? ==> 4 <= |r.value| <= 7
    ensures r.Some? ==> forall k :: 0 <= k < |r.value| ==> IsLower(r.value[k]) || IsDigit(r.value[k])
  {
    if code == 0 then Some("uniform")
    else if code == 1 then Some("equal")
    else if code == 2 then Some("max64")
    else if code == 3 then Some("umax64")
    else if code == 4 then Some("zero")
    else if code == 5 then Some("xlty")
    else if code == 6 then Some("yltx")
    else if code == 7 then Some("small")
    else None
  }

  /** The name of a distribution. */
  function Name(d: Dist): string {
    DistToString(Code(d)).value
  }

  /** Different distributions have different names, so the name determines
      the distribution. */
  lemma NamesDistinct(d: Dist, e: Dist)
    ensures Name(d) == Name(e) <==> d == e
  {
    if d != e {
      GetDistBijection();
      assert Code(d) != Code(e);
      assert DistToString(Code(d)) != DistToString(Code(e));
    }
  }

  // ---------------------------------------------------------------------
  // Drawing inputs

  /** `input_st` */
  datatype Input = Input(a: Int64, b: Int64)

  /** What the random source hands out while one pair is drawn: the coin of
      `RANDOM`, the first and second 64-bit draw, and the byte each `RAND8`
      writes into the low end of `x` and `y` (the other seven bytes are
      cleared by `&= 255` right after). */
  datatype Draw = Draw(coin: Uint32, first: Int64, second: Int64, lowX: Byte, lowY: Byte)

  /** The pair `set_values` leaves behind for a distribution and a draw. */
  function Drawn(dist: Dist, d: Draw): (p: Input)
    ensures dist == Uniformly ==> p == Input(d.first, d.second)
    ensures dist == Equal ==> p.a == p.b == d.first
    ensures dist == Max64 ==> Pinned(p, Int64Max, d)
    ensures dist == Umax64 ==> Pinned(p, -1, d)
    ensures dist == Zero ==> Pinned(p, 0, d)
    ensures dist == XLtY ==> p.a <= p.b && multiset{p.a, p.b} == multiset{d.first, d.second}
    ensures dist == YLtX ==> p.b <= p.a && multiset{p.a, p.b} == multiset{d.first, d.second}
    ensures dist == Small ==> 0 <= p.a <= 255 && 0 <= p.b <= 255 && p == Input(d.lowX, d.lowY)
  {
    match dist
    case Uniformly => Input(d.first, d.second)
    case Equal => Input(d.first, d.first)
    case Max64 => PinOne(Int64Max, d)
    case Umax64 => PinOne(-1, d)
    case Zero => PinOne(0, d)
    case XLtY => if d.first > d.second then Input(d.second, d.first) else Input(d.first, d.second)
    case YLtX => if d.first > d.second then Input(d.first, d.second) else Input(d.second, d.first)
    case Small => Input(d.lowX, d.lowY)
  }

  /** One side keeps the pinned value, the other takes the first draw; the
      coin decides which side is drawn. */
  predicate Pinned(p: Input, v: Int64, d: Draw) {
    (Random(d.coin) ==> p == Input(d.first, v)) && (!Random(d.coin) ==> p == Input(v, d.first))
  }

  /** So at least one side of a pinned pair holds the pinned value. */
  lemma PinnedSide(p: Input, v: Int64, d: Draw)
    requires Pinned(p, v, d)
    ensures p.a == v || p.b == v
    ensures p.a == d.first || p.b == d.first
  {
  }

  function PinOne(v: Int64, d: Draw): (p: Input)
    ensures Pinned(p, v, d)
  {
    if Random(d.coin) then Input(d.first, v) else Input(v, d.first)
  }

  /** `RANDXLTY(x, y)`: draw `x`, draw `y`, and swap them when `x > y`. */
  method RandXLtY(firstDraw: Int64, secondDraw: Int64) returns (x: Int64, y: Int64)
    ensures x <= y
    ensures multiset{x, y} == multiset{firstDraw, secondDraw}
  {
    x := firstDraw;
    y := secondDraw;
    if x > y {
      var tmp := x;
      x := y;
      y := tmp;
    }
  }

  /** `set_values(dist, &x, &y)`: the pointers become the out-parameters. */
  method SetValues(dist: Dist, d: Draw) returns (x: Int64, y: Int64)
    ensures Input(x, y) == Drawn(dist, d)
  {
    match dist {
      case Uniformly =>
        x := d.first;
        y := d.second;
      case Equal =>
        x := d.first;
        y := x;
      case Max64 =>
        x, y := Int64Max, Int64Max;
        if Random(d.coin) { x := d.first; } else { y := d.first; }
      case Umax64 =>
        x, y := -1, -1;
        if Random(d.coin) { x := d.first; } else { y := d.first; }
      case Zero =>
        x, y := 0, 0;
        if Random(d.coin) { x := d.first; } else { y := d.first; }
      case XLtY =>
        x, y := RandXLtY(d.first, d.second);
      case YLtX =>
        y, x := RandXLtY(d.first, d.second);
      case Small =>
        x := d.lowX;
        y := d.lowY;
    }
  }

  /** `generate_inputs`: input `i` is drawn with the `i`-th draw; inputs from
      `count` on are left alone. */
  method GenerateInputs(dist: Dist, inputs: array<Input>, count: nat, draws: seq<Draw>)
    requires count <= inputs.Length && count <= |draws|
    modifies inputs
    ensures forall i :: 0 <= i < count ==> inputs[i] == Drawn(dist, draws[i])
    ensures forall i :: count <= i < inputs.Length ==> inputs[i] == old(inputs[i])
  {
    for i := 0 to count
      invariant forall k :: 0 <= k < i ==> inputs[k] == Drawn(dist, draws[k])
      invariant forall k :: i <= k < inputs.Length ==> inputs[k] == old(inputs[k])
    {
      var x, y := SetValues(dist, draws[i]);
      inputs[i] := Input(x, y);
    }
  }

  // ---------------------------------------------------------------------
  // The measurement matrix

  /** A timing table covers every pass and the first `count` inputs. */
  predicate CoversPasses(timing: seq<seq<Uint64>>, count: nat) {
    |timing| == Iterations && forall j :: 0 <= j < Iterations ==> count <= |timing[j]|
  }

  /** `initialize_measurements`: every cell of the first `count` columns is
      set to `UINT64_MAX`; the rest of the matrix is untouched. */
  method InitializeMeasurements(m: array2<Uint64>, count: nat)
    requires m.Length0 == Iterations && count <= m.Length1
    modifies m
    ensures forall j, i :: 0 <= j < Iterations && 0 <= i < count ==> m[j, i] == Uint64Max
    ensures forall j, i :: 0 <= j < Iterations && count <= i < m.Length1 ==> m[j, i] == old(m[j, i])
  {
    for j := 0 to Iterations
      invariant forall j', i :: 0 <= j' < j && 0 <= i < count ==> m[j', i] == Uint64Max
      invariant forall j', i :: j <= j' < Iterations && 0 <= i < m.Length1 ==> m[j', i] == old(m[j', i])
      invariant forall j', i :: 0 <= j' < Iterations && count <= i < m.Length1 ==> m[j', i] == old(m[j', i])
    {
      for i := 0 to count
        invariant forall j', i' :: 0 <= j' < j && 0 <= i' < count ==> m[j', i'] == Uint64Max
        invariant forall i' :: 0 <= i' < i ==> m[j, i'] == Uint64Max
        invariant forall i' :: i <= i' < m.Length1 ==> m[j, i'] == old(m[j, i'])
        invariant forall j', i' :: j < j' < Iterations && 0 <= i' < m.Length1 ==> m[j', i'] == old(m[j', i'])
        invariant forall j', i' :: 0 <= j' < Iterations && count <= i' < m.Length1 ==> m[j', i'] == old(m[j', i'])
      {
        m[j, i] := Uint64Max;
      }
    }
  }

  /** `measure`: each cell of the first `count` columns is lowered to the
      timing observed for it when that is smaller; no cell grows and the
      other columns are untouched. */
  method Measure(m: array2<Uint64>, count: nat, timing: seq<seq<Uint64>>)
    requires m.Length0 == Iterations && count <= m.Length1
    requires CoversPasses(timing, count)
    modifies m
    ensures forall j, i :: 0 <= j < Iterations && 0 <= i < count ==> m[j, i] == Min(old(m[j, i]), timing[j][i])
    ensures forall j, i :: 0 <= j < Iterations && 0 <= i < m.Length1 ==> m[j, i] <= old(m[j, i])
    ensures forall j, i :: 0 <= j < Iterations && count <= i < m.Length1 ==> m[j, i] == old(m[j, i])
  {
    for j := 0 to Iterations
      invariant forall j', i :: 0 <= j' < j && 0 <= i < count ==> m[j', i] == Min(old(m[j', i]), timing[j'][i])
      invariant forall j', i :: j <= j' < Iterations && 0 <= i < m.Length1 ==> m[j', i] == old(m[j', i])
      invariant forall j', i :: 0 <= j' < Iterations && count <= i < m.Length1 ==> m[j', i] == old(m[j', i])
    {
      for i := 0 to count
        invariant forall j', i' :: 0 <= j' < j && 0 <= i' < count ==> m[j', i'] == Min(old(m[j', i']), timing[j'][i'])
        invariant forall i' :: 0 <= i' < i ==> m[j, i'] == Min(old(m[j, i']), timing[j][i'])
        invariant forall i' :: i <= i' < m.Length1 ==> m[j, i'] == old(m[j, i'])
        invariant forall j', i' :: j < j' < Iterations && 0 <= i' < m.Length1 ==> m[j', i'] == old(m[j', i'])
        invariant forall j', i' :: 0 <= j' < Iterations && count <= i' < m.Length1 ==> m[j', i'] == old(m[j', i'])
      {
        var t := timing[j][i];
        var oldMin := m[j, i];
        m[j, i] := Min(oldMin, t);
      }
    }
  }

  // ---------------------------------------------------------------------
  // The analysis record

  /** `analysis_st`: the distribution of the current run, the inputs, the
      matrix of clock counts (one row per pass) and the number of inputs. */
  class Analysis {
    var dist: Dist
    const inputs: array<Input>
    const measurements: array2<Uint64>
    const count: nat

    ghost predicate Valid() {
      inputs.Length == count && measurements.Length0 == Iterations && measurements.Length1 == count
    }

    /** `initialize_analysis(analysis, count)`: zero-filled inputs and
        matrix (`calloc`) of `count` columns, distribution `UNIFORMLY`. */
    constructor (count: nat)
      ensures Valid() && this.count == count && dist == Uniformly
      ensures fresh(inputs) && fresh(measurements)
      ensures forall i :: 0 <= i < count ==> inputs[i] == Input(0, 0)
      ensures forall j, i :: 0 <= j < Iterations && 0 <= i < count ==> measurements[j, i] == 0
    {
      this.count := count;
      dist := Uniformly;
      inputs := new Input[count](_ => Input(0, 0));
      measurements := new Uint64[Iterations, count]((_, _) => 0);
    }

    /** `run(analysis)`: draw the inputs, reset the matrix and measure.
        Since `MIN(UINT64_MAX, t) == t`, each cell ends up holding the one
        timing observed for it in its pass. */
    method Run(draws: seq<Draw>, timing: seq<seq<Uint64>>)
      requires Valid() && count <= |draws| && CoversPasses(timing, count)
      modifies inputs, measurements
      ensures Valid()
      ensures forall i :: 0 <= i < count ==> inputs[i] == Drawn(dist, draws[i])
      ensures forall j, i :: 0 <= j < Iterations && 0 <= i < count ==> measurements[j, i] == timing[j][i]
    {
      GenerateInputs(dist, inputs, count, draws);
      InitializeMeasurements(measurements, count);
      Measure(measurements, count, timing);
    }
  }

  // ---------------------------------------------------------------------
  // Result file names

  /** `FORMAT_BUF_SIZE` */
  const FormatBufSize: nat := 50

  /** `construct_filename(dist_str)`: `snprintf` into a buffer of 50 bytes,
      which keeps at most 49 characters. */
  function ConstructFilename(distStr: string): (r: string)
    ensures |r| <= FormatBufSize - 1
    ensures StartsWith("./result-" + distStr + ".csv", r)
    ensures |distStr| <= 36 ==> |r| == |distStr| + 13 && r[9..|r| - 4] == distStr
  {
    Truncate("./result-" + distStr + ".csv", FormatBufSize)
  }

  /** Every distribution gets its own, untruncated file name. */
  lemma FilenamesDistinct(d: Dist, e: Dist)
    ensures ConstructFilename(Name(d)) == "./result-" + Name(d) + ".csv"
    ensures ConstructFilename(Name(d)) == ConstructFilename(Name(e)) <==> d == e
  {
    var fd, fe := ConstructFilename(Name(d)), ConstructFilename(Name(e));
    if fd == fe {
      assert Name(d) == fd[9..|fd| - 4] == Name(e);
      NamesDistinct(d, e);
    }
  }
}
