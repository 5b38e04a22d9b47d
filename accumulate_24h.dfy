/** `accumulate_24h.py`: group the six-hour `.nc` files by the day in their
    names and write one 24-hour total per day that has at least four of
    them and no total yet. */
module Accumulate24h {
  import opened Text
  import opened DataDir

  /** A day needs this many six-hour files before it is totalled. */
  const MinFilesPerDay: nat := 4

  /** The names the glob `GLD_RNN6H_*.nc` matches. */
  predicate IsInputName(name: string)
  {
    |name| >= 13 && StartsWith(name, "GLD_RNN6H_") && EndsWith(name, ".nc")
  }

  /** Such a name has at least three `_`-separated fields, the first two
      being the product prefix. */
  lemma InputNameFields(name: string)
    requires IsInputName(name)
    ensures |Split(name, '_')| >= 3
    ensures Split(name, '_')[..2] == ["GLD", "RNN6H"]
  {
    var rest := name[10..];
    assert name == "GLD" + ['_'] + ("RNN6H" + ['_'] + rest);
    SplitAfterHead("GLD", '_', "RNN6H" + ['_'] + rest);
    SplitAfterHead("RNN6H", '_', rest);
  }

  /** `f.name.split("_")[2]`, the day of a six-hour file. */
  function DayKey(name: string): string
    requires IsInputName(name)
  {
    InputNameFields(name);
    Split(name, '_')[2]
  }

  /** The day key never contains the separator, so it is a whole field. */
  lemma DayKeyIsField(name: string)
    requires IsInputName(name)
    ensures '_' !in DayKey(name)
  {
    InputNameFields(name);
  }

  /** `GLD_RNN24H_<YYYYMMDD>.nc`, the output of one day. */
  function DailyName(day: string): string
  {
    "GLD_RNN24H_" + day + ".nc"
  }

  /** Distinct days have distinct outputs. */
  lemma DailyNameInjective(d1: string, d2: string)
    requires DailyName(d1) == DailyName(d2)
    ensures d1 == d2
  {
    var n := DailyName(d1);
    assert d1 == n[11..|n| - 3];
    assert d2 == DailyName(d2)[11..|n| - 3];
  }

  /** A 24-hour output is never itself listed as a six-hour input. */
  lemma DailyNameNotInput(d: string)
    ensures !IsInputName(DailyName(d))
  {
    var n := DailyName(d);
    assert n[..10][7] == '2';
  }

  predicate AllInputNames(files: seq<string>)
  {
    forall f :: f in files ==> IsInputName(f)
  }

  // ---------------------------------------------------------------------
  // Grouping by day
  // ---------------------------------------------------------------------

  /** The files of one day, in listing order. */
  function FilesOfDay(files: seq<string>, d: string): (group: seq<string>)
    requires AllInputNames(files)
    ensures forall f :: f in group ==> f in files && DayKey(f) == d
    decreases |files|
  {
    if |files| == 0 then []
    else
      var last := files[|files| - 1];
      FilesOfDay(files[..|files| - 1], d) + if DayKey(last) == d then [last] else []
  }

  /** The days in the order they first appear in the listing (the key order
      of the `groups` dict). */
  function DaysOf(files: seq<string>): seq<string>
    requires AllInputNames(files)
    decreases |files|
  {
    if |files| == 0 then []
    else
      var p := DaysOf(files[..|files| - 1]);
      var k := DayKey(files[|files| - 1]);
      if k in p then p else p + [k]
  }

  /** A file belongs to the group of a day exactly when it is listed and
      its key is that day: each file is in its own day's group and in no
      other. */
  lemma {:induction false} FilesOfDayMembers(files: seq<string>, d: string)
    requires AllInputNames(files)
    ensures forall f :: f in FilesOfDay(files, d) <==> f in files && DayKey(f) == d
    decreases |files|
  {
    if |files| > 0 {
      var init := files[..|files| - 1];
      FilesOfDayMembers(init, d);
      assert files == init + [files[|files| - 1]];
    }
  }

  /** Grouping splits a listing at any point: the day's files from the
      first part come before those from the second, so the listing order
      is kept. */
  lemma {:induction false} FilesOfDayAppend(a: seq<string>, b: seq<string>, d: string)
    requires AllInputNames(a + b)
    ensures AllInputNames(a) && AllInputNames(b)
    ensures FilesOfDay(a + b, d) == FilesOfDay(a, d) + FilesOfDay(b, d)
    decreases |b|
  {
    assert forall f :: f in a ==> f in a + b;
    assert forall f :: f in b ==> f in a + b;
    if |b| > 0 {
      var init := b[..|b| - 1];
      assert (a + b)[..|a + b| - 1] == a + init;
      FilesOfDayAppend(a, init, d);
    } else {
      assert a + b == a;
    }
  }

  /** The listed days are exactly the days with at least one file, each
      listed once. */
  lemma {:induction false} DaysOfMembers(files: seq<string>)
    requires AllInputNames(files)
    ensures forall d :: d in DaysOf(files) <==> |FilesOfDay(files, d)| > 0
    ensures forall i, j :: 0 <= i < j < |DaysOf(files)| ==> DaysOf(files)[i] != DaysOf(files)[j]
    decreases |files|
  {
    if |files| > 0 {
      DaysOfMembers(files[..|files| - 1]);
    }
  }

  /** Extending a prefix of the listing by one file: its day becomes the
      next key if it is new. */
  lemma PrefixDays(files: seq<string>, i: nat)
    requires AllInputNames(files) && i < |files|
    ensures AllInputNames(files[..i]) && AllInputNames(files[..i + 1])
    ensures DaysOf(files[..i + 1]) ==
      if DayKey(files[i]) in DaysOf(files[..i]) then DaysOf(files[..i])
      else DaysOf(files[..i]) + [DayKey(files[i])]
  {
    assert forall f :: f in files[..i] ==> f in files;
    assert forall f :: f in files[..i + 1] ==> f in files;
    assert files[..i + 1][..i] == files[..i];
  }

  /** Extending a prefix of the listing by one file: the file joins the
      end of its day's group, and no other group changes. */
  lemma PrefixFiles(files: seq<string>, i: nat, d: string)
    requires AllInputNames(files) && i < |files|
    ensures AllInputNames(files[..i]) && AllInputNames(files[..i + 1])
    ensures FilesOfDay(files[..i + 1], d) ==
      FilesOfDay(files[..i], d) + if DayKey(files[i]) == d then [files[i]] else []
  {
    assert forall f :: f in files[..i] ==> f in files;
    assert forall f :: f in files[..i + 1] ==> f in files;
    assert files[..i + 1][..i] == files[..i];
  }

  /** `days` and `groups` are the dict built from the listing `prefix`:
      its keys in first-seen order, and for each key its files in order. */
  ghost predicate Grouped(prefix: seq<string>, days: seq<string>, groups: map<string, seq<string>>)
    requires AllInputNames(prefix)
  {
    days == DaysOf(prefix) &&
    (forall d :: d in groups <==> d in days) &&
    (forall d :: d in groups ==> groups[d] == FilesOfDay(prefix, d)) &&
    (forall d :: d !in groups ==> FilesOfDay(prefix, d) == [])
  }

  /** One `setdefault(day, []).append(f)` keeps the dict in step with the
      listing read so far. */
  lemma GroupStep(files: seq<string>, i: nat, days: seq<string>, groups: map<string, seq<string>>)
    requires AllInputNames(files) && i < |files|
    requires AllInputNames(files[..i]) && Grouped(files[..i], days, groups)
    ensures AllInputNames(files[..i + 1])
    ensures
      var day := DayKey(files[i]);
      var group := if day in groups then groups[day] else [];
      Grouped(files[..i + 1], if day in groups then days else days + [day], groups[day := group + [files[i]]])
  {
    PrefixDays(files, i);
    var day := DayKey(files[i]);
    var group := if day in groups then groups[day] else [];
    var groups' := groups[day := group + [files[i]]];
    forall d | d in groups' ensures groups'[d] == FilesOfDay(files[..i + 1], d) {
      PrefixFiles(files, i, d);
    }
    forall d | d !in groups' ensures FilesOfDay(files[..i + 1], d) == [] {
      PrefixFiles(files, i, d);
    }
  }

  /** The grouping loop: `groups.setdefault(day, []).append(f)`; `days`
      is the key order of the dict. */
  method GroupByDay(files: seq<string>) returns (days: seq<string>, groups: map<string, seq<string>>)
    requires AllInputNames(files)
    ensures days == DaysOf(files)
    ensures forall d :: d in groups <==> d in days
    ensures forall d :: d in groups ==> groups[d] == FilesOfDay(files, d)
  {
    days, groups := [], map[];
    var i := 0;
    while i < |files|
      invariant 0 <= i <= |files|
      invariant AllInputNames(files[..i])
      invariant Grouped(files[..i], days, groups)
    {
      var f := files[i];
      var day := DayKey(f);
      GroupStep(files, i, days, groups);
      var group := if day in groups then groups[day] else [];
      if day !in groups {
        days := days + [day];
      }
      groups := groups[day := group + [f]];
      i := i + 1;
    }
    assert files[..|files|] == files;
  }

  // ---------------------------------------------------------------------
  // The cell reduction
  // ---------------------------------------------------------------------

  /** `notnull().sum(dim="time")` at one cell. */
  function ValidCount(vals: seq<Cell>): nat
    decreases |vals|
  {
    if |vals| == 0 then 0 else (if vals[0].Some? then 1 else 0) + ValidCount(vals[1..])
  }

  /** `sum(dim="time", skipna=True)` at one cell: missing values add zero. */
  function SumValid(vals: seq<Cell>): real
    decreases |vals|
  {
    if |vals| == 0 then 0.0 else (if vals[0].Some? then vals[0].value else 0.0) + SumValid(vals[1..])
  }

  /** `daily_sum.where(valid_count > 0)` at one cell. */
  function ReduceCell(vals: seq<Cell>): Cell
  {
    if ValidCount(vals) > 0 then Some(SumValid(vals)) else None
  }

  lemma {:induction false} ValidCountZero(vals: seq<Cell>)
    ensures ValidCount(vals) == 0 <==> forall i :: 0 <= i < |vals| ==> vals[i].None?
    decreases |vals|
  {
    if |vals| > 0 {
      ValidCountZero(vals[1..]);
      assert forall i :: 1 <= i < |vals| ==> vals[i] == vals[1..][i - 1];
    }
  }

  /** A cell is missing exactly when no input is valid there; otherwise it
      is the sum of the valid inputs. */
  lemma ReduceCellMissing(vals: seq<Cell>)
    ensures ReduceCell(vals).None? <==> forall i :: 0 <= i < |vals| ==> vals[i].None?
    ensures ReduceCell(vals).Some? ==> ReduceCell(vals).value == SumValid(vals)
  {
    ValidCountZero(vals);
  }

  lemma {:induction false} CountAndSumAppend(a: seq<Cell>, b: seq<Cell>)
    ensures ValidCount(a + b) == ValidCount(a) + ValidCount(b)
    ensures SumValid(a + b) == SumValid(a) + SumValid(b)
    decreases |a|
  {
    if |a| == 0 {
      assert a + b == b;
    } else {
      assert (a + b)[1..] == a[1..] + b;
      CountAndSumAppend(a[1..], b);
    }
  }

  /** Missing values contribute nothing. */
  lemma MissingContributesNothing(a: seq<Cell>, b: seq<Cell>)
    ensures ReduceCell(a + [None] + b) == ReduceCell(a + b)
  {
    CountAndSumAppend(a, [None]);
    CountAndSumAppend(a + [None], b);
    CountAndSumAppend(a, b);
  }

  /** The worked cases: [2, NaN, 3, NaN] totals 5, four NaNs stay NaN. */
  lemma ReduceCellExamples()
    ensures ReduceCell([Some(2.0), None, Some(3.0), None]) == Some(5.0)
    ensures ReduceCell([None, None, None, None]) == None
  {
    var v := [Some(2.0), None, Some(3.0), None];
    assert v[1..] == [None, Some(3.0), None];
    assert v[1..][1..] == [Some(3.0), None];
    assert v[1..][1..][1..] == [None];
    var w: seq<Cell> := [None, None, None, None];
    assert w[1..] == [None, None, None];
    assert w[1..][1..] == [None, None];
    assert w[1..][1..][1..] == [None];
  }

  /** Combining two partial results with the same rule. */
  function Combine(x: Cell, y: Cell): Cell
  {
    match (x, y)
    case (None, None) => None
    case (Some(u), None) => Some(u)
    case (None, Some(v)) => Some(v)
    case (Some(u), Some(v)) => Some(u + v)
  }

  /** Reducing a stack in two parts and combining the results gives the
      reduction of the whole stack. */
  lemma ReduceCellSplit(a: seq<Cell>, b: seq<Cell>)
    ensures ReduceCell(a + b) == Combine(ReduceCell(a), ReduceCell(b))
  {
    CountAndSumAppend(a, b);
    ValidCountZero(a);
    ValidCountZero(b);
    if ValidCount(a) == 0 {
      assert SumValid(a) == 0.0 by { SumOfMissing(a); }
    }
    if ValidCount(b) == 0 {
      assert SumValid(b) == 0.0 by { SumOfMissing(b); }
    }
  }

  lemma {:induction false} SumOfMissing(vals: seq<Cell>)
    requires ValidCount(vals) == 0
    ensures SumValid(vals) == 0.0
    decreases |vals|
  {
    if |vals| > 0 {
      SumOfMissing(vals[1..]);
    }
  }

  /** Taking the j-th input out of a stack removes exactly its share. */
  lemma {:induction false} CountAndSumRemove(b: seq<Cell>, j: nat)
    requires j < |b|
    ensures ValidCount(b) == (if b[j].Some? then 1 else 0) + ValidCount(b[..j] + b[j + 1..])
    ensures SumValid(b) == (if b[j].Some? then b[j].value else 0.0) + SumValid(b[..j] + b[j + 1..])
    decreases j
  {
    var rest := b[..j] + b[j + 1..];
    if j == 0 {
      assert rest == b[1..];
    } else {
      var t := b[1..];
      CountAndSumRemove(t, j - 1);
      assert rest[0] == b[0];
      assert rest[1..] == t[..j - 1] + t[j..];
      assert t[j - 1] == b[j];
    }
  }

  lemma MultisetRemove(a: seq<Cell>, b: seq<Cell>, j: nat)
    requires |a| > 0 && j < |b| && b[j] == a[0]
    requires multiset(a) == multiset(b)
    ensures multiset(a[1..]) == multiset(b[..j] + b[j + 1..])
  {
    var p, q := b[..j], b[j + 1..];
    assert b == p + [b[j]] + q;
    assert a == [a[0]] + a[1..];
    var m := multiset{a[0]};
    assert multiset(b) == multiset(p + q) + m;
    assert multiset(a) == multiset(a[1..]) + m;
    assert multiset(a[1..]) == multiset(a) - m;
    assert multiset(p + q) == multiset(b) - m;
  }

  /** The order of the stacked inputs does not change a cell. */
  lemma {:induction false} ReduceCellPermutation(a: seq<Cell>, b: seq<Cell>)
    requires multiset(a) == multiset(b)
    ensures ValidCount(a) == ValidCount(b) && SumValid(a) == SumValid(b)
    ensures ReduceCell(a) == ReduceCell(b)
    decreases |a|
  {
    if |a| == 0 {
      assert |b| == |multiset(b)| == 0;
    } else {
      assert a[0] in multiset(b);
      var j :| 0 <= j < |b| && b[j] == a[0];
      MultisetRemove(a, b, j);
      ReduceCellPermutation(a[1..], b[..j] + b[j + 1..]);
      CountAndSumRemove(b, j);
    }
  }

  // ---------------------------------------------------------------------
  // The grid reduction
  // ---------------------------------------------------------------------

  /** A cell of a grid, missing outside it. */
  function CellAt(g: Grid, r: nat, c: nat): Cell
  {
    if r < |g| && c < |g[r]| then g[r][c] else None
  }

  /** The stacked values of one cell along the time axis. */
  function Column(stack: seq<Grid>, r: nat, c: nat): (col: seq<Cell>)
    ensures |col| == |stack|
  {
    seq(|stack|, k requires 0 <= k < |stack| => CellAt(stack[k], r, c))
  }

  /** `concat` along time, then the count, the skip-NaN sum and the mask,
      cell by cell, over the first grid's shape. */
  function ReduceGrids(stack: seq<Grid>): Grid
    requires |stack| > 0
  {
    var rows, cols := |stack[0]|, Width(stack[0]);
    seq(rows, r requires 0 <= r < rows =>
      seq(cols, c requires 0 <= c < cols => ReduceCell(Column(stack, r, c))))
  }

  /** For inputs of one shape the total has that shape, and each of its
      cells is missing exactly when every input is missing there, and is
      otherwise the sum of the valid inputs. */
  lemma ReduceGridsCells(stack: seq<Grid>, rows: nat, cols: nat)
    requires |stack| > 0
    requires forall k :: 0 <= k < |stack| ==>
      |stack[k]| == rows && forall r :: 0 <= r < rows ==> |stack[k][r]| == cols
    ensures IsRect(ReduceGrids(stack), rows, cols)
    ensures forall r, c :: 0 <= r < rows && 0 <= c < cols ==>
      (ReduceGrids(stack)[r][c].None? <==> forall k :: 0 <= k < |stack| ==> stack[k][r][c].None?)
    ensures forall r, c :: 0 <= r < rows && 0 <= c < cols && ReduceGrids(stack)[r][c].Some? ==>
      ReduceGrids(stack)[r][c].value == SumValid(Column(stack, r, c))
  {
    assert IsRect(stack[0], rows, cols);
    forall r, c | 0 <= r < rows && 0 <= c < cols
      ensures ReduceGrids(stack)[r][c].None? <==> forall k :: 0 <= k < |stack| ==> stack[k][r][c].None?
      ensures ReduceGrids(stack)[r][c].Some? ==> ReduceGrids(stack)[r][c].value == SumValid(Column(stack, r, c))
    {
      var col := Column(stack, r, c);
      ReduceCellMissing(col);
      assert forall k :: 0 <= k < |stack| ==> col[k] == stack[k][r][c];
    }
  }

  // ---------------------------------------------------------------------
  // The per-day loop
  // ---------------------------------------------------------------------

  /** Every listed file is a six-hour input present in the store. */
  predicate InputsPresent(s: Store, files: seq<string>)
  {
    forall f :: f in files ==> IsInputName(f) && f in s.ncs && s.ncs[f].SixHour?
  }

  /** `[xr.open_dataset(f) for f in flist]`, the grids of a day's files. */
  function DayStack(s: Store, flist: seq<string>): (stack: seq<Grid>)
    requires forall f :: f in flist ==> f in s.ncs && s.ncs[f].SixHour?
    ensures |stack| == |flist|
  {
    seq(|flist|, k requires 0 <= k < |flist| => s.ncs[flist[k]].instant.precip)
  }

  /** The written dataset of a day: the reduced grid, on the coordinates of
      the day's first file. */
  function DayTotal(s: Store, flist: seq<string>): (total: NcFile)
    requires |flist| > 0
    requires forall f :: f in flist ==> f in s.ncs && s.ncs[f].SixHour?
    ensures total.Daily?
  {
    var first := s.ncs[flist[0]].instant;
    Daily(ReduceGrids(DayStack(s, flist)), first.lat, first.lon)
  }

  /** The day's files are six-hour grids on one and the same latitude and
      longitude axes, each grid one row per latitude and one column per
      longitude (what the conversion writes for one radar). */
  predicate SharedAxes(s: Store, flist: seq<string>, lat: seq<real>, lon: seq<real>)
  {
    forall f :: f in flist ==>
      f in s.ncs && s.ncs[f].SixHour? &&
      s.ncs[f].instant.lat == lat && s.ncs[f].instant.lon == lon &&
      IsRect(s.ncs[f].instant.precip, |lat|, |lon|)
  }

  /** On files that share their axes, the written total keeps those axes,
      has one cell per latitude and longitude, is NaN exactly where every
      file is NaN, and is otherwise the sum of the valid values there. */
  lemma DayTotalCells(s: Store, flist: seq<string>, lat: seq<real>, lon: seq<real>)
    requires |flist| > 0 && SharedAxes(s, flist, lat, lon)
    ensures DayTotal(s, flist).lat == lat && DayTotal(s, flist).lon == lon
    ensures IsRect(DayTotal(s, flist).precip24h, |lat|, |lon|)
    ensures forall r, c :: 0 <= r < |lat| && 0 <= c < |lon| ==>
      (DayTotal(s, flist).precip24h[r][c].None? <==>
        forall k :: 0 <= k < |flist| ==> s.ncs[flist[k]].instant.precip[r][c].None?)
    ensures forall r, c :: 0 <= r < |lat| && 0 <= c < |lon| && DayTotal(s, flist).precip24h[r][c].Some? ==>
      DayTotal(s, flist).precip24h[r][c].value == SumValid(Column(DayStack(s, flist), r, c))
  {
    var stack := DayStack(s, flist);
    assert forall k :: 0 <= k < |stack| ==> stack[k] == s.ncs[flist[k]].instant.precip;
    assert forall k :: 0 <= k < |flist| ==> flist[k] in flist;
    ReduceGridsCells(stack, |lat|, |lon|);
  }

  /** One iteration of the per-day loop: skip a day with fewer than four
      files, skip a day whose output exists, otherwise write its total. */
  function DailyStep(s: Store, files: seq<string>, d: string): (s': Store)
    requires InputsPresent(s, files)
    ensures InputsPresent(s', files)
  {
    var flist := FilesOfDay(files, d);
    FilesOfDayMembers(files, d);
    DailyNameNotInput(d);
    if |flist| < MinFilesPerDay then s
    else if Exists(s, DailyName(d)) then s
    else s.(ncs := s.ncs[DailyName(d) := DayTotal(s, flist)])
  }

  /** The per-day loop over the days in dict order. */
  function DailyPass(s: Store, files: seq<string>, days: seq<string>): Store
    requires InputsPresent(s, files)
    decreases |days|
  {
    if |days| == 0 then s else DailyPass(DailyStep(s, files, days[0]), files, days[1..])
  }

  /** How the script ends: `SystemExit("No files")`, or after the loop. */
  datatype RunEnd = NoFiles | Finished

  /** The whole script over its sorted listing. */
  method Accumulate(s: Store, files: seq<string>) returns (s': Store, end: RunEnd)
    requires InputsPresent(s, files)
    ensures end == NoFiles <==> |files| == 0
    ensures s' == if |files| == 0 then s else DailyPass(s, files, DaysOf(files))
  {
    if |files| == 0 {
      return s, NoFiles;
    }
    var days, groups := GroupByDay(files);
    s' := s;
    for i := 0 to |days|
      invariant InputsPresent(s', files)
      invariant DailyPass(s', files, days[i..]) == DailyPass(s, files, days)
    {
      var day := days[i];
      var flist := groups[day];
      assert days[i..][1..] == days[i + 1..];
      if |flist| < MinFilesPerDay {
        continue;
      }
      var outFile := DailyName(day);
      if Exists(s', outFile) {
        continue;
      }
      FilesOfDayMembers(files, day);
      var stack := DayStack(s', flist);
      var daily := ReduceGrids(stack);
      var first := s'.ncs[flist[0]].instant;
      s' := s'.(ncs := s'.ncs[outFile := Daily(daily, first.lat, first.lon)]);
    }
    end := Finished;
  }

  // ---------------------------------------------------------------------
  // Properties of a run
  // ---------------------------------------------------------------------

  /** Stacks read from two stores that agree on the day's files are equal. */
  lemma DayStackStable(s1: Store, s2: Store, flist: seq<string>)
    requires forall f :: f in flist ==> f in s1.ncs && s1.ncs[f].SixHour?
    requires forall f :: f in flist ==> f in s2.ncs && s2.ncs[f] == s1.ncs[f]
    ensures DayStack(s1, flist) == DayStack(s2, flist)
    ensures |flist| > 0 ==> DayTotal(s1, flist) == DayTotal(s2, flist)
  {
  }

  /** One day's iteration changes no `.tif` and no existing `.nc`; the only
      file it can add is that day's total, made from the day's grids. */
  lemma DailyStepFrame(s: Store, files: seq<string>, d: string)
    requires InputsPresent(s, files)
    ensures DailyStep(s, files, d).tiffs == s.tiffs
    ensures forall n :: n in s.ncs ==> n in DailyStep(s, files, d).ncs && DailyStep(s, files, d).ncs[n] == s.ncs[n]
    ensures forall n :: n in DailyStep(s, files, d).ncs && n !in s.ncs ==>
      n == DailyName(d) && |FilesOfDay(files, d)| >= MinFilesPerDay &&
      DailyStep(s, files, d).ncs[n] == DayTotal(s, FilesOfDay(files, d))
  {
    FilesOfDayMembers(files, d);
  }

  /** What a run writes: no `.tif` and no existing `.nc` is touched, and
      each new file is the total of a listed day with at least four files,
      computed from that day's grids in listing order. */
  lemma {:induction false} DailyPassFrame(s: Store, files: seq<string>, days: seq<string>)
    requires InputsPresent(s, files)
    ensures DailyPass(s, files, days).tiffs == s.tiffs
    ensures forall n :: n in s.ncs ==> n in DailyPass(s, files, days).ncs && DailyPass(s, files, days).ncs[n] == s.ncs[n]
    ensures forall n :: n in DailyPass(s, files, days).ncs && n !in s.ncs ==>
      exists i :: (0 <= i < |days| && n == DailyName(days[i]) &&
        |FilesOfDay(files, days[i])| >= MinFilesPerDay &&
        DailyPass(s, files, days).ncs[n] == DayTotal(s, FilesOfDay(files, days[i])))
    decreases |days|
  {
    if |days| > 0 {
      var d := days[0];
      var s1 := DailyStep(s, files, d);
      var rest := days[1..];
      DailyStepFrame(s, files, d);
      DailyPassFrame(s1, files, rest);
      var out := DailyPass(s, files, days);
      assert out == DailyPass(s1, files, rest);
      forall n | n in out.ncs && n !in s.ncs
        ensures exists i :: (0 <= i < |days| && n == DailyName(days[i]) &&
          |FilesOfDay(files, days[i])| >= MinFilesPerDay &&
          out.ncs[n] == DayTotal(s, FilesOfDay(files, days[i])))
      {
        if n in s1.ncs {
          assert days[0] == d;
        } else {
          var i :| 0 <= i < |rest| && n == DailyName(rest[i]) &&
            |FilesOfDay(files, rest[i])| >= MinFilesPerDay &&
            out.ncs[n] == DayTotal(s1, FilesOfDay(files, rest[i]));
          FilesOfDayMembers(files, rest[i]);
          DayStackStable(s, s1, FilesOfDay(files, rest[i]));
          assert rest[i] == days[i + 1];
        }
      }
    }
  }

  /** After a run every listed day with at least four files has its total. */
  lemma {:induction false} DailyPassComplete(s: Store, files: seq<string>, days: seq<string>)
    requires InputsPresent(s, files)
    ensures forall i :: 0 <= i < |days| && |FilesOfDay(files, days[i])| >= MinFilesPerDay ==>
      Exists(DailyPass(s, files, days), DailyName(days[i]))
    decreases |days|
  {
    if |days| > 0 {
      var s1 := DailyStep(s, files, days[0]);
      DailyPassComplete(s1, files, days[1..]);
      DailyPassFrame(s1, files, days[1..]);
      forall i | 1 <= i < |days| ensures days[i] == days[1..][i - 1] {
      }
    }
  }

  /** A day with fewer than four files never gets a total: whether its
      output exists is the same before and after a run. */
  lemma DailyGating(s: Store, files: seq<string>, days: seq<string>, d: string)
    requires InputsPresent(s, files)
    requires |FilesOfDay(files, d)| < MinFilesPerDay
    ensures Exists(DailyPass(s, files, days), DailyName(d)) <==> Exists(s, DailyName(d))
  {
    DailyPassFrame(s, files, days);
    var out := DailyPass(s, files, days);
    var n := DailyName(d);
    if n in out.ncs && n !in s.ncs {
      var i :| 0 <= i < |days| && n == DailyName(days[i]) && |FilesOfDay(files, days[i])| >= MinFilesPerDay;
      DailyNameInjective(d, days[i]);
      assert false;
    }
  }

  /** When every listed day that has four files already has its total, a
      run writes nothing. */
  lemma {:induction false} DailyPassNoop(s: Store, files: seq<string>, days: seq<string>)
    requires InputsPresent(s, files)
    requires forall i :: 0 <= i < |days| && |FilesOfDay(files, days[i])| >= MinFilesPerDay ==>
      Exists(s, DailyName(days[i]))
    ensures DailyPass(s, files, days) == s
    decreases |days|
  {
    if |days| > 0 {
      assert DailyStep(s, files, days[0]) == s;
      forall i | 0 <= i < |days[1..]| && |FilesOfDay(files, days[1..][i])| >= MinFilesPerDay
        ensures Exists(s, DailyName(days[1..][i]))
      {
        assert days[1..][i] == days[i + 1];
      }
      DailyPassNoop(s, files, days[1..]);
    }
  }

  /** Running the script a second time over the same listing changes
      nothing; the listing itself is unchanged, since no output is named
      like an input. */
  lemma DailyPassIdempotent(s: Store, files: seq<string>, days: seq<string>)
    requires InputsPresent(s, files)
    ensures InputsPresent(DailyPass(s, files, days), files)
    ensures forall n :: n in DailyPass(s, files, days).ncs && IsInputName(n) ==> n in s.ncs
    ensures DailyPass(DailyPass(s, files, days), files, days) == DailyPass(s, files, days)
  {
    DailyPassFrame(s, files, days);
    DailyPassComplete(s, files, days);
    var out := DailyPass(s, files, days);
    forall n | n in out.ncs && IsInputName(n) ensures n in s.ncs {
      if n !in s.ncs {
        var i :| 0 <= i < |days| && n == DailyName(days[i]);
        DailyNameNotInput(days[i]);
      }
    }
    DailyPassNoop(out, files, days);
  }
}
