/** The comparison of years by code, and its agreement with the cross-year balances. */
module Comparison {
  import opened Wrappers
  import opened Numbers
  import opened Sequences
  import opened Sorting
  import opened Ledger
  import opened YearFiles
  import opened ReportQuery
  import opened Statements
  import opened Reports

  datatype ComparativeRow = ComparativeRow(sru: int, years: seq<(int, int)>)

  type YearRows = (int, seq<BalanceRow>)

  function CellAmount(cell: (int, int)): int { cell.1 }

  /** The amounts of one year by code. */
  function CodeMap(rows: seq<BalanceRow>): map<int, int> {
    if rows == [] then map[] else
    var last := rows[|rows| - 1];
    CodeMap(rows[..|rows| - 1])[BalanceCode(last) := last.minor]
  }

  function AmountAt(m: map<int, int>, code: int): int {
    if code in m then m[code] else 0
  }

  /** One balanced year, reported alone. */
  function YearRowsOf(y: (int, YearFile)): Result<YearRows, CloseError> {
    var _ :- EnsureVouchersBalanced(y.1);
    match BalancesOf([y], true)
    case Err(e) => Err(StoreFailed(e))
    case Ok(rows) => Ok((y.0, rows))
  }

  function AllYearRows(files: Years): Result<seq<YearRows>, CloseError> {
    if files == [] then Ok([]) else
    var n := |files| - 1;
    var before :- AllYearRows(files[..n]);
    var last :- YearRowsOf(files[n]);
    Ok(before + [last])
  }

  function CodesIn(y: YearRows): seq<int> {
    Map(BalanceCode, y.1)
  }

  function CellAt(code: int): YearRows -> (int, int) {
    (y: YearRows) => (y.0, AmountAt(CodeMap(y.1), code))
  }

  function RowAt(years: seq<YearRows>): int -> ComparativeRow {
    (code: int) => ComparativeRow(code, Map(CellAt(code), years))
  }

  function AllCodes(years: seq<YearRows>): seq<int> {
    Keys(IntLess, FlatMap(CodesIn, years))
  }

  /** `compare_by_sru`: every code of any year, with its amount in each year. */
  function CompareOf(files: Years): Result<seq<ComparativeRow>, CloseError> {
    var years :- AllYearRows(files);
    Ok(Map(RowAt(years), AllCodes(years)))
  }

  // ----- the loops

  lemma {:induction false} AllYearRowsPrefix(files: Years, k: nat)
    requires k <= |files| && AllYearRows(files[..k]).Err?
    ensures AllYearRows(files) == AllYearRows(files[..k])
  {
    hide YearRowsOf;
    if k < |files| {
      assert files[..|files| - 1][..k] == files[..k];
      AllYearRowsPrefix(files[..|files| - 1], k);
    } else {
      assert files[..k] == files;
    }
  }

  lemma AllYearRowsNext(files: Years, k: nat)
    requires k < |files| && AllYearRows(files[..k]).Ok?
    ensures AllYearRows(files[..k + 1]) ==
      if YearRowsOf(files[k]).Ok? then Ok(AllYearRows(files[..k]).value + [YearRowsOf(files[k]).value])
      else Err(YearRowsOf(files[k]).error)
  {
    hide YearRowsOf;
    assert files[..k + 1][..k] == files[..k];
  }

  lemma KeysNext(xs: seq<int>, x: int)
    ensures Keys(IntLess, xs + [x]) == InsertKey(IntLess, x, Keys(IntLess, xs))
  {
    assert (xs + [x])[..|xs + [x]| - 1] == xs;
  }

  /** Indexes the rows of one year and adds their codes to the ordered set of all codes. */
  method IndexYear(rows: seq<BalanceRow>, codes: seq<int>, ghost seen: seq<int>)
    returns (index: map<int, int>, all: seq<int>)
    requires codes == Keys(IntLess, seen)
    ensures index == CodeMap(rows)
    ensures all == Keys(IntLess, seen + Map(BalanceCode, rows))
  {
    hide Keys;
    hide InsertKey;
    hide BalanceCode;
    index, all := map[], codes;
    assert seen + Map(BalanceCode, rows[..0]) == seen;
    for i := 0 to |rows|
      invariant index == CodeMap(rows[..i])
      invariant all == Keys(IntLess, seen + Map(BalanceCode, rows[..i]))
    {
      var code := BalanceCode(rows[i]);
      assert rows[..i + 1] == rows[..i] + [rows[i]] && rows[..i + 1][..i] == rows[..i];
      MapSnoc(BalanceCode, rows[..i], rows[i]);
      KeysNext(seen + Map(BalanceCode, rows[..i]), code);
      assert seen + Map(BalanceCode, rows[..i + 1]) == seen + Map(BalanceCode, rows[..i]) + [code];
      all := InsertKey(IntLess, code, all);
      index := index[code := rows[i].minor];
    }
    assert rows[..|rows|] == rows;
  }

  function Indexed(y: YearRows): (int, map<int, int>) {
    (y.0, CodeMap(y.1))
  }

  /** Checks, reports and indexes each year. */
  method IndexYears(files: Years) returns (r: Result<(seq<(int, map<int, int>)>, seq<int>), CloseError>)
    ensures AllYearRows(files).Err? ==> r == Err(AllYearRows(files).error)
    ensures AllYearRows(files).Ok? ==>
      r == Ok((Map(Indexed, AllYearRows(files).value), AllCodes(AllYearRows(files).value)))
  {
    hide BalancesOf;
    hide EnsureVouchersBalanced;
    hide Keys;
    hide CodeMap;
    hide AllYearRows;
    hide FlatMap;
    var byYear: seq<(int, map<int, int>)> := [];
    var allSru: seq<int> := [];
    ghost var years: seq<YearRows> := [];
    NoYears();
    assert files[..0] == [];
    for i := 0 to |files|
      invariant AllYearRows(files[..i]) == Ok(years)
      invariant byYear == Map(Indexed, years) && allSru == Keys(IntLess, FlatMap(CodesIn, years))
    {
      AllYearRowsNext(files, i);
      var balanced := EnsureVouchersBalanced(files[i].1);
      if balanced.Err? {
        AllYearRowsPrefix(files, i + 1);
        return Err(balanced.error);
      }
      var rows := Balances([files[i]], true);
      if rows.Err? {
        AllYearRowsPrefix(files, i + 1);
        return Err(StoreFailed(rows.error));
      }
      var index, all := IndexYear(rows.value, allSru, FlatMap(CodesIn, years));
      ghost var y := (files[i].0, rows.value);
      MapSnoc(Indexed, years, y);
      FlatMapConcat(CodesIn, years, [y]);
      FlatMapOne(CodesIn, y);
      years := years + [y];
      byYear, allSru := byYear + [(files[i].0, index)], all;
    }
    assert files[..|files|] == files;
    r := Ok((byYear, allSru));
  }

  lemma NoYears()
    ensures AllYearRows([]) == Ok([]) && Keys(IntLess, FlatMap(CodesIn, [])) == []
  {
  }

  function CellOf(code: int): ((int, map<int, int>)) -> (int, int) {
    (y: (int, map<int, int>)) => (y.0, AmountAt(y.1, code))
  }

  method CompareBySru(files: Years) returns (r: Result<seq<ComparativeRow>, CloseError>)
    ensures r == CompareOf(files)
  {
    hide AllYearRows;
    hide AllCodes;
    hide CodeMap;
    var indexed := IndexYears(files);
    if indexed.Err? {
      return Err(indexed.error);
    }
    var (byYear, allSru) := indexed.value;
    ghost var years := AllYearRows(files).value;
    var rows: seq<ComparativeRow> := [];
    for k := 0 to |allSru|
      invariant rows == Map(RowAt(years), allSru[..k])
    {
      assert Map(CellOf(allSru[k]), byYear) == Map(CellAt(allSru[k]), years);
      assert allSru[..k + 1] == allSru[..k] + [allSru[k]];
      MapSnoc(RowAt(years), allSru[..k], allSru[k]);
      rows := rows + [ComparativeRow(allSru[k], Map(CellOf(allSru[k]), byYear))];
    }
    assert allSru[..|allSru|] == allSru;
    r := Ok(rows);
  }

  // ----- agreement with the direct sums

  lemma {:induction false} CodeMapAt(rows: seq<BalanceRow>, code: int, amount: int)
    requires forall b :: b in rows ==> b.SruBalance? && (b.code == code ==> b.minor == amount)
    requires amount != 0 ==> SruBalance(code, amount) in rows
    ensures amount != 0 ==> AmountAt(CodeMap(rows), code) == amount
    ensures (forall b :: b in rows ==> b.code != code) ==> AmountAt(CodeMap(rows), code) == 0
  {
    if rows != [] {
      var n := |rows| - 1;
      assert rows == rows[..n] + [rows[n]];
      if rows[n].code != code {
        CodeMapAt(rows[..n], code, amount);
      }
    }
  }

  /** A year's cell holds the direct sum of that year. */
  lemma CellExact(y: (int, YearFile), code: int)
    requires Keyed(y.1)
    ensures YearRowsOf(y).Ok? ==>
      && CellAt(code)(YearRowsOf(y).value) == (y.0, YearSum(true, y.1, code))
      && (code in CodesIn(YearRowsOf(y).value) <==> YearSum(true, y.1, code) != 0)
  {
    hide YearSum;
    hide BalancesOf;
    hide EnsureVouchersBalanced;
    if YearRowsOf(y).Err? {
      return;
    }
    var rows := YearRowsOf(y).value.1;
    var amount := YearSum(true, y.1, code);
    AloneSum(y, code);
    SruBalancesExact([y]);
    SruRowsOnly([y]);
    CodeMapAt(rows, code, amount);
    if amount != 0 {
      var i :| 0 <= i < |rows| && rows[i] == SruBalance(code, amount);
      assert CodesIn(YearRowsOf(y).value)[i] == code;
    }
  }

  lemma AloneSum(y: (int, YearFile), code: int)
    ensures DirectSum(true, [y], code) == YearSum(true, y.1, code)
  {
    assert [y][..0] == [];
  }

  lemma SruRowsOnly(files: Years)
    requires BalancesOf(files, true).Ok?
    ensures forall b :: b in BalancesOf(files, true).value ==> b.SruBalance?
  {
    hide UnionReport;
    TotalsExact(UnionReport(files, true).value);
  }

  lemma {:induction false} YearsExact(files: Years)
    ensures AllYearRows(files).Ok? ==>
      && |AllYearRows(files).value| == |files|
      && forall j :: 0 <= j < |files| ==> YearRowsOf(files[j]) == Ok(AllYearRows(files).value[j])
  {
    hide YearRowsOf;
    if files != [] {
      var n := |files| - 1;
      assert files == files[..n] + [files[n]];
      YearsExact(files[..n]);
    }
  }

  lemma {:induction false} CellsSum(files: Years, cells: seq<(int, int)>, code: int)
    requires |cells| == |files| && forall j :: 0 <= j < |files| ==> cells[j].1 == YearSum(true, files[j].1, code)
    ensures SumOf(CellAmount, cells) == DirectSum(true, files, code)
  {
    hide YearSum;
    if files != [] {
      var n := |files| - 1;
      CellsSum(files[..n], cells[..n], code);
      assert cells == cells[..n] + [cells[n]];
      SumOfSnoc(CellAmount, cells[..n], cells[n]);
    }
  }

  /** Each cell of the comparison is that year's direct sum, and each row sums to the direct sum over the years. */
  lemma CompareRow(files: Years, code: int)
    requires AllKeyed(files)
    ensures AllYearRows(files).Ok? ==>
      var row := RowAt(AllYearRows(files).value)(code);
      && row.sru == code && |row.years| == |files|
      && (forall j :: 0 <= j < |files| ==> row.years[j] == (files[j].0, YearSum(true, files[j].1, code)))
      && SumOf(CellAmount, row.years) == DirectSum(true, files, code)
  {
    hide YearSum;
    hide DirectSum;
    hide SumOf;
    hide YearRowsOf;
    hide AllYearRows;
    hide CodesIn;
    hide CodeMap;
    if AllYearRows(files).Err? {
      return;
    }
    var years := AllYearRows(files).value;
    YearsExact(files);
    var cells := Map(CellAt(code), years);
    forall j | 0 <= j < |files| ensures cells[j] == (files[j].0, YearSum(true, files[j].1, code)) {
      assert files[j] in files;
      CellExact(files[j], code);
    }
    CellsSum(files, cells, code);
  }

  /** The codes of the comparison are those with a nonzero sum in some year. */
  lemma ComparedCodes(files: Years, code: int)
    requires AllKeyed(files)
    ensures AllYearRows(files).Ok? ==>
      (code in AllCodes(AllYearRows(files).value) <==> exists y :: y in files && YearSum(true, y.1, code) != 0)
  {
    hide YearSum;
    hide YearRowsOf;
    hide AllYearRows;
    hide CodesIn;
    hide CellAt;
    hide Keys;
    hide FlatMap;
    if AllYearRows(files).Err? {
      return;
    }
    var years := AllYearRows(files).value;
    YearsExact(files);
    forall j | 0 <= j < |files| ensures code in CodesIn(years[j]) <==> YearSum(true, files[j].1, code) != 0 {
      assert files[j] in files;
      CellExact(files[j], code);
    }
    FlatMapIn(CodesIn, years, code);
    assert code in AllCodes(years) <==> code in FlatMap(CodesIn, years) by {
      assert code in Elements(AllCodes(years)) <==> code in Elements(FlatMap(CodesIn, years));
    }
    if y :| y in files && YearSum(true, y.1, code) != 0 {
      var j :| 0 <= j < |files| && files[j] == y;
      assert years[j] in years;
    }
    if x :| x in years && code in CodesIn(x) {
      var j :| 0 <= j < |years| && years[j] == x;
      assert files[j] in files;
    }
  }

  /** The rows of the comparison under one code: the row of the code, if some year moves it. */
  lemma RowOfCode(files: Years, c: int)
    requires AllKeyed(files) && CompareOf(files).Ok?
    ensures forall row :: row in CompareOf(files).value && row.sru == c ==>
      SumOf(CellAmount, row.years) == DirectSum(true, files, c)
    ensures DirectSum(true, files, c) != 0 ==> exists row :: row in CompareOf(files).value && row.sru == c
  {
    hide YearSum;
    hide SumOf;
    hide DirectSum;
    hide AllYearRows;
    hide AllCodes;
    hide RowAt;
    var years := AllYearRows(files).value;
    var rows := CompareOf(files).value;
    CompareRow(files, c);
    ComparedCodes(files, c);
    forall i | 0 <= i < |rows| ensures rows[i] == RowAt(years)(AllCodes(years)[i]) &&
      rows[i].sru == AllCodes(years)[i] {
      CompareRow(files, AllCodes(years)[i]);
    }
    if DirectSum(true, files, c) != 0 {
      SomeYearMoves(files, c);
      var i :| 0 <= i < |AllCodes(years)| && AllCodes(years)[i] == c;
      assert rows[i] in rows;
    }
  }

  /** When both succeed, the cross-year balances are exactly the nonzero row sums of the comparison, although each
    * year drops its zero groups first. */
  lemma CompareAgrees(files: Years)
    requires AllKeyed(files)
    ensures CompareOf(files).Ok? && BalancesOf(files, true).Ok? ==>
      forall c, v :: SruBalance(c, v) in BalancesOf(files, true).value <==>
        v != 0 && exists row :: row in CompareOf(files).value && row.sru == c && SumOf(CellAmount, row.years) == v
  {
    hide CompareOf;
    hide SumOf;
    hide BalancesOf;
    if CompareOf(files).Err? || BalancesOf(files, true).Err? {
      return;
    }
    SruBalancesExact(files);
    hide DirectSum;
    forall c, v
      ensures SruBalance(c, v) in BalancesOf(files, true).value <==>
        v != 0 && exists row :: row in CompareOf(files).value && row.sru == c && SumOf(CellAmount, row.years) == v
    {
      RowOfCode(files, c);
    }
  }

  lemma {:induction false} SomeYearMoves(files: Years, code: int)
    requires DirectSum(true, files, code) != 0
    ensures exists y :: y in files && YearSum(true, y.1, code) != 0
  {
    hide YearSum;
    if forall y :: y in files ==> YearSum(true, y.1, code) == 0 {
      NoDirectSum(files, code);
    }
  }

  /** The comparison exists exactly when every year's vouchers balance and every year's sums fit. */
  lemma {:induction false} CompareExists(files: Years)
    requires AllKeyed(files)
    ensures CompareOf(files).Ok? <==>
      && (forall y, v :: y in files && v in y.1.vouchers ==> Balanced(v.id, y.1.postings))
      && (forall y, c :: y in files ==> IsI64(YearSum(true, y.1, c)))
  {
    hide YearSum;
    hide Balanced;
    hide EnsureVouchersBalanced;
    hide BalancesOf;
    hide AllCodes;
    if files != [] {
      var n := |files| - 1;
      var y := files[n];
      assert files == files[..n] + [y];
      CompareExists(files[..n]);
      VouchersBalancedExact(y.1);
      SruBalancesExact([y]);
      forall c ensures DirectSum(true, [y], c) == YearSum(true, y.1, c) {
        AloneSum(y, c);
      }
    }
  }
}
