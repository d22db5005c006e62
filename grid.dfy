/**
 * The grid locator `find_value_in_dataframe` (automator.py:32-68): find the
 * first body cell, in row-major order, whose text contains the search term
 * without regard to case; take the value column from the header (the first
 * label containing the year keyword, else column 2, else column 1); and
 * normalise the cell there with `clean_currency`.  Every failure gives 0.
 */
module Grid {
  import opened Wrappers
  import opened Strings
  import opened Currency

  /**
   * A sheet as `pd.read_excel` returns it with its default header row: the
   * column labels as `str()` prints them, and the body rows below them.
   */
  datatype Frame = Frame(columns: seq<string>, rows: seq<seq<Cell>>)

  /** Every body row has one cell per column, as in any DataFrame. */
  predicate Rectangular(f: Frame) {
    forall r | 0 <= r < |f.rows| :: |f.rows[r]| == |f.columns|
  }

  type Table = f: Frame | Rectangular(f) witness Frame([], [])

  /** `x.astype(str).str.contains(term, case=False, na=False)` for one cell. */
  predicate CellMatches(c: Cell, term: string) {
    Contains(Lower(Printed(c)), Lower(term))
  }

  // ---------------------------------------------------------------------------
  // Declarative statements of what the locator chooses
  // ---------------------------------------------------------------------------

  /** Cell (i, j) matches and no cell before it in row-major order does. */
  ghost predicate IsFirstMatch(rows: seq<seq<Cell>>, term: string, i: nat, j: nat) {
    && i < |rows| && j < |rows[i]| && CellMatches(rows[i][j], term)
    && (forall r, c | 0 <= r < i && 0 <= c < |rows[r]| :: !CellMatches(rows[r][c], term))
    && (forall c | 0 <= c < j :: !CellMatches(rows[i][c], term))
  }

  ghost predicate NoMatch(rows: seq<seq<Cell>>, term: string) {
    forall r, c | 0 <= r < |rows| && 0 <= c < |rows[r]| :: !CellMatches(rows[r][c], term)
  }

  /** Some column label contains the year keyword (`target_cols` is not empty). */
  ghost predicate HasYearColumn(columns: seq<string>, year: string) {
    exists k | 0 <= k < |columns| :: Contains(columns[k], year)
  }

  /**
   * Column k is where the value is read: the first label containing the
   * year keyword; without one, column 2 when there are more than two
   * columns, else column 1 when there are more than one.
   */
  ghost predicate IsValueColumn(columns: seq<string>, year: string, k: nat) {
    if HasYearColumn(columns, year) then
      k < |columns| && Contains(columns[k], year)
      && forall k' | 0 <= k' < k :: !Contains(columns[k'], year)
    else
      (|columns| > 2 && k == 2) || (|columns| == 2 && k == 1)
  }

  // ---------------------------------------------------------------------------
  // The locator
  // ---------------------------------------------------------------------------

  /** The first column index of `row` whose cell matches `term`. */
  function FirstInRow(row: seq<Cell>, term: string): (r: Option<nat>)
    ensures r.Some? ==> r.value < |row| && CellMatches(row[r.value], term)
    ensures r.Some? ==> forall c | 0 <= c < r.value :: !CellMatches(row[c], term)
    ensures r.None? ==> forall c | 0 <= c < |row| :: !CellMatches(row[c], term)
  {
    if row == [] then None
    else if CellMatches(row[0], term) then Some(0)
    else match FirstInRow(row[1..], term)
      case None => None
      case Some(c) => Some(c + 1)
  }

  /**
   * `mask.stack()[mask.stack()].index.tolist()[0]`: the coordinates of the
   * first matching cell, rows first, then columns within a row.
   */
  function FirstMatch(rows: seq<seq<Cell>>, term: string): (r: Option<(nat, nat)>)
    ensures r.Some? ==> IsFirstMatch(rows, term, r.value.0, r.value.1)
    ensures r.None? <==> NoMatch(rows, term)
  {
    if rows == [] then None
    else match FirstInRow(rows[0], term)
      case Some(c) => Some((0, c))
      case None =>
        match FirstMatch(rows[1..], term)
        case None => None
        case Some((i, c)) => Some((i + 1, c))
  }

  /** `target_cols[0]`: the first column label containing the year keyword. */
  function FirstYearColumn(columns: seq<string>, year: string): (r: Option<nat>)
    ensures r.Some? ==> r.value < |columns| && Contains(columns[r.value], year)
    ensures r.Some? ==> forall k | 0 <= k < r.value :: !Contains(columns[k], year)
    ensures r.None? <==> !HasYearColumn(columns, year)
  {
    if columns == [] then None
    else if Contains(columns[0], year) then Some(0)
    else match FirstYearColumn(columns[1..], year)
      case None => None
      case Some(k) => Some(k + 1)
  }

  /** The column the value is read from, or None when the sheet has one column. */
  function ValueColumn(columns: seq<string>, year: string): (r: Option<nat>)
    ensures r.Some? ==> r.value < |columns| && IsValueColumn(columns, year, r.value)
    ensures r.None? <==> !HasYearColumn(columns, year) && |columns| <= 1
  {
    match FirstYearColumn(columns, year)
    case Some(k) => Some(k)
    case None =>
      if |columns| > 2 then Some(2)
      else if |columns| > 1 then Some(1)
      else None
  }

  /**
   * `find_value_in_dataframe(df, term, year_keyword)`.  With no value column
   * `val` stays 0.0, and `clean_currency(0.0)` is 0.
   */
  function FindValue(t: Table, term: string, year: string): (r: real)
    ensures NoMatch(t.rows, term) ==> r == 0.0
    ensures r != 0.0 ==> exists i: nat, j: nat, k: nat | IsFirstMatch(t.rows, term, i, j) && IsValueColumn(t.columns, year, k) ::
      k < |t.rows[i]| && r == CleanCurrency(t.rows[i][k])
  {
    match FirstMatch(t.rows, term)
    case None => 0.0
    case Some((i, _)) =>
      match ValueColumn(t.columns, year)
      case None => 0.0
      case Some(k) => CleanCurrency(t.rows[i][k])
  }

  // ---------------------------------------------------------------------------
  // What the locator returns
  // ---------------------------------------------------------------------------

  /** Row-major order has one first match. */
  lemma FirstMatchUnique(rows: seq<seq<Cell>>, term: string, i: nat, j: nat, i': nat, j': nat)
    requires IsFirstMatch(rows, term, i, j) && IsFirstMatch(rows, term, i', j')
    ensures i == i' && j == j'
  {
  }

  lemma ValueColumnUnique(columns: seq<string>, year: string, k: nat, k': nat)
    requires IsValueColumn(columns, year, k) && IsValueColumn(columns, year, k')
    ensures k == k'
  {
  }

  /**
   * The value comes from the row of the first match in row-major order, in
   * the value column: the first label with the year, else column 2, else
   * column 1.
   */
  lemma FindValueReadsFirstMatchRow(t: Table, term: string, year: string, i: nat, j: nat, k: nat)
    requires IsFirstMatch(t.rows, term, i, j)
    requires IsValueColumn(t.columns, year, k)
    ensures k < |t.rows[i]|
    ensures FindValue(t, term, year) == CleanCurrency(t.rows[i][k])
  {
    var m := FirstMatch(t.rows, term);
    FirstMatchUnique(t.rows, term, i, j, m.value.0, m.value.1);
    var v := ValueColumn(t.columns, year);
    if v.Some? {
      ValueColumnUnique(t.columns, year, k, v.value);
    }
  }

  /**
   * No body cell matches: 0.  Column labels are not searched, so a term that
   * only appears in the header also gives 0.
   */
  lemma NoMatchReadsZero(t: Table, term: string, year: string)
    requires NoMatch(t.rows, term)
    ensures FindValue(t, term, year) == 0.0
  {
  }

  /**
   * A sheet of one column whose label lacks the year keyword has no value
   * column: 0.
   */
  lemma SingleColumnReadsZero(t: Table, term: string, year: string)
    requires |t.columns| <= 1 && !HasYearColumn(t.columns, year)
    ensures FindValue(t, term, year) == 0.0
  {
  }

  /** The search ignores case: terms equal up to case find the same value. */
  lemma {:induction false} FirstMatchIgnoresCase(rows: seq<seq<Cell>>, a: string, b: string)
    requires Lower(a) == Lower(b)
    ensures FirstMatch(rows, a) == FirstMatch(rows, b)
  {
    if rows != [] {
      FirstInRowIgnoresCase(rows[0], a, b);
      if FirstInRow(rows[0], a).None? {
        FirstMatchIgnoresCase(rows[1..], a, b);
      }
    }
  }

  lemma {:induction false} FirstInRowIgnoresCase(row: seq<Cell>, a: string, b: string)
    requires Lower(a) == Lower(b)
    ensures FirstInRow(row, a) == FirstInRow(row, b)
  {
    if row != [] {
      MatchIgnoresCase(row[0], a, b);
      if !CellMatches(row[0], a) {
        FirstInRowIgnoresCase(row[1..], a, b);
      }
    }
  }

  lemma MatchIgnoresCase(c: Cell, a: string, b: string)
    requires Lower(a) == Lower(b)
    ensures CellMatches(c, a) == CellMatches(c, b)
  {
  }

  lemma FindValueIgnoresCase(t: Table, a: string, b: string, year: string)
    requires Lower(a) == Lower(b)
    ensures FindValue(t, a, year) == FindValue(t, b, year)
  {
    FirstMatchIgnoresCase(t.rows, a, b);
  }

  // ---------------------------------------------------------------------------
  // A worked sheet
  // ---------------------------------------------------------------------------

  /** A statement with the periods as column labels. */
  function StatementSheet(): Table {
    Frame(["ACCOUNT", "2024", "2025"],
          [[Text("GROSS REVENUE"), Text("900,00"), Text("1.200,50")]])
  }

  /** The "2025" column of the "GROSS REVENUE" row is read: 1200.50. */
  lemma StatementSheetReadsYearColumn()
    ensures FindValue(StatementSheet(), "GROSS REVENUE", "2025") == 1200.5
  {
    var t := StatementSheet();
    assert OccursAt(Lower(Printed(t.rows[0][0])), Lower("GROSS REVENUE"), 0);
    assert IsFirstMatch(t.rows, "GROSS REVENUE", 0, 0);
    StatementSheetYearColumn();
    FindValueReadsFirstMatchRow(t, "GROSS REVENUE", "2025", 0, 0, 2);
    ReadsWithoutSymbol();
  }

  lemma StatementSheetYearColumn()
    ensures IsValueColumn(StatementSheet().columns, "2025", 2)
  {
    var t := StatementSheet();
    assert OccursAt(t.columns[2], "2025", 0);
    MissingCharExcludes(t.columns[0], "2025", 0);
    assert t.columns[1][3] != "2025"[3];
    assert !OccursAt(t.columns[1], "2025", 0);
  }

  /** A term present only in a column label is not found: 0. */
  lemma HeaderIsNotSearched()
    ensures FindValue(StatementSheet(), "ACCOUNT", "2025") == 0.0
  {
    var t := StatementSheet();
    assert Lower("ACCOUNT")[0] == 'a';
    forall c | 0 <= c < 3 ensures !CellMatches(t.rows[0][c], "ACCOUNT") {
      MissingCharExcludes(Lower(Printed(t.rows[0][c])), Lower("ACCOUNT"), 0);
    }
    NoMatchReadsZero(t, "ACCOUNT", "2025");
  }
}
