/**
 * The record that `process_excel_files` builds (automator.py:71-153): it
 * starts from fixed defaults, and every sheet of every workbook may
 * overwrite some of its fields.  The sheet name chooses which of four
 * independent buckets run (income statement, assets, taxes, staff); a bucket
 * tries its search term and, only when that gives exactly 0, a fallback term;
 * a field is overwritten only when the new value passes its guard.
 */
module Database {
  import opened Wrappers
  import opened Strings
  import opened Currency
  import opened Grid

  /** Every lookup uses the default year keyword of `find_value_in_dataframe`. */
  const Year := "2025"

  const RevenueTerm := "RECEITA BRUTA OPERACIONAL"
  const ProfitTerm := "LUCRO LIQUIDO OPERACIONAL"
  const AssetTerm := "A T I V O"
  const AssetFallbackTerm := "TOTAL DO ATIVO"
  const TaxTerm := "06-2025"
  const TaxFallbackTerm := "Total de Impostos"
  const StaffTerm := "Headcount"
  const StaffFallbackTerm := "Total Colaboradores"

  /**
   * The fields of `db` (automator.py:82-88) apart from the timestamp:
   * `meta_info.periodo`, `contabil.resumo.receita_bruta`,
   * `contabil.resumo.lucro_operacional`, `contabil.ativo`,
   * `contabil.passivo`, `fiscal.total_impostos`, `dp.headcount` and
   * `legal.status`.
   */
  datatype Record = Record(
    periodo: string,
    receitaBruta: real,
    lucroOperacional: real,
    ativo: real,
    passivo: real,
    totalImpostos: real,
    headcount: int,
    status: string)

  /** The defaults every run starts from. */
  function Initial(): Record {
    Record("Excel Sync", 0.0, 0.0, 0.0, 0.0, 0.0, 142, "Regular")
  }

  /** A sheet: its name, and its table, or None when `pd.read_excel` raises on it. */
  datatype Sheet = Sheet(name: string, table: Option<Table>)

  /** A workbook: None of its sheets can be listed when `pd.ExcelFile` raises. */
  datatype Workbook = Unreadable | Sheets(sheets: seq<Sheet>)

  // ---------------------------------------------------------------------------
  // The per-sheet rule (automator.py:107-143) as a function of the record
  // ---------------------------------------------------------------------------

  /** `find_value_in_dataframe(df, primary)`, then `fallback` when that is exactly 0. */
  function WithFallback(t: Table, primary: string, fallback: string): (r: real)
    ensures r == FindValue(t, primary, Year) || (FindValue(t, primary, Year) == 0.0 && r == FindValue(t, fallback, Year))
    ensures r == 0.0 <==> FindValue(t, primary, Year) == 0.0 && FindValue(t, fallback, Year) == 0.0
  {
    var v := FindValue(t, primary, Year);
    if v == 0.0 then FindValue(t, fallback, Year) else v
  }

  /** Bucket 1 runs on a sheet named DRE or RESULTADO, or one reporting positive revenue. */
  predicate IsIncomeSheet(upper: string, t: Table) {
    Contains(upper, "DRE") || Contains(upper, "RESULTADO") || FindValue(t, RevenueTerm, Year) > 0.0
  }

  predicate IsAssetSheet(upper: string) {
    Contains(upper, "ATIVO")
  }

  predicate IsTaxSheet(upper: string) {
    Contains(upper, "IMPOSTO") || Contains(upper, "FISCAL") || Contains(upper, "FATURAMENTO")
  }

  predicate IsStaffSheet(upper: string) {
    Contains(upper, "RH") || Contains(upper, "PESSOAL")
  }

  function IncomeRule(s: Record, upper: string, t: Table): (r: Record)
    ensures r.(receitaBruta := s.receitaBruta, lucroOperacional := s.lucroOperacional) == s
    ensures r.receitaBruta == s.receitaBruta || r.receitaBruta > 0.0
    ensures r.lucroOperacional == s.lucroOperacional || r.lucroOperacional != 0.0
    ensures r != s ==> IsIncomeSheet(upper, t)
  {
    if IsIncomeSheet(upper, t) then
      var rec := FindValue(t, RevenueTerm, Year);
      var luc := FindValue(t, ProfitTerm, Year);
      s.(receitaBruta := if rec > 0.0 then rec else s.receitaBruta,
         lucroOperacional := if luc != 0.0 then luc else s.lucroOperacional)
    else s
  }

  function AssetRule(s: Record, upper: string, t: Table): (r: Record)
    ensures r == s || (IsAssetSheet(upper) && r == s.(ativo := r.ativo) && r.ativo > 0.0)
  {
    var v := WithFallback(t, AssetTerm, AssetFallbackTerm);
    if IsAssetSheet(upper) && v > 0.0 then s.(ativo := v) else s
  }

  function TaxRule(s: Record, upper: string, t: Table): (r: Record)
    ensures r == s || (IsTaxSheet(upper) && r == s.(totalImpostos := r.totalImpostos) && r.totalImpostos > 0.0)
  {
    var v := WithFallback(t, TaxTerm, TaxFallbackTerm);
    if IsTaxSheet(upper) && v > 0.0 then s.(totalImpostos := v) else s
  }

  /** `int(hc)` truncates toward zero, which for a positive count is its floor. */
  function StaffRule(s: Record, upper: string, t: Table): (r: Record)
    ensures r == s || (IsStaffSheet(upper) && r == s.(headcount := r.headcount) && r.headcount >= 0)
  {
    var v := WithFallback(t, StaffTerm, StaffFallbackTerm);
    if IsStaffSheet(upper) && v > 0.0 then s.(headcount := v.Floor) else s
  }

  /** The four buckets, each an independent `if`, in source order. */
  function SheetUpdate(s: Record, name: string, t: Table): (r: Record)
    ensures r.periodo == s.periodo && r.passivo == s.passivo && r.status == s.status
  {
    var upper := Upper(name);
    StaffRule(TaxRule(AssetRule(IncomeRule(s, upper, t), upper, t), upper, t), upper, t)
  }

  /**
   * The sheets of one workbook in order; a sheet that cannot be read raises
   * out of the sheet loop, so the later sheets of that file are skipped while
   * the updates already made stay.
   */
  function SheetsUpdate(s: Record, sheets: seq<Sheet>): Record
    decreases |sheets|
  {
    if sheets == [] then s
    else match sheets[0].table
      case None => s
      case Some(t) => SheetsUpdate(SheetUpdate(s, sheets[0].name, t), sheets[1..])
  }

  function WorkbookUpdate(s: Record, w: Workbook): Record {
    match w
    case Unreadable => s
    case Sheets(sheets) => SheetsUpdate(s, sheets)
  }

  /** The workbooks in listing order, the last one applied last. */
  function WorkbooksUpdate(s: Record, ws: seq<Workbook>): Record
    decreases |ws|
  {
    if ws == [] then s else WorkbookUpdate(WorkbooksUpdate(s, ws[..|ws| - 1]), ws[|ws| - 1])
  }

  /** `f.endswith(".xlsx") and not f.startswith("~$")`. */
  predicate IsWorkbookName(f: string) {
    |f| >= 5 && f[|f| - 5..] == ".xlsx" && !(|f| >= 2 && f[..2] == "~$")
  }

  /** The entries of the folder that are processed, in listing order. */
  function WorkbookFiles(listing: seq<(string, Workbook)>): (r: seq<Workbook>)
    ensures |r| <= |listing|
  {
    if listing == [] then []
    else Selected(listing[0]) + WorkbookFiles(listing[1..])
  }

  /** What one entry of the listing contributes. */
  function Selected(e: (string, Workbook)): seq<Workbook> {
    if IsWorkbookName(e.0) then [e.1] else []
  }

  /**
   * Exactly the selected entries are processed: each processed workbook comes
   * from an entry whose name passes the test, and every such entry's workbook
   * is processed.
   */
  lemma {:induction false} WorkbookFilesSelects(listing: seq<(string, Workbook)>)
    ensures forall w | w in WorkbookFiles(listing) :: exists j | 0 <= j < |listing| :: IsWorkbookName(listing[j].0) && listing[j].1 == w
    ensures forall j | 0 <= j < |listing| && IsWorkbookName(listing[j].0) :: listing[j].1 in WorkbookFiles(listing)
  {
    if listing != [] {
      var rest := listing[1..];
      WorkbookFilesSelects(rest);
      assert WorkbookFiles(listing) == Selected(listing[0]) + WorkbookFiles(rest);
      forall w | w in WorkbookFiles(listing)
        ensures exists j | 0 <= j < |listing| :: IsWorkbookName(listing[j].0) && listing[j].1 == w
      {
        if !(IsWorkbookName(listing[0].0) && listing[0].1 == w) {
          var j :| 0 <= j < |rest| && IsWorkbookName(rest[j].0) && rest[j].1 == w;
          assert listing[j + 1] == rest[j];
        }
      }
      forall j | 0 <= j < |listing| && IsWorkbookName(listing[j].0)
        ensures listing[j].1 in WorkbookFiles(listing)
      {
        if j > 0 {
          assert listing[j] == rest[j - 1];
          assert listing[j].1 in WorkbookFiles(rest);
        }
      }
    }
  }

  /** One entry is processed exactly when its name passes the test. */
  lemma WorkbookFilesOne(f: string, w: Workbook)
    ensures WorkbookFiles([(f, w)]) == if IsWorkbookName(f) then [w] else []
  {
    assert [(f, w)][1..] == [];
  }

  /** Nothing is processed exactly when no entry passes the name test. */
  lemma {:induction false} WorkbookFilesEmptyIff(listing: seq<(string, Workbook)>)
    ensures WorkbookFiles(listing) == [] <==> forall j | 0 <= j < |listing| :: !IsWorkbookName(listing[j].0)
  {
    if listing != [] {
      WorkbookFilesEmptyIff(listing[1..]);
      WorkbookFilesUnfold(listing);
      forall j | 1 <= j < |listing| ensures listing[j] == listing[1..][j - 1] {
      }
    }
  }

  lemma WorkbookFilesUnfold(l: seq<(string, Workbook)>)
    requires l != []
    ensures WorkbookFiles(l) == Selected(l[0]) + WorkbookFiles(l[1..])
  {
  }

  /**
   * Selection distributes over the listing: every selected entry is kept,
   * once, in listing order.
   */
  lemma {:induction false} WorkbookFilesConcat(a: seq<(string, Workbook)>, b: seq<(string, Workbook)>)
    ensures WorkbookFiles(a + b) == WorkbookFiles(a) + WorkbookFiles(b)
  {
    if a != [] {
      WorkbookFilesConcat(a[1..], b);
      assert (a + b)[0] == a[0] && (a + b)[1..] == a[1..] + b;
      WorkbookFilesUnfold(a + b);
      WorkbookFilesUnfold(a);
      var head, x, y := Selected(a[0]), WorkbookFiles(a[1..]), WorkbookFiles(b);
      assert head + (x + y) == (head + x) + y;
    } else {
      assert a + b == b;
    }
  }

  /** What a run ends with: one of the two early returns, or the record written out. */
  datatype RunOutcome = FolderCreated | NoWorkbooks | Written(record: Record)

  function Run(folderExists: bool, listing: seq<(string, Workbook)>): (r: RunOutcome)
    ensures r.FolderCreated? <==> !folderExists
    ensures r.NoWorkbooks? <==> folderExists && forall j | 0 <= j < |listing| :: !IsWorkbookName(listing[j].0)
  {
    if !folderExists then FolderCreated
    else
      var files := WorkbookFiles(listing);
      WorkbookFilesEmptyIff(listing);
      if files == [] then NoWorkbooks else Written(WorkbooksUpdate(Initial(), files))
  }

  // ---------------------------------------------------------------------------
  // The record, updated in place
  // ---------------------------------------------------------------------------

  /** The nested `db` dictionary, whose fields the loop overwrites one by one. */
  class Db {
    var periodo: string
    var receitaBruta: real
    var lucroOperacional: real
    var ativo: real
    var passivo: real
    var totalImpostos: real
    var headcount: int
    var status: string

    function Snapshot(): Record
      reads this
    {
      Record(periodo, receitaBruta, lucroOperacional, ativo, passivo,
                        totalImpostos, headcount, status)
    }

    constructor ()
      ensures Snapshot() == Initial()
    {
      periodo := "Excel Sync";
      receitaBruta, lucroOperacional := 0.0, 0.0;
      ativo, passivo := 0.0, 0.0;
      totalImpostos := 0.0;
      headcount := 142;
      status := "Regular";
    }

    /** The body of the sheet loop (automator.py:107-143): the four buckets in order. */
    method ApplySheet(name: string, t: Table)
      modifies this
      ensures Snapshot() == SheetUpdate(old(Snapshot()), name, t)
    {
      var upper := Upper(name);
      ApplyIncome(upper, t);
      ApplyAssets(upper, t);
      ApplyTaxes(upper, t);
      ApplyStaff(upper, t);
    }

    method ApplyIncome(upper: string, t: Table)
      modifies this
      ensures Snapshot() == IncomeRule(old(Snapshot()), upper, t)
    {
      if Contains(upper, "DRE") || Contains(upper, "RESULTADO") || FindValue(t, RevenueTerm, Year) > 0.0 {
        var rec := FindValue(t, RevenueTerm, Year);
        var luc := FindValue(t, ProfitTerm, Year);
        if rec > 0.0 { receitaBruta := rec; }
        if luc != 0.0 { lucroOperacional := luc; }
      }
    }

    method ApplyAssets(upper: string, t: Table)
      modifies this
      ensures Snapshot() == AssetRule(old(Snapshot()), upper, t)
    {
      if Contains(upper, "ATIVO") {
        var v := FindValue(t, AssetTerm, Year);
        if v == 0.0 { v := FindValue(t, AssetFallbackTerm, Year); }
        if v > 0.0 { ativo := v; }
      }
    }

    method ApplyTaxes(upper: string, t: Table)
      modifies this
      ensures Snapshot() == TaxRule(old(Snapshot()), upper, t)
    {
      if Contains(upper, "IMPOSTO") || Contains(upper, "FISCAL") || Contains(upper, "FATURAMENTO") {
        var v := FindValue(t, TaxTerm, Year);
        if v == 0.0 { v := FindValue(t, TaxFallbackTerm, Year); }
        if v > 0.0 { totalImpostos := v; }
      }
    }

    method ApplyStaff(upper: string, t: Table)
      modifies this
      ensures Snapshot() == StaffRule(old(Snapshot()), upper, t)
    {
      if Contains(upper, "RH") || Contains(upper, "PESSOAL") {
        var hc := FindValue(t, StaffTerm, Year);
        if hc == 0.0 { hc := FindValue(t, StaffFallbackTerm, Year); }
        if hc > 0.0 { headcount := hc.Floor; }
      }
    }

    /** The sheet loop of one file inside its `try` (automator.py:96-146). */
    method ApplyWorkbook(w: Workbook)
      modifies this
      ensures Snapshot() == WorkbookUpdate(old(Snapshot()), w)
    {
      if w.Unreadable? {
        return;
      }
      var sheets := w.sheets;
      var i := 0;
      while i < |sheets|
        invariant 0 <= i <= |sheets|
        invariant SheetsUpdate(Snapshot(), sheets[i..]) == SheetsUpdate(old(Snapshot()), sheets)
      {
        assert sheets[i..][1..] == sheets[i + 1..];
        match sheets[i].table {
          case None =>
            return;
          case Some(t) =>
            ApplySheet(sheets[i].name, t);
        }
        i := i + 1;
      }
    }
  }

  /**
   * `process_excel_files()` without the file system: whether the input
   * folder exists, and the folder's entries with their parsed workbooks.
   */
  method ProcessExcelFiles(folderExists: bool, listing: seq<(string, Workbook)>) returns (outcome: RunOutcome)
    ensures outcome == Run(folderExists, listing)
  {
    if !folderExists {
      return FolderCreated;
    }
    var files := WorkbookFiles(listing);
    if files == [] {
      return NoWorkbooks;
    }
    var db := new Db();
    for i := 0 to |files|
      invariant db.Snapshot() == WorkbooksUpdate(Initial(), files[..i])
    {
      assert files[..i + 1][..i] == files[..i];
      db.ApplyWorkbook(files[i]);
    }
    assert files[..|files|] == files;
    outcome := Written(db.Snapshot());
  }

  // ---------------------------------------------------------------------------
  // What one sheet can do to the record
  // ---------------------------------------------------------------------------

  /**
   * Each guard, read off the result: revenue, assets and taxes are either
   * kept or replaced by a positive value, headcount is kept or replaced by a
   * non-negative one (`int(0.5)` is 0), the operating result is kept or
   * replaced by a non-zero one, and the period, liabilities and status are
   * never written.
   */
  lemma SheetUpdateGuards(s: Record, name: string, t: Table)
    ensures var r := SheetUpdate(s, name, t);
      && r.periodo == s.periodo && r.passivo == s.passivo && r.status == s.status
      && (r.receitaBruta == s.receitaBruta || r.receitaBruta > 0.0)
      && (r.lucroOperacional == s.lucroOperacional || r.lucroOperacional != 0.0)
      && (r.ativo == s.ativo || r.ativo > 0.0)
      && (r.totalImpostos == s.totalImpostos || r.totalImpostos > 0.0)
      && (r.headcount == s.headcount || r.headcount >= 0)
  {
  }

  /**
   * The income-statement bucket.  A sheet whose name says DRE or RESULTADO
   * records a positive revenue and any non-zero operating result; a sheet of
   * any other name is taken for an income statement exactly when it reports a
   * positive revenue.
   */
  lemma IncomeBucket(s: Record, name: string, t: Table)
    ensures var r := SheetUpdate(s, name, t);
      var rec := FindValue(t, RevenueTerm, Year);
      var luc := FindValue(t, ProfitTerm, Year);
      && (rec > 0.0 ==> r.receitaBruta == rec)
      && (rec <= 0.0 ==> r.receitaBruta == s.receitaBruta)
      && (IsIncomeSheet(Upper(name), t) && luc != 0.0 ==> r.lucroOperacional == luc)
      && (!IsIncomeSheet(Upper(name), t) || luc == 0.0 ==> r.lucroOperacional == s.lucroOperacional)
  {
  }

  /**
   * The asset bucket: on a sheet whose name contains ATIVO, a positive
   * primary value is recorded; the fallback is read only when the primary is
   * exactly 0, so a negative primary leaves the field as it was whatever the
   * fallback holds.  Any other sheet leaves the field alone.
   */
  lemma AssetBucket(s: Record, name: string, t: Table)
    ensures var r := SheetUpdate(s, name, t);
      var v := FindValue(t, AssetTerm, Year);
      var w := FindValue(t, AssetFallbackTerm, Year);
      && (!IsAssetSheet(Upper(name)) ==> r.ativo == s.ativo)
      && (IsAssetSheet(Upper(name)) && v > 0.0 ==> r.ativo == v)
      && (v < 0.0 ==> r.ativo == s.ativo)
      && (IsAssetSheet(Upper(name)) && v == 0.0 && w > 0.0 ==> r.ativo == w)
      && (v == 0.0 && w <= 0.0 ==> r.ativo == s.ativo)
  {
  }

  /** The tax bucket, on sheets named IMPOSTO, FISCAL or FATURAMENTO. */
  lemma TaxBucket(s: Record, name: string, t: Table)
    ensures var r := SheetUpdate(s, name, t);
      var v := FindValue(t, TaxTerm, Year);
      var w := FindValue(t, TaxFallbackTerm, Year);
      && (!IsTaxSheet(Upper(name)) ==> r.totalImpostos == s.totalImpostos)
      && (IsTaxSheet(Upper(name)) && v > 0.0 ==> r.totalImpostos == v)
      && (v < 0.0 ==> r.totalImpostos == s.totalImpostos)
      && (IsTaxSheet(Upper(name)) && v == 0.0 && w > 0.0 ==> r.totalImpostos == w)
      && (v == 0.0 && w <= 0.0 ==> r.totalImpostos == s.totalImpostos)
  {
  }

  /**
   * The staff bucket, on sheets named RH or PESSOAL.  The count is stored
   * truncated, so a count below 1 stores 0.
   */
  lemma StaffBucket(s: Record, name: string, t: Table)
    ensures var r := SheetUpdate(s, name, t);
      var v := FindValue(t, StaffTerm, Year);
      var w := FindValue(t, StaffFallbackTerm, Year);
      && (!IsStaffSheet(Upper(name)) ==> r.headcount == s.headcount)
      && (IsStaffSheet(Upper(name)) && v > 0.0 ==> r.headcount == v.Floor && 0 <= r.headcount && r.headcount as real <= v < r.headcount as real + 1.0)
      && (v < 0.0 ==> r.headcount == s.headcount)
      && (IsStaffSheet(Upper(name)) && v == 0.0 && w > 0.0 ==> r.headcount == w.Floor && 0 <= r.headcount && r.headcount as real <= w < r.headcount as real + 1.0)
      && (v == 0.0 && w <= 0.0 ==> r.headcount == s.headcount)
  {
  }

  // ---------------------------------------------------------------------------
  // Across sheets, workbooks and runs
  // ---------------------------------------------------------------------------

  /**
   * What every record a run can write satisfies: non-negative revenue,
   * assets, taxes and headcount, no liabilities, and the fixed period and
   * status labels.
   */
  predicate WellFormed(s: Record) {
    && s.periodo == "Excel Sync" && s.status == "Regular" && s.passivo == 0.0
    && s.receitaBruta >= 0.0 && s.ativo >= 0.0 && s.totalImpostos >= 0.0 && s.headcount >= 0
  }

  lemma SheetUpdateKeepsWellFormed(s: Record, name: string, t: Table)
    requires WellFormed(s)
    ensures WellFormed(SheetUpdate(s, name, t))
  {
    SheetUpdateGuards(s, name, t);
  }

  lemma {:induction false} SheetsUpdateKeepsWellFormed(s: Record, sheets: seq<Sheet>)
    requires WellFormed(s)
    ensures WellFormed(SheetsUpdate(s, sheets))
    decreases |sheets|
  {
    if sheets != [] && sheets[0].table.Some? {
      SheetUpdateKeepsWellFormed(s, sheets[0].name, sheets[0].table.value);
      SheetsUpdateKeepsWellFormed(SheetUpdate(s, sheets[0].name, sheets[0].table.value), sheets[1..]);
    }
  }

  lemma {:induction false} WorkbooksUpdateKeepsWellFormed(s: Record, ws: seq<Workbook>)
    requires WellFormed(s)
    ensures WellFormed(WorkbooksUpdate(s, ws))
    decreases |ws|
  {
    if ws != [] {
      var prev := WorkbooksUpdate(s, ws[..|ws| - 1]);
      WorkbooksUpdateKeepsWellFormed(s, ws[..|ws| - 1]);
      if ws[|ws| - 1].Sheets? {
        SheetsUpdateKeepsWellFormed(prev, ws[|ws| - 1].sheets);
      }
    }
  }

  /** Whatever the folder holds, a written record is well formed. */
  lemma RunWritesWellFormedRecord(folderExists: bool, listing: seq<(string, Workbook)>)
    ensures Run(folderExists, listing).Written? ==> WellFormed(Run(folderExists, listing).record)
  {
    WorkbooksUpdateKeepsWellFormed(Initial(), WorkbookFiles(listing));
  }

  /**
   * A sheet that cannot be read ends the processing of its workbook: the
   * sheets after it have no effect, and those before it keep theirs.
   */
  lemma {:induction false} UnreadableSheetEndsWorkbook(s: Record, sheets: seq<Sheet>, k: nat)
    requires k < |sheets| && sheets[k].table.None?
    ensures SheetsUpdate(s, sheets) == SheetsUpdate(s, sheets[..k])
    decreases k
  {
    if k > 0 && sheets[0].table.Some? {
      assert sheets[..k][1..] == sheets[1..][..k - 1];
      UnreadableSheetEndsWorkbook(SheetUpdate(s, sheets[0].name, sheets[0].table.value), sheets[1..], k - 1);
    }
  }

  /** A workbook that cannot be opened leaves the record as it was. */
  lemma UnreadableWorkbookKeepsRecord(s: Record, ws: seq<Workbook>)
    ensures WorkbooksUpdate(s, ws + [Unreadable]) == WorkbooksUpdate(s, ws)
  {
    assert (ws + [Unreadable])[..|ws|] == ws;
  }

  /** Spreadsheet files are selected by extension, and Excel lock files are skipped. */
  lemma WorkbookNames()
    ensures IsWorkbookName("Balanco.xlsx")
    ensures !IsWorkbookName("~$Balanco.xlsx")
    ensures !IsWorkbookName("Balanco.xls")
    ensures !IsWorkbookName(".xlsx.csv")
  {
    assert "Balanco.xlsx"[7..] == ".xlsx";
    assert "Balanco.xlsx"[..2][0] == 'B';
    var lock := "~$Balanco.xlsx";
    assert lock[0] == '~' && lock[1] == '$';
    assert lock[..2] == "~$";
    assert "Balanco.xls"[6..] != ".xlsx";
    assert ".xlsx.csv"[4..] != ".xlsx";
  }
}
