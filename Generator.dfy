/**
 * The `PayslipGenerator` class: construction (which loads the table and throws
 * away the load result), `_load_initial_data`, and the batch loop of
 * `process_all`. Reading the spreadsheet, writing the PDF and talking to the
 * mail server are not modelled; their outcomes are parameters.
 */
module Generator {
  import opened Wrappers
  import opened Columns
  import opened Payroll

  /** The table `pd.read_excel` returns: the header labels, and the employee rows.
      A field of a row can be read only when the column of that name is present. */
  datatype Table = Table(columns: seq<string>, rows: seq<EmployeeRecord>)

  /** What `pd.read_excel` does with the file. */
  datatype ReadOutcome = Loaded(table: Table) | FileNotFound | ReadFailed(reason: string)

  /** What the outside world does with one record: `pdf.output` raises, `send_email`
      returns False, or the payslip is written and the mail sent. */
  datatype Outcome = RenderRaises | SendFails | Sent

  /** What `process_all` makes of one record. `Escaped` is a KeyError raised from the
      except-handler itself, which ends the whole run; `Failed` carries the payslip
      when one was written before the failure. */
  datatype RecordResult =
    | Escaped(key: string)
    | Failed(written: Option<Payslip>)
    | Delivered(payslip: Payslip, mail: Mail)

  /** `process_all` either returns its boolean or raises. */
  datatype Run = Completed(allSucceeded: bool) | Raised(missingKey: string)

  /** `employee_data` after `_load_initial_data`: a successful read replaces it with the
      table under repaired column names; a failed read leaves it as it was. */
  function DataAfterLoad(previous: Option<Table>, read: ReadOutcome): Option<Table> {
    match read
    case Loaded(t) => Some(Table(Repaired(t.columns), t.rows))
    case _ => previous
  }

  /** How far one record gets through the body of the loop in `process_all`. The
      source reads the row in this order: 'Name' and 'Employee ID' for the progress
      line, the amounts in `generate_payslip`, then writes the PDF, then reads
      'Email' and sends. A KeyError on 'Name' also escapes the except-handler,
      which prints `employee['Name']` again. */
  datatype Stage = NameMissing | FailedBeforeWrite | FailedAfterWrite | Done

  function StageOf(cols: seq<string>, o: Outcome): Stage {
    if "Name" !in cols then NameMissing
    else if "Employee ID" !in cols then FailedBeforeWrite
    else if !AmountsReadable(cols) then FailedBeforeWrite
    else if o == RenderRaises then FailedBeforeWrite
    else if "Email" !in cols || o == SendFails then FailedAfterWrite
    else Done
  }

  /** Each amount `generate_payslip` formats is a single cell: its header occurs
      exactly once. Under a repeated label `employee[...]` is a Series, and
      formatting a Series with `:.2f` raises. */
  predicate AmountsReadable(cols: seq<string>) {
    Occurrences(cols, "Basic Salary") == 1 && Occurrences(cols, "Allowances") == 1
    && Occurrences(cols, "Deductions") == 1
  }

  /** A header row without repeated labels that passes validation has readable amounts. */
  lemma DistinctCompleteIsReadable(cols: seq<string>)
    requires Distinct(cols) && Validate(cols).Complete?
    ensures AmountsReadable(cols)
  {
    assert "Basic Salary" in Required && "Allowances" in Required && "Deductions" in Required;
    DistinctOccursOnce(cols, "Basic Salary");
    DistinctOccursOnce(cols, "Allowances");
    DistinctOccursOnce(cols, "Deductions");
  }

  /** How far a record gets, in the source's terms: the run escapes exactly when
      'Name' is missing; the file is written exactly when the identifier and single
      amounts could be read and `pdf.output` succeeded; and the record is counted
      exactly when all six headers are present, the amounts are single cells, and
      both the write and the send succeed. */
  lemma StageOfSpec(cols: seq<string>, o: Outcome)
    ensures StageOf(cols, o) == NameMissing <==> "Name" !in cols
    ensures Writes(StageOf(cols, o)) <==>
      "Name" in cols && "Employee ID" in cols && AmountsReadable(cols) && o != RenderRaises
    ensures StageOf(cols, o) == Done <==> Validate(cols).Complete? && AmountsReadable(cols) && o == Sent
  {
    if StageOf(cols, o) == Done {
      DoneNeedsCompleteColumns(cols, o);
    }
    if Validate(cols).Complete? && AmountsReadable(cols) {
      CompleteColumnsStage(cols, o);
    }
  }

  /** The stages at which the record's payslip file has been written. */
  predicate Writes(stage: Stage) {
    stage == FailedAfterWrite || stage == Done
  }

  /** The mail `send_email` builds for a record: to its address, attaching its payslip. */
  function MailFor(e: EmployeeRecord): Mail {
    ComposeMail(e.email, PayslipPath(e.id))
  }

  /** The body of the loop in `process_all` for one record: it escapes with a KeyError
      on 'Name' exactly when that header is missing; a failed record has written its
      payslip exactly when the identifier and the amounts could be read and
      `pdf.output` succeeded; and it is delivered exactly when all six headers are
      present, the amounts are single cells and both the write and the send succeed.
      What it writes and mails is the record's own payslip and mail. */
  function ProcessRecord(cols: seq<string>, symbol: string, e: EmployeeRecord, o: Outcome): (r: RecordResult)
    ensures r.Escaped? <==> "Name" !in cols
    ensures r.Escaped? ==> r.key == "Name"
    ensures r.Failed? ==> (r.written.Some? <==> "Employee ID" in cols && AmountsReadable(cols) && o != RenderRaises)
    ensures r.Delivered? <==> Validate(cols).Complete? && AmountsReadable(cols) && o == Sent
    ensures r.Failed? && r.written.Some? ==> r.written.value == GeneratePayslip(e, symbol)
    ensures r.Delivered? ==> r.payslip == GeneratePayslip(e, symbol) && r.mail == MailFor(e)
  {
    StageOfSpec(cols, o);
    match StageOf(cols, o)
    case NameMissing => Escaped("Name")
    case FailedBeforeWrite => Failed(None)
    case FailedAfterWrite => Failed(Some(GeneratePayslip(e, symbol)))
    case Done =>
      var doc := GeneratePayslip(e, symbol);
      Delivered(doc, ComposeMail(e.email, doc.path))
  }

  /** Bridge between a record's stage and its result: the result is read off the stage.
      Loop proofs use it to move between `StageOf` and `ProcessRecord`. */
  lemma RecordStage(cols: seq<string>, symbol: string, e: EmployeeRecord, o: Outcome)
    ensures var r := ProcessRecord(cols, symbol, e, o);
      && (r.Escaped? <==> StageOf(cols, o) == NameMissing)
      && (r.Failed? ==> (r.written.Some? <==> StageOf(cols, o) == FailedAfterWrite))
      && (r.Delivered? <==> StageOf(cols, o) == Done)
  {
    match StageOf(cols, o) {
      case NameMissing =>
      case FailedBeforeWrite =>
      case FailedAfterWrite =>
      case Done =>
    }
  }

  /** `success_count` after the first `n` records. */
  function SuccessCount(cols: seq<string>, outcome: nat -> Outcome, n: nat): (c: nat)
    ensures c <= n
  {
    if n == 0 then 0
    else
      var tally := SuccessCount(cols, outcome, n - 1);
      if StageOf(cols, outcome(n - 1)) == Done then tally + 1 else tally
  }

  /** The payslips the first `n` records leave on disk, in order: each record's own,
      for the records that got past the write. */
  function WrittenPayslips(cols: seq<string>, symbol: string, rows: seq<EmployeeRecord>, outcome: nat -> Outcome, n: nat): seq<Payslip>
    requires n <= |rows|
  {
    if n == 0 then []
    else
      var before := WrittenPayslips(cols, symbol, rows, outcome, n - 1);
      if Writes(StageOf(cols, outcome(n - 1))) then before + [GeneratePayslip(rows[n - 1], symbol)] else before
  }

  /** The mails sent for the first `n` records, in order: each delivered record's own
      mail, so one per success. */
  function SentMails(cols: seq<string>, rows: seq<EmployeeRecord>, outcome: nat -> Outcome, n: nat): (mails: seq<Mail>)
    requires n <= |rows|
    ensures |mails| == SuccessCount(cols, outcome, n)
  {
    if n == 0 then []
    else
      var before := SentMails(cols, rows, outcome, n - 1);
      if StageOf(cols, outcome(n - 1)) == Done then before + [MailFor(rows[n - 1])] else before
  }

  /** The positions among the first `n` whose record was delivered. */
  function DeliveredIndices(cols: seq<string>, outcome: nat -> Outcome, n: nat): set<nat> {
    set i: nat | i < n && StageOf(cols, outcome(i)) == Done
  }

  /** `success_count` counts exactly the records that reach the end of the try block. */
  lemma {:induction false} SuccessCountIsDelivered(cols: seq<string>, outcome: nat -> Outcome, n: nat)
    ensures SuccessCount(cols, outcome, n) == |DeliveredIndices(cols, outcome, n)|
  {
    if n > 0 {
      SuccessCountIsDelivered(cols, outcome, n - 1);
      var before := DeliveredIndices(cols, outcome, n - 1);
      var now := DeliveredIndices(cols, outcome, n);
      if StageOf(cols, outcome(n - 1)) == Done {
        assert now == before + {n - 1};
      } else {
        assert now == before;
      }
    }
  }

  lemma {:induction false} AllDoneIff(cols: seq<string>, outcome: nat -> Outcome, n: nat)
    ensures SuccessCount(cols, outcome, n) == n
      <==> forall i :: 0 <= i < n ==> StageOf(cols, outcome(i)) == Done
  {
    if n > 0 {
      AllDoneIff(cols, outcome, n - 1);
    }
  }

  /** `success_count == total_count` holds exactly when every record was delivered. */
  lemma AllSucceededIff(cols: seq<string>, symbol: string, rows: seq<EmployeeRecord>, outcome: nat -> Outcome)
    ensures SuccessCount(cols, outcome, |rows|) == |rows|
      <==> forall i :: 0 <= i < |rows| ==> ProcessRecord(cols, symbol, rows[i], outcome(i)).Delivered?
  {
    AllDoneIff(cols, outcome, |rows|);
    forall i | 0 <= i < |rows|
      ensures ProcessRecord(cols, symbol, rows[i], outcome(i)).Delivered? <==> StageOf(cols, outcome(i)) == Done
    {
      RecordStage(cols, symbol, rows[i], outcome(i));
    }
  }

  /** A record reaches the end only when all six required headers are present. */
  lemma DoneNeedsCompleteColumns(cols: seq<string>, o: Outcome)
    requires StageOf(cols, o) == Done
    ensures Validate(cols).Complete?
  {
    forall name | name in Required
      ensures name in cols
    {
    }
  }

  /** Only a table with all six required headers can deliver anything. */
  lemma DeliveredNeedsCompleteColumns(cols: seq<string>, symbol: string, e: EmployeeRecord, o: Outcome)
    requires ProcessRecord(cols, symbol, e, o).Delivered?
    ensures Validate(cols).Complete?
  {
    StageOfSpec(cols, o);
  }

  /** With all six headers present and the amounts single cells, the outcome alone
      decides how far a record gets. */
  lemma CompleteColumnsStage(cols: seq<string>, o: Outcome)
    requires Validate(cols).Complete? && AmountsReadable(cols)
    ensures StageOf(cols, o) ==
      match o
      case RenderRaises => FailedBeforeWrite
      case SendFails => FailedAfterWrite
      case Sent => Done
  {
    assert "Name" in Required && "Employee ID" in Required && "Email" in Required;
    assert "Basic Salary" in Required && "Allowances" in Required && "Deductions" in Required;
  }

  /** With all six headers present and the amounts single cells, nothing escapes,
      and a record is delivered exactly when neither the PDF write nor the send fails. */
  lemma CompleteColumnsDeliverIffSent(cols: seq<string>, symbol: string, e: EmployeeRecord, o: Outcome)
    requires Validate(cols).Complete? && AmountsReadable(cols)
    ensures !ProcessRecord(cols, symbol, e, o).Escaped?
    ensures ProcessRecord(cols, symbol, e, o).Delivered? <==> o == Sent
  {
    CompleteColumnsStage(cols, o);
  }

  /** A delivered record's mail goes to the record's address and attaches the file
      just written, under the attachment name derived from the identifier. */
  lemma DeliveredContents(cols: seq<string>, symbol: string, e: EmployeeRecord, o: Outcome)
    requires ProcessRecord(cols, symbol, e, o).Delivered?
    ensures ProcessRecord(cols, symbol, e, o).mail.recipient == e.email
    ensures ProcessRecord(cols, symbol, e, o).mail.attachmentPath == ProcessRecord(cols, symbol, e, o).payslip.path
    ensures ProcessRecord(cols, symbol, e, o).payslip.path == PayslipPath(e.id)
    ensures AttachedAs(ProcessRecord(cols, symbol, e, o).mail) ==
      "payslip_" + (if FileName(e.id) == "" then ".pdf" else FileName(e.id)) + ".pdf"
  {
    AttachmentNameOfPayslip(e.id);
  }

  /** A table that fails validation but has 'Name' is still run record by record
      (`__init__` ignores the validation result and `process_all` checks only for
      `None`), and no mail is sent for any record. */
  lemma {:induction false} IncompleteTableSendsNothing(cols: seq<string>, rows: seq<EmployeeRecord>, outcome: nat -> Outcome, n: nat)
    requires n <= |rows|
    requires !Validate(cols).Complete?
    ensures SuccessCount(cols, outcome, n) == 0
    ensures SentMails(cols, rows, outcome, n) == []
  {
    if n > 0 {
      IncompleteTableSendsNothing(cols, rows, outcome, n - 1);
      if StageOf(cols, outcome(n - 1)) == Done {
        DoneNeedsCompleteColumns(cols, outcome(n - 1));
      }
    }
  }

  /** One failing record does not stop the others: with all headers present and the
      amounts single cells, every
      other of the `total` records succeeding and record `j` failing, the run counts
      `total - 1` (and each prefix of `n` records its share of that). */
  lemma {:induction false} SingleFailureCostsOne(cols: seq<string>, outcome: nat -> Outcome, total: nat, j: nat, n: nat)
    requires n <= total && j < total
    requires Validate(cols).Complete? && AmountsReadable(cols)
    requires outcome(j) != Sent
    requires forall i: nat :: i < total && i != j ==> outcome(i) == Sent
    ensures SuccessCount(cols, outcome, n) == if j < n then n - 1 else n
  {
    if n > 0 {
      SingleFailureCostsOne(cols, outcome, total, j, n - 1);
      CompleteColumnsStage(cols, outcome(n - 1));
    }
  }

  /** With an amount header missing or repeated, no record gets past
      `generate_payslip`: nothing is written, sent or counted. */
  lemma {:induction false} UnreadableAmountsWriteNothing(cols: seq<string>, symbol: string, rows: seq<EmployeeRecord>, outcome: nat -> Outcome, n: nat)
    requires n <= |rows|
    requires !AmountsReadable(cols)
    ensures SuccessCount(cols, outcome, n) == 0
    ensures WrittenPayslips(cols, symbol, rows, outcome, n) == []
    ensures SentMails(cols, rows, outcome, n) == []
  {
    if n > 0 {
      UnreadableAmountsWriteNothing(cols, symbol, rows, outcome, n - 1);
    }
  }

  /** When the repair renames a variant that comes before a correct "Allowances"
      header, every record of the table fails before its payslip is written, so the
      run counts nothing and reports success only for an empty table. */
  lemma RepairDuplicateWritesNothing(cols: seq<string>, i: nat, j: nat, symbol: string, rows: seq<EmployeeRecord>, outcome: nat -> Outcome)
    requires IsFirstVariant(cols, i) && cols[i] != ExpectedAllowances
    requires j < |cols| && cols[j] == ExpectedAllowances
    ensures SuccessCount(Repaired(cols), outcome, |rows|) == 0
    ensures WrittenPayslips(Repaired(cols), symbol, rows, outcome, |rows|) == []
  {
    RepairDuplicatesAllowances(cols, i, j);
    UnreadableAmountsWriteNothing(Repaired(cols), symbol, rows, outcome, |rows|);
  }

  /** There are never more mails sent than payslips written. */
  lemma {:induction false} SentNeverExceedsWritten(cols: seq<string>, symbol: string, rows: seq<EmployeeRecord>, outcome: nat -> Outcome, n: nat)
    requires n <= |rows|
    ensures |SentMails(cols, rows, outcome, n)| <= |WrittenPayslips(cols, symbol, rows, outcome, n)|
  {
    if n > 0 {
      SentNeverExceedsWritten(cols, symbol, rows, outcome, n - 1);
    }
  }

  /** Step equation: the one-step unfolding of `SuccessCount`, `WrittenPayslips` and
      `SentMails` at record `i`, kept as a lemma so the loop proofs need not unfold them. */
  lemma BatchStep(cols: seq<string>, symbol: string, rows: seq<EmployeeRecord>, outcome: nat -> Outcome, i: nat)
    requires i < |rows|
    ensures var stage := StageOf(cols, outcome(i));
      && SuccessCount(cols, outcome, i + 1) == SuccessCount(cols, outcome, i) + (if stage == Done then 1 else 0)
      && WrittenPayslips(cols, symbol, rows, outcome, i + 1) == WrittenPayslips(cols, symbol, rows, outcome, i)
           + (if Writes(stage) then [GeneratePayslip(rows[i], symbol)] else [])
      && SentMails(cols, rows, outcome, i + 1) == SentMails(cols, rows, outcome, i)
           + (if stage == Done then [MailFor(rows[i])] else [])
  {
  }

  /** How one record's run extends the tally, the written payslips and the sent mails. */
  lemma RecordStep(cols: seq<string>, symbol: string, rows: seq<EmployeeRecord>, outcome: nat -> Outcome, i: nat)
    requires i < |rows|
    ensures var r := ProcessRecord(cols, symbol, rows[i], outcome(i));
      && SuccessCount(cols, outcome, i + 1) == SuccessCount(cols, outcome, i) + (if r.Delivered? then 1 else 0)
      && WrittenPayslips(cols, symbol, rows, outcome, i + 1) == WrittenPayslips(cols, symbol, rows, outcome, i)
           + (if r.Delivered? then [r.payslip] else if r.Failed? && r.written.Some? then [r.written.value] else [])
      && SentMails(cols, rows, outcome, i + 1) == SentMails(cols, rows, outcome, i) + (if r.Delivered? then [r.mail] else [])
  {
    BatchStep(cols, symbol, rows, outcome, i);
    RecordStage(cols, symbol, rows[i], outcome(i));
  }

  class PayslipGenerator {
    var excelFile: string
    var currencySymbol: string
    var employeeData: Option<Table>

    /** `__init__`: store the settings and load the data; the boolean the load
        returns is discarded, so a table that failed validation stays loaded. */
    constructor (excelFile: string, currencySymbol: string, read: ReadOutcome)
      ensures this.excelFile == excelFile && this.currencySymbol == currencySymbol
      ensures employeeData == DataAfterLoad(None, read)
    {
      this.excelFile := excelFile;
      this.currencySymbol := currencySymbol;
      employeeData := None;
      new;
      var discarded := LoadInitialData(read);
    }

    /** `_load_initial_data`: on a successful read, keep the table, repair the
        "Allowances" header in place and report whether validation passed; on a
        missing or unreadable file, report failure and keep the old data. */
    method LoadInitialData(read: ReadOutcome) returns (ok: bool)
      modifies this`employeeData
      ensures employeeData == DataAfterLoad(old(employeeData), read)
      ensures ok <==> read.Loaded? && Validate(employeeData.value.columns).Complete?
    {
      match read
      case FileNotFound =>
        ok := false;
      case ReadFailed(_) =>
        ok := false;
      case Loaded(t) =>
        employeeData := Some(t);
        var found := FindAllowancesColumn(t.columns);
        if found.Some? && found.value != "" && found.value != ExpectedAllowances {
          employeeData := Some(Table(Rename(t.columns, found.value, ExpectedAllowances), t.rows));
        }
        ok := Validate(employeeData.value.columns).Complete?;
    }

    /** `process_all`: with no data, fail at once; otherwise run every record in order,
        counting those whose payslip was written and whose mail was sent, and report
        whether all of them were. */
    method ProcessAll(outcome: nat -> Outcome) returns (run: Run, successCount: nat, written: seq<Payslip>, sent: seq<Mail>)
      ensures employeeData.None? ==> run == Completed(false) && successCount == 0 && written == [] && sent == []
      ensures employeeData.Some? && employeeData.value.rows != [] && "Name" !in employeeData.value.columns ==>
        run == Raised("Name") && successCount == 0 && written == [] && sent == []
      ensures employeeData.Some? && (employeeData.value.rows == [] || "Name" in employeeData.value.columns) ==>
        var t := employeeData.value;
        successCount == SuccessCount(t.columns, outcome, |t.rows|)
        && run == Completed(successCount == |t.rows|)
        && written == WrittenPayslips(t.columns, currencySymbol, t.rows, outcome, |t.rows|)
        && sent == SentMails(t.columns, t.rows, outcome, |t.rows|)
    {
      if employeeData.None? {
        return Completed(false), 0, [], [];
      }
      run, successCount, written, sent := RunBatch(employeeData.value.columns, employeeData.value.rows, currencySymbol, outcome);
    }
  }

  /** The `for` loop of `process_all` over the rows of a loaded table. A missing
      'Name' column makes the first row's handler raise, which ends the run. */
  method RunBatch(cols: seq<string>, rows: seq<EmployeeRecord>, symbol: string, outcome: nat -> Outcome)
    returns (run: Run, successCount: nat, written: seq<Payslip>, sent: seq<Mail>)
    ensures rows != [] && "Name" !in cols ==>
      run == Raised("Name") && successCount == 0 && written == [] && sent == []
    ensures rows == [] || "Name" in cols ==>
      successCount == SuccessCount(cols, outcome, |rows|)
      && run == Completed(successCount == |rows|)
      && written == WrittenPayslips(cols, symbol, rows, outcome, |rows|)
      && sent == SentMails(cols, rows, outcome, |rows|)
  {
    successCount, written, sent := 0, [], [];
    var i := 0;
    while i < |rows|
      invariant 0 <= i <= |rows|
      invariant i > 0 ==> "Name" in cols
      invariant successCount == SuccessCount(cols, outcome, i)
      invariant written == WrittenPayslips(cols, symbol, rows, outcome, i)
      invariant sent == SentMails(cols, rows, outcome, i)
    {
      // A missing 'Name' raises again in the except-handler and ends the run.
      if StageOf(cols, outcome(i)) == NameMissing {
        return Raised("Name"), successCount, written, sent;
      }
      successCount, written, sent := RunRecord(cols, symbol, rows, outcome, i, successCount, written, sent);
      i := i + 1;
    }
    run := Completed(successCount == |rows|);
  }

  /** One pass of the loop body of `process_all` over row `i`, when 'Name' is
      present: the row's payslip is added to those written once the amounts were
      read and `pdf.output` succeeded, and its mail is added and counted once
      'Email' was read and the send succeeded; so the tally of the first `i` rows
      becomes the tally of the first `i + 1`. */
  method RunRecord(cols: seq<string>, symbol: string, rows: seq<EmployeeRecord>, outcome: nat -> Outcome,
                   i: nat, successCount: nat, written: seq<Payslip>, sent: seq<Mail>)
    returns (successCount': nat, written': seq<Payslip>, sent': seq<Mail>)
    requires i < |rows| && StageOf(cols, outcome(i)) != NameMissing
    requires successCount == SuccessCount(cols, outcome, i)
    requires written == WrittenPayslips(cols, symbol, rows, outcome, i)
    requires sent == SentMails(cols, rows, outcome, i)
    ensures successCount' == SuccessCount(cols, outcome, i + 1)
    ensures written' == WrittenPayslips(cols, symbol, rows, outcome, i + 1)
    ensures sent' == SentMails(cols, rows, outcome, i + 1)
  {
    var stage := StageOf(cols, outcome(i));
    BatchStep(cols, symbol, rows, outcome, i);
    successCount', written', sent' := successCount, written, sent;
    if Writes(stage) {
      written' := written + [GeneratePayslip(rows[i], symbol)];
    }
    if stage == Done {
      sent' := sent + [MailFor(rows[i])];
      successCount' := successCount + 1;
    }
  }

  /** The script's entry point: a generator for "employees.xlsx" with "$", one run. */
  method RunDefault(read: ReadOutcome, outcome: nat -> Outcome) returns (run: Run, successCount: nat)
    ensures read.Loaded? && (read.table.rows == [] || "Name" in Repaired(read.table.columns)) ==>
      var t := read.table;
      successCount == SuccessCount(Repaired(t.columns), outcome, |t.rows|)
      && run == Completed(successCount == |t.rows|)
    ensures read.Loaded? && read.table.rows != [] && "Name" !in Repaired(read.table.columns) ==>
      run == Raised("Name")
    ensures !read.Loaded? ==> run == Completed(false) && successCount == 0
  {
    var generator := new PayslipGenerator("employees.xlsx", "$", read);
    var written, sent;
    run, successCount, written, sent := generator.ProcessAll(outcome);
  }
}
