# Payslip generator — a Dafny model

`payslip1.py` reads an employee spreadsheet and, for every employee, writes a PDF
payslip and mails it to them. This project models the program's core and proves what
it does:

- **Header repair and validation** (`Columns`). Loading the table first looks for the
  first column whose name, lower-cased and stripped of whitespace, is "allowances". If
  that name is not literally "Allowances", pandas renames it so. The loader then checks
  that the six required headers are present.
- **Amounts and payslip text** (`Payroll`). Net pay is basic + allowances − deductions.
  An amount is shown as `<symbol> <amount with two decimals>`. The payslip holds the
  title, ID and name lines, the heading and four amount rows, and is written to
  `payslips/<Employee ID>.pdf`. The mail attaches it as `payslip_<stem>.pdf`, with the
  same subject and body for everyone.
- **The generator object** (`Generator`). `PayslipGenerator` is a class with fields for
  the file name, the currency symbol and the loaded table. Its constructor loads the
  data and throws away the load's success flag. `LoadInitialData` scans the headers
  with a loop and repairs them in place. `ProcessAll` runs the batch loop (`RunBatch`,
  whose body for one row is `RunRecord`) and tallies the successes.
- **Text helpers** (`Text`). Python's `str.strip`, ASCII `lower`, `rfind` and decimal
  digits. `Wrappers` holds the `Option` type.

The outside world is passed in as parameters:
- what reading the spreadsheet produced (`ReadOutcome`);
- for each record index, whether writing the PDF raises, the send fails, or both
  succeed (`outcome: nat -> Outcome`).

A table row is a typed record. A field can be read only when the column with that name
is present. An amount can be formatted only when its column occurs exactly once: under a
repeated label pandas returns a Series, and `:.2f` on a Series raises. As in the source,
a record that lacks:
- "Employee ID", or any amount column exactly once, fails before a file is written;
- "Email" fails after its payslip was written;
- "Name" raises `KeyError` inside the except handler as well, so the whole run ends
  with that exception.

Three behaviours of the source are kept on purpose:
- A table that fails validation is still stored, because `__init__` ignores the load
  result. It is then processed, because `process_all` only tests for `None`.
- An empty table reports success (0 of 0).
- The repair can itself repeat "Allowances": when a variant such as "allowances" comes
  before a correct "Allowances" header, both end up as "Allowances". Validation still
  passes, and then every record fails at the allowances row of the payslip.

## Model

| member | source | states |
|---|---|---|
| Text.LowerCharAlphabet | payslip1.py:60 | a capital letter lower-cases to the small letter at the same place in the alphabet |
| Text.Lower | payslip1.py:60 | `str.lower()` keeps the length; position by position it folds each character on its own (`LowerAt`) |
| Text.LowerIdempotent | payslip1.py:60 | lower-casing twice gives the same as once |
| Text.LowerKeepsSpaces | payslip1.py:60 | lower-casing never makes a character whitespace or stops it being whitespace |
| Text.Strip | payslip1.py:60 | `str.strip()`: `lstrip` then `rstrip` over Python's whitespace; pinned down by `StripShape` and `StripPadded` |
| Text.StripShape | payslip1.py:60 | `strip` cuts off exactly a whitespace prefix and a whitespace suffix; what is left neither starts nor ends with whitespace |
| Text.StripPadded | payslip1.py:60 | stripping whitespace padding from a core that does not start or end with whitespace gives back that core |
| Text.LowerStripCommute | payslip1.py:60 | `s.lower().strip() == s.strip().lower()` |
| Text.LastIndexOf | payslip1.py:162 | `rfind` gives -1 or a position inside the string; its meaning is `LastIndexOfSpec` |
| Text.LastIndexOfSpec | payslip1.py:162 | the rfind result holds the character, no later position does, and -1 means the character is absent |
| Text.NatToString | payslip1.py:120 | the whole part of `:.2f`: a non-empty run of digits without a leading zero, except for 0 itself |
| Text.NatToStringRoundTrip | payslip1.py:120 | the decimal digits of a whole number read back as that number |
| Columns.IsAllowancesVariant | payslip1.py:60 | the test `col.lower().strip() == expected_allowances.lower()`; characterised by `VariantIsTrimmedCaseless` and `PaddedSpellingIsVariant` |
| Columns.FirstVariant | payslip1.py:59-62 | the position found is a variant of "Allowances" with no variant before it; no position means no column is a variant |
| Columns.FirstVariantUnique | payslip1.py:59-62 | only one position can be the first variant |
| Columns.FoundLabelSpec | payslip1.py:53-62 | `found_allowances` stays `None` exactly when no column is a variant; otherwise it is one of the columns and a variant |
| Columns.FindAllowancesColumn | payslip1.py:52-62 | the loop with `break` yields the first variant's label, yields none exactly when no column is a variant, and a label it yields is a column and a variant |
| Columns.Rename | payslip1.py:66 | `rename(columns={from: to})`, built label by label, keeps length and order and changes exactly the labels equal to `from`, each to `to` |
| Columns.Repaired | payslip1.py:59-66 | the headers after the repair step; what it does is stated by `RepairEffect`, `RepairRenamesFirstOnly` and `RepairIdempotent` |
| Columns.LowerAllowances | payslip1.py:60 | `expected_allowances.lower()` is "allowances" |
| Columns.ExpectedIsVariant | payslip1.py:60-64 | "Allowances" itself matches, so a correct header is found and left as it is |
| Columns.VariantNonEmpty | payslip1.py:64 | a found label is at least as long as "allowances", so never empty, and the truthiness test only asks whether a label was found |
| Columns.VariantIsTrimmedCaseless | payslip1.py:60 | a name matches exactly when its trimmed, lower-cased form is "allowances" |
| Columns.PaddedSpellingIsVariant | payslip1.py:60 | any letter case of "allowances" with any whitespace padding matches |
| Columns.UnpaddedSpellingIsVariant | payslip1.py:60 | any letter case of "allowances" without padding matches |
| Columns.RepairEffect | payslip1.py:59-66 | with no variant, the headers stay unchanged; otherwise the first variant reads "Allowances" and every other header keeps its name unless it equals the first variant's label; the length never changes |
| Columns.RepairRenamesFirstOnly | payslip1.py:59-66 | with distinct headers, the only header that can change is the first variant; it changes only if it was not already "Allowances", and then to "Allowances" |
| Columns.RepairKeepsFirstVariant | payslip1.py:59-66 | after the repair the first variant is at the same position and reads exactly "Allowances" |
| Columns.RepairIdempotent | payslip1.py:59-66 | repairing the headers twice gives the same as repairing them once |
| Columns.RepairDuplicatesAllowances | payslip1.py:59-66 | when a variant such as "allowances" comes before a correct "Allowances" header, the repaired headers hold "Allowances" at least twice |
| Columns.RepairProvidesAllowances | payslip1.py:59-66 | after the repair, "Allowances" is a header whenever any variant was present |
| Columns.Occurrences | payslip1.py:120-126 | how many headers carry a label: at most the number of headers, and zero exactly when the label is absent |
| Columns.DistinctOccursOnce | payslip1.py:45 | in a header row without repeated labels, as `read_excel` returns, a present label occurs exactly once |
| Columns.Validate | payslip1.py:83-91 | success exactly when every required header is present; otherwise the reported set is exactly the required headers that are absent, and it is non-empty |
| Payroll.NetSalary | payslip1.py:93-95 | basic + allowances − deductions with no sign or range check; `PayslipAmounts` shows the net row reads back as exactly that, negative values included |
| Payroll.TwoDecimals | payslip1.py:120 | the text ends in a point and two digits, and starts with '-' exactly for negative amounts |
| Payroll.FormatAmount | payslip1.py:119-132 | the text is the symbol, a space, then the two-decimal form; it has a minus sign exactly for negative amounts |
| Payroll.TwoDecimalsRoundTrip | payslip1.py:120 | parsing the two-decimal text gives back the amount in cents |
| Payroll.AmountRoundTrip | payslip1.py:119-132 | parsing a displayed amount with its symbol gives back the amount |
| Payroll.FormatAmountInjective | payslip1.py:119-132 | two different amounts never display the same |
| Payroll.NetDisplayExample | payslip1.py:93-95 | basic 1000.00, allowances 50.50 and deductions 75.00 show a net salary of "$ 975.50" |
| Payroll.GeneratePayslip | payslip1.py:97-137 | the title, the ID and name lines, the heading, the four captioned amount rows and the path; its amounts are stated by `PayslipAmounts` |
| Payroll.PayslipAmounts | payslip1.py:93-132 | the four amount rows read back as basic, allowances, deductions and basic + allowances − deductions; the net row is negative exactly when deductions exceed the rest |
| Payroll.PayslipPath | payslip1.py:135 | `payslips/<id>.pdf`; its file name is `PayslipFileName`, and it is injective by `PayslipPathInjective` |
| Payroll.FileName | payslip1.py:162 | `Path.name`: the text after the last '/'; stated by `FileNameShape` and `FileNameAppend` |
| Payroll.Stem | payslip1.py:162 | `Path.stem`: the name without its last suffix; stated by `StemOfPdf` |
| Payroll.AttachmentName | payslip1.py:162 | `payslip_<stem>.pdf` of the payslip's path; stated by `AttachmentNameOfPayslip` |
| Payroll.FileNameShape | payslip1.py:162 | a path's file name contains no '/' and is the whole path when the path has none |
| Payroll.FileNameAppend | payslip1.py:162 | the file name of a joined path comes from its last '/' |
| Payroll.PayslipFileName | payslip1.py:135 | the payslip's file name is the identifier's last part followed by ".pdf" |
| Payroll.StemOfPdf | payslip1.py:162 | the stem of `<base>.pdf` is `<base>`, except that ".pdf" alone is its own stem |
| Payroll.AttachmentNameOfPayslip | payslip1.py:161-162 | the attachment is called `payslip_<last part of the identifier>.pdf`, or `payslip_.pdf.pdf` when that part is empty |
| Payroll.PlainIdentifierNames | payslip1.py:135 | for an identifier without '/', the file is `<id>.pdf`, and for a non-empty one the attachment is `payslip_<id>.pdf` |
| Payroll.PayslipPathInjective | payslip1.py:135 | distinct identifiers without '/' get distinct payslip files |
| Payroll.ComposeMail | payslip1.py:139-163 | the message to the recipient with the fixed subject and body, attaching the payslip at its path; its attachment name is `AttachedAs`, stated by `DeliveredContents` |
| Generator.DataAfterLoad | payslip1.py:42-81 | `employee_data` after a load: the read table under repaired headers, or the previous value when the read failed |
| Generator.AmountsReadable | payslip1.py:120-126 | each amount header occurs exactly once, so `employee[...]` is a single cell that `:.2f` can format |
| Generator.DistinctCompleteIsReadable | payslip1.py:45-91 | headers without repeated labels that pass validation have readable amounts |
| Generator.StageOf | payslip1.py:194-209 | how far one record gets, following the order in which the loop body reads the row, writes and sends |
| Generator.StageOfSpec | payslip1.py:194-209 | the stage in the source's terms: escape exactly when 'Name' is missing; written exactly when 'Name', 'Employee ID' and single amounts are there and the write succeeds; counted exactly when all six headers are present, the amounts are single and both write and send succeed |
| Generator.ProcessRecord | payslip1.py:194-209 | one record's run escapes, with key 'Name', exactly when 'Name' is missing; a failed record has written its payslip exactly when 'Employee ID' and single amounts are present and the write succeeded; it is delivered exactly when all six headers are present, the amounts are single cells and both write and send succeed; what it writes and mails is the record's own payslip and mail |
| Generator.SuccessCount | payslip1.py:191-204 | the count after `n` records is at most `n` |
| Generator.WrittenPayslips | payslip1.py:199-200 | the payslips written by the first `n` records, in order, each the record's own; related to the mails by `SentNeverExceedsWritten` |
| Generator.SentMails | payslip1.py:203-204 | one mail is sent per counted success |
| Generator.SuccessCountIsDelivered | payslip1.py:203-204 | `success_count` is the number of records that were delivered |
| Generator.AllDoneIff | payslip1.py:211-212 | the count reaches `n` exactly when each of the first `n` records was delivered |
| Generator.AllSucceededIff | payslip1.py:211-212 | `process_all`'s result is true exactly when every record was delivered |
| Generator.DoneNeedsCompleteColumns | payslip1.py:194-204 | a record can reach the end of the try block only when all six required headers are present |
| Generator.DeliveredNeedsCompleteColumns | payslip1.py:194-204 | a delivered record implies that all six required headers are present |
| Generator.CompleteColumnsStage | payslip1.py:194-209 | with all headers present and single amounts, a failed write stops before the file, a failed send stops after it, and success otherwise |
| Generator.CompleteColumnsDeliverIffSent | payslip1.py:194-209 | with all headers present and single amounts, nothing escapes, and a record is delivered exactly when writing and sending both succeed |
| Generator.DeliveredContents | payslip1.py:199-203 | a delivered record's mail goes to its address and attaches the payslip just written, at `payslips/<id>.pdf`, under the name `payslip_<id part>.pdf` (`payslip_.pdf.pdf` for an empty part) |
| Generator.IncompleteTableSendsNothing | payslip1.py:185-209 | a table that failed validation is still run, and counts no successes and sends no mail |
| Generator.SingleFailureCostsOne | payslip1.py:194-212 | with all headers present and single amounts, one failing record out of `total` gives a count of `total - 1`; the other records are unaffected |
| Generator.UnreadableAmountsWriteNothing | payslip1.py:119-136 | with an amount header missing or repeated, no payslip is written, no mail sent and nothing counted |
| Generator.RepairDuplicateWritesNothing | payslip1.py:59-212 | when the repair duplicates "Allowances", every record fails before its write, so the count is 0 and nothing is written |
| Generator.SentNeverExceedsWritten | payslip1.py:199-204 | no more mails are sent than payslips were written |
| Generator.RecordStep | payslip1.py:194-209 | one step of the batch, through the record's result: the count, the written payslips and the sent mails grow by exactly what `ProcessRecord` reports |
| Generator.RunRecord | payslip1.py:195-204 | the loop body turns the count, payslips and mails of the first `i` records into those of the first `i + 1` |
| Generator.RunBatch | payslip1.py:191-212 | a missing 'Name' in a non-empty table raises at the first record with nothing done; otherwise the loop ends with the count, payslips and mails of all records, and the result says whether the count equals the number of records |
| Generator.PayslipGenerator.constructor | payslip1.py:36-40 | stores the file and the symbol, and keeps whatever the load produced: the boolean is discarded |
| Generator.PayslipGenerator.LoadInitialData | payslip1.py:42-81 | a successful read stores the table under repaired headers; a missing or unreadable file keeps the old data; the result is true exactly when the read succeeded and the stored (repaired) headers validate |
| Generator.PayslipGenerator.ProcessAll | payslip1.py:185-212 | no data gives false with nothing done; a missing 'Name' column in a non-empty table raises; otherwise the count, the payslips written and the mails sent are those of the batch, and the result is whether the count equals the number of rows |
| Generator.RunDefault | payslip1.py:215-222 | the script with "employees.xlsx" and "$": nothing loaded gives false; otherwise the run is the batch over the repaired table |

## Left out

- Printing and logging are not modelled: the progress, debug, error and summary
  lines, and the log file. The spreadsheet read (`pd.read_excel`) is a parameter.
- `PAYSLIPS_DIR.mkdir` and the environment configuration are not modelled: SMTP server,
  port, sender and password. The `From` header is not part of `Mail`.
- The PDF layout (fonts, cell sizes, line breaks) is not modelled. A payslip is the
  text it shows plus the path it is written to. Any exception raised while building
  or writing the PDF is the `RenderRaises` outcome. That includes FPDF refusing a
  character, an amount cell holding text and an I/O error. A repeated amount header is
  modelled apart (`AmountsReadable`).
- The SMTP protocol, MIME encoding and reading the PDF back for the attachment are not
  modelled. `send_email` returning False for any reason is the `SendFails` outcome;
  it never raises.
- Payroll.TwoDecimals: amounts are exact whole cents. So float rounding in `:.2f`,
  values with more than two decimals and the `-0.00` display are not represented.
- Payroll.EmployeeRecord: an amount is always a number. A blank amount cell is NaN in
  pandas, and `f"{nan:.2f}"` gives `nan` without raising, so the source writes and mails
  a payslip showing `$ nan`; the model cannot represent that record.
- Payroll.PayslipPath: the path is the plain concatenation of "payslips", '/', the
  identifier and ".pdf". pathlib's normalisation is not modelled: it drops empty
  components (`a//b` becomes `a/b`) and `.` components (`a/./b` becomes `a/b`), and an
  identifier with a leading `/` replaces the directory. File names and stems are exact
  for every identifier, since the last component always ends in ".pdf".
- Generator.WrittenPayslips: it is the sequence of writes, not the files left on disk.
  Two records with the same Employee ID both write `payslips/<id>.pdf`, and the later
  file replaces the earlier one.
- Identifiers are strings. How a numeric `Employee ID` cell is rendered into text is
  not modelled.
- Text.LowerChar: only ASCII letters are lower-cased. For the "allowances" comparison
  this gives the same verdict as Python's full Unicode `lower`, because no non-ASCII
  character lower-cases to a letter of "allowances". Other uses are not covered.
- Header labels are strings. A non-string label that the search loop reaches (one
  before the first variant, or any label when there is no variant) makes `col.lower()`
  raise, and the loader then returns False with the unrepaired table still stored. A
  non-string label after the first variant is never lower-cased. Neither case is
  modelled.
- A repeated "Name", "Employee ID" or "Email" label is treated as one present column.
  In the source such a label yields a whole Series, which ends up in the payslip text,
  the file name or the `send_email` call. `read_excel` never returns repeated labels,
  and the repair can only repeat "Allowances", which is modelled.
- pandas renames repeated header labels when reading (`X`, `X.1`) — not modelled.
  The model accepts any header list and renames every label equal to the found one,
  as `rename` does.
