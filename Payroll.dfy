/**
 * What `PayslipGenerator` computes for one employee: the net salary
 * (`calculate_net_salary`), the strings placed in the payslip's cells and its
 * file path (`generate_payslip`), and the message `send_email` composes for it.
 * Amounts are exact integers of cents.
 */
module Payroll {
  import opened Text
  import opened Wrappers

  /** The cells of one employee row that `process_all` reads; amounts in cents. */
  datatype EmployeeRecord = EmployeeRecord(
    id: string,
    name: string,
    email: string,
    basic: int,
    allowances: int,
    deductions: int)

  /** `calculate_net_salary`: basic salary plus allowances minus deductions, with no
      sign or range check. */
  function NetSalary(e: EmployeeRecord): int {
    e.basic + e.allowances - e.deductions
  }

  /** `f"{x:.2f}"` for an exact amount of `cents` hundredths: an optional minus sign,
      the whole part without leading zeros, a point and exactly two digits. */
  function TwoDecimals(cents: int): (s: string)
    ensures |s| >= 4 && s[|s| - 3] == '.' && IsDigit(s[|s| - 2]) && IsDigit(s[|s| - 1])
    ensures s[0] == '-' <==> cents < 0
  {
    var m: nat := if cents < 0 then -cents else cents;
    var q, r := m / 100, m % 100;
    var whole := (if cents < 0 then "-" else "") + NatToString(q);
    whole + ['.', DigitChar(r / 10), DigitChar(r % 10)]
  }

  /** `f"{currency_symbol} {x:.2f}"`: the symbol, one space, then the two-decimal
      amount, whose minus sign (if any) comes right after the space. */
  function FormatAmount(symbol: string, cents: int): (s: string)
    ensures |s| >= |symbol| + 5 && s[..|symbol|] == symbol && s[|symbol|] == ' '
    ensures s[|s| - 3] == '.' && IsDigit(s[|s| - 2]) && IsDigit(s[|s| - 1])
    ensures s[|symbol| + 1] == '-' <==> cents < 0
  {
    var t := TwoDecimals(cents);
    assert (symbol + " " + t)[|symbol| + 1..] == t;
    symbol + " " + t
  }

  /** Reads back the whole part of a two-decimal amount: an optional minus sign and a
      non-empty run of digits. */
  function ParseWhole(w: string): Option<(bool, nat)> {
    if w != [] && w[0] == '-' then
      if |w| > 1 && AllDigits(w[1..]) then Some((true, DigitsValue(w[1..]))) else None
    else if w != [] && AllDigits(w) then Some((false, DigitsValue(w)))
    else None
  }

  /** Reads back a two-decimal amount: `[-]digits.dd`, the whole part non-empty. */
  function ParseTwoDecimals(t: string): Option<int> {
    if |t| < 4 || t[|t| - 3] != '.' || !IsDigit(t[|t| - 2]) || !IsDigit(t[|t| - 1]) then None
    else
      match ParseWhole(t[..|t| - 3])
      case None => None
      case Some((negative, q)) =>
        var v := q * 100 + DigitValue(t[|t| - 2]) * 10 + DigitValue(t[|t| - 1]);
        Some(if negative then -v else v)
  }

  /** Reads back a displayed amount: the symbol, one space, a two-decimal amount. */
  function ParseAmount(symbol: string, s: string): Option<int> {
    if |s| > |symbol| && s[..|symbol| + 1] == symbol + " " then ParseTwoDecimals(s[|symbol| + 1..])
    else None
  }

  lemma ParseWholeOf(negative: bool, digits: string)
    requires digits != [] && AllDigits(digits)
    ensures ParseWhole((if negative then "-" else "") + digits) == Some((negative, DigitsValue(digits)))
  {
    var w := (if negative then "-" else "") + digits;
    if negative {
      assert w[0] == '-' && w[1..] == digits;
    } else {
      assert w == digits;
      assert IsDigit(digits[0]);
    }
  }

  /** Reading back a sign, a digit string, a point and two digits. */
  lemma ParseParts(negative: bool, digits: string, d1: char, d2: char)
    requires digits != [] && AllDigits(digits) && IsDigit(d1) && IsDigit(d2)
    ensures var v := DigitsValue(digits) * 100 + DigitValue(d1) * 10 + DigitValue(d2);
      ParseTwoDecimals((if negative then "-" else "") + digits + ['.', d1, d2])
        == Some(if negative then -v else v)
  {
    var whole := (if negative then "-" else "") + digits;
    var t := whole + ['.', d1, d2];
    assert t[|t| - 3] == '.' && t[|t| - 2] == d1 && t[|t| - 1] == d2;
    assert t[..|t| - 3] == whole;
    ParseWholeOf(negative, digits);
  }

  /** Reading back a sign, the digits of `q`, a point and the two digits of `r`. */
  lemma ParseAssembled(negative: bool, q: nat, r: nat)
    requires r < 100
    ensures var whole := (if negative then "-" else "") + NatToString(q);
      ParseTwoDecimals(whole + ['.', DigitChar(r / 10), DigitChar(r % 10)])
        == Some(if negative then -(q * 100 + r) else q * 100 + r)
  {
    var d1, d2 := DigitChar(r / 10), DigitChar(r % 10);
    ParseParts(negative, NatToString(q), d1, d2);
    NatToStringRoundTrip(q);
    assert DigitValue(d1) == r / 10;
    assert DigitValue(d2) == r % 10;
    assert r == r / 10 * 10 + r % 10;
  }

  lemma TwoDecimalsRoundTrip(cents: int)
    ensures ParseTwoDecimals(TwoDecimals(cents)) == Some(cents)
  {
    var m: nat := if cents < 0 then -cents else cents;
    var q, r := m / 100, m % 100;
    assert m == q * 100 + r;
    ParseAssembled(cents < 0, q, r);
  }

  /** Every displayed amount reads back as exactly the amount displayed. */
  lemma AmountRoundTrip(symbol: string, cents: int)
    ensures ParseAmount(symbol, FormatAmount(symbol, cents)) == Some(cents)
  {
    var s := FormatAmount(symbol, cents);
    assert s[..|symbol| + 1] == symbol + " ";
    assert s[|symbol| + 1..] == TwoDecimals(cents);
    TwoDecimalsRoundTrip(cents);
  }

  /** Hence different amounts are never displayed alike. */
  lemma FormatAmountInjective(symbol: string, a: int, b: int)
    requires FormatAmount(symbol, a) == FormatAmount(symbol, b)
    ensures a == b
  {
    AmountRoundTrip(symbol, a);
    AmountRoundTrip(symbol, b);
  }

  /** 1000.00 + 50.50 - 75.00 is displayed as "975.50". */
  lemma NetDisplayExample()
    ensures FormatAmount("$", NetSalary(EmployeeRecord("E1", "A", "a@b", 100000, 5050, 7500))) == "$ 975.50"
  {
    assert NetSalary(EmployeeRecord("E1", "A", "a@b", 100000, 5050, 7500)) == 97550;
    assert NatToString(975) == "975" by {
      assert NatToString(97) == "97" by {
        assert NatToString(9) == "9";
      }
    }
  }

  const PayslipsDir: string := "payslips"
  const Title: string := "Uncommon.org Payslip"
  const SalaryHeading: string := "Salary Details"

  /** One bordered two-column row of the payslip: a caption and a displayed amount. */
  datatype AmountRow = AmountRow(caption: string, amount: string)

  /** The text a payslip holds, top to bottom, and the file it is written to. */
  datatype Payslip = Payslip(
    title: string,
    idLine: string,
    nameLine: string,
    heading: string,
    rows: seq<AmountRow>,
    path: string)

  /** `PAYSLIPS_DIR / f"{employee['Employee ID']}.pdf"`, for an identifier that pathlib
      does not split or normalise further. */
  function PayslipPath(id: string): string {
    PayslipsDir + "/" + id + ".pdf"
  }

  /** `generate_payslip`: the strings placed in the document's cells, and its path. */
  function GeneratePayslip(e: EmployeeRecord, symbol: string): Payslip {
    Payslip(
      Title,
      "Employee ID: " + e.id,
      "Name: " + e.name,
      SalaryHeading,
      [ AmountRow("Basic Salary:", FormatAmount(symbol, e.basic)),
        AmountRow("Allowances:", FormatAmount(symbol, e.allowances)),
        AmountRow("Deductions:", FormatAmount(symbol, e.deductions)),
        AmountRow("Net Salary:", FormatAmount(symbol, NetSalary(e))) ],
      PayslipPath(e.id))
  }

  /** Every amount on a payslip reads back as the employee's figure, and the last row
      as basic + allowances - deductions exactly: a negative net salary is shown with
      its minus sign, not clamped. */
  lemma PayslipAmounts(e: EmployeeRecord, symbol: string)
    ensures var p := GeneratePayslip(e, symbol);
      |p.rows| == 4
      && ParseAmount(symbol, p.rows[0].amount) == Some(e.basic)
      && ParseAmount(symbol, p.rows[1].amount) == Some(e.allowances)
      && ParseAmount(symbol, p.rows[2].amount) == Some(e.deductions)
      && ParseAmount(symbol, p.rows[3].amount) == Some(e.basic + e.allowances - e.deductions)
      && (p.rows[3].amount[|symbol| + 1] == '-' <==> e.basic + e.allowances < e.deductions)
  {
    var rows := GeneratePayslip(e, symbol).rows;
    assert rows[0].amount == FormatAmount(symbol, e.basic);
    assert rows[1].amount == FormatAmount(symbol, e.allowances);
    assert rows[2].amount == FormatAmount(symbol, e.deductions);
    assert rows[3].amount == FormatAmount(symbol, NetSalary(e));
    AmountRoundTrip(symbol, e.basic);
    AmountRoundTrip(symbol, e.allowances);
    AmountRoundTrip(symbol, e.deductions);
    AmountRoundTrip(symbol, NetSalary(e));
  }

  /** `Path.name`: the text after the last '/'. */
  function FileName(path: string): string {
    path[LastIndexOf(path, '/') + 1..]
  }

  /** `Path.stem` of a file name: everything before the last '.', unless that dot is
      the first or the last character, in which case the whole name. */
  function Stem(name: string): string {
    var i := LastIndexOf(name, '.');
    if 0 < i < |name| - 1 then name[..i] else name
  }

  /** The attachment's file name: `f"payslip_{payslip_path.stem}.pdf"`. */
  function AttachmentName(path: string): string {
    "payslip_" + Stem(FileName(path)) + ".pdf"
  }

  /** The file name never holds a '/', and a path without '/' is its own file name. */
  lemma FileNameShape(path: string)
    ensures '/' !in FileName(path)
    ensures '/' !in path ==> FileName(path) == path
  {
    LastIndexOfSpec(path, '/');
    var i := LastIndexOf(path, '/');
    var name := path[i + 1..];
    assert forall k :: 0 <= k < |name| ==> name[k] == path[i + 1 + k];
  }

  /** The file name of a concatenation: the right part's, when it holds a '/', and
      otherwise the left part's file name followed by the right part. */
  lemma FileNameAppend(a: string, b: string)
    ensures FileName(a + b) == if '/' in b then FileName(b) else FileName(a) + b
  {
    LastIndexOfAppend(a, b, '/');
    LastIndexOfSpec(b, '/');
    var j := LastIndexOf(b, '/');
    if j >= 0 {
      assert (a + b)[|a| + j + 1..] == b[j + 1..];
    } else {
      var i := LastIndexOf(a, '/');
      assert (a + b)[i + 1..] == a[i + 1..] + b;
    }
  }

  /** The payslip's file name is the identifier's own file name with ".pdf" added. */
  lemma PayslipFileName(id: string)
    ensures FileName(PayslipPath(id)) == FileName(id) + ".pdf"
  {
    var dir := PayslipsDir + "/";
    assert PayslipPath(id) == (dir + id) + ".pdf";
    assert '/' !in ".pdf";
    FileNameAppend(dir + id, ".pdf");
    FileNameAppend(dir, id);
    assert LastIndexOf(dir, '/') == |dir| - 1;
    assert FileName(dir) == [];
    FileNameShape(id);
  }

  /** A name ending in ".pdf" has everything before that suffix as its stem, unless
      that is empty: ".pdf" alone begins with its only dot and is its own stem. */
  lemma StemOfPdf(base: string)
    ensures Stem(base + ".pdf") == if base == "" then ".pdf" else base
  {
    var n := base + ".pdf";
    LastIndexOfAppend(base, ".pdf", '.');
    LastIndexOfSpec(".pdf", '.');
    assert ".pdf"[0] == '.';
    assert n[..|base|] == base;
  }

  /** The attachment is named after the part of the identifier behind its last '/':
      `payslip_<that part>.pdf`, except that an empty part has no stem, giving
      `payslip_.pdf.pdf`. */
  lemma AttachmentNameOfPayslip(id: string)
    ensures AttachmentName(PayslipPath(id)) ==
      "payslip_" + (if FileName(id) == "" then ".pdf" else FileName(id)) + ".pdf"
  {
    var name := FileName(id);
    PayslipFileName(id);
    StemOfPdf(name);
    assert Stem(FileName(PayslipPath(id))) == if name == "" then ".pdf" else name;
  }

  /** For an identifier without '/', the payslip is `payslips/<id>.pdf` and the
      attachment `payslip_<id>.pdf` (for a non-empty identifier). */
  lemma PlainIdentifierNames(id: string)
    requires '/' !in id
    ensures FileName(PayslipPath(id)) == id + ".pdf"
    ensures id != "" ==> AttachmentName(PayslipPath(id)) == "payslip_" + id + ".pdf"
  {
    AttachmentNameOfPayslip(id);
    PayslipFileName(id);
    FileNameShape(id);
  }

  /** Two employees whose identifiers contain no '/' get different payslip files
      unless their identifiers are equal. The '/' restriction stands in for pathlib,
      which normalises such identifiers ("a//b" and "a/b" name the same file); the
      model's plain concatenation does not. */
  lemma PayslipPathInjective(a: string, b: string)
    requires '/' !in a && '/' !in b
    requires PayslipPath(a) == PayslipPath(b)
    ensures a == b
  {
    var dir := PayslipsDir + "/";
    assert PayslipPath(a) == dir + a + ".pdf" && PayslipPath(b) == dir + b + ".pdf";
    assert |a| == |b|;
    assert a == PayslipPath(a)[|dir|..|dir| + |a|];
    assert b == PayslipPath(b)[|dir|..|dir| + |b|];
  }

  const Subject: string := "Your Payslip for This Month"
  const Body: string :=
    "Dear Employee,\n\nPlease find attached your payslip for this month.\n\nBest regards,\nUncommon.org HR Department\n"

  /** The message `send_email` builds: plain-text body and the payslip as attachment. */
  datatype Mail = Mail(
    recipient: string,
    subject: string,
    body: string,
    attachmentPath: string)

  function ComposeMail(recipient: string, payslipPath: string): Mail {
    Mail(recipient, Subject, Body, payslipPath)
  }

  /** The file name the attachment's Content-Disposition header gives it. */
  function AttachedAs(m: Mail): string {
    AttachmentName(m.attachmentPath)
  }
}
