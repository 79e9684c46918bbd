/**
 * The column-name handling of `PayslipGenerator._load_initial_data` and
 * `_validate_data`: the search for a misspelt "Allowances" header, the
 * rename that repairs it, and the check that the six required headers are
 * present.
 */
module Columns {
  import opened Text
  import opened Wrappers

  const ExpectedAllowances: string := "Allowances"

  /** `expected_allowances.lower()`, written out (see `LowerAllowances`). */
  const ExpectedLower: string := "allowances"

  /** `col.lower().strip() == expected_allowances.lower()`. */
  predicate IsAllowancesVariant(col: string) {
    Strip(Lower(col)) == ExpectedLower
  }

  /** `i` is the position the search loop stops at: the first variant. */
  predicate IsFirstVariant(cols: seq<string>, i: nat) {
    i < |cols| && IsAllowancesVariant(cols[i])
    && forall k :: 0 <= k < i ==> !IsAllowancesVariant(cols[k])
  }

  predicate NoVariant(cols: seq<string>) {
    forall k :: 0 <= k < |cols| ==> !IsAllowancesVariant(cols[k])
  }

  /** The position of the first column whose name is a variant of "Allowances", if any. */
  function FirstVariant(cols: seq<string>): (r: Option<nat>)
    ensures r.Some? ==> IsFirstVariant(cols, r.value)
    ensures r.None? ==> NoVariant(cols)
  {
    if cols == [] then None
    else if IsAllowancesVariant(cols[0]) then Some(0)
    else match FirstVariant(cols[1..])
      case None => None
      case Some(i) => Some(i + 1)
  }

  /** The first variant is the only position that satisfies `IsFirstVariant`. */
  lemma FirstVariantUnique(cols: seq<string>, i: nat)
    requires IsFirstVariant(cols, i)
    ensures FirstVariant(cols) == Some(i)
  {
    var r := FirstVariant(cols);
  }

  /** The label the search loop leaves in `found_allowances`. */
  function FoundLabel(cols: seq<string>): Option<string> {
    match FirstVariant(cols)
    case None => None
    case Some(i) => Some(cols[i])
  }

  /** No label is found exactly when no column is a variant; a found label is a
      column and a variant. */
  lemma FoundLabelSpec(cols: seq<string>)
    ensures FoundLabel(cols).None? <==> NoVariant(cols)
    ensures FoundLabel(cols).Some? ==> FoundLabel(cols).value in cols && IsAllowancesVariant(FoundLabel(cols).value)
  {
    match FirstVariant(cols)
    case None =>
    case Some(i) =>
  }

  /** The search loop of `_load_initial_data`: scan the columns in order and stop at
      the first one whose lower-cased, stripped name is "allowances". */
  method FindAllowancesColumn(cols: seq<string>) returns (found: Option<string>)
    ensures found == FoundLabel(cols)
    ensures found.None? <==> NoVariant(cols)
    ensures found.Some? ==> found.value in cols && IsAllowancesVariant(found.value)
  {
    found := None;
    var k := 0;
    while k < |cols|
      invariant 0 <= k <= |cols|
      invariant forall j :: 0 <= j < k ==> !IsAllowancesVariant(cols[j])
    {
      if IsAllowancesVariant(cols[k]) {
        FirstVariantUnique(cols, k);
        FoundLabelSpec(cols);
        found := Some(cols[k]);
        return;
      }
      k := k + 1;
    }
    FoundLabelSpec(cols);
  }

  /** pandas `rename(columns={from: to})`: every label equal to `from` becomes `to`,
      positions and all other labels stay as they are. */
  function Rename(cols: seq<string>, from: string, to: string): (r: seq<string>)
    ensures |r| == |cols|
    ensures forall k :: 0 <= k < |cols| ==> r[k] == if cols[k] == from then to else cols[k]
  {
    if cols == [] then []
    else
      var rest := Rename(cols[1..], from, to);
      var r := [if cols[0] == from then to else cols[0]] + rest;
      assert forall k :: 1 <= k < |cols| ==> r[k] == rest[k - 1] && cols[k] == cols[1..][k - 1];
      r
  }

  /** The columns after the repair step: the found label, when it is a non-empty
      string other than "Allowances", is renamed to "Allowances". */
  function Repaired(cols: seq<string>): seq<string> {
    match FoundLabel(cols)
    case None => cols
    case Some(found) =>
      if found != "" && found != ExpectedAllowances then Rename(cols, found, ExpectedAllowances)
      else cols
  }

  /** Lower-casing the expected name gives "allowances": only its capital 'A' changes. */
  lemma LowerAllowances()
    ensures Lower(ExpectedAllowances) == ExpectedLower
  {
    var tail := "llowances";
    assert ExpectedAllowances == ['A'] + tail;
    assert ExpectedLower == ['a'] + tail;
    assert NoUpper(tail) by {
      forall k | 0 <= k < |tail|
        ensures !IsUpper(tail[k])
      {
      }
    }
    LowerOfNoUpper(tail);
    LowerAppend(['A'], tail);
    assert Lower(['A']) == ['a'];
  }

  /** "Allowances" itself passes the case- and space-insensitive comparison. */
  lemma ExpectedIsVariant()
    ensures IsAllowancesVariant(ExpectedAllowances)
  {
    LowerAllowances();
    UnpaddedSpellingIsVariant(ExpectedAllowances);
  }

  /** Any letter case of "allowances" without padding matches. */
  lemma UnpaddedSpellingIsVariant(core: string)
    requires Lower(core) == ExpectedLower
    ensures IsAllowancesVariant(core)
  {
    var empty: string := [];
    assert AllSpace(empty);
    PaddedSpellingIsVariant(empty, core, empty);
    assert empty + core + empty == core;
  }

  /** A variant is never the empty string, so the truthiness test on
      `found_allowances` only ever asks whether a column was found. */
  lemma VariantNonEmpty(col: string)
    requires IsAllowancesVariant(col)
    ensures |col| >= |ExpectedLower| && col != ""
  {
    var l := Lower(col);
    assert |StripTrailing(StripLeading(l))| <= |StripLeading(l)| <= |l| == |col|;
  }

  /** The variant test is: after trimming whitespace, the name is "allowances" up to
      ASCII case. */
  lemma VariantIsTrimmedCaseless(col: string)
    ensures IsAllowancesVariant(col) <==> Lower(Strip(col)) == ExpectedLower
  {
    LowerStripCommute(col);
  }

  /** Conversely, any spelling of "allowances" in any letter case, with any
      whitespace around it, is recognised. */
  lemma PaddedSpellingIsVariant(lead: string, core: string, trail: string)
    requires AllSpace(lead) && AllSpace(trail)
    requires Lower(core) == ExpectedLower
    ensures IsAllowancesVariant(lead + core + trail)
  {
    assert !IsSpace(ExpectedLower[0]) && !IsSpace(ExpectedLower[9]);
    LowerAt(core, 0);
    LowerAt(core, 9);
    LowerCharKeepsSpace(core[0]);
    LowerCharKeepsSpace(core[9]);
    StripPadded(lead, core, trail);
    VariantIsTrimmedCaseless(lead + core + trail);
  }

  /** What the repair does, position by position: if no column is a variant of
      "Allowances" nothing changes; otherwise the first variant reads "Allowances"
      afterwards, and each other position keeps its label unless that label is
      the same string as the first variant's. The order never changes. */
  lemma RepairEffect(cols: seq<string>)
    ensures |Repaired(cols)| == |cols|
    ensures NoVariant(cols) ==> Repaired(cols) == cols
    ensures forall i: nat :: IsFirstVariant(cols, i) ==>
      Repaired(cols)[i] == ExpectedAllowances
      && forall k :: 0 <= k < |cols| ==>
           Repaired(cols)[k] == if cols[k] == cols[i] then ExpectedAllowances else cols[k]
  {
    match FirstVariant(cols)
    case None =>
    case Some(i) =>
      VariantNonEmpty(cols[i]);
      forall j | IsFirstVariant(cols, j)
        ensures j == i
      {
        FirstVariantUnique(cols, j);
      }
  }

  predicate Distinct(cols: seq<string>) {
    forall j, k :: 0 <= j < k < |cols| ==> cols[j] != cols[k]
  }

  /** With distinct labels (as a header row read from a spreadsheet has), the repair
      changes exactly one position, the first variant, and only when that label is
      not already "Allowances". */
  lemma RepairRenamesFirstOnly(cols: seq<string>)
    requires Distinct(cols)
    ensures |Repaired(cols)| == |cols|
    ensures forall k :: 0 <= k < |cols| && Repaired(cols)[k] != cols[k] ==>
      IsFirstVariant(cols, k) && cols[k] != ExpectedAllowances
      && Repaired(cols)[k] == ExpectedAllowances
    ensures forall k :: 0 <= k < |cols| && IsFirstVariant(cols, k) ==>
      Repaired(cols)[k] == ExpectedAllowances
  {
    RepairEffect(cols);
    match FirstVariant(cols)
    case None =>
    case Some(i) =>
      assert forall k :: 0 <= k < |cols| && Repaired(cols)[k] != cols[k] ==> cols[k] == cols[i];
  }

  /** Repairing twice is the same as repairing once. */
  lemma RepairIdempotent(cols: seq<string>)
    ensures Repaired(Repaired(cols)) == Repaired(cols)
  {
    match FirstVariant(cols)
    case None =>
    case Some(i) =>
      var r := Repaired(cols);
      RepairKeepsFirstVariant(cols, i);
      FirstVariantUnique(r, i);
      assert FoundLabel(r) == Some(ExpectedAllowances);
  }

  /** After the repair, the first variant is still at the same position, and now
      reads exactly "Allowances". */
  lemma RepairKeepsFirstVariant(cols: seq<string>, i: nat)
    requires IsFirstVariant(cols, i)
    ensures IsFirstVariant(Repaired(cols), i) && Repaired(cols)[i] == ExpectedAllowances
  {
    RepairEffect(cols);
    var r := Repaired(cols);
    ExpectedIsVariant();
    forall k | 0 <= k < i
      ensures !IsAllowancesVariant(r[k])
    {
      assert cols[k] != cols[i];
    }
  }

  /** Once any variant was present, the repaired columns contain "Allowances". */
  lemma RepairProvidesAllowances(cols: seq<string>)
    requires !NoVariant(cols)
    ensures ExpectedAllowances in Repaired(cols)
  {
    RepairEffect(cols);
    var i := FirstVariant(cols).value;
    assert Repaired(cols)[i] == ExpectedAllowances;
  }

  /** How many headers carry the label `name`. pandas returns a single value for
      `row[name]` only when this is one. */
  function Occurrences(cols: seq<string>, name: string): (n: nat)
    ensures n <= |cols|
    ensures n == 0 <==> name !in cols
  {
    if cols == [] then 0
    else
      assert cols == [cols[0]] + cols[1..];
      (if cols[0] == name then 1 else 0) + Occurrences(cols[1..], name)
  }

  /** In a header row without repeated labels, a present label occurs once. */
  lemma {:induction false} DistinctOccursOnce(cols: seq<string>, name: string)
    requires Distinct(cols) && name in cols
    ensures Occurrences(cols, name) == 1
  {
    var rest := cols[1..];
    assert Distinct(rest) by {
      forall j, k | 0 <= j < k < |rest|
        ensures rest[j] != rest[k]
      {
        assert rest[j] == cols[j + 1] && rest[k] == cols[k + 1];
      }
    }
    if cols[0] == name {
      forall k | 0 <= k < |rest|
        ensures rest[k] != name
      {
        assert rest[k] == cols[k + 1];
      }
    } else {
      assert cols == [cols[0]] + rest;
      DistinctOccursOnce(rest, name);
    }
  }

  /** A label at two different positions occurs at least twice. */
  lemma {:induction false} TwoPositions(cols: seq<string>, name: string, i: nat, j: nat)
    requires i < j < |cols| && cols[i] == name && cols[j] == name
    ensures Occurrences(cols, name) >= 2
  {
    var rest := cols[1..];
    if i == 0 {
      assert rest[j - 1] == name;
    } else {
      assert rest[i - 1] == name && rest[j - 1] == name;
      TwoPositions(rest, name, i - 1, j - 1);
    }
  }

  /** The repair can create the repeated label it meant to avoid: when a variant
      such as "allowances" or " Allowances" comes before the correct "Allowances",
      the rename leaves two headers called "Allowances", even in a header row that
      had no repeated labels. */
  lemma RepairDuplicatesAllowances(cols: seq<string>, i: nat, j: nat)
    requires IsFirstVariant(cols, i) && cols[i] != ExpectedAllowances
    requires j < |cols| && cols[j] == ExpectedAllowances
    ensures Occurrences(Repaired(cols), ExpectedAllowances) >= 2
  {
    RepairEffect(cols);
    var r := Repaired(cols);
    ExpectedIsVariant();
    assert i < j;
    assert r[i] == ExpectedAllowances && r[j] == ExpectedAllowances;
    TwoPositions(r, ExpectedAllowances, i, j);
  }

  /** The six headers `_validate_data` insists on. */
  const Required: set<string> :=
    {"Employee ID", "Name", "Email", "Basic Salary", "Allowances", "Deductions"}

  datatype Validation = Complete | MissingColumns(missing: set<string>)

  lemma SomeRequiredMissing(present: set<string>)
    requires !(Required <= present)
    ensures Required - present != {}
  {
    var name :| name in Required && name !in present;
    assert name in Required - present;
  }

  /** `_validate_data`: success iff every required header occurs among the columns;
      otherwise the reported set is exactly the required headers that are absent. */
  function Validate(cols: seq<string>): (v: Validation)
    ensures v.Complete? <==> forall name :: name in Required ==> name in cols
    ensures v.MissingColumns? ==>
      v.missing != {} && forall name :: name in v.missing <==> name in Required && name !in cols
  {
    var present := set c | c in cols;
    if Required <= present then Complete
    else
      SomeRequiredMissing(present);
      MissingColumns(Required - present)
  }
}
