/**
 * The JSON-to-Excel converter (api/json_to_excel.py): validation of the
 * decoded JSON value, the input guard and sheet title of the conversion, and
 * the formatting plan (header row, data rows, alternate fill, column widths)
 * applied to the sheet. How pandas lays the records out as a grid is not
 * modelled: the cell texts of each column are an input.
 */
module JsonToExcel {
  import opened Wrappers
  import opened Text

  /** A decoded JSON value; numbers are integers here. */
  datatype Json =
    | JNull
    | JBool(b: bool)
    | JNumber(n: int)
    | JString(s: string)
    | JArray(items: seq<Json>)
    | JObject(fields: map<string, Json>)

  // ---------------------------------------------------------------------------
  // validate_json_data
  // ---------------------------------------------------------------------------

  /** The keys of a record. */
  function Keys(record: Json): set<string>
    requires record.JObject?
  {
    record.fields.Keys
  }

  /** The keys in exactly one of the two sets. */
  function SymmetricDifference(a: set<string>, b: set<string>): set<string> {
    (a - b) + (b - a)
  }

  /**
   * A record's key set differs too much from the first record's: it is not
   * the same set, and more than half as many keys as the first record has are
   * in one set only (`len(diff) > len(first) * 0.5`, in integers).
   */
  predicate Diverges(keys: set<string>, firstKeys: set<string>) {
    keys != firstKeys && 2 * |SymmetricDifference(keys, firstKeys)| > |firstKeys|
  }

  /** The first index from `from` on at which `flags` holds, if any: the source's `for i, item in enumerate(...)` search. */
  function FirstTrue(flags: seq<bool>, from: nat): (r: Option<nat>)
    requires from <= |flags|
    ensures r.Some? ==> from <= r.value < |flags| && flags[r.value] && forall j :: from <= j < r.value ==> !flags[j]
    ensures r.None? ==> forall j :: from <= j < |flags| ==> !flags[j]
    decreases |flags| - from
  {
    if from == |flags| then None
    else if flags[from] then Some(from)
    else FirstTrue(flags, from + 1)
  }

  /** For each item, whether it is not an object. */
  function NotObjects(items: seq<Json>): (flags: seq<bool>)
    ensures |flags| == |items|
    ensures forall j :: 0 <= j < |items| ==> (flags[j] <==> !items[j].JObject?)
  {
    seq(|items|, j requires 0 <= j < |items| => !items[j].JObject?)
  }

  /** For each record, whether its keys diverge from the first record's. */
  function Divergent(items: seq<Json>): (flags: seq<bool>)
    requires forall j :: 0 <= j < |items| ==> items[j].JObject?
    ensures |flags| == |items|
    ensures forall j :: 0 <= j < |items| ==> (flags[j] <==> Diverges(Keys(items[j]), Keys(items[0])))
  {
    seq(|items|, j requires 0 <= j < |items| => Diverges(Keys(items[j]), Keys(items[0])))
  }

  datatype Validation = Validation(valid: bool, message: string)

  const NotAList := "Dados devem ser uma lista"
  const EmptyList := "Lista de dados não pode estar vazia"
  const ValidData := "Dados válidos"

  function NotARecord(i: nat): string {
    "Item " + Decimal(i) + " não é um dicionário válido"
  }

  function KeysTooDifferent(i: nat): string {
    "Item " + Decimal(i) + " tem chaves muito diferentes do primeiro item"
  }

  /** A list of at least one record, every record an object whose keys do not diverge from the first's. */
  predicate Acceptable(data: Json) {
    && data.JArray?
    && |data.items| > 0
    && (forall j :: 0 <= j < |data.items| ==> data.items[j].JObject?)
    && (forall j :: 1 <= j < |data.items| ==> !Diverges(Keys(data.items[j]), Keys(data.items[0])))
  }

  /**
   * `validate_json_data`: the shape checks in order (a list, not empty, every
   * item an object, reporting the first that is not), then the key comparison
   * against the first record, reporting the first that diverges.
   */
  function ValidateJsonData(data: Json): (v: Validation)
    ensures v.valid <==> Acceptable(data)
    ensures v.valid ==> v.message == ValidData
  {
    if !data.JArray? then Validation(false, NotAList)
    else if |data.items| == 0 then Validation(false, EmptyList)
    else match FirstTrue(NotObjects(data.items), 0)
      case Some(i) => Validation(false, NotARecord(i))
      case None =>
        match FirstTrue(Divergent(data.items), 1)
        case Some(i) => Validation(false, KeysTooDifferent(i))
        case None => Validation(true, ValidData)
  }

  /** Anything but a list, and the empty list, are rejected with their own messages. */
  lemma ShapeErrors(data: Json)
    ensures !data.JArray? ==> ValidateJsonData(data) == Validation(false, NotAList)
    ensures data == JArray([]) ==> ValidateJsonData(data) == Validation(false, EmptyList)
  {
  }

  /**
   * The first item that is not an object is the one reported, whatever the
   * keys of the records before it: every item is type-checked before any keys are compared.
   */
  lemma FirstNonRecordReported(items: seq<Json>, i: nat)
    requires i < |items| && !items[i].JObject?
    requires forall j :: 0 <= j < i ==> items[j].JObject?
    ensures ValidateJsonData(JArray(items)) == Validation(false, NotARecord(i))
  {
    var r := FirstTrue(NotObjects(items), 0);
    assert r.Some? && r.value == i;
  }

  /** Among records, the first that diverges from the first record is the one reported. */
  lemma FirstDivergentReported(items: seq<Json>, i: nat)
    requires forall j :: 0 <= j < |items| ==> items[j].JObject?
    requires 1 <= i < |items| && Diverges(Keys(items[i]), Keys(items[0]))
    requires forall j :: 1 <= j < i ==> !Diverges(Keys(items[j]), Keys(items[0]))
    ensures ValidateJsonData(JArray(items)) == Validation(false, KeysTooDifferent(i))
  {
    var r := FirstTrue(Divergent(items), 1);
    assert r.Some? && r.value == i;
  }

  /** Records that all share the first record's keys are valid. */
  lemma SameKeysValid(items: seq<Json>)
    requires |items| > 0
    requires forall j :: 0 <= j < |items| ==> items[j].JObject?
    requires forall j :: 0 <= j < |items| ==> Keys(items[j]) == Keys(items[0])
    ensures ValidateJsonData(JArray(items)) == Validation(true, ValidData)
  {
  }

  /** A key set disjoint from a non-empty first key set always diverges. */
  lemma DisjointKeysDiverge(keys: set<string>, firstKeys: set<string>)
    requires |firstKeys| > 0 && keys * firstKeys == {}
    ensures Diverges(keys, firstKeys)
  {
    var d := SymmetricDifference(keys, firstKeys);
    forall x | x in firstKeys
      ensures x in d && x !in keys
    {
      assert x !in keys * firstKeys;
    }
    var x :| x in firstKeys;
    assert keys != firstKeys;
    SubsetCardinality(firstKeys, d);
  }

  /** When the first record has no keys, any record with a key diverges. */
  lemma KeysAfterEmptyFirstDiverge(keys: set<string>)
    requires |keys| > 0
    ensures Diverges(keys, {})
  {
    assert SymmetricDifference(keys, {}) == keys;
  }

  lemma SubsetCardinality(a: set<string>, b: set<string>)
    requires a <= b
    ensures |a| <= |b|
  {
    assert b == a + (b - a);
  }

  /**
   * A small change to the keys is tolerated: a record that differs from the
   * first in at most half of the first record's key count passes.
   */
  lemma SmallDifferenceTolerated(keys: set<string>, firstKeys: set<string>)
    requires 2 * |SymmetricDifference(keys, firstKeys)| <= |firstKeys|
    ensures !Diverges(keys, firstKeys)
  {
  }

  // ---------------------------------------------------------------------------
  // json_to_excel_file
  // ---------------------------------------------------------------------------

  const MaxTitleLength := 31

  /** The sheet title: the first 31 characters of the sheet name. */
  function SheetTitle(name: string): (title: string)
    ensures |title| == if |name| <= MaxTitleLength then |name| else MaxTitleLength
    ensures StartsWith(name, title)
  {
    if |name| <= MaxTitleLength then name else name[..MaxTitleLength]
  }

  /** A title short enough already is kept as it is, and truncating twice is truncating once. */
  lemma SheetTitleProperties(name: string)
    ensures |name| <= MaxTitleLength ==> SheetTitle(name) == name
    ensures SheetTitle(SheetTitle(name)) == SheetTitle(name)
  {
    assert SheetTitle(name)[..|SheetTitle(name)|] == SheetTitle(name);
  }

  /** The characters the workbook library refuses in a sheet title. */
  const ForbiddenTitleChars: set<char> := {'[', ']', ':', '*', '?', '/', '\\'}

  /** A title the workbook library accepts: non-empty and free of the forbidden characters. */
  predicate AcceptedTitle(t: string) {
    |t| > 0 && forall i :: 0 <= i < |t| ==> t[i] !in ForbiddenTitleChars
  }

  /** How one worksheet row is styled. */
  datatype RowStyle =
    | HeaderRow                   // bold white Calibri 12 on blue, centred, thin border
    | DataRow(alternateFill: bool) // Calibri 11, left-aligned, thin border; light grey fill when set

  /** The formatting `_apply_formatting` applies: a style per row, from row 1, and a width per column. */
  datatype Formatting = Formatting(rows: seq<RowStyle>, widths: seq<nat>)

  /** The sheet a successful conversion saves. */
  datatype Sheet = Sheet(title: string, dataRows: nat, formatting: Option<Formatting>)

  /**
   * The row styles for a sheet with `dataRows` records: row 1 is the header,
   * rows 2 to `dataRows + 1` are data rows, and the alternate fill goes on the
   * rows whose 1-based index is even.
   */
  function RowPlan(dataRows: nat): (plan: seq<RowStyle>)
    ensures |plan| == dataRows + 1
    ensures plan[0] == HeaderRow
    ensures forall k :: 1 <= k < |plan| ==> plan[k].DataRow?
    ensures forall k :: 1 <= k < |plan| ==> (plan[k].alternateFill <==> (k + 1) % 2 == 0)
  {
    [HeaderRow] + seq(dataRows, k requires 0 <= k < dataRows => DataRow((k + 2) % 2 == 0))
  }

  /** The number of styles in `plan` with the alternate fill. */
  function FilledRows(plan: seq<RowStyle>): nat
    decreases |plan|
  {
    if |plan| == 0 then 0
    else (if plan[|plan| - 1].DataRow? && plan[|plan| - 1].alternateFill then 1 else 0) + FilledRows(plan[..|plan| - 1])
  }

  /** Every other data row is filled, starting with the first: `(dataRows + 1) / 2` of them. */
  lemma {:induction false} FilledRowCount(dataRows: nat)
    ensures FilledRows(RowPlan(dataRows)) == (dataRows + 1) / 2
    decreases dataRows
  {
    if dataRows > 0 {
      var plan := RowPlan(dataRows);
      assert plan[..|plan| - 1] == RowPlan(dataRows - 1);
      FilledRowCount(dataRows - 1);
    } else {
      var plan := RowPlan(0);
      assert plan[..0] == [];
    }
  }

  /** No two adjacent data rows share the alternate fill. */
  lemma FillAlternates(dataRows: nat, k: nat)
    requires 1 <= k && k + 1 < |RowPlan(dataRows)|
    ensures RowPlan(dataRows)[k].alternateFill != RowPlan(dataRows)[k + 1].alternateFill
  {
  }

  /** `min(max(max_length + 2, 10), 50)`. */
  function AdjustedWidth(maxLength: nat): (w: nat)
    ensures 10 <= w <= 50
    ensures 8 <= maxLength <= 48 ==> w == maxLength + 2
    ensures maxLength < 8 ==> w == 10
    ensures maxLength > 48 ==> w == 50
  {
    var wide := if maxLength + 2 > 10 then maxLength + 2 else 10;
    if wide < 50 then wide else 50
  }

  /** The length of the longest text in `cells`, 0 for none. */
  function MaxLength(cells: seq<string>): (m: nat)
    ensures forall k :: 0 <= k < |cells| ==> |cells[k]| <= m
    ensures m == 0 || exists k :: 0 <= k < |cells| && |cells[k]| == m
    decreases |cells|
  {
    if |cells| == 0 then 0
    else
      var rest := MaxLength(cells[..|cells| - 1]);
      var last := |cells[|cells| - 1]|;
      if last > rest then last else rest
  }

  /**
   * The width of one column from the texts of its cells, header included:
   * the longest text plus 2, but at least 10 and at most 50.
   */
  method ColumnWidth(cells: seq<string>) returns (w: nat)
    ensures 10 <= w <= 50
    ensures w == AdjustedWidth(MaxLength(cells))
    ensures forall k :: 0 <= k < |cells| ==> |cells[k]| + 2 <= w || w == 50
  {
    var maxLength := 0;
    var i := 0;
    while i < |cells|
      invariant 0 <= i <= |cells|
      invariant maxLength == MaxLength(cells[..i])
    {
      assert cells[..i + 1][..i] == cells[..i];
      if |cells[i]| > maxLength {
        maxLength := |cells[i]|;
      }
      i := i + 1;
    }
    assert cells[..i] == cells;
    w := AdjustedWidth(maxLength);
  }

  /** The widths of all columns, in order. */
  method ColumnWidths(columns: seq<seq<string>>) returns (widths: seq<nat>)
    ensures |widths| == |columns|
    ensures forall c :: 0 <= c < |columns| ==> widths[c] == AdjustedWidth(MaxLength(columns[c]))
  {
    widths := [];
    var c := 0;
    while c < |columns|
      invariant 0 <= c <= |columns|
      invariant |widths| == c
      invariant forall j :: 0 <= j < c ==> widths[j] == AdjustedWidth(MaxLength(columns[j]))
    {
      var w := ColumnWidth(columns[c]);
      widths := widths + [w];
      c := c + 1;
    }
  }

  /**
   * `json_to_excel_file`. The guard rejects anything but a non-empty list.
   * `columns` is the cell texts of each column as laid out from the records,
   * `formatOk` whether `_apply_formatting` ran through (its failure is logged
   * and the sheet is saved unformatted) and `libraryOk` whether every other
   * library step after the guard ran through: building the data frame and the
   * workbook, appending the rows and saving. Setting the title is modelled: the
   * library refuses an empty title or one with a forbidden character, and the
   * blanket exception handler turns that into failure.
   */
  method JsonToExcelFile(data: Json, sheetName: string, applyFormatting: bool, columns: seq<seq<string>>,
                         formatOk: bool, libraryOk: bool)
    returns (r: Option<Sheet>)
    ensures !data.JArray? || |data.items| == 0 ==> r.None?
    ensures sheetName == [] ==> r.None?
    ensures r.Some? <==> data.JArray? && |data.items| > 0 && AcceptedTitle(SheetTitle(sheetName)) && libraryOk
    ensures r.Some? ==> r.value.title == SheetTitle(sheetName) && r.value.dataRows == |data.items|
    ensures r.Some? ==> (r.value.formatting.Some? <==> applyFormatting && formatOk)
    ensures r.Some? && r.value.formatting.Some? ==>
              r.value.formatting.value.rows == RowPlan(|data.items|)
              && |r.value.formatting.value.widths| == |columns|
              && forall c :: 0 <= c < |columns| ==>
                   r.value.formatting.value.widths[c] == AdjustedWidth(MaxLength(columns[c]))
                   && 10 <= r.value.formatting.value.widths[c] <= 50
  {
    if !data.JArray? || |data.items| == 0 {
      return None;
    }
    if !AcceptedTitle(SheetTitle(sheetName)) {
      return None;
    }
    var formatting: Option<Formatting> := None;
    if applyFormatting && formatOk {
      var widths := ColumnWidths(columns);
      formatting := Some(Formatting(RowPlan(|data.items|), widths));
    }
    if !libraryOk {
      return None;
    }
    return Some(Sheet(SheetTitle(sheetName), |data.items|, formatting));
  }

  /**
   * `json_string_to_excel`. `data` is what `json.loads` makes of the string,
   * `None` when it is not valid JSON. The data is validated first, and only
   * data that passes is converted; any failure is reported as no sheet.
   */
  method JsonStringToExcel(data: Option<Json>, sheetName: string, applyFormatting: bool, columns: seq<seq<string>>,
                           formatOk: bool, libraryOk: bool)
    returns (r: Option<Sheet>)
    ensures data.None? ==> r.None?
    ensures r.Some? <==> data.Some? && Acceptable(data.value) && AcceptedTitle(SheetTitle(sheetName)) && libraryOk
    ensures r.Some? ==> r.value.title == SheetTitle(sheetName) && r.value.dataRows == |data.value.items|
    ensures r.Some? ==> (r.value.formatting.Some? <==> applyFormatting && formatOk)
  {
    if data.None? {
      return None;
    }
    var v := ValidateJsonData(data.value);
    if !v.valid {
      return None;
    }
    r := JsonToExcelFile(data.value, sheetName, applyFormatting, columns, formatOk, libraryOk);
  }
}
