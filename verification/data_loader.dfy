/** The row-acceptance logic of the CSV loader: the per-type converters,
    the matching of CSV headers to provisioned columns, the per-row accept
    or reject decision, the capped error list and the batching of accepted
    rows. The database writes are the batches the loader hands out. */
module DataLoader {
  import opened Wrappers
  import opened Text
  import opened Parsers
  import Sources
  import Inference
  import Provisioning

  /** Rows are flushed in batches of this many. */
  const BatchSize: nat := 500

  /** At most this many error messages are kept. */
  const ErrorCap: nat := 50

  /** A converted cell. Floats are IEEE-754 bit patterns, timestamps
      microseconds since the epoch. */
  datatype Value =
    | TextValue(text: string)
    | IntValue(number: int)
    | FloatValue(bits: bv64)
    | BoolValue(truth: bool)
    | TimestampValue(micros: int)

  /** The parameters of one INSERT, in column order; `None` is SQL NULL. */
  type Params = seq<Option<Value>>

  datatype Converter = ToText | ToInteger | ToFloat | ToBoolean | ToTimestamp

  // ---------------------------------------------------------------------
  // Converters

  /** The converter the loader picks for a stored data type: an exact,
      case-sensitive key lookup with text as the fallback. */
  function ConverterFor(dataType: string): (r: Converter)
    ensures r == ToInteger <==> dataType == "INTEGER"
    ensures r == ToFloat <==> dataType == "FLOAT"
    ensures r == ToBoolean <==> dataType == "BOOLEAN"
    ensures r == ToTimestamp <==> dataType == "DATE"
    ensures r == ToText <==> dataType !in {"INTEGER", "FLOAT", "BOOLEAN", "DATE"}
  {
    if dataType == "STRING" then ToText
    else if dataType == "INTEGER" then ToInteger
    else if dataType == "FLOAT" then ToFloat
    else if dataType == "BOOLEAN" then ToBoolean
    else if dataType == "DATE" then ToTimestamp
    else ToText
  }

  const TrueTokens: seq<string> := ["true", "yes", "1", "t", "y"]
  const FalseTokens: seq<string> := ["false", "no", "0", "f", "n"]

  /** `_to_boolean`: the stripped, lower-cased value read as one of the five
      true or five false tokens. */
  function ToBooleanValue(value: string): (r: Option<bool>)
    ensures r == Some(true) <==> Lower(Strip(value)) in TrueTokens
    ensures r == Some(false) <==> Lower(Strip(value)) in FalseTokens
  {
    TokenValue(Lower(Strip(value)))
  }

  function TokenValue(v: string): (r: Option<bool>)
    ensures r == Some(true) <==> v in TrueTokens
    ensures r == Some(false) <==> v in FalseTokens
  {
    if v in TrueTokens then Some(true)
    else if v in FalseTokens then Some(false)
    else None
  }

  /** The loader reads a value as a boolean exactly when inference calls it
      boolean, and reads it as true exactly for inference's true tokens. */
  lemma ToBooleanAgrees(value: string)
    ensures ToBooleanValue(value).Some? <==> Inference.IsBoolean(value)
    ensures ToBooleanValue(value) == Some(true) <==> Lower(Strip(value)) in Inference.BoolTrue
    ensures ToBooleanValue(value) == Some(false) <==> Lower(Strip(value)) in Inference.BoolFalse
  {
    TokensAgree(Lower(Strip(value)));
  }

  lemma TokensAgree(v: string)
    ensures v in TrueTokens <==> v in Inference.BoolTrue
    ensures v in FalseTokens <==> v in Inference.BoolFalse
  {
  }

  /** One converter applied to a cell. */
  function Convert(p: Parsers, conv: Converter, value: string): Option<Value> {
    match conv
    case ToText => Some(TextValue(value))
    case ToInteger =>
      var n := p.parseInt(NumericText(value));
      if n.None? then None else Some(IntValue(n.value))
    case ToFloat =>
      var f := p.parseFloat(NumericText(value));
      if f.None? then None else Some(FloatValue(f.value))
    case ToBoolean =>
      var b := ToBooleanValue(value);
      if b.None? then None else Some(BoolValue(b.value))
    case ToTimestamp =>
      var d := p.parseDate(Strip(value));
      if d.None? then None else Some(TimestampValue(d.value))
  }

  /** Whether the converter for type `t` accepts a value exactly when the
      matching inference test does (text accepts everything). */
  predicate ConverterMatchesTest(p: Parsers, t: Inference.ColumnType, value: string) {
    var accepted := Convert(p, ConverterFor(Inference.TypeName(t)), value).Some?;
    match t
    case StringType => accepted
    case IntegerType => accepted == Inference.IsInteger(p, value)
    case FloatType => accepted == Inference.IsFloat(p, value)
    case BooleanType => accepted == Inference.IsBoolean(value)
    case DateType => accepted == Inference.IsDate(p, value)
  }

  /** What a converter accepts is what the matching inference test accepts:
      the loader converts exactly the values inference counted for a type. */
  lemma ConvertAgreesWithInference(p: Parsers, t: Inference.ColumnType, value: string)
    ensures ConverterMatchesTest(p, t, value)
  {
    if t == Inference.BooleanType {
      ToBooleanAgrees(value);
    }
  }

  /** A column whose inferred type is not DATE loads every value of the
      sample it was inferred from. */
  lemma InferredTypeLoadsSample(p: Parsers, values: seq<string>, k: nat)
    requires k < |values|
    requires Inference.InferType(p, values) != Inference.DateType
    ensures Convert(p, ConverterFor(Inference.TypeName(Inference.InferType(p, values))), values[k]).Some?
  {
    ConvertAgreesWithInference(p, Inference.InferType(p, values), values[k]);
  }

  // ---------------------------------------------------------------------
  // Header matching

  /** The loader's own `_sanitize`: the slug cut to 63 characters, with no
      validity check. */
  function LocalSanitize(name: string): (r: string)
    ensures |r| <= Provisioning.MaxIdentifier
  {
    Take(Provisioning.Slug(name), Provisioning.MaxIdentifier)
  }

  /** On every name provisioning accepts the local sanitiser agrees with
      it; on every other name it yields something that is not a valid
      identifier, so it can never equal a provisioned physical name. */
  lemma LocalSanitizeAgrees(name: string)
    ensures Provisioning.Sanitize(name).Ok? ==> LocalSanitize(name) == Provisioning.Sanitize(name).value
    ensures Provisioning.Sanitize(name).Err? ==> !Provisioning.ValidIdentifier(LocalSanitize(name))
  {
    var slug := Provisioning.Slug(name);
    if Provisioning.Sanitize(name).Ok? {
      Provisioning.SanitizeTakesSlug(name);
    } else {
      Provisioning.SlugValid(name);
      if slug != [] {
        assert LocalSanitize(name)[0] == slug[0];
      }
    }
  }

  /** A name of lower-case letters and digits, starting with a letter and
      no longer than 63 characters, sanitises to itself. */
  lemma IdentifierWordSanitizesToItself(name: string)
    requires 0 < |name| <= Provisioning.MaxIdentifier && IsLowerLetter(name[0])
    requires forall k :: 0 <= k < |name| ==> IsLowerLetter(name[k]) || IsDigit(name[k])
    ensures LocalSanitize(name) == name
    ensures Provisioning.Sanitize(name) == Ok(name)
  {
    LowerUnchanged(name);
    ReplaceRunsUnchanged(name, Provisioning.IsSeparator, '_');
    assert TrimLeft(name, Provisioning.IsUnderscore) == name;
    assert TrimRight(name, Provisioning.IsUnderscore) == name;
    assert Provisioning.Slug(name) == name;
    LocalSanitizeAgrees(name);
  }

  /** `col_lookup`: physical name to column; a later column with the same
      physical name replaces an earlier one. */
  function ColumnLookup(columns: seq<Sources.ColumnMeta>): (r: map<string, Sources.ColumnMeta>)
    ensures forall name :: name in r <==> exists i :: 0 <= i < |columns| && columns[i].physicalName == name
    ensures forall name :: name in r ==> r[name].physicalName == name
    decreases |columns|
  {
    if columns == [] then map[]
    else
      var last := columns[|columns| - 1];
      var r := ColumnLookup(columns[..|columns| - 1])[last.physicalName := last];
      assert forall i :: 0 <= i < |columns| - 1 ==> columns[..|columns| - 1][i] == columns[i];
      r
  }

  /** The last column bearing a physical name is the one the lookup keeps. */
  lemma {:induction false} LookupKeepsLast(columns: seq<Sources.ColumnMeta>, i: nat)
    requires i < |columns|
    requires forall j :: i < j < |columns| ==> columns[j].physicalName != columns[i].physicalName
    ensures ColumnLookup(columns)[columns[i].physicalName] == columns[i]
    decreases |columns|
  {
    if i < |columns| - 1 {
      var init := columns[..|columns| - 1];
      assert init[i] == columns[i];
      LookupKeepsLast(init, i);
    }
  }

  /** A matched CSV header and the column its cells go to. */
  datatype Target = Target(header: string, column: Sources.ColumnMeta)

  /** The position of the first `x` in `s`. */
  function FirstIndex(s: seq<string>, x: string): (i: nat)
    requires x in s
    ensures i < |s| && s[i] == x
    ensures forall j :: 0 <= j < i ==> s[j] != x
    decreases |s|
  {
    if s[0] == x then 0
    else
      var i := FirstIndex(s[1..], x);
      assert forall j :: 1 <= j <= i ==> s[j] == s[1..][j - 1];
      i + 1
  }

  /** Appending to a list moves no first position, and a value new to the
      list is first found at the end. */
  lemma {:induction false} FirstIndexAppend(init: seq<string>, h: string)
    ensures forall x :: x in init ==> FirstIndex(init + [h], x) == FirstIndex(init, x)
    ensures h !in init ==> FirstIndex(init + [h], h) == |init|
  {
    var s := init + [h];
    forall x | x in init
      ensures FirstIndex(s, x) == FirstIndex(init, x)
    {
      var i, j := FirstIndex(s, x), FirstIndex(init, x);
      assert s[j] == x;
      assert i <= j;
      assert init[i] == x;
    }
  }

  /** `header_to_physical` in insertion order: each distinct header whose
      key (the loader's sanitisation) names a column, paired with that
      column, in the order of the headers' first appearances. */
  function Matches(headers: seq<string>, lookup: map<string, Sources.ColumnMeta>, key: string -> string): (r: seq<Target>)
    ensures MatchedIn(headers, lookup, key, r)
    ensures forall k :: 0 <= k < |r| ==>
      (r[k].header in headers && key(r[k].header) in lookup && r[k].column == lookup[key(r[k].header)])
    ensures forall h :: h in headers && key(h) in lookup ==> exists k :: 0 <= k < |r| && r[k].header == h
    ensures forall k, l :: 0 <= k < l < |r| ==> FirstIndex(headers, r[k].header) < FirstIndex(headers, r[l].header)
    ensures forall k, l :: 0 <= k < l < |r| ==> r[k].header != r[l].header
    decreases |headers|
  {
    if headers == [] then []
    else
      var init := headers[..|headers| - 1];
      var h := headers[|headers| - 1];
      var earlier := Matches(init, lookup, key);
      var r := if key(h) in lookup && h !in init then earlier + [Target(h, lookup[key(h)])] else earlier;
      MatchesStep(headers, init, h, lookup, key, earlier, r);
      r
  }

  /** The targets matched against `headers`: each names a header whose key
      names a column, paired with that column; every such header is
      matched; and the targets follow the headers' first appearances. */
  predicate MatchedIn(headers: seq<string>, lookup: map<string, Sources.ColumnMeta>, key: string -> string, r: seq<Target>) {
    && (forall k :: 0 <= k < |r| ==>
         (r[k].header in headers && key(r[k].header) in lookup && r[k].column == lookup[key(r[k].header)]))
    && (forall h :: h in headers && key(h) in lookup ==> exists k :: 0 <= k < |r| && r[k].header == h)
    && (forall k, l :: 0 <= k < l < |r| ==> FirstIndex(headers, r[k].header) < FirstIndex(headers, r[l].header))
  }

  /** One more header: matched at the end when its key names a column and
      it has not appeared before, and otherwise ignored. */
  lemma MatchesStep(headers: seq<string>, init: seq<string>, h: string,
                    lookup: map<string, Sources.ColumnMeta>, key: string -> string,
                    earlier: seq<Target>, r: seq<Target>)
    requires headers == init + [h] && MatchedIn(init, lookup, key, earlier)
    requires r == if key(h) in lookup && h !in init then earlier + [Target(h, lookup[key(h)])] else earlier
    ensures MatchedIn(headers, lookup, key, r)
  {
    OrderAfterAppend(init, h, earlier);
    if key(h) in lookup && h !in init {
      MatchesExtend(headers, init, h, lookup, key, earlier, r);
    } else {
      MatchesSkip(headers, init, h, lookup, key, earlier);
    }
  }

  lemma {:induction false} MatchesSkip(headers: seq<string>, init: seq<string>, h: string,
                                       lookup: map<string, Sources.ColumnMeta>, key: string -> string,
                                       earlier: seq<Target>)
    requires headers == init + [h] && MatchedIn(init, lookup, key, earlier)
    requires key(h) in lookup ==> h in init
    requires forall k, l :: 0 <= k < l < |earlier| ==>
      FirstIndex(headers, earlier[k].header) < FirstIndex(headers, earlier[l].header)
    ensures MatchedIn(headers, lookup, key, earlier)
  {
    forall x | x in headers && key(x) in lookup
      ensures exists k :: 0 <= k < |earlier| && earlier[k].header == x
    {
      assert x in init;
    }
  }

  lemma {:induction false} MatchesExtend(headers: seq<string>, init: seq<string>, h: string,
                                         lookup: map<string, Sources.ColumnMeta>, key: string -> string,
                                         earlier: seq<Target>, r: seq<Target>)
    requires headers == init + [h] && MatchedIn(init, lookup, key, earlier)
    requires key(h) in lookup && h !in init
    requires r == earlier + [Target(h, lookup[key(h)])]
    requires forall k, l :: 0 <= k < l < |earlier| ==>
      FirstIndex(headers, earlier[k].header) < FirstIndex(headers, earlier[l].header)
    requires forall k :: 0 <= k < |earlier| ==> FirstIndex(headers, earlier[k].header) < |init|
    ensures MatchedIn(headers, lookup, key, r)
  {
    assert r[|earlier|].header == h;
    assert forall k :: 0 <= k < |earlier| ==> earlier[k].header in init && r[k] == earlier[k];
    OrderOfNewTarget(init, h, earlier, r);
    forall x | x in headers && key(x) in lookup
      ensures exists k :: 0 <= k < |r| && r[k].header == x
    {
      if x == h {
        assert r[|earlier|].header == x;
      } else {
        assert x in init;
        var k :| 0 <= k < |earlier| && earlier[k].header == x;
        assert r[k].header == x;
      }
    }
  }

  /** Targets ordered by first appearance in `init` stay so after a header
      is appended. */
  lemma {:induction false} OrderAfterAppend(init: seq<string>, h: string, earlier: seq<Target>)
    requires forall k :: 0 <= k < |earlier| ==> earlier[k].header in init
    requires forall k, l :: 0 <= k < l < |earlier| ==> FirstIndex(init, earlier[k].header) < FirstIndex(init, earlier[l].header)
    ensures forall k :: 0 <= k < |earlier| ==> earlier[k].header in init + [h]
    ensures forall k, l :: 0 <= k < l < |earlier| ==>
      FirstIndex(init + [h], earlier[k].header) < FirstIndex(init + [h], earlier[l].header)
    ensures h !in init ==> forall k :: 0 <= k < |earlier| ==>
      FirstIndex(init + [h], earlier[k].header) < |init|
  {
    FirstIndexAppend(init, h);
  }

  /** A header new to the list is the last in first-appearance order. */
  lemma {:induction false} OrderOfNewTarget(init: seq<string>, h: string, earlier: seq<Target>, r: seq<Target>)
    requires h !in init && |r| == |earlier| + 1 && r[|earlier|].header == h
    requires forall k :: 0 <= k < |earlier| ==> earlier[k].header in init && r[k] == earlier[k]
    requires forall k, l :: 0 <= k < l < |earlier| ==>
      FirstIndex(init + [h], earlier[k].header) < FirstIndex(init + [h], earlier[l].header)
    requires forall k :: 0 <= k < |earlier| ==> FirstIndex(init + [h], earlier[k].header) < |init|
    ensures forall k :: 0 <= k < |r| ==> r[k].header in init + [h]
    ensures forall k, l :: 0 <= k < l < |r| ==> FirstIndex(init + [h], r[k].header) < FirstIndex(init + [h], r[l].header)
  {
    var s := init + [h];
    assert h in s by {
      assert s[|init|] == h;
    }
    forall k | 0 <= k < |r|
      ensures r[k].header in s
    {
      if k < |earlier| {
        assert r[k].header in init;
      }
    }
    var last := FirstIndex(s, h);
    assert last == |init| by {
      FirstIndexAppend(init, h);
    }
    forall k, l | 0 <= k < l < |r|
      ensures FirstIndex(s, r[k].header) < FirstIndex(s, r[l].header)
    {
      assert r[k] == earlier[k];
      if l < |earlier| {
        assert r[l] == earlier[l];
      }
    }
  }

  /** A header is loaded into a provisioned column exactly when
      provisioning would sanitise it to that column's physical name. */
  lemma MatchMeansSameIdentifier(columns: seq<Sources.ColumnMeta>, header: string)
    requires forall i :: 0 <= i < |columns| ==> Provisioning.ValidIdentifier(columns[i].physicalName)
    ensures LocalSanitize(header) in ColumnLookup(columns) <==>
      (Provisioning.Sanitize(header).Ok? &&
       exists i :: 0 <= i < |columns| && columns[i].physicalName == Provisioning.Sanitize(header).value)
  {
    LocalSanitizeAgrees(header);
  }

  // ---------------------------------------------------------------------
  // Row acceptance

  /** One mapped cell: a blank cell is NULL and never reaches the
      converter; otherwise the converter's value, or the stripped text that
      failed to convert. */
  function ConvertCell(p: Parsers, row: Inference.Row, t: Target): Result<Option<Value>, string> {
    var raw := Strip(Inference.Cell(row, t.header));
    if raw == [] then Ok(None)
    else
      var v := Convert(p, ConverterFor(t.column.dataType), raw);
      if v.None? then Err(raw) else Ok(Some(v.value))
  }

  /** Why a row was rejected: the first cell that did not convert. */
  datatype Failure = Failure(index: nat, header: string, raw: string, dataType: string)

  /** Every mapped cell of a row through its converter. */
  function Cells(p: Parsers, targets: seq<Target>, row: Inference.Row): (r: seq<Result<Option<Value>, string>>)
    ensures |r| == |targets| && forall j :: 0 <= j < |targets| ==> r[j] == ConvertCell(p, row, targets[j])
  {
    seq(|targets|, j requires 0 <= j < |targets| => ConvertCell(p, row, targets[j]))
  }

  /** The row's parameters from converted cell `i` on, or the first of
      those cells that failed. */
  function ConvertFrom(targets: seq<Target>, cells: seq<Result<Option<Value>, string>>, i: nat): (r: Result<Params, Failure>)
    requires i <= |targets| == |cells|
    ensures r.Ok? <==> forall j :: i <= j < |targets| ==> cells[j].Ok?
    ensures r.Ok? ==> (|r.value| == |targets| - i && forall j :: i <= j < |targets| ==> cells[j] == Ok(r.value[j - i]))
    ensures r.Err? ==>
      && i <= r.error.index < |targets|
      && (forall j :: i <= j < r.error.index ==> cells[j].Ok?)
      && cells[r.error.index] == Err(r.error.raw)
      && r.error.header == targets[r.error.index].header
      && r.error.dataType == targets[r.error.index].column.dataType
    decreases |targets| - i
  {
    if i == |targets| then Ok([])
    else if cells[i].Err? then Err(Failure(i, targets[i].header, cells[i].error, targets[i].column.dataType))
    else
      var rest := ConvertFrom(targets, cells, i + 1);
      if rest.Err? then rest else Ok([cells[i].value] + rest.value)
  }

  /** A row's outcome: its parameters when every non-blank mapped cell
      converts, else the first cell that does not, with its position,
      header, text and the type of the column it was meant for. */
  function ConvertRow(p: Parsers, targets: seq<Target>, row: Inference.Row): (r: Result<Params, Failure>)
    ensures r.Ok? <==> forall j :: 0 <= j < |targets| ==> ConvertCell(p, row, targets[j]).Ok?
    ensures r.Ok? ==> (|r.value| == |targets| && forall j :: 0 <= j < |targets| ==> ConvertCell(p, row, targets[j]) == Ok(r.value[j]))
    ensures r.Err? ==>
      && r.error.index < |targets|
      && (forall j :: 0 <= j < r.error.index ==> ConvertCell(p, row, targets[j]).Ok?)
      && ConvertCell(p, row, targets[r.error.index]) == Err(r.error.raw)
      && r.error.header == targets[r.error.index].header
      && r.error.dataType == targets[r.error.index].column.dataType
  {
    ConvertFrom(targets, Cells(p, targets, row), 0)
  }

  /** A blank cell is NULL whatever the parsers and the column's type, so
      its converter is never consulted; any other cell is accepted exactly
      when its converter reads it. */
  lemma CellOutcome(p: Parsers, row: Inference.Row, t: Target)
    ensures Blank(row, t) ==> ConvertCell(p, row, t) == Ok(None)
    ensures !Blank(row, t) ==> (ConvertCell(p, row, t).Ok? <==> Convert(p, ConverterFor(t.column.dataType), Strip(Inference.Cell(row, t.header))).Some?)
  {
  }

  predicate Blank(row: Inference.Row, t: Target) {
    Strip(Inference.Cell(row, t.header)) == []
  }

  /** A row is accepted exactly when every non-blank mapped cell converts. */
  lemma RowAcceptance(p: Parsers, targets: seq<Target>, row: Inference.Row)
    ensures ConvertRow(p, targets, row).Ok? <==>
      forall j :: 0 <= j < |targets| && !Blank(row, targets[j]) ==>
        Convert(p, ConverterFor(targets[j].column.dataType), Strip(Inference.Cell(row, targets[j].header))).Some?
  {
    forall j | 0 <= j < |targets| {
      CellOutcome(p, row, targets[j]);
    }
  }

  // ---------------------------------------------------------------------
  // The load result

  datatype LoadError =
    | ConversionFailed(rowNum: nat, column: string, raw: string, dataType: string)
    | NoColumnsMatched

  datatype LoadResult = LoadResult(rowsLoaded: nat, rowsFailed: nat, errors: seq<LoadError>)

  const Fresh := LoadResult(0, 0, [])

  /** `LoadResult.record_error`: every failure is counted; its message is
      kept only while fewer than 50 are stored. */
  function RecordError(res: LoadResult, e: LoadError): (r: LoadResult)
    ensures r.rowsFailed == res.rowsFailed + 1 && r.rowsLoaded == res.rowsLoaded
    ensures r.errors == res.errors || r.errors == res.errors + [e]
  {
    if |res.errors| < ErrorCap then res.(errors := res.errors + [e], rowsFailed := res.rowsFailed + 1)
    else res.(rowsFailed := res.rowsFailed + 1)
  }

  /** The first 50 of a list of errors. */
  function Capped(es: seq<LoadError>): (r: seq<LoadError>)
    ensures |r| <= ErrorCap && r <= es
  {
    if |es| <= ErrorCap then es else es[..ErrorCap]
  }

  /** Recording failures one by one from a fresh result counts all of them
      and keeps the first 50 messages. */
  lemma {:induction false} RecordingKeepsFirstFifty(es: seq<LoadError>)
    ensures RecordAll(Fresh, es).rowsFailed == |es|
    ensures RecordAll(Fresh, es).rowsLoaded == 0
    ensures RecordAll(Fresh, es).errors == Capped(es)
    decreases |es|
  {
    if es != [] {
      var init := es[..|es| - 1];
      RecordingKeepsFirstFifty(init);
      RecordCapped(init, es[|es| - 1]);
      assert init + [es[|es| - 1]] == es;
    }
  }

  function RecordAll(res: LoadResult, es: seq<LoadError>): LoadResult
    decreases |es|
  {
    if es == [] then res else RecordError(RecordAll(res, es[..|es| - 1]), es[|es| - 1])
  }

  /** One more failure extends the capped list exactly when it had room. */
  lemma RecordCapped(es: seq<LoadError>, e: LoadError)
    ensures Capped(es + [e]) == if |Capped(es)| < ErrorCap then Capped(es) + [e] else Capped(es)
  {
    if |es| >= ErrorCap {
      assert (es + [e])[..ErrorCap] == es[..ErrorCap];
    }
  }

  // ---------------------------------------------------------------------
  // The load

  type Outcome = Result<Params, Failure>

  /** Every data row's outcome, in file order. */
  function Outcomes(p: Parsers, targets: seq<Target>, rows: seq<Inference.Row>): (r: seq<Outcome>)
    ensures |r| == |rows| && forall n :: 0 <= n < |rows| ==> r[n] == ConvertRow(p, targets, rows[n])
  {
    seq(|rows|, n requires 0 <= n < |rows| => ConvertRow(p, targets, rows[n]))
  }

  /** The parameters of the accepted rows, in file order. */
  function Accepted(outcomes: seq<Outcome>): seq<Params>
    decreases |outcomes|
  {
    if outcomes == [] then []
    else
      var last := outcomes[|outcomes| - 1];
      Accepted(outcomes[..|outcomes| - 1]) + (if last.Ok? then [last.value] else [])
  }

  /** One error per rejected row, numbered from 1 in file order. */
  function Failures(outcomes: seq<Outcome>): seq<LoadError>
    decreases |outcomes|
  {
    if outcomes == [] then []
    else
      var last := outcomes[|outcomes| - 1];
      Failures(outcomes[..|outcomes| - 1])
      + (if last.Err? then [RowError(|outcomes| - 1, last.error)] else [])
  }

  /** Every row is either accepted or rejected. */
  lemma {:induction false} EveryRowCounted(outcomes: seq<Outcome>)
    ensures |Accepted(outcomes)| + |Failures(outcomes)| == |outcomes|
    decreases |outcomes|
  {
    if outcomes != [] {
      EveryRowCounted(outcomes[..|outcomes| - 1]);
    }
  }

  /** How the accepted rows and the failures grow by one row. */
  lemma StepOutcomes(outcomes: seq<Outcome>, n: nat)
    requires n < |outcomes|
    ensures Accepted(outcomes[..n + 1]) == Accepted(outcomes[..n]) + (if outcomes[n].Ok? then [outcomes[n].value] else [])
    ensures Failures(outcomes[..n + 1]) == Failures(outcomes[..n])
      + (if outcomes[n].Err? then [RowError(n, outcomes[n].error)] else [])
  {
    assert outcomes[..n + 1][..n] == outcomes[..n];
  }

  function Flatten(batches: seq<seq<Params>>): (r: seq<Params>)
    decreases |batches|
  {
    if batches == [] then [] else Flatten(batches[..|batches| - 1]) + batches[|batches| - 1]
  }

  lemma FlattenAppend(batches: seq<seq<Params>>, b: seq<Params>)
    ensures Flatten(batches + [b]) == Flatten(batches) + b
  {
    assert (batches + [b])[..|batches|] == batches;
  }

  /** The size at which a batch is flushed: `len(batch) >= BATCH_SIZE`
      holds after the first row even when the size is 0. */
  function FlushSize(batchSize: nat): (r: nat)
    ensures r >= 1 && r >= batchSize
  {
    if batchSize == 0 then 1 else batchSize
  }

  /** `load_csv` after CSV decoding. The batches it flushes, in order, are
      returned beside the result. With no matching header nothing is read
      and the one error says so. Otherwise the flushed rows are exactly the
      accepted rows in file order, whatever the batch size; every batch but
      the last is full and none is larger than the batch size; each row is
      either loaded or failed; and the kept errors are those of the first 50
      rejected rows. */
  method LoadCsv(p: Parsers, columns: seq<Sources.ColumnMeta>, headers: seq<string>, rows: seq<Inference.Row>, batchSize: nat)
    returns (result: LoadResult, flushed: seq<seq<Params>>)
    ensures var targets := Matches(headers, ColumnLookup(columns), LocalSanitize);
      targets == [] ==> result == LoadResult(0, 0, [NoColumnsMatched]) && flushed == []
    ensures var targets := Matches(headers, ColumnLookup(columns), LocalSanitize);
      var outcomes := Outcomes(p, targets, rows);
      targets != [] ==>
        && Flatten(flushed) == Accepted(outcomes)
        && result.rowsLoaded == |Accepted(outcomes)|
        && result.rowsFailed == |Failures(outcomes)|
        && result.rowsLoaded + result.rowsFailed == |rows|
        && result.errors == Capped(Failures(outcomes))
    ensures forall k :: 0 <= k < |flushed| ==> 0 < |flushed[k]| <= FlushSize(batchSize)
    ensures forall k :: 0 <= k < |flushed| - 1 ==> |flushed[k]| == FlushSize(batchSize)
  {
    var targets := Matches(headers, ColumnLookup(columns), LocalSanitize);
    if targets == [] {
      return LoadResult(0, 0, [NoColumnsMatched]), [];
    }
    var outcomes := Outcomes(p, targets, rows);
    result, flushed := LoadOutcomes(outcomes, batchSize);
  }

  /** What the row loop of `load_csv` keeps after its first `n` rows: the
      flushed batches and the open batch hold the accepted rows so far, the
      open batch is below the flush size and every flushed batch is full;
      the counts and the kept errors are those of the rows so far. */
  predicate Progress(outcomes: seq<Outcome>, n: nat, result: LoadResult, flushed: seq<seq<Params>>, batch: seq<Params>, batchSize: nat) {
    && n <= |outcomes|
    && Flatten(flushed) + batch == Accepted(outcomes[..n])
    && result.rowsLoaded == |Flatten(flushed)|
    && result.rowsFailed == |Failures(outcomes[..n])|
    && result.errors == Capped(Failures(outcomes[..n]))
    && |batch| < FlushSize(batchSize)
    && forall k :: 0 <= k < |flushed| ==> |flushed[k]| == FlushSize(batchSize)
  }

  /** The error `load_csv` records for the rejected row at index `n`. */
  function RowError(n: nat, f: Failure): LoadError {
    ConversionFailed(n + 1, f.header, f.raw, f.dataType)
  }

  /** A rejected row is counted and its error recorded. */
  lemma RejectKeeps(outcomes: seq<Outcome>, n: nat, result: LoadResult, flushed: seq<seq<Params>>, batch: seq<Params>, batchSize: nat)
    requires Progress(outcomes, n, result, flushed, batch, batchSize)
    requires n < |outcomes| && outcomes[n].Err?
    ensures Progress(outcomes, n + 1, RecordError(result, RowError(n, outcomes[n].error)), flushed, batch, batchSize)
  {
    StepOutcomes(outcomes, n);
    RecordCapped(Failures(outcomes[..n]), RowError(n, outcomes[n].error));
  }

  /** An accepted row joins the open batch, which is flushed once full. */
  lemma AcceptKeeps(outcomes: seq<Outcome>, n: nat, result: LoadResult, flushed: seq<seq<Params>>, batch: seq<Params>, batchSize: nat)
    requires Progress(outcomes, n, result, flushed, batch, batchSize)
    requires n < |outcomes| && outcomes[n].Ok?
    ensures var b := batch + [outcomes[n].value];
      if |b| >= batchSize then Progress(outcomes, n + 1, result.(rowsLoaded := result.rowsLoaded + |b|), flushed + [b], [], batchSize)
      else Progress(outcomes, n + 1, result, flushed, b, batchSize)
  {
    StepOutcomes(outcomes, n);
    var b := batch + [outcomes[n].value];
    FlattenAppend(flushed, b);
  }

  /** The row loop of `load_csv` over the rows' outcomes: accepted rows
      gather into a batch that is flushed once it reaches the batch size,
      and the remainder is flushed at the end; rejected rows are recorded. */
  method LoadOutcomes(outcomes: seq<Outcome>, batchSize: nat) returns (result: LoadResult, flushed: seq<seq<Params>>)
    ensures Flatten(flushed) == Accepted(outcomes)
    ensures result.rowsLoaded == |Accepted(outcomes)|
    ensures result.rowsFailed == |Failures(outcomes)|
    ensures result.rowsLoaded + result.rowsFailed == |outcomes|
    ensures result.errors == Capped(Failures(outcomes))
    ensures forall k :: 0 <= k < |flushed| ==> 0 < |flushed[k]| <= FlushSize(batchSize)
    ensures forall k :: 0 <= k < |flushed| - 1 ==> |flushed[k]| == FlushSize(batchSize)
  {
    result := Fresh;
    flushed := [];
    var batch: seq<Params> := [];
    var n := 0;
    while n < |outcomes|
      invariant Progress(outcomes, n, result, flushed, batch, batchSize)
    {
      var outcome := outcomes[n];
      if outcome.Err? {
        RejectKeeps(outcomes, n, result, flushed, batch, batchSize);
        result := RecordError(result, RowError(n, outcome.error));
      } else {
        AcceptKeeps(outcomes, n, result, flushed, batch, batchSize);
        batch := batch + [outcome.value];
        if |batch| >= batchSize {
          flushed := flushed + [batch];
          result := result.(rowsLoaded := result.rowsLoaded + |batch|);
          batch := [];
        }
      }
      n := n + 1;
    }
    result, flushed := FlushRest(outcomes, result, flushed, batch, batchSize);
  }

  /** The end of the row loop: the open batch, if any, is flushed. */
  method FlushRest(outcomes: seq<Outcome>, result: LoadResult, flushed: seq<seq<Params>>, batch: seq<Params>, batchSize: nat)
    returns (done: LoadResult, all: seq<seq<Params>>)
    requires Progress(outcomes, |outcomes|, result, flushed, batch, batchSize)
    ensures Flatten(all) == Accepted(outcomes)
    ensures done.rowsLoaded == |Accepted(outcomes)|
    ensures done.rowsFailed == |Failures(outcomes)|
    ensures done.rowsLoaded + done.rowsFailed == |outcomes|
    ensures done.errors == Capped(Failures(outcomes))
    ensures forall k :: 0 <= k < |all| ==> 0 < |all[k]| <= FlushSize(batchSize)
    ensures forall k :: 0 <= k < |all| - 1 ==> |all[k]| == FlushSize(batchSize)
  {
    assert outcomes[..|outcomes|] == outcomes;
    done, all := result, flushed;
    if batch != [] {
      FlattenAppend(flushed, batch);
      all := flushed + [batch];
      done := result.(rowsLoaded := result.rowsLoaded + |batch|);
    }
    EveryRowCounted(outcomes);
  }

  /** `load_csv` with the module's own `BATCH_SIZE`: every flushed batch
      holds at most 500 rows, every one but the last exactly 500, so the
      loaded rows take ceil(loaded / 500) flushes: more than 500 rows for
      every flush but the last, and at most 500 for each. */
  method LoadCsvInBatches(p: Parsers, columns: seq<Sources.ColumnMeta>, headers: seq<string>, rows: seq<Inference.Row>)
    returns (result: LoadResult, flushed: seq<seq<Params>>)
    ensures result.rowsLoaded == |Flatten(flushed)|
    ensures forall k :: 0 <= k < |flushed| ==> 0 < |flushed[k]| <= 500
    ensures 500 * (|flushed| - 1) < result.rowsLoaded <= 500 * |flushed|
  {
    result, flushed := LoadCsv(p, columns, headers, rows, BatchSize);
    if flushed != [] {
      BatchCount(flushed, BatchSize);
    }
  }

  /** Batches that are all full hold `m` rows each. */
  lemma {:induction false} FullBatches(bs: seq<seq<Params>>, m: nat)
    requires forall k :: 0 <= k < |bs| ==> |bs[k]| == m
    ensures |Flatten(bs)| == m * |bs|
    decreases |bs|
  {
    if bs != [] {
      var init := bs[..|bs| - 1];
      assert forall k :: 0 <= k < |init| ==> init[k] == bs[k];
      FullBatches(init, m);
      assert |Flatten(bs)| == m * |init| + m;
    }
  }

  /** Full batches followed by one non-empty partial batch: their number
      is the row count divided by the batch size, rounded up. */
  lemma BatchCount(bs: seq<seq<Params>>, m: nat)
    requires m >= 1 && |bs| > 0
    requires forall k :: 0 <= k < |bs| ==> 0 < |bs[k]| <= m
    requires forall k :: 0 <= k < |bs| - 1 ==> |bs[k]| == m
    ensures m * (|bs| - 1) < |Flatten(bs)| <= m * |bs|
  {
    var n := |bs| - 1;
    var init := bs[..n];
    assert forall k :: 0 <= k < |init| ==> init[k] == bs[k];
    FullBatches(init, m);
    var l := |bs[n]|;
    assert |Flatten(bs)| == m * n + l;
    assert m * |bs| == m * n + m;
  }

  // ---------------------------------------------------------------------
  // The type named in a conversion error, as the loader writes it

  /** The type name `load_csv` puts in a conversion error as written: the
      stored type of the column at the failing header's position among the
      matched headers, which is another column's type once the CSV orders
      its headers differently from the columns; `None` where that position
      is past the last column and the lookup raises `IndexError`. */
  function ErrorTypeAsWritten(columns: seq<Sources.ColumnMeta>, f: Failure): (r: Option<string>)
    ensures r.Some? <==> f.index < |columns|
    ensures r.Some? ==> r.value == columns[f.index].dataType
  {
    if f.index < |columns| then Some(columns[f.index].dataType) else None
  }

  /** "maybe" is neither a true nor a false token and needs no stripping. */
  lemma MaybeIsNotBoolean()
    ensures Strip("maybe") == "maybe"
    ensures ToBooleanValue("maybe") == None
  {
    StripUnchanged("maybe");
    LowerUnchanged("maybe");
  }

  /** A single matched header whose cell does not convert fails the row
      at position 0. */
  lemma FailsAtOnlyTarget(p: Parsers, t: Target, row: Inference.Row)
    requires ConvertCell(p, row, t).Err?
    ensures ConvertRow(p, [t], row).Err? && ConvertRow(p, [t], row).error.index == 0
  {
  }

  /** Two matched headers, the first cell fine and the second not: the row
      fails at position 1. */
  lemma FailsAtSecondTarget(p: Parsers, t: Target, u: Target, row: Inference.Row)
    requires ConvertCell(p, row, t).Ok? && ConvertCell(p, row, u).Err?
    ensures ConvertRow(p, [t, u], row).Err? && ConvertRow(p, [t, u], row).error.index == 1
    ensures ConvertRow(p, [t, u], row).error.dataType == u.column.dataType
  {
    var ts := [t, u];
    assert ts[0] == t && ts[1] == u;
    var r := ConvertRow(p, ts, row);
    assert !ConvertCell(p, row, ts[1]).Ok?;
    assert r.Err?;
    assert r.error.index != 0;
  }

  /** Matching one header whose key names a column. */
  lemma MatchOne(h: string, lookup: map<string, Sources.ColumnMeta>, key: string -> string)
    requires key(h) in lookup
    ensures Matches([h], lookup, key) == [Target(h, lookup[key(h)])]
  {
    assert [h][..0] == [];
  }

  /** Matching two distinct headers whose keys both name columns. */
  lemma MatchTwo(h1: string, h2: string, lookup: map<string, Sources.ColumnMeta>, key: string -> string)
    requires h1 != h2 && key(h1) in lookup && key(h2) in lookup
    ensures Matches([h1, h2], lookup, key) == [Target(h1, lookup[key(h1)]), Target(h2, lookup[key(h2)])]
  {
    assert [h1, h2][..1] == [h1];
    MatchOne(h1, lookup, key);
  }

  /** A cell holding "maybe" is refused by a BOOLEAN column. */
  lemma MaybeRefused(p: Parsers, row: Inference.Row, t: Target)
    requires t.header in row && row[t.header] == "maybe" && t.column.dataType == "BOOLEAN"
    ensures ConvertCell(p, row, t).Err?
  {
    MaybeIsNotBoolean();
  }

  /** A blank cell is accepted as NULL. */
  lemma BlankAccepted(p: Parsers, row: Inference.Row, t: Target)
    requires t.header in row && row[t.header] == ""
    ensures ConvertCell(p, row, t) == Ok(None)
  {
    assert Strip("") == "";
  }

  /** Columns `name` (STRING) then `active` (BOOLEAN), and a CSV holding
      only `active`: a row whose `active` is "maybe" is rejected against
      the BOOLEAN column, but the message as written names STRING, the
      type of the first column. */
  lemma ErrorNamesAnotherColumnsType(p: Parsers, columns: seq<Sources.ColumnMeta>, row: Inference.Row)
    requires columns == [Sources.ColumnMeta("name", "Name", "STRING", false),
                         Sources.ColumnMeta("active", "Active", "BOOLEAN", false)]
    requires row == map["active" := "maybe"]
    ensures var r := ConvertRow(p, Matches(["active"], ColumnLookup(columns), LocalSanitize), row);
      r.Err? && r.error.dataType == "BOOLEAN" && ErrorTypeAsWritten(columns, r.error) == Some("STRING")
  {
    var lookup := ColumnLookup(columns);
    IdentifierWordSanitizesToItself("active");
    LookupKeepsLast(columns, 1);
    MatchOne("active", lookup, LocalSanitize);
    var t := Target("active", columns[1]);
    MaybeRefused(p, row, t);
    FailsAtOnlyTarget(p, t, row);
  }

  /** One BOOLEAN column and two distinct headers that both sanitise to
      it: a row with the first cell blank and the second "maybe" fails on
      the second matched header, and the loader as written looks up a
      second column that does not exist. */
  lemma ErrorTypeLookupOverruns(p: Parsers, c: Sources.ColumnMeta, h1: string, h2: string, row: Inference.Row)
    requires c.dataType == "BOOLEAN" && h1 != h2
    requires LocalSanitize(h1) == c.physicalName && LocalSanitize(h2) == c.physicalName
    requires h1 in row && row[h1] == "" && h2 in row && row[h2] == "maybe"
    ensures var r := ConvertRow(p, Matches([h1, h2], ColumnLookup([c]), LocalSanitize), row);
      r.Err? && r.error.index == 1 && r.error.dataType == "BOOLEAN" && ErrorTypeAsWritten([c], r.error).None?
  {
    var ts := Matches([h1, h2], ColumnLookup([c]), LocalSanitize);
    CollidingHeaders(c, h1, h2);
    assert ts == [Target(h1, c), Target(h2, c)];
    CellsOfCollision(p, c, h1, h2, row);
    SecondTargetOverruns(p, c, h1, h2, row);
  }

  /** The blank cell is accepted and "maybe" refused by the BOOLEAN column. */
  lemma CellsOfCollision(p: Parsers, c: Sources.ColumnMeta, h1: string, h2: string, row: Inference.Row)
    requires c.dataType == "BOOLEAN"
    requires h1 in row && row[h1] == "" && h2 in row && row[h2] == "maybe"
    ensures ConvertCell(p, row, Target(h1, c)).Ok? && ConvertCell(p, row, Target(h2, c)).Err?
  {
    BlankAccepted(p, row, Target(h1, c));
    MaybeRefused(p, row, Target(h2, c));
  }

  /** Two distinct headers with the key of the only column both match it. */
  lemma CollidingHeaders(c: Sources.ColumnMeta, h1: string, h2: string)
    requires h1 != h2 && LocalSanitize(h1) == c.physicalName && LocalSanitize(h2) == c.physicalName
    ensures Matches([h1, h2], ColumnLookup([c]), LocalSanitize) == [Target(h1, c), Target(h2, c)]
  {
    var lookup := ColumnLookup([c]);
    LookupKeepsLast([c], 0);
    MatchTwo(h1, h2, lookup, LocalSanitize);
  }

  /** Two targets on one column, the first cell accepted and the second
      refused: the row fails at the second, past the one-column list. */
  lemma SecondTargetOverruns(p: Parsers, c: Sources.ColumnMeta, h1: string, h2: string, row: Inference.Row)
    requires ConvertCell(p, row, Target(h1, c)).Ok? && ConvertCell(p, row, Target(h2, c)).Err?
    ensures var r := ConvertRow(p, [Target(h1, c), Target(h2, c)], row);
      r.Err? && r.error.index == 1 && r.error.dataType == c.dataType && ErrorTypeAsWritten([c], r.error).None?
  {
    FailsAtSecondTarget(p, Target(h1, c), Target(h2, c), row);
  }

  /** The headers `flag` and `Flag` both sanitise to the physical name
      `flag`, so a CSV carrying both meets the premises above against a
      BOOLEAN column `flag`. */
  lemma FlagHeadersCollide()
    ensures LocalSanitize("flag") == "flag" && LocalSanitize("Flag") == "flag"
  {
    IdentifierWordSanitizesToItself("flag");
    CapitalSanitizesLikeLower();
  }

  /** "Flag" sanitises as "flag" does. */
  lemma CapitalSanitizesLikeLower()
    ensures LocalSanitize("Flag") == LocalSanitize("flag")
  {
    var a, b := Lower("Flag"), Lower("flag");
    assert a[0] == LowerChar('F') == 'f' == b[0];
    assert a[1] == b[1] && a[2] == b[2] && a[3] == b[3];
    assert a == b;
  }
}
