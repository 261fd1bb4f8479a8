/** Table provisioning: turning a project name and its finalised columns
    into a safe table name, safe column names and whitelisted SQL types.
    Executing the DDL and inserting the registry rows are left to the
    database; the model stops at the plan that would be executed. */
module Provisioning {
  import opened Wrappers
  import opened Text
  import Sources
  import Inference

  /** PostgreSQL's identifier length limit. */
  const MaxIdentifier: nat := 63

  /** The registry's `table_name` column is `String(63)`. */
  const TableNameColumnWidth: nat := 63

  const TablePrefix := "src_"

  datatype Error = UnsafeIdentifier(name: string) | UnsupportedType(dataType: string)

  /** The characters `[^a-z0-9]` matches. */
  predicate IsSeparator(c: char) {
    !(IsLowerLetter(c) || IsDigit(c))
  }

  predicate IsUnderscore(c: char) {
    c == '_'
  }

  predicate IsIdentifierChar(c: char) {
    IsLowerLetter(c) || IsDigit(c) || c == '_'
  }

  /** `^[a-z][a-z0-9_]*$` */
  predicate ValidIdentifier(s: string) {
    |s| > 0 && IsLowerLetter(s[0]) && forall k :: 0 <= k < |s| ==> IsIdentifierChar(s[k])
  }

  predicate NoDoubleUnderscore(s: string) {
    NoDouble(s, '_')
  }

  /** The letters and digits of the lower-cased name, in order. */
  function Alphanumerics(name: string): string {
    Without(Lower(name), IsSeparator)
  }

  /** `re.sub(r"[^a-z0-9]+", "_", name.lower()).strip("_")`: identifier
      characters only, no underscore at either end or twice in a row, and
      every letter and digit of the lower-cased name kept in order. */
  function Slug(name: string): (r: string)
    ensures |r| <= |name|
    ensures forall k :: 0 <= k < |r| ==> IsIdentifierChar(r[k])
    ensures r != [] ==> r[0] != '_' && r[|r| - 1] != '_'
    ensures NoDoubleUnderscore(r)
    ensures Without(r, IsSeparator) == Alphanumerics(name)
  {
    var runs := ReplaceRuns(Lower(name), IsSeparator, '_');
    ReplaceRunsNoDouble(Lower(name), IsSeparator, '_');
    ReplaceRunsKeepsOthers(Lower(name), IsSeparator, '_');
    SlugShape(runs);
    WithoutTrim(runs, IsUnderscore, IsSeparator);
    Trim(runs, IsUnderscore)
  }

  /** Trimming underscores keeps a run-collapsed string's shape. */
  lemma SlugShape(runs: string)
    requires forall k :: 0 <= k < |runs| ==> runs[k] == '_' || !IsSeparator(runs[k])
    requires NoDoubleUnderscore(runs)
    ensures var r := Trim(runs, IsUnderscore);
      && (forall k :: 0 <= k < |r| ==> IsIdentifierChar(r[k]))
      && NoDoubleUnderscore(r)
  {
    var r := Trim(runs, IsUnderscore);
    var off := TrimIsSlice(runs, IsUnderscore);
    NoDoubleSlice(runs, '_', off, off + |r|);
    IdentifierCharsSlice(runs, r, off);
  }

  lemma IdentifierCharsSlice(runs: string, r: string, i: nat)
    requires i + |r| <= |runs| && r == runs[i..i + |r|]
    requires forall k :: 0 <= k < |runs| ==> runs[k] == '_' || !IsSeparator(runs[k])
    ensures forall k :: 0 <= k < |r| ==> IsIdentifierChar(r[k])
  {
    forall k | 0 <= k < |r|
      ensures IsIdentifierChar(r[k])
    {
      assert r[k] == runs[i + k];
    }
  }

  /** The first character of a non-empty slug is its first letter or digit. */
  lemma SlugHead(name: string)
    ensures Slug(name) == [] <==> Alphanumerics(name) == []
    ensures Slug(name) != [] ==> Slug(name)[0] == Alphanumerics(name)[0]
  {
    var s := Slug(name);
    if s != [] {
      assert !IsSeparator(s[0]);
      assert Without(s, IsSeparator) == [s[0]] + Without(s[1..], IsSeparator);
    }
  }

  /** A slug is a valid identifier exactly when the name's first letter
      or digit exists and is a letter. */
  lemma SlugValid(name: string)
    ensures ValidIdentifier(Slug(name)) <==> Alphanumerics(name) != [] && !IsDigit(Alphanumerics(name)[0])
  {
    SlugHead(name);
    var s := Slug(name);
    if s != [] {
      assert !IsSeparator(s[0]);
    }
  }

  /** Cutting a valid identifier short keeps it valid. */
  lemma TruncationKeepsValid(s: string, n: nat)
    requires ValidIdentifier(s) && NoDoubleUnderscore(s) && n > 0
    ensures ValidIdentifier(Take(s, n)) && NoDoubleUnderscore(Take(s, n))
  {
    var t := Take(s, n);
    assert forall k :: 0 <= k < |t| ==> t[k] == s[k];
  }

  /** `_sanitize_identifier`: refuses a name whose lower-cased form has no
      letter or digit, or whose first letter-or-digit is a digit; otherwise
      a valid identifier of at most 63 characters, with no doubled
      underscore, whose letters and digits begin the name's own (all of
      them when the name is at most 63 characters long). */
  function Sanitize(name: string): (r: Result<string, Error>)
    ensures r.Err? <==> Alphanumerics(name) == [] || IsDigit(Alphanumerics(name)[0])
    ensures r.Err? ==> r.error == UnsafeIdentifier(name)
    ensures r.Ok? ==> ValidIdentifier(r.value) && |r.value| <= MaxIdentifier && NoDoubleUnderscore(r.value)
    ensures r.Ok? ==> Without(r.value, IsSeparator) <= Alphanumerics(name)
    ensures r.Ok? && |name| <= MaxIdentifier ==> Without(r.value, IsSeparator) == Alphanumerics(name)
  {
    var slug := Slug(name);
    SlugValid(name);
    if slug == [] || !ValidIdentifier(slug) then Err(UnsafeIdentifier(name))
    else
      TruncationKeepsValid(slug, MaxIdentifier);
      WithoutPrefix(Take(slug, MaxIdentifier), slug, IsSeparator);
      Ok(Take(slug, MaxIdentifier))
  }

  /** A name with at least 63 letters and digits, the first a letter,
      sanitises to exactly 63 characters. */
  lemma LongNamesFillTheLimit(name: string)
    requires |Alphanumerics(name)| >= MaxIdentifier && IsLowerLetter(Alphanumerics(name)[0])
    ensures Sanitize(name).Ok? && |Sanitize(name).value| == MaxIdentifier
  {
    SlugCoversAlphanumerics(name);
    SanitizeTakesSlug(name);
  }

  lemma SlugCoversAlphanumerics(name: string)
    ensures |Alphanumerics(name)| <= |Slug(name)|
  {
    assert |Without(Slug(name), IsSeparator)| <= |Slug(name)|;
  }

  lemma SanitizeTakesSlug(name: string)
    requires Sanitize(name).Ok?
    ensures Sanitize(name).value == Take(Slug(name), MaxIdentifier)
  {
  }

  /** "123abc" starts with a digit and is refused. */
  lemma SanitizeRefusesLeadingDigit()
    ensures Sanitize("123abc") == Err(UnsafeIdentifier("123abc"))
  {
    var lower := Lower("123abc");
    assert lower[0] == '1';
    assert Without(lower, IsSeparator) == [lower[0]] + Without(lower[1..], IsSeparator);
  }

  /** "!!!" has no letter or digit and is refused, as is the empty name. */
  lemma SanitizeRefusesNoAlphanumerics()
    ensures Sanitize("!!!") == Err(UnsafeIdentifier("!!!"))
    ensures Sanitize("") == Err(UnsafeIdentifier(""))
  {
    WithoutAllDropped(Lower("!!!"), IsSeparator);
  }

  /** "Hello World" becomes "hello_world". */
  lemma SanitizeAcceptsHelloWorld()
    ensures Sanitize("Hello World") == Ok("hello_world")
  {
    HelloWorldSlug();
    assert ValidIdentifier("hello_world");
    assert Take("hello_world", MaxIdentifier) == "hello_world";
  }

  lemma HelloWorldSlug()
    ensures Slug("Hello World") == "hello_world"
  {
    HelloWorldSameSlug();
    HelloWorldJoined();
  }

  lemma HelloWorldSameSlug()
    ensures Slug("Hello World") == Slug("hello" + " " + "world")
  {
    HelloWorldLower();
    SlugSameLower("Hello World", "hello" + " " + "world");
  }

  lemma HelloWorldLower()
    ensures Lower("Hello World") == Lower("hello" + " " + "world")
  {
    var s := Lower("Hello World");
    assert s[0] == 'h' && s[5] == ' ' && s[6] == 'w';
    WordHasNoSeparator("hello");
    WordHasNoSeparator("world");
    TwoWordsLower("hello", "world");
  }

  lemma HelloWorldJoined()
    ensures Slug("hello" + " " + "world") == "hello_world"
  {
    HelloWorldWords();
    assert "hello" + "_" + "world" == "hello_world";
  }

  lemma HelloWorldWords()
    ensures Slug("hello" + " " + "world") == "hello" + "_" + "world"
  {
    WordHasNoSeparator("hello");
    WordHasNoSeparator("world");
    TwoWords("hello", "world");
  }

  lemma WordHasNoSeparator(w: string)
    requires forall k :: 0 <= k < |w| ==> IsLowerLetter(w[k])
    ensures forall k :: 0 <= k < |w| ==> !IsSeparator(w[k])
  {
  }

  /** The slug sees only the lower-cased name. */
  lemma SlugSameLower(x: string, y: string)
    requires Lower(x) == Lower(y)
    ensures Slug(x) == Slug(y)
  {
  }

  /** Two words of lower-case letters and digits joined by a space become
      the words joined by one underscore. */
  lemma {:induction false} TwoWords(a: string, b: string)
    requires a != [] && b != []
    requires forall k :: 0 <= k < |a| ==> !IsSeparator(a[k])
    requires forall k :: 0 <= k < |b| ==> !IsSeparator(b[k])
    ensures Slug(a + " " + b) == a + "_" + b
  {
    var w := a + " " + b;
    var joined := a + "_" + b;
    TwoWordsLower(a, b);
    TwoWordsRuns(a, b);
    assert ReplaceRuns(Lower(w), IsSeparator, '_') == joined;
    assert joined[0] == a[0] && joined[|joined| - 1] == b[|b| - 1];
    assert TrimLeft(joined, IsUnderscore) == joined;
    assert TrimRight(joined, IsUnderscore) == joined;
  }

  lemma {:induction false} TwoWordsLower(a: string, b: string)
    requires forall k :: 0 <= k < |a| ==> !IsSeparator(a[k])
    requires forall k :: 0 <= k < |b| ==> !IsSeparator(b[k])
    ensures Lower(a + " " + b) == a + " " + b
  {
    var w := a + " " + b;
    forall k | 0 <= k < |w|
      ensures !IsUpperLetter(w[k])
    {
      if k < |a| {
        assert w[k] == a[k];
      } else if k > |a| {
        assert w[k] == b[k - |a| - 1];
      }
    }
    LowerUnchanged(w);
  }

  lemma {:induction false} TwoWordsRuns(a: string, b: string)
    requires b != []
    requires forall k :: 0 <= k < |a| ==> !IsSeparator(a[k])
    requires forall k :: 0 <= k < |b| ==> !IsSeparator(b[k])
    ensures ReplaceRuns(a + " " + b, IsSeparator, '_') == a + "_" + b
  {
    var w := a + " " + b;
    WordBeforeSpace(a, b);
    ReplaceRunsPrefix(w, |a|, IsSeparator, '_');
    Inference.AroundMiddle(a, " ", b);
    SpaceBecomesUnderscore(b);
    Inference.AroundMiddle(a, "_", b);
  }

  lemma WordBeforeSpace(a: string, b: string)
    requires forall k :: 0 <= k < |a| ==> !IsSeparator(a[k])
    ensures forall k :: 0 <= k < |a| ==> !IsSeparator((a + " " + b)[k])
  {
    var w := a + " " + b;
    forall k | 0 <= k < |a|
      ensures !IsSeparator(w[k])
    {
      assert w[k] == a[k];
    }
  }

  /** A space before a word of letters and digits becomes an underscore. */
  lemma {:induction false} SpaceBecomesUnderscore(b: string)
    requires b != [] && forall k :: 0 <= k < |b| ==> !IsSeparator(b[k])
    ensures ReplaceRuns(" " + b, IsSeparator, '_') == "_" + b
  {
    var s := " " + b;
    assert s[0] == ' ' && s[1..] == b;
    assert IsSeparator(' ');
    assert !IsSeparator(b[0]);
    assert TrimLeft(b, IsSeparator) == b;
    assert TrimLeft(s, IsSeparator) == b;
    ReplaceRunsUnchanged(b, IsSeparator, '_');
    assert ReplaceRuns(s, IsSeparator, '_') == ['_'] + ReplaceRuns(b, IsSeparator, '_');
  }

  // ---------------------------------------------------------------------
  // Table names

  /** "src_" in front of an identifier. */
  function Prefixed(s: string): (r: string)
    requires ValidIdentifier(s) && NoDoubleUnderscore(s)
    ensures ValidIdentifier(r) && NoDoubleUnderscore(r)
    ensures |r| == |TablePrefix| + |s| && r[..4] == TablePrefix && r[4..] == s
  {
    var r := TablePrefix + s;
    assert r[..4] == TablePrefix && r[4..] == s;
    assert r[0] == 's' && r[1] == 'r' && r[2] == 'c' && r[3] == '_';
    assert forall k :: 4 <= k < |r| ==> r[k] == s[k - 4];
    r
  }

  /** `_make_table_name` as written: "src_" and the sanitised project name,
      which may run to 67 characters although the registry stores at most
      63 and PostgreSQL keeps at most 63. */
  function MakeTableNameAsWritten(projectName: string): (r: Result<string, Error>)
    ensures r.Err? <==> Sanitize(projectName).Err?
    ensures r.Err? ==> r.error == UnsafeIdentifier(projectName)
    ensures r.Ok? ==> |r.value| == |TablePrefix| + |Sanitize(projectName).value|
    ensures r.Ok? ==> ValidIdentifier(r.value) && r.value[..4] == TablePrefix
    ensures r.Ok? ==> r.value[4..] == Sanitize(projectName).value
  {
    var s := Sanitize(projectName);
    if s.Err? then Err(s.error) else Ok(Prefixed(s.value))
  }

  /** Seventy letters make a 67-character table name, longer than the
      registry column and the identifier limit. */
  lemma TableNameTooLong()
    ensures var name := seq(70, _ => 'a');
      MakeTableNameAsWritten(name).Ok? && |MakeTableNameAsWritten(name).value| == 67 > TableNameColumnWidth
  {
    var name := seq(70, _ => 'a');
    assert Lower(name) == name;
    WithoutNothing(name, IsSeparator);
    LongNamesFillTheLimit(name);
  }

  /** The table name as evidently intended: "src_" and the sanitised project
      name cut so that the whole fits the registry column. */
  function TableName(projectName: string): (r: Result<string, Error>)
    ensures r.Err? <==> Sanitize(projectName).Err?
    ensures r.Err? ==> r.error == UnsafeIdentifier(projectName)
    ensures r.Ok? ==> ValidIdentifier(r.value) && NoDoubleUnderscore(r.value)
    ensures r.Ok? ==> |TablePrefix| < |r.value| <= TableNameColumnWidth
    ensures r.Ok? ==> r.value[..4] == TablePrefix
    ensures r.Ok? ==> r.value[4..] <= Sanitize(projectName).value
    ensures r.Ok? && |Sanitize(projectName).value| <= TableNameColumnWidth - |TablePrefix| ==>
      r.value == MakeTableNameAsWritten(projectName).value
  {
    var s := Sanitize(projectName);
    if s.Err? then Err(s.error)
    else
      TruncationKeepsValid(s.value, TableNameColumnWidth - |TablePrefix|);
      Ok(Prefixed(Take(s.value, TableNameColumnWidth - |TablePrefix|)))
  }

  // ---------------------------------------------------------------------
  // Type whitelist

  /** `_TYPE_MAP`: the five accepted type names and their PostgreSQL types,
      as (key, SQL type) pairs with distinct keys. */
  const TypeMap: seq<(string, string)> := [
    ("STRING", "TEXT"),
    ("INTEGER", "BIGINT"),
    ("FLOAT", "DOUBLE PRECISION"),
    ("BOOLEAN", "BOOLEAN"),
    ("DATE", "TIMESTAMP")]

  /** The value of `key` in a list of pairs, from its first pair. */
  function Lookup(pairs: seq<(string, string)>, key: string): (r: Option<string>)
    ensures r.Some? <==> exists i :: 0 <= i < |pairs| && pairs[i].0 == key
    ensures r.Some? ==> exists i :: 0 <= i < |pairs| && pairs[i] == (key, r.value)
  {
    if pairs == [] then None
    else if pairs[0].0 == key then Some(pairs[0].1)
    else
      var rest := Lookup(pairs[1..], key);
      assert forall i :: 1 <= i < |pairs| ==> pairs[i] == pairs[1..][i - 1];
      rest
  }

  /** One of the SQL types the whitelist can produce. */
  predicate SafeSqlType(t: string) {
    exists i :: 0 <= i < |TypeMap| && TypeMap[i].1 == t
  }

  /** The SQL type of a column: accepted exactly when the upper-cased name is
      a key of the whitelist, and then always one of its SQL types. */
  function SqlType(dataType: string): (r: Result<string, Error>)
    ensures r.Ok? <==> exists i :: 0 <= i < |TypeMap| && TypeMap[i].0 == Upper(dataType)
    ensures r.Ok? ==> SafeSqlType(r.value)
    ensures r.Err? ==> r.error == UnsupportedType(dataType)
  {
    var t := Lookup(TypeMap, Upper(dataType));
    if t.None? then Err(UnsupportedType(dataType)) else Ok(t.value)
  }

  /** Exactly the five type names are accepted, in any letter case, and
      each maps to its own SQL type. */
  lemma SqlTypeKeys(dataType: string)
    ensures SqlType(dataType).Ok? <==> Upper(dataType) in {"STRING", "INTEGER", "FLOAT", "BOOLEAN", "DATE"}
    ensures SafeSqlType("TEXT") && SafeSqlType("TIMESTAMP")
    ensures Upper(dataType) == "STRING" ==> SqlType(dataType) == Ok("TEXT")
    ensures Upper(dataType) == "INTEGER" ==> SqlType(dataType) == Ok("BIGINT")
    ensures Upper(dataType) == "FLOAT" ==> SqlType(dataType) == Ok("DOUBLE PRECISION")
    ensures Upper(dataType) == "BOOLEAN" ==> SqlType(dataType) == Ok("BOOLEAN")
    ensures Upper(dataType) == "DATE" ==> SqlType(dataType) == Ok("TIMESTAMP")
  {
    assert TypeMap[0].1 == "TEXT" && TypeMap[4].1 == "TIMESTAMP";
  }

  lemma KeyIsItsOwnUpperCase(i: nat)
    requires i < |TypeMap|
    ensures Upper(TypeMap[i].0) == TypeMap[i].0
  {
    UpperUnchanged(TypeMap[i].0);
  }

  lemma UpperOfLower(s: string)
    ensures Upper(Lower(s)) == Upper(s)
  {
  }

  /** The whitelist ignores letter case. */
  lemma SqlTypeIgnoresCase(dataType: string)
    ensures SqlType(Lower(dataType)).Ok? == SqlType(dataType).Ok?
    ensures SqlType(dataType).Ok? ==> SqlType(Lower(dataType)).value == SqlType(dataType).value
  {
    UpperOfLower(dataType);
  }

  /** Every type that schema inference proposes is a key of the whitelist,
      so an unedited inferred schema always provisions. */
  lemma InferredTypesAreProvisionable(t: Inference.ColumnType)
    ensures SqlType(Inference.TypeName(t)).Ok?
    ensures SafeSqlType(SqlType(Inference.TypeName(t)).value)
  {
    var i := match t
      case StringType => 0
      case IntegerType => 1
      case FloatType => 2
      case BooleanType => 3
      case DateType => 4;
    KeyIsItsOwnUpperCase(i);
    assert Inference.TypeName(t) == TypeMap[i].0;
  }

  // ---------------------------------------------------------------------
  // The column-definition list of provision_table

  /** A column as the schema editor finalised it. */
  datatype FinalizedColumn = FinalizedColumn(originalName: string, displayName: string, dataType: string, isUniqueId: bool)

  /** One column of the CREATE TABLE statement. */
  datatype ColumnDef = ColumnDef(name: string, sqlType: string)

  const IdColumn := ColumnDef("id", "BIGSERIAL PRIMARY KEY")

  /** What `provision_table` executes and registers. */
  datatype Plan = Plan(tableName: string, columnDefs: seq<ColumnDef>, registry: seq<Sources.ColumnMeta>)

  /** One column of `provision_table`: its name is sanitised first, then its
      type looked up; an accepted column yields a valid identifier with a
      whitelisted type, and a registry row with the upper-cased type name. */
  function CheckColumn(c: FinalizedColumn): (r: Result<(ColumnDef, Sources.ColumnMeta), Error>)
    ensures r.Ok? <==> Sanitize(c.originalName).Ok? && SqlType(c.dataType).Ok?
    ensures r.Err? ==> r.error == (if Sanitize(c.originalName).Err? then UnsafeIdentifier(c.originalName)
                                   else UnsupportedType(c.dataType))
    ensures r.Ok? ==> ValidIdentifier(r.value.0.name) && SafeSqlType(r.value.0.sqlType)
    ensures r.Ok? ==> r.value.1.physicalName == r.value.0.name && r.value.1.displayName == c.displayName
                      && r.value.1.dataType == Upper(c.dataType) && r.value.1.isUniqueId == c.isUniqueId
  {
    var phys := Sanitize(c.originalName);
    if phys.Err? then Err(phys.error)
    else
      var sqlType := SqlType(c.dataType);
      if sqlType.Err? then Err(sqlType.error)
      else Ok((ColumnDef(phys.value, sqlType.value),
               Sources.ColumnMeta(phys.value, c.displayName, Upper(c.dataType), c.isUniqueId)))
  }

  /** The column part of the plan: the id column first, then one
      definition per column in order; one registry row per column; or the
      first column's refusal. */
  function PlanColumns(columns: seq<FinalizedColumn>): (r: Result<(seq<ColumnDef>, seq<Sources.ColumnMeta>), Error>)
    ensures r.Ok? <==> forall i :: 0 <= i < |columns| ==> CheckColumn(columns[i]).Ok?
    ensures r.Err? ==> exists i :: FirstFailure(columns, CheckColumn, i) && CheckColumn(columns[i]) == Err(r.error)
    ensures r.Ok? ==> |r.value.0| == |columns| + 1 && r.value.0[0] == IdColumn && |r.value.1| == |columns|
    ensures r.Ok? ==> forall i :: 0 <= i < |columns| ==>
      CheckColumn(columns[i]) == Ok((r.value.0[i + 1], r.value.1[i]))
  {
    PlanWith(columns, CheckColumn)
  }

  /** `PlanColumns` for any per-column check. */
  function PlanWith<T>(columns: seq<T>, check: T -> Result<(ColumnDef, Sources.ColumnMeta), Error>): (r: Result<(seq<ColumnDef>, seq<Sources.ColumnMeta>), Error>)
    ensures r.Ok? <==> forall i :: 0 <= i < |columns| ==> check(columns[i]).Ok?
    ensures r.Err? ==> exists i :: FirstFailure(columns, check, i) && check(columns[i]) == Err(r.error)
    ensures r.Ok? ==> |r.value.0| == |columns| + 1 && r.value.0[0] == IdColumn && |r.value.1| == |columns|
    ensures r.Ok? ==> forall i :: 0 <= i < |columns| ==>
      check(columns[i]) == Ok((r.value.0[i + 1], r.value.1[i]))
  {
    var checked := MapAll(columns, check);
    if checked.Err? then Err(checked.error)
    else
      var defs := [IdColumn] + seq(|columns|, i requires 0 <= i < |columns| => checked.value[i].0);
      var registry := seq(|columns|, i requires 0 <= i < |columns| => checked.value[i].1);
      Ok((defs, registry))
  }

  /** Every definition of an accepted plan after the id column is a valid
      identifier with a whitelisted type: nothing the user typed reaches the
      CREATE TABLE statement unchecked. */
  lemma PlanIsSafe(columns: seq<FinalizedColumn>)
    requires PlanColumns(columns).Ok?
    ensures var defs := PlanColumns(columns).value.0;
      forall i :: 1 <= i < |defs| ==> ValidIdentifier(defs[i].name) && SafeSqlType(defs[i].sqlType)
  {
    var defs := PlanColumns(columns).value.0;
    forall i | 1 <= i < |defs|
      ensures ValidIdentifier(defs[i].name) && SafeSqlType(defs[i].sqlType)
    {
      assert CheckColumn(columns[i - 1]).value.0 == defs[(i - 1) + 1];
    }
  }

  /** `provision_table` up to the DDL: the table name is checked first, then
      the columns in order, and the first refusal is the result; an accepted
      plan names the table as `TableName` does and carries the column part. */
  method PlanTable(projectName: string, columns: seq<FinalizedColumn>) returns (r: Result<Plan, Error>)
    ensures r.Ok? <==> TableName(projectName).Ok? && PlanColumns(columns).Ok?
    ensures TableName(projectName).Err? ==> r == Err(TableName(projectName).error)
    ensures TableName(projectName).Ok? && r.Err? ==> r == Err(PlanColumns(columns).error)
    ensures r.Ok? ==> r.value == Plan(TableName(projectName).value, PlanColumns(columns).value.0, PlanColumns(columns).value.1)
  {
    var table := TableName(projectName);
    if table.Err? {
      return Err(table.error);
    }
    var parts := PlanColumns(columns);
    if parts.Err? {
      return Err(parts.error);
    }
    r := Ok(Plan(table.value, parts.value.0, parts.value.1));
  }
}
