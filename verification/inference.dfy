/** Schema inference: the type, display name and primary-key hint that the
    upload screen proposes for each CSV column, computed from a sample of the
    first rows. CSV decoding is left to the caller: a file is its header
    list and its rows, each row a map from header to cell text. */
module Inference {
  import opened Wrappers
  import opened Text
  import opened Parsers

  datatype ColumnType = StringType | IntegerType | FloatType | BooleanType | DateType

  /** The type name stored in `inferred_type`. */
  function TypeName(t: ColumnType): string {
    match t
    case StringType => "STRING"
    case IntegerType => "INTEGER"
    case FloatType => "FLOAT"
    case BooleanType => "BOOLEAN"
    case DateType => "DATE"
  }

  const BoolTrue: set<string> := {"true", "yes", "1", "t", "y"}
  const BoolFalse: set<string> := {"false", "no", "0", "f", "n"}

  /** `_is_boolean`: the stripped, lower-cased value is one of the ten tokens. */
  predicate IsBoolean(v: string) {
    Lower(Strip(v)) in BoolTrue + BoolFalse
  }

  /** `_is_integer`: `int()` accepts the value once stripped and comma-free. */
  predicate IsInteger(p: Parsers, v: string) {
    p.parseInt(NumericText(v)).Some?
  }

  /** `_is_float`: `float()` accepts the value once stripped and comma-free. */
  predicate IsFloat(p: Parsers, v: string) {
    p.parseFloat(NumericText(v)).Some?
  }

  /** `_is_date`: `dateutil` parses the stripped value. */
  predicate IsDate(p: Parsers, v: string) {
    p.parseDate(Strip(v)).Some?
  }

  /** How many elements satisfy `f`. */
  function CountWhere<T>(xs: seq<T>, f: T -> bool): (n: nat)
    ensures n <= |xs|
    ensures n == 0 <==> forall i :: 0 <= i < |xs| ==> !f(xs[i])
    ensures n == |xs| <==> forall i :: 0 <= i < |xs| ==> f(xs[i])
  {
    if xs == [] then 0
    else
      var rest := CountWhere(xs[1..], f);
      assert forall i :: 1 <= i < |xs| ==> xs[i] == xs[1..][i - 1];
      (if f(xs[0]) then 1 else 0) + rest
  }

  /** `sum(1 for v in values if _is_date(v))`. */
  function DateCount(p: Parsers, values: seq<string>): nat {
    CountWhere(values, v => IsDate(p, v))
  }

  /** The date test as the code reads it, `date_count / len(values) >= 0.6`,
      in exact arithmetic. */
  predicate MostlyDates(p: Parsers, values: seq<string>)
    requires values != []
  {
    (DateCount(p, values) as real) / (|values| as real) >= 0.6
  }

  /** The 60% threshold in integers: at least three dates in every five. */
  lemma MostlyDatesInIntegers(p: Parsers, values: seq<string>)
    requires values != []
    ensures MostlyDates(p, values) <==> 5 * DateCount(p, values) >= 3 * |values|
  {
    RatioThreshold(DateCount(p, values), |values|);
  }

  /** `d / n >= 0.6` exactly when `5 d >= 3 n`. */
  lemma RatioThreshold(d: nat, n: nat)
    requires n > 0
    ensures (d as real) / (n as real) >= 0.6 <==> 5 * d >= 3 * n
  {
    if (d as real) / (n as real) >= 0.6 {
      RatioAtLeast(d, n);
    } else {
      RatioBelow(d, n);
    }
  }

  lemma RatioAtLeast(d: nat, n: nat)
    requires n > 0 && (d as real) / (n as real) >= 0.6
    ensures 5 * d >= 3 * n
  {
    var m := n as real;
    var q := (d as real) / m;
    assert q * m == d as real;
    ScaleAtMost(0.6, q, m);
    assert 5.0 * (d as real) >= 3.0 * m;
    assert (5 * d) as real >= (3 * n) as real;
  }

  lemma RatioBelow(d: nat, n: nat)
    requires n > 0 && (d as real) / (n as real) < 0.6
    ensures 5 * d < 3 * n
  {
    var m := n as real;
    var q := (d as real) / m;
    assert q * m == d as real;
    ScaleBelow(q, 0.6, m);
    assert 5.0 * (d as real) < 3.0 * m;
    assert (5 * d) as real < (3 * n) as real;
  }

  lemma ScaleAtMost(a: real, b: real, m: real)
    requires a <= b && m > 0.0
    ensures a * m <= b * m
  {
  }

  lemma ScaleBelow(a: real, b: real, m: real)
    requires a < b && m > 0.0
    ensures a * m < b * m
  {
  }

  /** `_infer_type`: the first type of the lattice
      BOOLEAN, INTEGER, FLOAT, DATE (60% of the values), STRING
      that the sample satisfies; an empty sample is STRING. */
  function InferType(p: Parsers, values: seq<string>): (t: ColumnType)
    ensures values == [] ==> t == StringType
    ensures t == BooleanType <==> values != [] && forall i :: 0 <= i < |values| ==> IsBoolean(values[i])
    ensures t == IntegerType ==> forall i :: 0 <= i < |values| ==> IsInteger(p, values[i])
    ensures t == FloatType ==> forall i :: 0 <= i < |values| ==> IsFloat(p, values[i])
    ensures t == DateType ==> 5 * DateCount(p, values) >= 3 * |values| > 0
    ensures t == StringType && values != [] ==> 5 * DateCount(p, values) < 3 * |values|
  {
    if values == [] then StringType
    else
      MostlyDatesInIntegers(p, values);
      if forall i :: 0 <= i < |values| ==> IsBoolean(values[i]) then BooleanType
      else if forall i :: 0 <= i < |values| ==> IsInteger(p, values[i]) then IntegerType
      else if forall i :: 0 <= i < |values| ==> IsFloat(p, values[i]) then FloatType
      else if MostlyDates(p, values) then DateType
      else StringType
  }

  /** The lattice read downwards: each type is chosen exactly when every type
      above it fails and its own test passes. */
  lemma InferTypeOrder(p: Parsers, values: seq<string>)
    requires values != []
    requires !forall i :: 0 <= i < |values| ==> IsBoolean(values[i])
    ensures (forall i :: 0 <= i < |values| ==> IsInteger(p, values[i])) ==> InferType(p, values) == IntegerType
    ensures ((exists i :: 0 <= i < |values| && !IsInteger(p, values[i]))
             && (forall i :: 0 <= i < |values| ==> IsFloat(p, values[i])))
            ==> InferType(p, values) == FloatType
    ensures ((exists i :: 0 <= i < |values| && !IsInteger(p, values[i]))
             && (exists i :: 0 <= i < |values| && !IsFloat(p, values[i])))
            ==> (InferType(p, values) == DateType <==> 5 * DateCount(p, values) >= 3 * |values|)
  {
    MostlyDatesInIntegers(p, values);
  }

  /** "0" and "1" are boolean tokens. */
  lemma ZeroAndOneAreBoolean()
    ensures IsBoolean("0") && IsBoolean("1")
  {
    StripUnchanged("0");
    StripUnchanged("1");
    assert Lower("0") == "0";
    assert Lower("1") == "1";
  }

  /** A column of zeros and ones is BOOLEAN whatever `int()` says of it. */
  lemma ZeroOneColumnIsBoolean(p: Parsers, values: seq<string>)
    requires values != []
    requires forall i :: 0 <= i < |values| ==> values[i] == "0" || values[i] == "1"
    ensures InferType(p, values) == BooleanType
  {
    ZeroAndOneAreBoolean();
  }

  // ---------------------------------------------------------------------
  // Primary-key candidates

  const KeyHints: seq<string> := ["id", "key", "code", "number", "num", "no"]

  /** The lower-cased column name contains one of the hints. */
  predicate HasKeyHint(name: string) {
    exists h :: h in KeyHints && Contains(Lower(name), h)
  }

  /** No value occurs twice. */
  predicate Distinct(values: seq<string>) {
    forall i, j :: 0 <= i < j < |values| ==> values[i] != values[j]
  }

  function Elements(values: seq<string>): set<string> {
    set v | v in values
  }

  /** `_is_primary_key_candidate`: a name hint, as many distinct values as
      values, and no blank value. */
  predicate IsPrimaryKeyCandidate(name: string, values: seq<string>) {
    && HasKeyHint(name)
    && |values| == |Elements(values)|
    && forall i :: 0 <= i < |values| ==> Strip(values[i]) != []
  }

  /** A sequence has fewer distinct elements than entries unless its entries
      are pairwise distinct: `len(values) == len(set(values))` is the
      distinctness test it is meant to be. */
  lemma {:induction false} CardinalityIsDistinctness(values: seq<string>)
    ensures |Elements(values)| <= |values|
    ensures |Elements(values)| == |values| <==> Distinct(values)
    decreases |values|
  {
    if values != [] {
      var rest := values[1..];
      CardinalityIsDistinctness(rest);
      assert Elements(values) == {values[0]} + Elements(rest);
      assert forall i :: 1 <= i < |values| ==> values[i] == rest[i - 1];
      if values[0] in rest {
        assert Elements(values) == Elements(rest);
        var k :| 0 <= k < |rest| && rest[k] == values[0];
        assert values[k + 1] == values[0];
        assert !Distinct(values);
      } else {
        assert |Elements(values)| == 1 + |Elements(rest)|;
        if Distinct(rest) {
          forall i, j | 0 <= i < j < |values| ensures values[i] != values[j] {
            if i > 0 {
              assert values[i] == rest[i - 1] && values[j] == rest[j - 1];
            } else {
              assert values[j] == rest[j - 1];
            }
          }
        } else {
          var i, j :| 0 <= i < j < |rest| && rest[i] == rest[j];
          assert values[i + 1] == values[j + 1];
        }
      }
    }
  }

  /** The candidate test of `_is_primary_key_candidate`: the unique,
      non-empty values its docstring names, and a key hint in the name. */
  lemma PrimaryKeyCandidateMeaning(name: string, values: seq<string>)
    ensures IsPrimaryKeyCandidate(name, values) <==>
      HasKeyHint(name) && Distinct(values) && forall i :: 0 <= i < |values| ==> Strip(values[i]) != []
  {
    CardinalityIsDistinctness(values);
  }

  /** "account_id" carries the hint "id". */
  lemma AccountIdHasHint()
    ensures HasKeyHint("account_id")
  {
    var lower := Lower("account_id");
    assert lower == "account_id";
    assert "account_id"[8..10] == "id";
    assert OccursAt(lower, "id", 8);
    assert Contains(lower, "id");
    assert KeyHints[0] == "id";
    assert "id" in KeyHints;
  }

  // ---------------------------------------------------------------------
  // Display names

  predicate IsDash(c: char) {
    c == '_' || c == '-'
  }

  /** `re.sub(r"([a-z])([A-Z])", r"\1 \2", s)`: a space between every
      lower-case letter and the upper-case letter after it, scanning left to
      right without overlap. */
  function SplitCamel(s: string): (r: string)
    ensures |s| <= |r|
    ensures r == [] <==> s == []
    ensures s != [] ==> r[0] == s[0] && r[|r| - 1] == s[|s| - 1]
    decreases |s|
  {
    if s == [] then []
    else if |s| >= 2 && IsLowerLetter(s[0]) && IsUpperLetter(s[1]) then
      [s[0], ' ', s[1]] + SplitCamel(s[2..])
    else
      [s[0]] + SplitCamel(s[1..])
  }

  /** A lower-case letter at `j` followed by an upper-case one. */
  predicate CamelPair(s: string, j: int) {
    0 <= j && j + 1 < |s| && IsLowerLetter(s[j]) && IsUpperLetter(s[j + 1])
  }

  /** The number of camel-case pairs in `s`. */
  function CamelPairs(s: string): nat
    decreases |s|
  {
    if |s| < 2 then 0
    else (if IsLowerLetter(s[0]) && IsUpperLetter(s[1]) then 1 else 0) + CamelPairs(s[1..])
  }

  /** Counting the pairs of a prefix from its second character. */
  lemma CamelPairsStep(s: string, k: nat)
    requires 1 <= k < |s|
    ensures CamelPairs(s[..k + 1])
      == (if IsLowerLetter(s[0]) && IsUpperLetter(s[1]) then 1 else 0) + CamelPairs(s[1..][..k])
  {
    assert s[..k + 1][1..] == s[1..][..k];
  }

  /** Character `k` of `s` sits in `r` after the camel-case pairs that end
      at or before it. */
  predicate Placed(s: string, r: string, k: nat)
    requires k < |s|
  {
    var at := k + CamelPairs(s[..k + 1]);
    at < |r| && r[at] == s[k]
  }

  /** When `k` starts a camel-case pair, a space follows its letter in `r`. */
  predicate SpacedAfter(s: string, r: string, k: nat)
    requires k < |s|
  {
    var at := k + CamelPairs(s[..k + 1]);
    CamelPair(s, k) ==> at + 1 < |r| && r[at + 1] == ' '
  }

  /** `r` is `s` with one space inside every camel-case pair and nothing
      else added. */
  predicate CamelSplitOf(s: string, r: string) {
    && |r| == |s| + CamelPairs(s)
    && forall k: nat :: k < |s| ==> Placed(s, r, k) && SpacedAfter(s, r, k)
  }

  /** What `re.sub(r"([a-z])([A-Z])", r"\1 \2", s)` produces, position by
      position: one space per camel-case pair, so character `k` of `s`
      moves right by the pairs that end at or before it, and a space stands
      right after the lower-case letter of every pair. */
  lemma {:induction false} SplitCamelInsertsSpaces(s: string)
    ensures CamelSplitOf(s, SplitCamel(s))
    decreases |s|
  {
    if s != [] {
      if CamelPair(s, 0) {
        SplitCamelInsertsSpaces(s[2..]);
        SplitAtPair(s);
      } else {
        SplitCamelInsertsSpaces(s[1..]);
        SplitWithoutPair(s);
      }
    }
  }

  lemma SplitWithoutPair(s: string)
    requires s != [] && !CamelPair(s, 0)
    requires CamelSplitOf(s[1..], SplitCamel(s[1..]))
    ensures CamelSplitOf(s, SplitCamel(s))
  {
    var t := s[1..];
    var r := SplitCamel(s);
    var rt := SplitCamel(t);
    assert r == [s[0]] + rt;
    assert CamelPairs(s) == CamelPairs(t);
    forall k: nat | k < |s|
      ensures Placed(s, r, k) && SpacedAfter(s, r, k)
    {
      if k == 0 {
        assert CamelPairs(s[..1]) == 0;
      } else {
        assert Placed(t, rt, k - 1) && SpacedAfter(t, rt, k - 1);
        ShiftByOne(s, r, rt, k);
      }
    }
  }

  lemma ShiftByOne(s: string, r: string, rt: string, k: nat)
    requires 1 <= k < |s| && !CamelPair(s, 0) && r == [s[0]] + rt
    requires Placed(s[1..], rt, k - 1) && SpacedAfter(s[1..], rt, k - 1)
    ensures Placed(s, r, k) && SpacedAfter(s, r, k)
  {
    var t := s[1..];
    CamelPairsStep(s, k);
    assert CamelPairs(s[..k + 1]) == CamelPairs(t[..k]);
    var at := k - 1 + CamelPairs(t[..k]);
    assert r[at + 1] == rt[at];
    assert at + 2 < |r| ==> r[at + 2] == rt[at + 1];
    assert t[k - 1] == s[k];
    assert CamelPair(s, k) ==> CamelPair(t, k - 1);
  }

  lemma SplitAtPair(s: string)
    requires CamelPair(s, 0)
    requires CamelSplitOf(s[2..], SplitCamel(s[2..]))
    ensures CamelSplitOf(s, SplitCamel(s))
  {
    var u := s[2..];
    var r := SplitCamel(s);
    var ru := SplitCamel(u);
    assert r == [s[0], ' ', s[1]] + ru;
    assert s[1..][1..] == u;
    assert CamelPairs(s[1..]) == CamelPairs(u);
    forall k: nat | k < |s|
      ensures Placed(s, r, k) && SpacedAfter(s, r, k)
    {
      if k == 0 {
        assert CamelPairs(s[..1]) == 0;
      } else if k == 1 {
        assert CamelPairs(s[..2]) == 1 by {
          assert s[..2][1..] == [s[1]];
        }
        assert !CamelPair(s, 1);
      } else {
        assert Placed(u, ru, k - 2) && SpacedAfter(u, ru, k - 2);
        ShiftByPair(s, r, ru, k);
      }
    }
  }

  lemma ShiftByPair(s: string, r: string, ru: string, k: nat)
    requires 2 <= k < |s| && CamelPair(s, 0) && r == [s[0], ' ', s[1]] + ru
    requires Placed(s[2..], ru, k - 2) && SpacedAfter(s[2..], ru, k - 2)
    ensures Placed(s, r, k) && SpacedAfter(s, r, k)
  {
    var u := s[2..];
    CamelPairsStep(s, k);
    CamelPairsStep(s[1..], k - 1);
    assert s[1..][1..][..k - 1] == u[..k - 1];
    assert CamelPairs(s[..k + 1]) == 1 + CamelPairs(u[..k - 1]);
    var at := k - 2 + CamelPairs(u[..k - 1]);
    assert r[at + 3] == ru[at];
    assert at + 4 < |r| ==> r[at + 4] == ru[at + 1];
    assert u[k - 2] == s[k];
    assert CamelPair(s, k) ==> CamelPair(u, k - 2);
  }

  /** `str.title()` on ASCII letters: a letter is upper-cased when the
      character before it is not a letter, and lower-cased otherwise. */
  function Title(s: string): (r: string)
    ensures |r| == |s|
    ensures forall k :: 0 <= k < |s| && !IsLetter(s[k]) ==> r[k] == s[k]
    ensures forall k :: 0 <= k < |s| && IsLetter(s[k]) ==>
      r[k] == (if k == 0 || !IsLetter(s[k - 1]) then UpperChar(s[k]) else LowerChar(s[k]))
  {
    seq(|s|, k requires 0 <= k < |s| =>
      if !IsLetter(s[k]) then s[k]
      else if k == 0 || !IsLetter(s[k - 1]) then UpperChar(s[k])
      else LowerChar(s[k]))
  }

  /** Upper- and lower-casing keep letters letters and leave other
      characters alone. */
  lemma CaseMapping(c: char)
    ensures IsLetter(c) ==> IsUpperLetter(UpperChar(c)) && IsLowerLetter(LowerChar(c))
    ensures !IsLetter(c) ==> UpperChar(c) == c && LowerChar(c) == c
  {
  }

  /** Title-casing keeps every non-letter and makes every letter upper-case
      exactly when no letter precedes it. */
  lemma TitleShape(s: string)
    ensures var r := Title(s);
      forall k :: 0 <= k < |r| ==>
        && (IsLetter(r[k]) <==> IsLetter(s[k]))
        && (!IsLetter(s[k]) ==> r[k] == s[k])
        && (IsLetter(r[k]) ==> (IsUpperLetter(r[k]) <==> k == 0 || !IsLetter(r[k - 1])))
  {
    var r := Title(s);
    forall k | 0 <= k < |r|
      ensures IsLetter(r[k]) <==> IsLetter(s[k])
      ensures !IsLetter(s[k]) ==> r[k] == s[k]
    {
      CaseMapping(s[k]);
    }
    forall k | 0 <= k < |r| && IsLetter(r[k])
      ensures IsUpperLetter(r[k]) <==> k == 0 || !IsLetter(r[k - 1])
    {
      CaseMapping(s[k]);
      if k > 0 {
        CaseMapping(s[k - 1]);
      }
    }
  }

  /** No underscore or hyphen. */
  predicate NoDash(s: string) {
    forall k :: 0 <= k < |s| ==> !IsDash(s[k])
  }

  /** A display name: no underscore or hyphen, no space at either end, and
      every letter upper-case exactly when it starts a word. */
  predicate DisplayShape(r: string) {
    && NoDash(r)
    && (r != [] ==> !IsSpace(r[0]) && !IsSpace(r[|r| - 1]))
    && (forall k :: 0 <= k < |r| && IsLetter(r[k]) ==> (IsUpperLetter(r[k]) <==> k == 0 || !IsLetter(r[k - 1])))
  }

  /** No underscore or hyphen, and no space at either end. */
  predicate Unpadded(s: string) {
    && NoDash(s)
    && (s != [] ==> !IsSpace(s[0]) && !IsSpace(s[|s| - 1]))
  }

  predicate IsDashOrSpace(c: char) {
    IsDash(c) || IsSpace(c)
  }

  /** `_slugify`: underscores and hyphens become spaces (a run becomes one),
      camel case is split, the ends are stripped and the words title-cased.
      The result has the shape of a display name, and apart from spaces it
      is the name's own text without underscores, hyphens and spaces, up to
      letter case. */
  function Slugify(name: string): (r: string)
    ensures DisplayShape(r)
    ensures Lower(Without(r, IsSpace)) == Lower(Without(name, IsDashOrSpace))
  {
    var stripped := Strip(SplitCamel(ReplaceRuns(name, IsDash, ' ')));
    SlugifyStages(name);
    TitleOfUnpadded(stripped);
    SlugifyKeepsText(name);
    DashFreeWithout(Title(stripped));
    Title(stripped)
  }

  /** Every stage of `_slugify` keeps the characters other than
      underscores, hyphens and spaces; title-casing changes only their case. */
  lemma SlugifyKeepsText(name: string)
    ensures var r := Title(Strip(SplitCamel(ReplaceRuns(name, IsDash, ' '))));
      Lower(Without(r, IsDashOrSpace)) == Lower(Without(name, IsDashOrSpace))
  {
    var spaced := ReplaceRuns(name, IsDash, ' ');
    var split := SplitCamel(spaced);
    var stripped := Strip(split);
    ReplaceRunsKeeps(name, IsDash, ' ', IsDashOrSpace);
    SplitCamelKeeps(spaced, IsDashOrSpace);
    WithoutTrim(split, IsSpace, IsDashOrSpace);
    TitleIsCaseChange(stripped);
    CaseBlindWithout(Title(stripped), stripped, IsDashOrSpace);
  }

  /** A dash-free display name loses only its spaces to `IsDashOrSpace`. */
  lemma DashFreeWithout(r: string)
    requires NoDash(r)
    ensures Without(r, IsSpace) == Without(r, IsDashOrSpace)
  {
    WithoutAgrees(r, IsSpace, IsDashOrSpace);
  }

  /** Title-casing changes letter case only. */
  lemma TitleIsCaseChange(s: string)
    ensures var t := Title(s);
      forall k :: 0 <= k < |s| ==> (IsDashOrSpace(t[k]) <==> IsDashOrSpace(s[k])) && LowerChar(t[k]) == LowerChar(s[k])
  {
    var t := Title(s);
    forall k | 0 <= k < |s|
      ensures (IsDashOrSpace(t[k]) <==> IsDashOrSpace(s[k])) && LowerChar(t[k]) == LowerChar(s[k])
    {
      CaseMapping(s[k]);
    }
  }

  /** Splitting camel case adds only spaces, so whatever removes spaces
      sees no difference. */
  lemma {:induction false} SplitCamelKeeps(s: string, p: char -> bool)
    requires p(' ')
    ensures Without(SplitCamel(s), p) == Without(s, p)
    decreases |s|
  {
    if s != [] {
      var n := if |s| >= 2 && IsLowerLetter(s[0]) && IsUpperLetter(s[1]) then 2 else 1;
      SplitCamelKeeps(s[n..], p);
      var head := if n == 2 then [s[0], ' ', s[1]] else [s[0]];
      assert SplitCamel(s) == head + SplitCamel(s[n..]);
      WithoutConcat(head, SplitCamel(s[n..]), p);
      assert s == s[..n] + s[n..];
      WithoutConcat(s[..n], s[n..], p);
      if n == 2 {
        SpaceBetween(s[0], s[1], p);
        assert s[..n] == [s[0], s[1]];
      } else {
        assert head == s[..n];
      }
    }
  }

  lemma SpaceBetween(a: char, b: char, p: char -> bool)
    requires p(' ')
    ensures Without([a, ' ', b], p) == Without([a, b], p)
  {
    assert [a, ' ', b][1..] == [' ', b];
    assert [' ', b][1..] == [b];
    assert [a, b][1..] == [b];
  }

  lemma TitleOfUnpadded(s: string)
    requires Unpadded(s)
    ensures DisplayShape(Title(s))
  {
    TitleShape(s);
  }

  /** The stripped, camel-split text has no dash and no space at its ends. */
  lemma SlugifyStages(name: string)
    ensures Unpadded(Strip(SplitCamel(ReplaceRuns(name, IsDash, ' '))))
  {
    var spaced := ReplaceRuns(name, IsDash, ' ');
    ReplaceRunsNoDash(name);
    SplitCamelKeepsNoDash(spaced);
    StripUnpadded(SplitCamel(spaced));
  }

  /** Runs of underscores and hyphens all become spaces. */
  lemma ReplaceRunsNoDash(name: string)
    ensures NoDash(ReplaceRuns(name, IsDash, ' '))
  {
    var r := ReplaceRuns(name, IsDash, ' ');
    forall k | 0 <= k < |r|
      ensures !IsDash(r[k])
    {
      assert r[k] == ' ' || !IsDash(r[k]);
    }
  }

  /** Splitting camel case adds only spaces. */
  lemma {:induction false} SplitCamelKeepsNoDash(s: string)
    requires NoDash(s)
    ensures NoDash(SplitCamel(s))
    decreases |s|
  {
    if s != [] {
      var n := if |s| >= 2 && IsLowerLetter(s[0]) && IsUpperLetter(s[1]) then 2 else 1;
      NoDashSuffix(s, n);
      SplitCamelKeepsNoDash(s[n..]);
      var head := if n == 2 then [s[0], ' ', s[1]] else [s[0]];
      assert SplitCamel(s) == head + SplitCamel(s[n..]);
      NoDashConcat(head, SplitCamel(s[n..]));
    }
  }

  lemma NoDashSuffix(s: string, n: nat)
    requires NoDash(s) && n <= |s|
    ensures NoDash(s[n..])
  {
    var t := s[n..];
    forall k | 0 <= k < |t|
      ensures !IsDash(t[k])
    {
      assert t[k] == s[n + k];
    }
  }

  lemma NoDashConcat(a: string, b: string)
    requires NoDash(a) && NoDash(b)
    ensures NoDash(a + b)
  {
    var c := a + b;
    forall k | 0 <= k < |c|
      ensures !IsDash(c[k])
    {
      if k < |a| {
        assert c[k] == a[k];
      } else {
        assert c[k] == b[k - |a|];
      }
    }
  }

  /** Stripping a dash-free string leaves it unpadded. */
  lemma StripUnpadded(s: string)
    requires NoDash(s)
    ensures Unpadded(Strip(s))
  {
    var r := Strip(s);
    var off := StripIsSlice(s);
    forall k | 0 <= k < |r|
      ensures !IsDash(r[k])
    {
      assert r[k] == s[off + k];
    }
  }

  /** No lower-case letter of `s` before index `n` is followed by an
      upper-case one. */
  predicate NoCamelBefore(s: string, n: int) {
    forall k :: 0 <= k < n && k + 1 < |s| ==> !(IsLowerLetter(s[k]) && IsUpperLetter(s[k + 1]))
  }

  /** A prefix with no camel-case pair, not even across its end, is copied. */
  lemma {:induction false} SplitCamelPrefix(s: string, n: nat)
    requires n <= |s| && NoCamelBefore(s, n)
    ensures SplitCamel(s) == s[..n] + SplitCamel(s[n..])
    decreases n
  {
    if n > 0 {
      NoCamelShift(s, n);
      SplitCamelPrefix(s[1..], n - 1);
      SplitCamelCopies(s);
      ShiftedSlices(s, n, SplitCamel(s[n..]));
    }
  }

  lemma NoCamelShift(s: string, n: int)
    requires s != [] && NoCamelBefore(s, n)
    ensures NoCamelBefore(s[1..], n - 1)
  {
    var t := s[1..];
    forall k | 0 <= k < n - 1 && k + 1 < |t|
      ensures !(IsLowerLetter(t[k]) && IsUpperLetter(t[k + 1]))
    {
      assert t[k] == s[k + 1] && t[k + 1] == s[k + 2];
    }
  }

  /** A first character that does not start a camel-case pair is copied. */
  lemma SplitCamelCopies(s: string)
    requires s != [] && NoCamelBefore(s, 1)
    ensures SplitCamel(s) == [s[0]] + SplitCamel(s[1..])
  {
    assert !(|s| >= 2 && IsLowerLetter(s[0]) && IsUpperLetter(s[1]));
  }

  /** A string with no camel-case pair is copied. */
  lemma SplitCamelNone(s: string)
    requires NoCamelBefore(s, |s|)
    ensures SplitCamel(s) == s
  {
    SplitCamelPrefix(s, |s|);
  }

  /** One underscore between two dash-free words becomes one space. */
  lemma ReplaceRunsOne(a: string, b: string)
    requires NoDash(a) && NoDash(b)
    ensures ReplaceRuns(a + "_" + b, IsDash, ' ') == a + " " + b
  {
    var s := a + "_" + b;
    WordBeforeDash(a, b);
    ReplaceRunsPrefix(s, |a|, IsDash, ' ');
    AroundMiddle(a, "_", b);
    DashThenWord(b);
    AroundMiddle(a, " ", b);
  }

  lemma AroundMiddle(a: string, m: string, b: string)
    ensures (a + m + b)[..|a|] == a && (a + m + b)[|a|..] == m + b
    ensures a + m + b == a + (m + b)
  {
  }

  lemma WordBeforeDash(a: string, b: string)
    requires NoDash(a)
    ensures forall k :: 0 <= k < |a| ==> !IsDash((a + "_" + b)[k])
  {
    var s := a + "_" + b;
    forall k | 0 <= k < |a|
      ensures !IsDash(s[k])
    {
      assert s[k] == a[k];
    }
  }

  /** An underscore before a dash-free word becomes a space. */
  lemma DashThenWord(b: string)
    requires NoDash(b)
    ensures ReplaceRuns("_" + b, IsDash, ' ') == " " + b
  {
    var s := "_" + b;
    assert s[1..] == b;
    assert TrimLeft(s[1..], IsDash) == b;
    assert TrimLeft(s, IsDash) == b;
    ReplaceRunsUnchanged(b, IsDash, ' ');
  }

  /** A non-empty word of lower-case letters. */
  predicate LowerWord(w: string) {
    |w| > 0 && forall k :: 0 <= k < |w| ==> IsLowerLetter(w[k])
  }

  /** The word with its first letter upper-cased. */
  function Capitalized(w: string): (r: string)
    requires |w| > 0
    ensures |r| == |w| && r[0] == UpperChar(w[0]) && r[1..] == w[1..]
  {
    [UpperChar(w[0])] + w[1..]
  }

  /** Title-casing two words joined by a space capitalises each. */
  lemma TitleTwoWords(a: string, b: string)
    requires LowerWord(a) && |b| > 0 && IsLetter(b[0]) && forall k :: 1 <= k < |b| ==> IsLowerLetter(b[k])
    ensures Title(a + " " + b) == Capitalized(a) + " " + Capitalized(b)
  {
    var s := a + " " + b;
    var t := Title(s);
    var want := Capitalized(a) + " " + Capitalized(b);
    assert |t| == |want|;
    forall k | 0 <= k < |t| ensures t[k] == want[k] {
      if k < |a| {
        assert s[k] == a[k];
        if k > 0 {
          assert s[k - 1] == a[k - 1];
        }
      } else if k == |a| {
        assert s[k] == ' ';
      } else {
        assert s[k] == b[k - |a| - 1];
        if k > |a| + 1 {
          assert s[k - 1] == b[k - |a| - 2];
        } else {
          assert s[k - 1] == ' ';
        }
      }
    }
  }

  /** What `_slugify` does before title-casing. */
  function Untitled(name: string): string {
    Strip(SplitCamel(ReplaceRuns(name, IsDash, ' ')))
  }

  lemma SlugifyIsTitleOfUntitled(name: string)
    ensures Slugify(name) == Title(Untitled(name))
  {
  }

  /** `snake_case` of two lower-case words: "first_name" gives "First Name". */
  lemma SnakeCaseDisplayName(a: string, b: string)
    requires LowerWord(a) && LowerWord(b)
    ensures Slugify(a + "_" + b) == Capitalized(a) + " " + Capitalized(b)
  {
    SnakeCaseUntitled(a, b);
    SlugifyIsTitleOfUntitled(a + "_" + b);
    TitleTwoWords(a, b);
  }

  lemma SnakeCaseUntitled(a: string, b: string)
    requires LowerWord(a) && LowerWord(b)
    ensures Untitled(a + "_" + b) == a + " " + b
  {
    var words := a + " " + b;
    ReplaceRunsOne(a, b);
    SpacedWordsSplitNothing(a, b);
    WordsUnpadded(a, b);
    StripUnchanged(words);
    var spaced := ReplaceRuns(a + "_" + b, IsDash, ' ');
    assert spaced == words;
    assert SplitCamel(spaced) == words;
  }

  /** Two words joined by a space begin and end with a letter. */
  lemma WordsUnpadded(a: string, b: string)
    requires |a| > 0 && |b| > 0 && IsLetter(a[0]) && IsLetter(b[|b| - 1])
    ensures var w := a + " " + b; !IsSpace(w[0]) && !IsSpace(w[|w| - 1])
  {
    var w := a + " " + b;
    assert w[0] == a[0] && w[|w| - 1] == b[|b| - 1];
  }

  lemma SpacedWordsSplitNothing(a: string, b: string)
    requires LowerWord(a) && LowerWord(b)
    ensures SplitCamel(a + " " + b) == a + " " + b
  {
    var spaced := a + " " + b;
    assert NoCamelBefore(spaced, |spaced|) by {
      forall j | 1 <= j < |spaced| ensures !IsUpperLetter(spaced[j]) {
        if j < |a| {
          assert spaced[j] == a[j];
        } else if j > |a| {
          assert spaced[j] == b[j - |a| - 1];
        }
      }
    }
    SplitCamelNone(spaced);
  }

  /** `camelCase` of a lower-case word and a capitalised one: "lastName"
      gives "Last Name". */
  lemma CamelCaseDisplayName(a: string, b: string)
    requires LowerWord(a) && |b| > 0 && IsUpperLetter(b[0]) && forall k :: 1 <= k < |b| ==> IsLowerLetter(b[k])
    ensures Slugify(a + b) == Capitalized(a) + " " + b
  {
    CamelCaseUntitled(a, b);
    SlugifyIsTitleOfUntitled(a + b);
    TitleTwoWords(a, b);
    CapitalizedCapital(b);
  }

  lemma CapitalizedCapital(w: string)
    requires |w| > 0 && IsUpperLetter(w[0])
    ensures Capitalized(w) == w
  {
    assert w == [w[0]] + w[1..];
  }

  lemma CamelCaseUntitled(a: string, b: string)
    requires LowerWord(a) && |b| > 0 && IsUpperLetter(b[0]) && forall k :: 1 <= k < |b| ==> IsLowerLetter(b[k])
    ensures Untitled(a + b) == a + " " + b
  {
    CamelNoDash(a, b);
    ReplaceRunsUnchanged(a + b, IsDash, ' ');
    CamelWordsSplit(a, b);
    WordsUnpadded(a, b);
    StripUnchanged(a + " " + b);
  }

  lemma CamelNoDash(a: string, b: string)
    requires LowerWord(a) && |b| > 0 && IsUpperLetter(b[0]) && forall k :: 1 <= k < |b| ==> IsLowerLetter(b[k])
    ensures NoDash(a + b)
  {
    var s := a + b;
    forall k | 0 <= k < |s|
      ensures !IsDash(s[k])
    {
      if k < |a| {
        assert s[k] == a[k];
      } else {
        assert s[k] == b[k - |a|];
      }
    }
  }

  lemma CamelWordsSplit(a: string, b: string)
    requires LowerWord(a) && |b| > 0 && IsUpperLetter(b[0]) && forall k :: 1 <= k < |b| ==> IsLowerLetter(b[k])
    ensures SplitCamel(a + b) == a + " " + b
  {
    var s := a + b;
    var n := |a| - 1;
    LowerWordNoCamel(a, b);
    SplitCamelPrefix(s, n);
    CamelBoundary(a, b);
    JoinAt(a, b);
  }

  /** Inside a lower-case word nothing splits. */
  lemma LowerWordNoCamel(a: string, b: string)
    requires LowerWord(a)
    ensures NoCamelBefore(a + b, |a| - 1)
  {
    var s := a + b;
    forall k | 0 <= k < |a| - 1 && k + 1 < |s|
      ensures !(IsLowerLetter(s[k]) && IsUpperLetter(s[k + 1]))
    {
      assert s[k + 1] == a[k + 1];
    }
  }

  /** The last letter of the lower-case word and the capitalised word after it. */
  lemma CamelBoundary(a: string, b: string)
    requires LowerWord(a) && |b| > 0 && IsUpperLetter(b[0]) && forall k :: 1 <= k < |b| ==> IsLowerLetter(b[k])
    ensures SplitCamel((a + b)[|a| - 1..]) == [a[|a| - 1], ' '] + b
  {
    var t := (a + b)[|a| - 1..];
    assert t[0] == a[|a| - 1] && t[1] == b[0] && t[2..] == b[1..];
    LowerTailNoCamel(b);
    SplitCamelNone(b[1..]);
    assert b == [b[0]] + b[1..];
  }

  lemma LowerTailNoCamel(b: string)
    requires |b| > 0 && forall k :: 1 <= k < |b| ==> IsLowerLetter(b[k])
    ensures NoCamelBefore(b[1..], |b| - 1)
  {
    var t := b[1..];
    forall k | 0 <= k < |t| - 1
      ensures !(IsLowerLetter(t[k]) && IsUpperLetter(t[k + 1]))
    {
      assert t[k + 1] == b[k + 2];
    }
  }

  lemma JoinAt(a: string, b: string)
    requires |a| > 0
    ensures (a + b)[..|a| - 1] + ([a[|a| - 1], ' '] + b) == a + " " + b
  {
    assert (a + b)[..|a| - 1] + [a[|a| - 1]] == a;
  }

  /** The display name of the header "first_name". */
  lemma FirstNameDisplay()
    ensures Slugify("first_name") == "First Name"
  {
    assert "first_name" == "first" + "_" + "name";
    SnakeCaseDisplayName("first", "name");
    FirstNameWords();
  }

  lemma FirstNameWords()
    ensures Capitalized("first") + " " + Capitalized("name") == "First Name"
  {
    assert Capitalized("first") == "First";
    assert Capitalized("name") == "Name";
  }

  /** The display name of the header "lastName". */
  lemma LastNameDisplay()
    ensures Slugify("lastName") == "Last Name"
  {
    assert "lastName" == "last" + "Name";
    CamelCaseDisplayName("last", "Name");
    LastNameWords();
  }

  lemma LastNameWords()
    ensures Capitalized("last") + " " + "Name" == "Last Name"
  {
    assert Capitalized("last") == "Last";
  }

  // ---------------------------------------------------------------------
  // Sampling

  /** One CSV data row: header to cell text. A header the row lacks reads as
      the empty string, as `row.get(name) or ""` does. */
  type Row = map<string, string>

  const DefaultMaxRows: int := 100

  datatype InferredColumn = InferredColumn(
    originalName: string,
    inferredType: ColumnType,
    suggestedDisplayName: string,
    isPrimaryKeyCandidate: bool)

  function Cell(row: Row, name: string): string {
    if name in row then row[name] else ""
  }

  /** What one header position contributes from one row: the stripped cell
      when it is not empty. */
  function Contribution(row: Row, name: string): seq<string> {
    var v := Strip(Cell(row, name));
    if v == [] then [] else [v]
  }

  /** A row's contributions, header by header. */
  function ContributionOf(row: Row): string -> seq<string> {
    name => Contribution(row, name)
  }

  /** What one row adds to the sample of `name`: the row's contribution for
      `name` once for every position `name` holds in the header list. */
  function RowSamples(headers: seq<string>, contribution: string -> seq<string>, name: string): seq<string>
    decreases |headers|
  {
    if headers == [] then []
    else
      RowSamples(headers[..|headers| - 1], contribution, name)
      + (if headers[|headers| - 1] == name then contribution(name) else [])
  }

  /** The sample of `name` over `rows`, in row order. */
  function Samples(headers: seq<string>, rows: seq<Row>, name: string): seq<string>
    decreases |rows|
  {
    if rows == [] then []
    else Samples(headers, rows[..|rows| - 1], name) + RowSamples(headers, ContributionOf(rows[|rows| - 1]), name)
  }

  /** The column proposed for `name` from its sample. */
  function ColumnOf(p: Parsers, name: string, values: seq<string>): InferredColumn {
    InferredColumn(name, InferType(p, values), Slugify(name), IsPrimaryKeyCandidate(name, values))
  }

  /** `infer_schema` after CSV decoding: samples at most `maxRows` rows (none
      when `maxRows` is not positive), keeps only non-empty stripped cells,
      and proposes one column per header, in header order. */
  method InferSchema(p: Parsers, headers: seq<string>, rows: seq<Row>, maxRows: int)
    returns (columns: seq<InferredColumn>, rowCount: nat)
    ensures rowCount == if maxRows <= 0 then 0 else if |rows| <= maxRows then |rows| else maxRows
    ensures |columns| == |headers|
    ensures forall i :: 0 <= i < |headers| ==>
      columns[i] == ColumnOf(p, headers[i], Samples(headers, rows[..rowCount], headers[i]))
  {
    var samples: map<string, seq<string>> := map h | h in headers :: [];
    rowCount := 0;
    while rowCount < |rows|
      invariant rowCount <= |rows| && (maxRows <= 0 ==> rowCount == 0) && (maxRows > 0 ==> rowCount <= maxRows)
      invariant forall h :: h in headers ==> h in samples && samples[h] == Samples(headers, rows[..rowCount], h)
    {
      if rowCount >= maxRows {
        break;
      }
      samples := SampleRow(headers, ContributionOf(rows[rowCount]), samples);
      assert rows[..rowCount + 1][..rowCount] == rows[..rowCount];
      rowCount := rowCount + 1;
    }
    columns := seq(|headers|, i requires 0 <= i < |headers| => ColumnOf(p, headers[i], samples[headers[i]]));
  }

  /** The inner loop of the sampling: every header position appends the
      row's contribution for it (the stripped cell, when not empty) to its
      header's sample. */
  method SampleRow(headers: seq<string>, contribution: string -> seq<string>, samples: map<string, seq<string>>)
    returns (r: map<string, seq<string>>)
    requires forall h :: h in headers ==> h in samples
    ensures forall h :: h in headers ==> h in r && r[h] == samples[h] + RowSamples(headers, contribution, h)
  {
    r := samples;
    var j := 0;
    while j < |headers|
      invariant j <= |headers|
      invariant forall h :: h in headers ==> (h in r && r[h] == samples[h] + RowSamples(headers[..j], contribution, h))
    {
      var name := headers[j];
      var before := r;
      r := r[name := r[name] + contribution(name)];
      RowSamplesStep(headers, j, contribution);
      forall h | h in headers
        ensures h in r && r[h] == samples[h] + RowSamples(headers[..j + 1], contribution, h)
      {
        if h == name {
          assert r[h] == before[h] + contribution(name);
        } else {
          assert r[h] == before[h];
        }
      }
      j := j + 1;
    }
    assert headers[..j] == headers;
  }

  lemma RowSamplesStep(headers: seq<string>, j: nat, contribution: string -> seq<string>)
    requires j < |headers|
    ensures forall h :: (RowSamples(headers[..j + 1], contribution, h)
                         == RowSamples(headers[..j], contribution, h) + (if headers[j] == h then contribution(h) else []))
  {
    assert headers[..j + 1][..j] == headers[..j];
  }

  /** A sampled value: not empty, no whitespace at either end. */
  predicate Trimmed(v: string) {
    v != [] && !IsSpace(v[0]) && !IsSpace(v[|v| - 1])
  }

  predicate AllTrimmed(vs: seq<string>) {
    forall k :: 0 <= k < |vs| ==> Trimmed(vs[k])
  }

  lemma AllTrimmedConcat(a: seq<string>, b: seq<string>)
    requires AllTrimmed(a) && AllTrimmed(b)
    ensures AllTrimmed(a + b)
  {
    forall k | 0 <= k < |a + b|
      ensures Trimmed((a + b)[k])
    {
      if k < |a| {
        assert (a + b)[k] == a[k];
      } else {
        assert (a + b)[k] == b[k - |a|];
      }
    }
  }

  lemma ContributionTrimmed(row: Row, name: string)
    ensures AllTrimmed(Contribution(row, name))
  {
  }

  /** Every sampled value is a non-empty cell with no whitespace at either
      end, so blank cells never reach type inference. */
  lemma {:induction false} SamplesAreStripped(headers: seq<string>, rows: seq<Row>, name: string)
    ensures AllTrimmed(Samples(headers, rows, name))
    decreases |rows|
  {
    if rows != [] {
      var last := rows[|rows| - 1];
      SamplesAreStripped(headers, rows[..|rows| - 1], name);
      ContributionTrimmed(last, name);
      assert ContributionOf(last)(name) == Contribution(last, name);
      RowSamplesAreStripped(headers, ContributionOf(last), name);
      AllTrimmedConcat(Samples(headers, rows[..|rows| - 1], name), RowSamples(headers, ContributionOf(last), name));
    }
  }

  lemma {:induction false} RowSamplesAreStripped(headers: seq<string>, contribution: string -> seq<string>, name: string)
    requires AllTrimmed(contribution(name))
    ensures AllTrimmed(RowSamples(headers, contribution, name))
    decreases |headers|
  {
    if headers != [] {
      var init := headers[..|headers| - 1];
      RowSamplesAreStripped(init, contribution, name);
      var last: seq<string> := if headers[|headers| - 1] == name then contribution(name) else [];
      AllTrimmedConcat(RowSamples(init, contribution, name), last);
    }
  }

  /** The non-empty stripped cells of `name` over `rows`, in row order. */
  function NonBlankCells(rows: seq<Row>, name: string): seq<string>
    decreases |rows|
  {
    if rows == [] then [] else NonBlankCells(rows[..|rows| - 1], name) + Contribution(rows[|rows| - 1], name)
  }

  /** How many times `name` appears among the headers. */
  function HeaderCount(headers: seq<string>, name: string): nat
    decreases |headers|
  {
    if headers == [] then 0
    else HeaderCount(headers[..|headers| - 1], name) + (if headers[|headers| - 1] == name then 1 else 0)
  }

  /** A header that appears once is sampled from exactly its non-empty
      cells; a name that is not a header gets an empty sample. */
  lemma {:induction false} SamplesOfHeader(headers: seq<string>, rows: seq<Row>, name: string)
    ensures HeaderCount(headers, name) == 1 ==> Samples(headers, rows, name) == NonBlankCells(rows, name)
    ensures HeaderCount(headers, name) == 0 ==> Samples(headers, rows, name) == []
    decreases |rows|
  {
    if rows != [] {
      var last := rows[|rows| - 1];
      SamplesOfHeader(headers, rows[..|rows| - 1], name);
      RowSamplesOfHeader(headers, ContributionOf(last), name);
      assert ContributionOf(last)(name) == Contribution(last, name);
    }
  }

  lemma {:induction false} RowSamplesOfHeader(headers: seq<string>, contribution: string -> seq<string>, name: string)
    ensures HeaderCount(headers, name) == 1 ==> RowSamples(headers, contribution, name) == contribution(name)
    ensures HeaderCount(headers, name) == 0 ==> RowSamples(headers, contribution, name) == []
    decreases |headers|
  {
    if headers != [] {
      RowSamplesOfHeader(headers[..|headers| - 1], contribution, name);
    }
  }

  /** A header repeated in the header row contributes its one cell once per
      position: the model keeps the source's behaviour for repeated
      headers, which share a single sample list. */
  lemma {:induction false} RowSamplesRepeat(headers: seq<string>, contribution: string -> seq<string>, name: string)
    requires |contribution(name)| <= 1
    ensures |RowSamples(headers, contribution, name)| == if contribution(name) == [] then 0 else HeaderCount(headers, name)
    ensures forall k :: 0 <= k < |RowSamples(headers, contribution, name)| ==> RowSamples(headers, contribution, name)[k] == contribution(name)[0]
    decreases |headers|
  {
    if headers != [] {
      var prefix := headers[..|headers| - 1];
      RowSamplesRepeat(prefix, contribution, name);
      if headers[|headers| - 1] == name {
        assert RowSamples(headers, contribution, name) == RowSamples(prefix, contribution, name) + contribution(name);
      } else {
        assert RowSamples(headers, contribution, name) == RowSamples(prefix, contribution, name);
      }
    }
  }

  /** With no sampled rows, every header gets the string type, and the
      primary-key flag rests on the name hint alone: uniqueness holds
      vacuously for an empty sample. */
  lemma NoSampleIsString(p: Parsers, headers: seq<string>, name: string)
    ensures ColumnOf(p, name, Samples(headers, [], name)).inferredType == StringType
    ensures ColumnOf(p, name, Samples(headers, [], name)).isPrimaryKeyCandidate <==> HasKeyHint(name)
  {
  }
}
