/** The foreign parsers that schema inference and the CSV loader share:
    Python's `int()` and `float()` and `dateutil.parser.parse`. They are not
    modelled; each is a total function that yields `None` exactly where the
    real parser raises one of the exceptions the core catches. */
module Parsers {
  import opened Wrappers
  import opened Text

  /** A parsed float is kept as its IEEE-754 binary64 bit pattern; a parsed
      date as microseconds since the epoch. */
  datatype Parsers = Parsers(
    parseInt: string -> Option<int>,
    parseFloat: string -> Option<bv64>,
    parseDate: string -> Option<int>)

  predicate IsComma(c: char) {
    c == ','
  }

  /** What both modules hand to `int()` and `float()`: the value stripped,
      with every comma removed and every other character kept in order. */
  function NumericText(v: string): (r: string)
    ensures !Contains(r, ",")
    ensures r == Without(Strip(v), IsComma)
  {
    var t := ReplaceAll(Strip(v), ",", "");
    ReplaceAllRemoves(Strip(v), ",");
    DeletingCommas(Strip(v));
    t
  }

  /** `replace(",", "")` drops exactly the commas. */
  lemma {:induction false} DeletingCommas(s: string)
    ensures ReplaceAll(s, ",", "") == Without(s, IsComma)
    decreases |s|
  {
    if s != [] {
      DeletingCommas(s[1..]);
      if s[0] == ',' {
        assert s[..1] == ",";
        assert ReplaceAll(s, ",", "") == "" + ReplaceAll(s[1..], ",", "");
      } else {
        assert s[..1] != ",";
      }
    }
  }

  /** Replacing every occurrence of a one-character pattern by nothing
      leaves none behind. */
  lemma {:induction false} ReplaceAllRemoves(s: string, pat: string)
    requires |pat| == 1
    ensures !Contains(ReplaceAll(s, pat, ""), pat)
    decreases |s|
  {
    var r := ReplaceAll(s, pat, "");
    if |s| < |pat| {
      assert |r| == 0;
      assert !OccursAt(r, pat, 0);
    } else if s[..1] == pat {
      ReplaceAllRemoves(s[1..], pat);
      assert r == ReplaceAll(s[1..], pat, "");
    } else {
      ReplaceAllRemoves(s[1..], pat);
      var rest := ReplaceAll(s[1..], pat, "");
      assert r == [s[0]] + rest;
      assert !OccursAt(r, pat, 0);
      assert r[1..] == rest;
      ContainsTail(r, pat);
    }
  }
}
