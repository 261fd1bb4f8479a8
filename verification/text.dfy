/** The handful of Python `str` operations the core relies on: `strip`,
    `lower`/`upper`/`title` (ASCII letters only), substring search, slicing,
    `re.sub` of a character-class run, and `replace`. */
module Text {

  /** Python's `str.isspace` set: the characters `str.strip()` removes. */
  predicate IsSpace(c: char) {
    || c == ' ' || c == '\t' || c == '\n' || c == '\r'
    || c == '\U{B}' || c == '\U{C}'
    || ('\U{1C}' <= c <= '\U{1F}')
    || c == '\U{85}' || c == '\U{A0}' || c == '\U{1680}'
    || ('\U{2000}' <= c <= '\U{200A}')
    || c == '\U{2028}' || c == '\U{2029}' || c == '\U{202F}'
    || c == '\U{205F}' || c == '\U{3000}'
  }

  predicate IsLowerLetter(c: char) {
    'a' <= c <= 'z'
  }

  predicate IsUpperLetter(c: char) {
    'A' <= c <= 'Z'
  }

  predicate IsLetter(c: char) {
    IsLowerLetter(c) || IsUpperLetter(c)
  }

  predicate IsDigit(c: char) {
    '0' <= c <= '9'
  }

  function LowerChar(c: char): char {
    if IsUpperLetter(c) then (c as int + 32) as char else c
  }

  function UpperChar(c: char): char {
    if IsLowerLetter(c) then (c as int - 32) as char else c
  }

  /** A string without lower-case letters is its own upper case. */
  lemma UpperUnchanged(s: string)
    requires forall i :: 0 <= i < |s| ==> !IsLowerLetter(s[i])
    ensures Upper(s) == s
  {
  }

  /** A string without upper-case letters is its own lower case. */
  lemma LowerUnchanged(s: string)
    requires forall i :: 0 <= i < |s| ==> !IsUpperLetter(s[i])
    ensures Lower(s) == s
  {
  }

  /** `str.lower()` on ASCII letters. */
  function Lower(s: string): (r: string)
    ensures |r| == |s|
    ensures forall i :: 0 <= i < |s| ==> r[i] == LowerChar(s[i])
  {
    seq(|s|, i requires 0 <= i < |s| => LowerChar(s[i]))
  }

  /** `str.upper()` on ASCII letters. */
  function Upper(s: string): (r: string)
    ensures |r| == |s|
    ensures forall i :: 0 <= i < |s| ==> r[i] == UpperChar(s[i])
  {
    seq(|s|, i requires 0 <= i < |s| => UpperChar(s[i]))
  }

  /** Python's slice `s[:n]`. */
  function Take(s: string, n: nat): (r: string)
    ensures |r| <= n && r <= s
    ensures |s| <= n ==> r == s
    ensures n <= |s| ==> |r| == n
  {
    if |s| <= n then s else s[..n]
  }

  /** Drops the leading characters satisfying `drop`. */
  function TrimLeft(s: string, drop: char -> bool): (r: string)
    ensures |r| <= |s| && r == s[|s| - |r|..]
    ensures forall k :: 0 <= k < |s| - |r| ==> drop(s[k])
    ensures r != [] ==> !drop(r[0])
    decreases |s|
  {
    if s != [] && drop(s[0]) then TrimLeft(s[1..], drop) else s
  }

  /** Drops the trailing characters satisfying `drop`. */
  function TrimRight(s: string, drop: char -> bool): (r: string)
    ensures |r| <= |s| && r == s[..|r|]
    ensures forall k :: |r| <= k < |s| ==> drop(s[k])
    ensures r != [] ==> !drop(r[|r| - 1])
    decreases |s|
  {
    if s != [] && drop(s[|s| - 1]) then TrimRight(s[..|s| - 1], drop) else s
  }

  /** Python's `s.strip(chars)`: the middle of `s` that neither starts nor
      ends with a dropped character; everything cut off is droppable. */
  function Trim(s: string, drop: char -> bool): (r: string)
    ensures |r| <= |s|
    ensures r != [] ==> !drop(r[0]) && !drop(r[|r| - 1])
    ensures r <= TrimLeft(s, drop)
  {
    TrimRight(TrimLeft(s, drop), drop)
  }

  /** The trimmed string is a contiguous slice of the original. */
  lemma TrimIsSlice(s: string, drop: char -> bool) returns (off: nat)
    ensures off + |Trim(s, drop)| <= |s|
    ensures Trim(s, drop) == s[off..off + |Trim(s, drop)|]
  {
    var left := TrimLeft(s, drop);
    off := |s| - |left|;
    PrefixOfSuffix(s, off, Trim(s, drop));
  }

  /** A prefix of the suffix from `off` is the slice starting at `off`. */
  lemma PrefixOfSuffix(s: string, off: nat, r: string)
    requires off <= |s| && r <= s[off..]
    ensures off + |r| <= |s| && r == s[off..off + |r|]
  {
  }

  /** `str.strip()` with no argument. */
  function Strip(s: string): (r: string)
    ensures |r| <= |s|
    ensures r != [] ==> !IsSpace(r[0]) && !IsSpace(r[|r| - 1])
  {
    Trim(s, IsSpace)
  }

  /** The stripped string is a contiguous slice of the original. */
  lemma StripIsSlice(s: string) returns (off: nat)
    ensures off + |Strip(s)| <= |s|
    ensures Strip(s) == s[off..off + |Strip(s)|]
  {
    var t := Strip(s);
    off := |s| - |TrimLeft(s, IsSpace)|;
    PrefixOfSuffix(s, off, t);
  }

  /** A string with no space at either end is its own strip. */
  lemma StripUnchanged(s: string)
    requires s != [] ==> !IsSpace(s[0]) && !IsSpace(s[|s| - 1])
    ensures Strip(s) == s
  {
    assert TrimLeft(s, IsSpace) == s;
    assert TrimRight(s, IsSpace) == s;
  }

  /** `s` with every character satisfying `p` removed. */
  function Without(s: string, p: char -> bool): (r: string)
    ensures |r| <= |s|
    ensures forall k :: 0 <= k < |r| ==> !p(r[k])
  {
    if s == [] then []
    else (if p(s[0]) then [] else [s[0]]) + Without(s[1..], p)
  }

  lemma {:induction false} WithoutConcat(a: string, b: string, p: char -> bool)
    ensures Without(a + b, p) == Without(a, p) + Without(b, p)
    decreases |a|
  {
    if a != [] {
      assert (a + b)[1..] == a[1..] + b;
      WithoutConcat(a[1..], b, p);
    } else {
      assert a + b == b;
    }
  }

  /** Trimming only characters that `p` removes anyway keeps `Without(_, p)`. */
  lemma WithoutTrim(s: string, drop: char -> bool, p: char -> bool)
    requires forall c :: drop(c) ==> p(c)
    ensures Without(Trim(s, drop), p) == Without(s, p)
  {
    WithoutTrimLeft(s, drop, p);
    WithoutTrimRight(TrimLeft(s, drop), drop, p);
  }

  lemma WithoutTrimLeft(s: string, drop: char -> bool, p: char -> bool)
    requires forall c :: drop(c) ==> p(c)
    ensures Without(TrimLeft(s, drop), p) == Without(s, p)
  {
    var l := TrimLeft(s, drop);
    var cut := |s| - |l|;
    var head := s[..cut];
    assert s == head + l;
    forall k | 0 <= k < |head| ensures p(head[k]) {
      assert drop(s[k]);
    }
    WithoutConcat(head, l, p);
    WithoutAllDropped(head, p);
  }

  lemma WithoutTrimRight(s: string, drop: char -> bool, p: char -> bool)
    requires forall c :: drop(c) ==> p(c)
    ensures Without(TrimRight(s, drop), p) == Without(s, p)
  {
    var r := TrimRight(s, drop);
    var tail := s[|r|..];
    assert s == r + tail;
    forall k | 0 <= k < |tail| ensures p(tail[k]) {
      assert drop(s[|r| + k]);
    }
    WithoutConcat(r, tail, p);
    WithoutAllDropped(tail, p);
  }

  /** Removing characters commutes with taking a prefix. */
  lemma WithoutPrefix(a: string, b: string, p: char -> bool)
    requires a <= b
    ensures Without(a, p) <= Without(b, p)
  {
    assert b == a + b[|a|..];
    WithoutConcat(a, b[|a|..], p);
  }

  lemma {:induction false} WithoutNothing(s: string, p: char -> bool)
    requires forall k :: 0 <= k < |s| ==> !p(s[k])
    ensures Without(s, p) == s
    decreases |s|
  {
    if s != [] {
      WithoutNothing(s[1..], p);
    }
  }

  lemma {:induction false} WithoutAllDropped(s: string, p: char -> bool)
    requires forall k :: 0 <= k < |s| ==> p(s[k])
    ensures Without(s, p) == []
    decreases |s|
  {
    if s != [] {
      WithoutAllDropped(s[1..], p);
    }
  }

  /** `re.sub("[<sep>]+", rep, s)`: every maximal run of separators becomes
      one `rep`; all other characters are kept in order. */
  function ReplaceRuns(s: string, isSep: char -> bool, rep: char): (r: string)
    ensures |r| <= |s|
    ensures r == [] <==> s == []
    ensures s != [] && isSep(s[0]) ==> r[0] == rep
    ensures s != [] && !isSep(s[0]) ==> r[0] == s[0]
    ensures forall k :: 0 <= k < |r| ==> r[k] == rep || !isSep(r[k])
    decreases |s|
  {
    if s == [] then []
    else if isSep(s[0]) then [rep] + ReplaceRuns(TrimLeft(s, isSep), isSep, rep)
    else [s[0]] + ReplaceRuns(s[1..], isSep, rep)
  }

  /** When the replacement is itself a separator, the result never holds it
      twice in a row. */
  lemma {:induction false} ReplaceRunsNoDouble(s: string, isSep: char -> bool, rep: char)
    requires isSep(rep)
    ensures NoDouble(ReplaceRuns(s, isSep, rep), rep)
    decreases |s|
  {
    if s != [] {
      var rest := if isSep(s[0]) then TrimLeft(s, isSep) else s[1..];
      ReplaceRunsNoDouble(rest, isSep, rep);
      NoDoubleStep(s, rest, isSep, rep);
    }
  }

  predicate NoDouble(r: string, c: char) {
    forall k :: 0 <= k < |r| - 1 ==> !(r[k] == c && r[k + 1] == c)
  }

  lemma NoDoubleStep(s: string, rest: string, isSep: char -> bool, rep: char)
    requires isSep(rep) && s != []
    requires rest == if isSep(s[0]) then TrimLeft(s, isSep) else s[1..]
    requires NoDouble(ReplaceRuns(rest, isSep, rep), rep)
    ensures NoDouble(ReplaceRuns(s, isSep, rep), rep)
  {
    var r := ReplaceRuns(s, isSep, rep);
    var tail := ReplaceRuns(rest, isSep, rep);
    var head := if isSep(s[0]) then rep else s[0];
    assert r == [head] + tail;
    assert tail != [] && isSep(s[0]) ==> tail[0] != rep;
    NoDoubleCons(head, tail, rep);
  }

  /** A slice of a string without doubled `c` has none either. */
  lemma NoDoubleSlice(s: string, c: char, i: nat, j: nat)
    requires i <= j <= |s| && NoDouble(s, c)
    ensures NoDouble(s[i..j], c)
  {
    var t := s[i..j];
    forall k | 0 <= k < |t| - 1
      ensures !(t[k] == c && t[k + 1] == c)
    {
      assert t[k] == s[i + k] && t[k + 1] == s[i + k + 1];
    }
  }

  lemma NoDoubleCons(head: char, tail: string, c: char)
    requires NoDouble(tail, c)
    requires head == c && tail != [] ==> tail[0] != c
    ensures NoDouble([head] + tail, c)
  {
    var r := [head] + tail;
    forall k | 0 <= k < |r| - 1
      ensures !(r[k] == c && r[k + 1] == c)
    {
      assert r[k + 1] == tail[k];
      if k > 0 {
        assert r[k] == tail[k - 1];
      }
    }
  }

  /** When the replacement is itself a separator, the characters that are
      not separators are exactly those of `s`, in order. */
  lemma {:induction false} ReplaceRunsKeepsOthers(s: string, isSep: char -> bool, rep: char)
    requires isSep(rep)
    ensures Without(ReplaceRuns(s, isSep, rep), isSep) == Without(s, isSep)
    decreases |s|
  {
    if s != [] {
      var rest := if isSep(s[0]) then TrimLeft(s, isSep) else s[1..];
      ReplaceRunsKeepsOthers(rest, isSep, rep);
      KeepsOthersStep(s, rest, isSep, rep);
    }
  }

  lemma KeepsOthersStep(s: string, rest: string, isSep: char -> bool, rep: char)
    requires isSep(rep) && s != []
    requires rest == if isSep(s[0]) then TrimLeft(s, isSep) else s[1..]
    requires Without(ReplaceRuns(rest, isSep, rep), isSep) == Without(rest, isSep)
    ensures Without(ReplaceRuns(s, isSep, rep), isSep) == Without(s, isSep)
  {
    var head := if isSep(s[0]) then rep else s[0];
    var tail := ReplaceRuns(rest, isSep, rep);
    assert ReplaceRuns(s, isSep, rep) == [head] + tail;
    WithoutCons(head, tail, isSep);
    if isSep(s[0]) {
      WithoutTrimLeft(s, isSep, isSep);
    } else {
      WithoutFirst(s, isSep);
    }
  }

  /** More generally, collapsing runs into a character that `p` also
      removes leaves what survives `p` unchanged, as long as `p` removes
      every separator. */
  lemma {:induction false} ReplaceRunsKeeps(s: string, isSep: char -> bool, rep: char, p: char -> bool)
    requires p(rep) && forall c :: isSep(c) ==> p(c)
    ensures Without(ReplaceRuns(s, isSep, rep), p) == Without(s, p)
    decreases |s|
  {
    if s != [] {
      var rest := if isSep(s[0]) then TrimLeft(s, isSep) else s[1..];
      ReplaceRunsKeeps(rest, isSep, rep, p);
      var head := if isSep(s[0]) then rep else s[0];
      assert ReplaceRuns(s, isSep, rep) == [head] + ReplaceRuns(rest, isSep, rep);
      WithoutCons(head, ReplaceRuns(rest, isSep, rep), p);
      if isSep(s[0]) {
        WithoutTrimLeft(s, isSep, p);
      }
    }
  }

  /** Two predicates that agree on every character of `s` remove the same
      characters. */
  lemma {:induction false} WithoutAgrees(s: string, p: char -> bool, q: char -> bool)
    requires forall k :: 0 <= k < |s| ==> (p(s[k]) <==> q(s[k]))
    ensures Without(s, p) == Without(s, q)
    decreases |s|
  {
    if s != [] {
      assert forall k :: 0 <= k < |s| - 1 ==> s[1..][k] == s[k + 1];
      WithoutAgrees(s[1..], p, q);
    }
  }

  lemma LowerConcat(a: string, b: string)
    ensures Lower(a + b) == Lower(a) + Lower(b)
  {
  }

  /** Strings that differ only in letter case, position by position, lose
      the same positions to `p` and agree once lower-cased. */
  lemma {:induction false} CaseBlindWithout(x: string, y: string, p: char -> bool)
    requires |x| == |y|
    requires forall k :: 0 <= k < |x| ==> (p(x[k]) <==> p(y[k])) && LowerChar(x[k]) == LowerChar(y[k])
    ensures Lower(Without(x, p)) == Lower(Without(y, p))
    decreases |x|
  {
    if x != [] {
      assert forall k :: 0 <= k < |x| - 1 ==> x[1..][k] == x[k + 1] && y[1..][k] == y[k + 1];
      CaseBlindWithout(x[1..], y[1..], p);
      var hx := if p(x[0]) then [] else [x[0]];
      var hy := if p(y[0]) then [] else [y[0]];
      assert Lower(hx) == Lower(hy);
      LowerConcat(hx, Without(x[1..], p));
      LowerConcat(hy, Without(y[1..], p));
    }
  }

  lemma WithoutFirst(s: string, p: char -> bool)
    requires s != [] && !p(s[0])
    ensures Without(s, p) == [s[0]] + Without(s[1..], p)
  {
  }

  lemma WithoutCons(c: char, t: string, p: char -> bool)
    ensures Without([c] + t, p) == (if p(c) then [] else [c]) + Without(t, p)
  {
    assert ([c] + t)[1..] == t;
  }

  /** A string with no separator is left as it is. */
  lemma {:induction false} ReplaceRunsUnchanged(s: string, isSep: char -> bool, rep: char)
    requires forall k :: 0 <= k < |s| ==> !isSep(s[k])
    ensures ReplaceRuns(s, isSep, rep) == s
    decreases |s|
  {
    if s != [] {
      ReplaceRunsUnchanged(s[1..], isSep, rep);
    }
  }

  /** A prefix without separators is copied. */
  lemma {:induction false} ReplaceRunsPrefix(s: string, n: nat, isSep: char -> bool, rep: char)
    requires n <= |s| && forall k :: 0 <= k < n ==> !isSep(s[k])
    ensures ReplaceRuns(s, isSep, rep) == s[..n] + ReplaceRuns(s[n..], isSep, rep)
    decreases n
  {
    if n > 0 {
      NoSepShift(s, n, isSep);
      ReplaceRunsPrefix(s[1..], n - 1, isSep, rep);
      assert ReplaceRuns(s, isSep, rep) == [s[0]] + ReplaceRuns(s[1..], isSep, rep);
      ShiftedSlices(s, n, ReplaceRuns(s[n..], isSep, rep));
    }
  }

  lemma NoSepShift(s: string, n: nat, isSep: char -> bool)
    requires 0 < n <= |s| && forall k :: 0 <= k < n ==> !isSep(s[k])
    ensures forall k :: 0 <= k < n - 1 ==> !isSep(s[1..][k])
  {
    forall k | 0 <= k < n - 1
      ensures !isSep(s[1..][k])
    {
      assert s[1..][k] == s[k + 1];
    }
  }

  /** Dropping the first character shifts every slice by one. */
  lemma ShiftedSlices(s: string, n: nat, t: string)
    requires 0 < n <= |s|
    ensures s[1..][n - 1..] == s[n..]
    ensures [s[0]] + (s[1..][..n - 1] + t) == s[..n] + t
  {
    assert s[..n] == [s[0]] + s[1..][..n - 1];
  }

  /** `sub` starts at index `i` of `s`. */
  predicate OccursAt(s: string, sub: string, i: int) {
    0 <= i <= |s| - |sub| && s[i..i + |sub|] == sub
  }

  /** Python's `sub in s`. */
  predicate Contains(s: string, sub: string) {
    exists i :: 0 <= i <= |s| - |sub| && OccursAt(s, sub, i)
  }

  /** An occurrence past the first index is an occurrence in the tail. */
  lemma ContainsTail(s: string, sub: string)
    requires s != [] && !OccursAt(s, sub, 0)
    ensures Contains(s, sub) <==> Contains(s[1..], sub)
  {
    if Contains(s, sub) {
      var i :| 0 <= i <= |s| - |sub| && OccursAt(s, sub, i);
      assert i != 0;
      assert s[1..][i - 1..i - 1 + |sub|] == s[i..i + |sub|];
      assert OccursAt(s[1..], sub, i - 1);
    }
    if Contains(s[1..], sub) {
      var i :| 0 <= i <= |s[1..]| - |sub| && OccursAt(s[1..], sub, i);
      assert s[1..][i..i + |sub|] == s[i + 1..i + 1 + |sub|];
      assert OccursAt(s, sub, i + 1);
    }
  }

  /** Number of leftmost, non-overlapping occurrences of `pat` in `s`. */
  function Occurrences(s: string, pat: string): nat
    requires pat != []
    decreases |s|
  {
    if |s| < |pat| then 0
    else if s[..|pat|] == pat then 1 + Occurrences(s[|pat|..], pat)
    else Occurrences(s[1..], pat)
  }

  /** Python's `s.replace(pat, rep)`: leftmost, non-overlapping. */
  function ReplaceAll(s: string, pat: string, rep: string): string
    requires pat != []
    decreases |s|
  {
    if |s| < |pat| then s
    else if s[..|pat|] == pat then rep + ReplaceAll(s[|pat|..], pat, rep)
    else [s[0]] + ReplaceAll(s[1..], pat, rep)
  }

  /** Replacing a pattern by itself gives back the original string. */
  lemma {:induction false} ReplaceAllSelf(s: string, pat: string)
    requires pat != []
    ensures ReplaceAll(s, pat, pat) == s
    decreases |s|
  {
    if |s| < |pat| {
    } else if s[..|pat|] == pat {
      ReplaceAllSelf(s[|pat|..], pat);
      assert s == s[..|pat|] + s[|pat|..];
    } else {
      ReplaceAllSelf(s[1..], pat);
      assert s == [s[0]] + s[1..];
    }
  }

  /** There are no occurrences exactly when the pattern is not a substring. */
  lemma {:induction false} OccurrencesZeroIffAbsent(s: string, pat: string)
    requires pat != []
    ensures Occurrences(s, pat) == 0 <==> !Contains(s, pat)
    decreases |s|
  {
    if |s| < |pat| {
      assert forall i :: !OccursAt(s, pat, i);
    } else if s[..|pat|] == pat {
      assert OccursAt(s, pat, 0);
    } else {
      OccurrencesZeroIffAbsent(s[1..], pat);
      ContainsTail(s, pat);
    }
  }

  /** Every replacement changes the length by `|rep| - |pat|`. */
  lemma {:induction false} ReplaceAllLength(s: string, pat: string, rep: string)
    requires pat != []
    ensures |ReplaceAll(s, pat, rep)| == |s| + Occurrences(s, pat) * (|rep| - |pat|)
    decreases |s|
  {
    if |s| < |pat| {
    } else if s[..|pat|] == pat {
      var rest := s[|pat|..];
      ReplaceAllLength(rest, pat, rep);
      assert ReplaceAll(s, pat, rep) == rep + ReplaceAll(rest, pat, rep);
      assert Occurrences(s, pat) == 1 + Occurrences(rest, pat);
      OneMoreOccurrence(|rest|, Occurrences(rest, pat), |pat|, |rep|);
    } else {
      ReplaceAllLength(s[1..], pat, rep);
    }
  }

  /** The length arithmetic of one more replacement. */
  lemma OneMoreOccurrence(rest: int, o: int, p: int, r: int)
    ensures r + (rest + o * (r - p)) == (p + rest) + (1 + o) * (r - p)
  {
    assert (1 + o) * (r - p) == (r - p) + o * (r - p);
  }

  /** A string that contains the pattern changes under replacement by
      anything other than the pattern itself. */
  lemma {:induction false} ReplaceAllChanges(s: string, pat: string, rep: string)
    requires pat != [] && rep != pat && Contains(s, pat)
    ensures ReplaceAll(s, pat, rep) != s
    decreases |s|
  {
    if |rep| != |pat| {
      OccurrencesZeroIffAbsent(s, pat);
      ReplaceAllLength(s, pat, rep);
      NonZeroProduct(Occurrences(s, pat), |rep| - |pat|);
    } else if s[..|pat|] == pat {
      assert ReplaceAll(s, pat, rep)[..|pat|] == rep;
    } else {
      ContainsTail(s, pat);
      ReplaceAllChanges(s[1..], pat, rep);
      assert ReplaceAll(s, pat, rep)[1..] == ReplaceAll(s[1..], pat, rep);
    }
  }

  /** A string without the pattern is left unchanged. */
  lemma {:induction false} ReplaceAllAbsent(s: string, pat: string, rep: string)
    requires pat != [] && !Contains(s, pat)
    ensures ReplaceAll(s, pat, rep) == s
    decreases |s|
  {
    if |s| >= |pat| {
      assert !OccursAt(s, pat, 0);
      ContainsTail(s, pat);
      ReplaceAllAbsent(s[1..], pat, rep);
      assert s == [s[0]] + s[1..];
    }
  }

  lemma NonZeroProduct(a: int, b: int)
    requires a != 0 && b != 0
    ensures a * b != 0
  {
  }
}
