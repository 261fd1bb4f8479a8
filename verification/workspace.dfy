/** The agent workspace's screen pop: a record's link into the source
    system, built from the source's URL template by substituting the value
    of the record's unique-id column for every `{unique_id}`. */
module Workspace {
  import opened Wrappers
  import opened Text
  import Sources

  const Placeholder := "{unique_id}"

  /** A fetched record: physical column name to the `str()` text of its
      value, `None` where the value is SQL NULL. */
  type Record = map<string, Option<string>>

  /** The first column flagged as the unique id, by position. */
  function FirstUniqueColumn(columns: seq<Sources.ColumnMeta>): (r: Option<nat>)
    ensures r.None? <==> forall i :: 0 <= i < |columns| ==> !columns[i].isUniqueId
    ensures r.Some? ==> r.value < |columns| && columns[r.value].isUniqueId
    ensures r.Some? ==> forall i :: 0 <= i < r.value ==> !columns[i].isUniqueId
    decreases |columns|
  {
    if columns == [] then None
    else if columns[0].isUniqueId then Some(0)
    else
      var rest := FirstUniqueColumn(columns[1..]);
      assert forall i :: 1 <= i < |columns| ==> columns[i] == columns[1..][i - 1];
      if rest.None? then None else Some(rest.value + 1)
  }

  /** `str(record.get(name, ""))`: the empty string for a column the
      record lacks, and Python's "None" for a NULL value. */
  function ValueText(record: Record, name: string): (r: string)
    ensures name !in record ==> r == ""
    ensures name in record && record[name].Some? ==> r == record[name].value
    ensures name in record && record[name].None? ==> r == "None"
  {
    if name !in record then ""
    else if record[name].None? then "None"
    else record[name].value
  }

  /** `resolve_screen_pop_url`: no link without a non-empty template or a
      flagged column; otherwise the template with every `{unique_id}`
      (leftmost, non-overlapping, as `str.replace`) replaced by the value
      of the first flagged column. */
  function ResolveScreenPopUrl(source: Sources.Source, record: Record): (r: Option<string>)
    ensures r.None? <==>
      source.screenPopUrlTemplate.None? || source.screenPopUrlTemplate.value == []
      || forall i :: 0 <= i < |source.columns| ==> !source.columns[i].isUniqueId
    ensures r.Some? ==> forall i :: (
      0 <= i < |source.columns| && source.columns[i].isUniqueId
      && (forall j :: 0 <= j < i ==> !source.columns[j].isUniqueId)
      ==> r.value == ReplaceAll(source.screenPopUrlTemplate.value, Placeholder, ValueText(record, source.columns[i].physicalName)))
  {
    match source.screenPopUrlTemplate
    case None => None
    case Some(template) =>
      if template == [] then None
      else
        var col := FirstUniqueColumn(source.columns);
        if col.None? then None
        else
          FirstFlaggedIsUnique(source.columns, col.value);
          Some(ReplaceAll(template, Placeholder, ValueText(record, source.columns[col.value].physicalName)))
  }

  /** Only one column is flagged with no flagged column before it. */
  lemma FirstFlaggedIsUnique(columns: seq<Sources.ColumnMeta>, c: nat)
    requires c < |columns| && columns[c].isUniqueId
    requires forall j :: 0 <= j < c ==> !columns[j].isUniqueId
    ensures forall i :: (
      0 <= i < |columns| && columns[i].isUniqueId
      && (forall j :: 0 <= j < i ==> !columns[j].isUniqueId)
      ==> i == c)
  {
  }

  /** The value the link carries: that of the first flagged column. */
  function UniqueValue(source: Sources.Source, record: Record): (r: Option<string>)
    ensures r.None? <==> forall i :: 0 <= i < |source.columns| ==> !source.columns[i].isUniqueId
  {
    var col := FirstUniqueColumn(source.columns);
    if col.None? then None else Some(ValueText(record, source.columns[col.value].physicalName))
  }

  /** A template without the placeholder is the link as it stands,
      whatever the record holds. */
  lemma TemplateWithoutPlaceholderUnchanged(source: Sources.Source, record: Record)
    requires source.screenPopUrlTemplate.Some? && source.screenPopUrlTemplate.value != []
    requires UniqueValue(source, record).Some?
    requires !Contains(source.screenPopUrlTemplate.value, Placeholder)
    ensures ResolveScreenPopUrl(source, record) == Some(source.screenPopUrlTemplate.value)
  {
    var v := UniqueValue(source, record).value;
    LinkIsReplacement(source, record);
    ReplaceAllAbsent(source.screenPopUrlTemplate.value, Placeholder, v);
  }

  /** A link is the template with the unique value in for the placeholder. */
  lemma LinkIsReplacement(source: Sources.Source, record: Record)
    requires source.screenPopUrlTemplate.Some? && source.screenPopUrlTemplate.value != []
    requires UniqueValue(source, record).Some?
    ensures ResolveScreenPopUrl(source, record)
      == Some(ReplaceAll(source.screenPopUrlTemplate.value, Placeholder, UniqueValue(source, record).value))
  {
  }

  /** Each placeholder in the template trades its 11 characters for the
      value's. */
  lemma LinkLength(source: Sources.Source, record: Record)
    requires source.screenPopUrlTemplate.Some? && source.screenPopUrlTemplate.value != []
    requires UniqueValue(source, record).Some?
    ensures ResolveScreenPopUrl(source, record).Some?
    ensures var t := source.screenPopUrlTemplate.value;
      |ResolveScreenPopUrl(source, record).value|
        == |t| + Occurrences(t, Placeholder) * (|UniqueValue(source, record).value| - 11)
  {
    LinkIsReplacement(source, record);
    ReplacementLength(source.screenPopUrlTemplate.value, UniqueValue(source, record).value);
  }

  /** A template that holds the placeholder yields a different link unless
      the value is the placeholder itself. */
  lemma LinkDiffersWhenPlaceholderPresent(source: Sources.Source, record: Record)
    requires source.screenPopUrlTemplate.Some? && source.screenPopUrlTemplate.value != []
    requires UniqueValue(source, record).Some? && UniqueValue(source, record).value != Placeholder
    requires Contains(source.screenPopUrlTemplate.value, Placeholder)
    ensures ResolveScreenPopUrl(source, record).Some?
    ensures ResolveScreenPopUrl(source, record).value != source.screenPopUrlTemplate.value
  {
    LinkIsReplacement(source, record);
    ReplaceAllChanges(source.screenPopUrlTemplate.value, Placeholder, UniqueValue(source, record).value);
  }

  lemma ReplacementLength(t: string, v: string)
    ensures |ReplaceAll(t, Placeholder, v)| == |t| + Occurrences(t, Placeholder) * (|v| - 11)
  {
    ReplaceAllLength(t, Placeholder, v);
  }

  /** The text of a link template around its placeholders: `pieces` joined
      by `sep`. */
  function Interleave(pieces: seq<string>, sep: string): (r: string)
    requires |pieces| > 0
    ensures |pieces| == 1 ==> r == pieces[0]
    decreases |pieces|
  {
    if |pieces| == 1 then pieces[0] else pieces[0] + sep + Interleave(pieces[1..], sep)
  }

  /** No piece opens a brace, so the placeholders are exactly where the
      template's author put them. */
  predicate BraceFree(pieces: seq<string>) {
    forall k, c :: 0 <= k < |pieces| && 0 <= c < |pieces[k]| ==> pieces[k][c] != '{'
  }

  /** Against a template written as literal text with `{unique_id}` between
      the pieces, and no other brace, the link is that text with the value
      in each placeholder's place. */
  lemma EveryPlaceholderFilled(source: Sources.Source, record: Record, pieces: seq<string>)
    requires |pieces| > 0 && BraceFree(pieces)
    requires source.screenPopUrlTemplate == Some(Interleave(pieces, Placeholder))
    requires Interleave(pieces, Placeholder) != [] && UniqueValue(source, record).Some?
    ensures ResolveScreenPopUrl(source, record) == Some(Interleave(pieces, UniqueValue(source, record).value))
  {
    LinkIsReplacement(source, record);
    FillPieces(pieces, UniqueValue(source, record).value);
  }

  lemma {:induction false} FillPieces(pieces: seq<string>, v: string)
    requires |pieces| > 0 && BraceFree(pieces)
    ensures ReplaceAll(Interleave(pieces, Placeholder), Placeholder, v) == Interleave(pieces, v)
    decreases |pieces|
  {
    var a := pieces[0];
    assert forall c :: 0 <= c < |a| ==> a[c] != '{';
    if |pieces| == 1 {
      SkipBraceFree(a, [], v);
      assert a + [] == a;
    } else {
      var rest := pieces[1..];
      assert BraceFree(rest) by {
        forall k, c | 0 <= k < |rest| && 0 <= c < |rest[k]|
          ensures rest[k][c] != '{'
        {
          assert rest[k] == pieces[k + 1];
        }
      }
      FillPieces(rest, v);
      var tail := Interleave(rest, Placeholder);
      SkipBraceFree(a, Placeholder + tail, v);
      ReplacePlaceholderFirst(tail, v);
      assert Interleave(pieces, Placeholder) == a + (Placeholder + tail);
    }
  }

  /** Text without a `{` passes through the replacement untouched. */
  lemma {:induction false} SkipBraceFree(a: string, t: string, v: string)
    requires forall c :: 0 <= c < |a| ==> a[c] != '{'
    ensures ReplaceAll(a + t, Placeholder, v) == a + ReplaceAll(t, Placeholder, v)
    decreases |a|
  {
    if a != [] {
      var s := a + t;
      assert s[0] == a[0] != Placeholder[0];
      if |s| >= |Placeholder| {
        assert s[..|Placeholder|] != Placeholder by {
          assert s[..|Placeholder|][0] != Placeholder[0];
        }
      }
      SkipBraceFree(a[1..], t, v);
      assert s[1..] == a[1..] + t;
      assert a == [a[0]] + a[1..];
    } else {
      assert a + t == t;
    }
  }

  /** A placeholder at the front is replaced and the rest follows. */
  lemma ReplacePlaceholderFirst(t: string, v: string)
    ensures ReplaceAll(Placeholder + t, Placeholder, v) == v + ReplaceAll(t, Placeholder, v)
  {
    var s := Placeholder + t;
    assert s[..|Placeholder|] == Placeholder;
    assert s[|Placeholder|..] == t;
  }
}
