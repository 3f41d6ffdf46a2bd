/**
  Extraction of the logic block of a single-file component with the regular expression
  `/<script>([\s\S]*)<\/script>/`: the text between the first literal `<script>` tag
  (no attributes allowed) and the last `</script>` tag that starts after it.
 */
module ScriptBlock {
  import opened Wrappers
  import opened Text

  const OpenTag: string := "<script>"
  const CloseTag: string := "</script>"

  /** Bounds of the captured group: `content` is `doc[start..end]`. */
  datatype Span = Span(start: nat, end: nat)

  /**
    Where the regular expression's capture group lies, if the expression matches.
    The leftmost match starts at the first opening tag; the greedy `[\s\S]*` runs to the
    last closing tag in the document.
   */
  function ScriptSpan(doc: string): (r: Option<Span>)
    ensures r.Some? ==>
      |OpenTag| <= r.value.start <= r.value.end &&
      OccursAt(doc, OpenTag, r.value.start - |OpenTag|) &&
      OccursAt(doc, CloseTag, r.value.end)
    ensures r.Some? ==> forall i :: 0 <= i < r.value.start - |OpenTag| ==> !OccursAt(doc, OpenTag, i)
    ensures r.Some? ==> forall j :: r.value.end < j ==> !OccursAt(doc, CloseTag, j)
    ensures r.None? <==>
      forall i: nat, j: nat :: OccursAt(doc, OpenTag, i) && OccursAt(doc, CloseTag, j) ==> j < i + |OpenTag|
  {
    match FirstOccurrence(doc, OpenTag)
    case None => None
    case Some(p) =>
      match LastOccurrence(doc, CloseTag)
      case None => None
      case Some(q) =>
        if p + |OpenTag| <= q then Some(Span(p + |OpenTag|, q)) else None
  }

  /**
    The captured group of the match (`match(...)?.[1]`), or None when nothing matches: the
    text that stands between the first `<script>` of the document and the last `</script>`.
    Nothing or nothing but "" is captured exactly when no `</script>` starts strictly after
    the end of a `<script>`.
   */
  function ScriptContent(doc: string): (r: Option<string>)
    ensures r.None? <==>
      forall i: nat, j: nat :: OccursAt(doc, OpenTag, i) && OccursAt(doc, CloseTag, j) ==> j < i + |OpenTag|
    ensures r.Some? ==> exists i: nat ::
      OccursAt(doc, OpenTag + r.value + CloseTag, i) &&
      (forall k: nat :: k < i ==> !OccursAt(doc, OpenTag, k)) &&
      (forall j: nat :: i + |OpenTag| + |r.value| < j ==> !OccursAt(doc, CloseTag, j))
    ensures r.None? || r.value == [] <==>
      forall i: nat, j: nat :: OccursAt(doc, OpenTag, i) && OccursAt(doc, CloseTag, j) ==> j <= i + |OpenTag|
  {
    match ScriptSpan(doc)
    case None => None
    case Some(span) =>
      var content := doc[span.start..span.end];
      var i: nat := span.start - |OpenTag|;
      TagsAround(doc, span);
      assert OccursAt(doc, OpenTag + content + CloseTag, i) &&
        (forall k: nat :: k < i ==> !OccursAt(doc, OpenTag, k)) &&
        (forall j: nat :: i + |OpenTag| + |content| < j ==> !OccursAt(doc, CloseTag, j));
      Some(content)
  }

  /** The opening tag, the captured text and the closing tag are contiguous in the document. */
  lemma TagsAround(doc: string, span: Span)
    requires |OpenTag| <= span.start <= span.end
    requires OccursAt(doc, OpenTag, span.start - |OpenTag|) && OccursAt(doc, CloseTag, span.end)
    ensures OccursAt(doc, OpenTag + doc[span.start..span.end] + CloseTag, span.start - |OpenTag|)
    ensures span.start - |OpenTag| + |OpenTag| + |doc[span.start..span.end]| == span.end
  {
    var i := span.start - |OpenTag|;
    var whole := doc[i..span.end + |CloseTag|];
    assert doc[i..span.start] == OpenTag;
    assert doc[span.end..span.end + |CloseTag|] == CloseTag;
    assert whole == doc[i..span.start] + doc[span.start..span.end] + doc[span.end..span.end + |CloseTag|];
  }
}
