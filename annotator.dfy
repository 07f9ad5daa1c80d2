/**
 * The TokenAnnotator component of src/TokenAnnotator.tsx: its mouse-up
 * handler (selection -> span -> sorted collection) and the getSpan hook.
 * The DOM is replaced by what the handler observes of it: whether onChange
 * was supplied, whether the selection is empty, the data-i index of each
 * endpoint's parent element (if it has one) and whether the selection runs
 * backwards. Clearing the native selection is an output flag.
 */
module Annotator {
  import opened Wrappers
  import opened Spans
  import opened SpanSort
  import opened SpanStore

  type Token = string

  /** The fields of a span object besides start and end: the candidate built
      from a selection carries the covered tokens, and a getSpan hook
      usually attaches a tag. */
  datatype Fields = Fields(tokens: seq<Token>, tag: Option<string>)

  type Annotation = Span<Fields>

  /** What handleMouseUp reads from window.getSelection(). */
  datatype Selection = Selection(
    isEmpty: bool,             // selectionIsEmpty(selection)
    anchorIndex: Option<int>,  // data-i of the anchor node's parent, None when it has none
    focusIndex: Option<int>,   // data-i of the focus node's parent, None when it has none
    isBackwards: bool)         // selectionIsBackwards(selection)

  /** What handleMouseUp does: the collection it passes to onChange (None
      when it does not call it) and whether it empties the native selection. */
  datatype MouseUpEffect = MouseUpEffect(emitted: Option<seq<Annotation>>, clearsSelection: bool)

  /** How Array.prototype.slice turns an argument into a position in a
      sequence of length len: negative counts from the end, then clamped. */
  function SliceIndex(i: int, len: nat): (r: nat)
    ensures r <= len
    ensures 0 <= i <= len ==> r == i
    ensures i > len ==> r == len
  {
    if i < 0 then (if len + i < 0 then 0 else len + i)
    else if i > len then len
    else i
  }

  /** tokens.slice(start, end). */
  function TokenSlice(tokens: seq<Token>, start: int, end: int): (r: seq<Token>)
    ensures |r| <= |tokens|
    ensures 0 <= start <= end <= |tokens| ==> r == tokens[start..end]
    ensures 0 <= end <= start ==> r == []
  {
    var lo, hi := SliceIndex(start, |tokens|), SliceIndex(end, |tokens|);
    if lo <= hi then tokens[lo..hi] else []
  }

  /** The interval handleMouseUp builds from the endpoints' indices: swapped
      when the selection runs backwards, then made end-exclusive. */
  function ResolvedInterval(anchor: int, focus: int, backwards: bool): (int, int) {
    if backwards then (focus, anchor + 1) else (anchor, focus + 1)
  }

  /** The object handed to getSpan: the interval and the tokens it covers. */
  function Candidate(tokens: seq<Token>, start: int, end: int): (c: Annotation)
    ensures c.start == start && c.end == end && c.payload.tag == None
    ensures 0 <= start <= end <= |tokens| ==> c.payload.tokens == tokens[start..end]
  {
    Span(start, end, Fields(TokenSlice(tokens, start, end), None))
  }

  /** The component's getSpan: the caller's hook when there is one, the
      identity otherwise. */
  function GetSpan(hook: Option<Annotation -> Annotation>, c: Annotation): (r: Annotation)
    ensures hook.None? ==> r == c
  {
    match hook
    case None => c
    case Some(f) => f(c)
  }

  /** handleMouseUp. */
  method HandleMouseUp(hasOnChange: bool, tokens: seq<Token>, value: seq<Annotation>,
                       getSpan: Option<Annotation -> Annotation>, sel: Selection)
    returns (effect: MouseUpEffect)
    ensures !hasOnChange || sel.isEmpty ==> effect == MouseUpEffect(None, false)
    ensures hasOnChange && !sel.isEmpty && (sel.anchorIndex.None? || sel.focusIndex.None?) ==>
      effect == MouseUpEffect(None, true)
    ensures hasOnChange && !sel.isEmpty && sel.anchorIndex.Some? && sel.focusIndex.Some? ==>
      var iv := ResolvedInterval(sel.anchorIndex.value, sel.focusIndex.value, sel.isBackwards);
      effect == MouseUpEffect(Some(AddSpan(value, GetSpan(getSpan, Candidate(tokens, iv.0, iv.1)))), true)
  {
    if !hasOnChange {
      return MouseUpEffect(None, false);
    }
    if sel.isEmpty {
      return MouseUpEffect(None, false);
    }
    if sel.anchorIndex.None? || sel.focusIndex.None? {
      return MouseUpEffect(None, true);
    }
    var start := sel.anchorIndex.value;
    var end := sel.focusIndex.value;
    if sel.isBackwards {
      start, end := end, start;
    }
    end := end + 1;
    var span := GetSpan(getSpan, Candidate(tokens, start, end));
    var emitted := AppendAndSort(value, span);
    return MouseUpEffect(Some(emitted), true);
  }

  /** Lines 71-90 of handleMouseUp: a fresh array holding the collection
      and then the new span, sorted in place. */
  method AppendAndSort(value: seq<Annotation>, span: Annotation) returns (r: seq<Annotation>)
    ensures r == AddSpan(value, span)
  {
    var a := new Annotation[|value| + 1](i requires 0 <= i <= |value| => if i < |value| then value[i] else span);
    assert a[..] == value + [span];
    SortInPlace(a);
    return a[..];
  }

  /** When the backwards flag agrees with the order of the endpoints, the
      interval covers both endpoint tokens and everything between them. */
  lemma ResolvedIntervalCoversSelection(anchor: int, focus: int, backwards: bool)
    requires backwards ==> focus <= anchor
    requires !backwards ==> anchor <= focus
    ensures var iv := ResolvedInterval(anchor, focus, backwards);
      && iv.0 < iv.1
      && iv.0 == (if anchor <= focus then anchor else focus)
      && iv.1 == (if anchor <= focus then focus else anchor) + 1
  {
  }

  /** For a selection whose endpoints are rendered tokens, the candidate
      carries the selected tokens, endpoints included, and at least one. */
  lemma CandidateCarriesSelectedTokens(tokens: seq<Token>, anchor: int, focus: int, backwards: bool)
    requires 0 <= anchor < |tokens| && 0 <= focus < |tokens|
    requires backwards ==> focus <= anchor
    requires !backwards ==> anchor <= focus
    ensures var iv := ResolvedInterval(anchor, focus, backwards);
      var lo, hi := if anchor <= focus then anchor else focus, if anchor <= focus then focus else anchor;
      && Candidate(tokens, iv.0, iv.1).payload.tokens == tokens[lo..hi + 1]
      && |Candidate(tokens, iv.0, iv.1).payload.tokens| >= 1
  {
    ResolvedIntervalCoversSelection(anchor, focus, backwards);
  }

  /** With a hook that keeps start and end (or with none), the emitted
      collection holds an entry exactly at the selected interval. */
  lemma EmittedHoldsInterval(value: seq<Annotation>, hook: Option<Annotation -> Annotation>, c: Annotation)
    requires hook.Some? ==> hook.value(c).start == c.start && hook.value(c).end == c.end
    ensures exists j :: 0 <= j < |AddSpan(value, GetSpan(hook, c))| && Matches(AddSpan(value, GetSpan(hook, c))[j], c.start, c.end)
  {
    var x := GetSpan(hook, c);
    var r := AddSpan(value, x);
    assert x in multiset(r);
    var j :| 0 <= j < |r| && r[j] == x;
    assert Matches(r[j], c.start, c.end);
  }
}
