/** The window of text around the cursor that is sent to the input method. */
module ImeWindow {
  import opened Basics
  import opened Utf8

  const MAX_SURROUNDING_TEXT_BYTES := 4000

  /** The last character boundary at or before `offset`. */
  ghost predicate IsFloor(text: seq<Byte>, offset: nat, floor: nat) {
    && floor <= offset && floor <= |text| && IsBoundary(text, floor)
    && forall i :: floor < i <= offset && i <= |text| ==> !IsBoundary(text, i)
  }

  method NormalizedOffset(text: seq<Byte>, offset: nat) returns (floor: nat)
    requires Valid(text)
    ensures IsFloor(text, offset, floor)
  {
    floor := if offset < |text| then offset else |text|;
    while !IsBoundary(text, floor)
      invariant floor <= offset && floor <= |text|
      invariant forall i :: floor < i <= offset && i <= |text| ==> !IsBoundary(text, i)
      decreases floor
    {
      floor := floor - 1;
    }
  }

  /** The window start moves to the next boundary, never past a boundary that follows it. */
  method SearchForward(text: seq<Byte>, from: nat, bound: nat) returns (start: nat)
    requires Valid(text) && from <= bound <= |text| && IsBoundary(text, bound)
    ensures from <= start <= from + 3 && start <= bound && IsBoundary(text, start)
    ensures forall i :: from <= i < start ==> !IsBoundary(text, i)
  {
    start := from;
    ghost var _, next := BoundaryNearby(text, from);
    while !IsBoundary(text, start)
      invariant from <= start <= next && start <= bound
      invariant forall i :: from <= i < start ==> !IsBoundary(text, i)
      decreases next - start
    {
      start := start + 1;
    }
  }

  method SearchBackward(text: seq<Byte>, from: nat) returns (end: nat)
    requires Valid(text) && from <= |text|
    ensures end <= from <= end + 3 && IsBoundary(text, end)
    ensures forall i :: end < i <= from ==> !IsBoundary(text, i)
  {
    end := from;
    ghost var previous, _ := BoundaryNearby(text, from);
    while !IsBoundary(text, end)
      invariant previous <= end <= from
      invariant forall i :: end < i <= from ==> !IsBoundary(text, i)
      decreases end
    {
      end := end - 1;
    }
  }

  /** Where 4000 bytes with the cursor in their middle begin, moved so that they lie within the text. */
  function Centred(length: nat, cursor: nat): (start: int)
    requires 4000 < length
  {
    if cursor < 2000 then 0 else if cursor > length - 2000 then length - 4000 else cursor - 2000
  }

  /** The window lies from the first boundary at or after that place to the last one within 4000 bytes
      of it and within the text. */
  ghost predicate Placed(text: seq<Byte>, cursor: nat, start: nat, end: nat)
    requires 4000 < |text| && start <= |text|
  {
    && Centred(|text|, cursor) <= start && IsBoundary(text, start)
    && (forall i :: Centred(|text|, cursor) <= i < start ==> !IsBoundary(text, i))
    && end <= start + 4000 && end <= |text| && IsBoundary(text, end)
    && (forall i :: end < i <= start + 4000 && i <= |text| ==> !IsBoundary(text, i))
  }

  /** `window` is a slice of `text` that can be sent: well-formed, within the wire limit, containing
      the cursor, nearly as long as the limit allows, and with the cursor as near to its middle as the
      text permits. */
  ghost predicate IsWindow(text: seq<Byte>, cursor: nat, anchor: nat, window: seq<Byte>, windowCursor: nat, windowAnchor: nat, start: nat) {
    && start + |window| <= |text| && window == text[start..start + |window|]
    && Valid(window) && |window| <= MAX_SURROUNDING_TEXT_BYTES
    && (if |text| <= MAX_SURROUNDING_TEXT_BYTES then window == text else |window| >= MAX_SURROUNDING_TEXT_BYTES - 3 && Placed(text, cursor, start, start + |window|))
    && start <= cursor <= start + |window| && windowCursor == cursor - start
    && windowAnchor == (if start <= anchor <= start + |window| then anchor - start else windowCursor)
    && IsBoundary(window, windowCursor) && IsBoundary(window, windowAnchor)
  }

  /** For every UTF-8 text and offsets; the subtractions cannot underflow because a boundary at or
      before the cursor bounds the first search. */
  method SurroundingTextWindow(text: seq<Byte>, cursor: nat, anchor: nat)
    returns (window: seq<Byte>, windowCursor: nat, windowAnchor: nat)
    requires Valid(text)
    ensures exists c: nat, a: nat, start: nat ::
      IsFloor(text, cursor, c) && IsFloor(text, anchor, a) && IsWindow(text, c, a, window, windowCursor, windowAnchor, start)
  {
    var caret := NormalizedOffset(text, cursor);
    var mark := NormalizedOffset(text, anchor);
    if |text| <= MAX_SURROUNDING_TEXT_BYTES {
      assert text[0..0 + |text|] == text;
      assert IsWindow(text, caret, mark, text, caret, mark, 0);
      return text, caret, mark;
    }
    var start := SearchForward(text, IdealStart(|text|, caret), caret);
    var end := SearchBackward(text, IdealEnd(|text|, start));
    WindowBounds(text, caret, start, end);
    assert Placed(text, caret, start, end);
    SliceIsWindow(text, caret, mark, start, end);
    window := text[start..end];
    windowCursor := caret - start;
    windowAnchor := if start <= mark <= end then mark - start else windowCursor;
    assert IsFloor(text, cursor, caret) && IsFloor(text, anchor, mark);
    assert IsWindow(text, caret, mark, window, windowCursor, windowAnchor, start);
  }

  function IdealStart(length: nat, caret: nat): (start: nat)
    requires length > MAX_SURROUNDING_TEXT_BYTES && caret <= length
    ensures start <= caret && start + MAX_SURROUNDING_TEXT_BYTES <= length
    ensures caret <= start + MAX_SURROUNDING_TEXT_BYTES / 2 || start + MAX_SURROUNDING_TEXT_BYTES == length
  {
    var start := if caret < MAX_SURROUNDING_TEXT_BYTES / 2 then 0 else caret - MAX_SURROUNDING_TEXT_BYTES / 2;
    if length - start < MAX_SURROUNDING_TEXT_BYTES then length - MAX_SURROUNDING_TEXT_BYTES else start
  }

  function IdealEnd(length: nat, start: nat): nat {
    if start + MAX_SURROUNDING_TEXT_BYTES < length then start + MAX_SURROUNDING_TEXT_BYTES else length
  }

  lemma WindowBounds(text: seq<Byte>, caret: nat, start: nat, end: nat)
    requires |text| > MAX_SURROUNDING_TEXT_BYTES && caret <= |text| && IsBoundary(text, caret)
    requires IdealStart(|text|, caret) <= start <= IdealStart(|text|, caret) + 3 && start <= caret
    requires end <= IdealEnd(|text|, start) <= end + 3
    requires forall i :: end < i <= IdealEnd(|text|, start) ==> !IsBoundary(text, i)
    ensures start <= caret <= end <= |text|
    ensures end <= start + MAX_SURROUNDING_TEXT_BYTES <= end + 3
  {
    assert IsBoundary(text, |text|);
  }

  lemma {:induction false} SliceIsWindow(text: seq<Byte>, caret: nat, mark: nat, start: nat, end: nat)
    requires Valid(text) && |text| > MAX_SURROUNDING_TEXT_BYTES
    requires start <= caret <= end <= |text| && end <= start + MAX_SURROUNDING_TEXT_BYTES <= end + 3 && mark <= |text|
    requires IsBoundary(text, caret) && IsBoundary(text, mark) && IsBoundary(text, start) && IsBoundary(text, end)
    requires Placed(text, caret, start, end)
    ensures IsWindow(text, caret, mark, text[start..end], caret - start, if start <= mark <= end then mark - start else caret - start, start)
  {
    SliceValid(text, start, end);
    BoundaryInSlice(text, start, end, caret);
    if start <= mark <= end {
      BoundaryInSlice(text, start, end, mark);
    }
  }

  /** A cursor well inside a long text has nearly 2000 bytes of it on either side; one near an end has
      everything up to that end. */
  lemma {:induction false} WindowIsCentred(text: seq<Byte>, cursor: nat, start: nat, end: nat)
    requires Valid(text) && 4000 < |text| && cursor <= |text| && IsBoundary(text, cursor) && start <= |text| && Placed(text, cursor, start, end)
    ensures cursor < 2000 ==> start == 0
    ensures cursor > |text| - 2000 ==> end == |text|
    ensures 2000 <= cursor ==> 1997 <= cursor - start
    ensures cursor <= |text| - 2000 ==> 1997 <= end - cursor
  {
    var ideal := Centred(|text|, cursor);
    var _, next := BoundaryNearby(text, ideal);
    var previous, _ := BoundaryNearby(text, if start + 4000 < |text| then start + 4000 else |text|);
    assert start <= next;
    assert previous <= end;
    assert IsBoundary(text, 0) && IsBoundary(text, |text|);
  }
}
