/**
 * The arrow-key part of the document's keydown handler: find the section
 * that straddles the line 100 px below the top of the viewport, and step
 * to its neighbour above or below.
 */
module Keyboard {
  import opened Wrappers

  datatype Key = ArrowUp | ArrowDown

  /** A section's bounding box, vertically (`getBoundingClientRect().top/bottom`). */
  datatype Rect = Rect(top: real, bottom: real)

  /** The line a section must straddle to count as the current one. */
  const Line: real := 100.0

  predicate Straddles(r: Rect)
  {
    r.top <= Line && r.bottom > Line
  }

  /** The index `find` + `indexOf` yield: the first straddling section, or `|rects|` if none. */
  function CurrentSection(rects: seq<Rect>): (r: nat)
    ensures r <= |rects|
    ensures r < |rects| ==> Straddles(rects[r])
    ensures forall j :: 0 <= j < r ==> !Straddles(rects[j])
  {
    if rects == [] then 0
    else if Straddles(rects[0]) then 0
    else 1 + CurrentSection(rects[1..])
  }

  /** `targetIndex`: the neighbour in the key's direction, undefined at either end. */
  function TargetIndex(key: Key, current: nat, count: nat): (r: Option<nat>)
    requires current < count
    ensures r.Some? ==> r.value < count
  {
    match key
    case ArrowUp => if current > 0 then Some(current - 1) else None
    case ArrowDown => if current < count - 1 then Some(current + 1) else None
  }

  /** Up moves exactly one section back and is undefined only at the first section. */
  lemma UpStep(current: nat, count: nat)
    requires current < count
    ensures TargetIndex(ArrowUp, current, count).None? <==> current == 0
    ensures current > 0 ==> TargetIndex(ArrowUp, current, count) == Some(current - 1)
  {
  }

  /** Down moves exactly one section on and is undefined only at the last section. */
  lemma DownStep(current: nat, count: nat)
    requires current < count
    ensures TargetIndex(ArrowDown, current, count).None? <==> current == count - 1
    ensures current < count - 1 ==> TargetIndex(ArrowDown, current, count) == Some(current + 1)
  {
  }

  /** Down then Up returns to the start, and Up then Down does too. */
  lemma UpUndoesDown(current: nat, count: nat)
    requires current < count
    ensures TargetIndex(ArrowDown, current, count).Some? ==>
              TargetIndex(ArrowUp, TargetIndex(ArrowDown, current, count).value, count) == Some(current)
    ensures TargetIndex(ArrowUp, current, count).Some? ==>
              TargetIndex(ArrowDown, TargetIndex(ArrowUp, current, count).value, count) == Some(current)
  {
  }

  /** The whole arrow-key rule: no current section, or no neighbour, means no scroll. */
  function ArrowTarget(key: Key, rects: seq<Rect>): (r: Option<nat>)
    ensures r.Some? ==> r.value < |rects|
    ensures r.Some? ==> exists c :: 0 <= c < |rects| && Straddles(rects[c]) && (r.value == c + 1 || r.value + 1 == c)
    ensures (forall j :: 0 <= j < |rects| ==> !Straddles(rects[j])) ==> r == None
    ensures r.Some? ==>
              var c := if key == ArrowUp then r.value + 1 else r.value - 1;
              && 0 <= c < |rects| && Straddles(rects[c])
              && forall j :: 0 <= j < c ==> !Straddles(rects[j])
    ensures var c := CurrentSection(rects);
              c < |rects| && (key == ArrowUp ==> c > 0) && (key == ArrowDown ==> c + 1 < |rects|) ==> r.Some?
  {
    var c := CurrentSection(rects);
    if c < |rects| then TargetIndex(key, c, |rects|) else None
  }
}
