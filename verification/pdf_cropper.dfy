/** `public/scripts/pdf_cropper.py`: choosing a crop rectangle with the mouse on a
    rendered first page. The OpenCV window delivers mouse events and key codes;
    here they are an input sequence, and the callback's globals are one record. */
module PdfCropper {
  import opened Wrappers

  datatype Point = Point(x: int, y: int)

  /** A rectangle as the selection returns it: `(x1, y1, x2, y2)`. */
  datatype Rect = Rect(x1: int, y1: int, x2: int, y2: int)

  /** The callback's state: the recorded points `ref_point` and the `cropping` flag. */
  datatype Mouse = Mouse(points: seq<Point>, cropping: bool)

  const Start := Mouse([], false)

  /** A mouse event; every event other than the left button going down or up is `Moved`. */
  datatype Event = ButtonDown(at: Point) | ButtonUp(at: Point) | Moved

  /** `click_and_crop`: button-down restarts the selection at the clicked point,
      button-up appends its point and ends the drag, anything else is ignored. */
  function OnMouse(m: Mouse, e: Event): (r: Mouse)
    ensures e.ButtonDown? ==> r.points == [e.at] && r.cropping
    ensures e.ButtonUp? ==> |r.points| == |m.points| + 1 && r.points[..|m.points|] == m.points && !r.cropping
    ensures e.ButtonUp? ==> r.points[|m.points|] == e.at
    ensures e.Moved? ==> r == m
  {
    match e
    case ButtonDown(p) => Mouse([p], true)
    case ButtonUp(p) => Mouse(m.points + [p], false)
    case Moved => m
  }

  /** The state after a sequence of events. */
  function Replay(m: Mouse, events: seq<Event>): Mouse {
    if |events| == 0 then m else OnMouse(Replay(m, events[..|events| - 1]), events[|events| - 1])
  }

  // ---------------------------------------------------------------------------
  // What the recorded points are, stated without the state machine

  /** The points of all button-up events, in order. */
  function Ups(events: seq<Event>): (ps: seq<Point>)
    ensures |ps| <= |events|
  {
    if |events| == 0 then []
    else if events[0].ButtonUp? then [events[0].at] + Ups(events[1..])
    else Ups(events[1..])
  }

  /** No event in the sequence is a button-down. */
  predicate NoPress(events: seq<Event>) {
    forall j :: 0 <= j < |events| ==> !events[j].ButtonDown?
  }

  lemma {:induction false} UpsAppend(events: seq<Event>, e: Event)
    ensures Ups(events + [e]) == Ups(events) + (if e.ButtonUp? then [e.at] else [])
    decreases |events|
  {
    if |events| == 0 {
      assert ([] + [e])[1..] == [];
    } else {
      assert (events + [e])[1..] == events[1..] + [e];
      UpsAppend(events[1..], e);
    }
  }

  /** Without any press, the points are those of the releases and no drag is in
      progress. */
  lemma {:induction false} ReplayWithoutPress(events: seq<Event>)
    requires NoPress(events)
    ensures Replay(Start, events) == Mouse(Ups(events), false)
    decreases |events|
  {
    if |events| > 0 {
      var init := events[..|events| - 1];
      var e := events[|events| - 1];
      assert events == init + [e];
      ReplayWithoutPress(init);
      UpsAppend(init, e);
    }
  }

  /** After a press at `p` followed by events without a press, the points are `p`
      then the points of the releases since, and a drag is in progress exactly
      when there has been no release since. Whatever came before the press does
      not matter. */
  lemma {:induction false} ReplayAfterPress(before: seq<Event>, p: Point, after: seq<Event>)
    requires NoPress(after)
    ensures Replay(Start, before + [ButtonDown(p)] + after) ==
      Mouse([p] + Ups(after), Ups(after) == [])
    decreases |after|
  {
    var events := before + [ButtonDown(p)] + after;
    if |after| == 0 {
      assert events == before + [ButtonDown(p)];
      assert events[..|events| - 1] == before;
    } else {
      var init := after[..|after| - 1];
      var e := after[|after| - 1];
      assert after == init + [e];
      assert events[..|events| - 1] == before + [ButtonDown(p)] + init;
      ReplayAfterPress(before, p, init);
      UpsAppend(init, e);
      if e.ButtonUp? {
        assert [p] + (Ups(init) + [e.at]) == ([p] + Ups(init)) + [e.at];
      }
    }
  }

  /** A press at `p`, any moves, then a release at `q` records exactly `[p, q]`,
      whatever came before. */
  lemma DragRecords(before: seq<Event>, p: Point, moves: nat, q: Point)
    ensures Replay(Start, before + [ButtonDown(p)] + seq(moves, _ => Moved) + [ButtonUp(q)]).points == [p, q]
  {
    var after := seq(moves, _ => Moved) + [ButtonUp(q)];
    assert before + [ButtonDown(p)] + seq(moves, _ => Moved) + [ButtonUp(q)] == before + [ButtonDown(p)] + after;
    assert NoPress(after) by {
      forall j | 0 <= j < |after|
        ensures !after[j].ButtonDown?
      {
        if j < moves {
          assert after[j] == Moved;
        }
      }
    }
    ReplayAfterPress(before, p, after);
    UpsAppend(seq(moves, _ => Moved), ButtonUp(q));
    NoUps(moves);
  }

  lemma {:induction false} NoUps(moves: nat)
    ensures Ups(seq(moves, _ => Moved)) == []
  {
    if moves > 0 {
      assert seq(moves, _ => Moved)[1..] == seq(moves - 1, _ => Moved);
      NoUps(moves - 1);
    }
  }

  // ---------------------------------------------------------------------------
  // The selection loop

  /** What one `cv2.waitKey` round delivers: a mouse event, or a key code (-1 when
      no key was pressed). */
  datatype Input = MouseInput(event: Event) | KeyInput(code: int)

  /** The loop ends on Enter (13) or Esc (27), after `key & 0xFF`. */
  predicate EndsSelection(code: int) {
    code % 256 == 13 || code % 256 == 27
  }

  predicate IsEndKey(i: Input) {
    i.KeyInput? && EndsSelection(i.code)
  }

  /** The mouse events among the inputs, in order. */
  function MouseEvents(inputs: seq<Input>): (es: seq<Event>)
    ensures |es| <= |inputs|
  {
    if |inputs| == 0 then []
    else if inputs[|inputs| - 1].MouseInput? then MouseEvents(inputs[..|inputs| - 1]) + [inputs[|inputs| - 1].event]
    else MouseEvents(inputs[..|inputs| - 1])
  }

  /** The `while True` loop of `select_crop_area` over the given inputs: it stops at
      the first Enter or Esc, with the state the mouse events before it produced;
      `finished` is false when the inputs ran out first. */
  method SelectionLoop(inputs: seq<Input>) returns (m: Mouse, finished: bool, used: nat)
    ensures used <= |inputs|
    ensures finished <==> exists i :: 0 <= i < |inputs| && IsEndKey(inputs[i])
    ensures finished ==> used < |inputs| && IsEndKey(inputs[used])
    ensures !finished ==> used == |inputs|
    ensures forall i :: 0 <= i < used ==> !IsEndKey(inputs[i])
    ensures m == Replay(Start, MouseEvents(inputs[..used]))
  {
    m := Start;
    finished := false;
    used := 0;
    while used < |inputs|
      invariant used <= |inputs|
      invariant forall i :: 0 <= i < used ==> !IsEndKey(inputs[i])
      invariant m == Replay(Start, MouseEvents(inputs[..used]))
    {
      var input := inputs[used];
      if IsEndKey(input) {
        finished := true;
        return;
      }
      assert inputs[..used + 1][..used] == inputs[..used];
      if input.MouseInput? {
        m := OnMouse(m, input.event);
        assert MouseEvents(inputs[..used + 1]) == MouseEvents(inputs[..used]) + [input.event];
      }
      used := used + 1;
    }
  }

  // ---------------------------------------------------------------------------
  // The returned rectangle

  function Min(a: int, b: int): int {
    if a <= b then a else b
  }

  function Max(a: int, b: int): int {
    if a <= b then b else a
  }

  /** `(min(x1, x2), min(y1, y2), max(x1, x2), max(y1, y2))`: the corners ordered so
      the first is top-left, each coordinate taken from one of the points. */
  function Normalize(p: Point, q: Point): (r: Rect)
    ensures r.x1 <= r.x2 && r.y1 <= r.y2
    ensures (r.x1 == p.x && r.x2 == q.x) || (r.x1 == q.x && r.x2 == p.x)
    ensures (r.y1 == p.y && r.y2 == q.y) || (r.y1 == q.y && r.y2 == p.y)
  {
    Rect(Min(p.x, q.x), Min(p.y, q.y), Max(p.x, q.x), Max(p.y, q.y))
  }

  /** The rectangle does not depend on which corner was pressed first. */
  lemma NormalizeSymmetric(p: Point, q: Point)
    ensures Normalize(p, q) == Normalize(q, p)
  {
  }

  /** Both points lie in the rectangle, and an already normalised rectangle is
      its own normal form. */
  lemma NormalizeContains(p: Point, q: Point)
    ensures var r := Normalize(p, q);
      && r.x1 <= p.x <= r.x2 && r.y1 <= p.y <= r.y2
      && r.x1 <= q.x <= r.x2 && r.y1 <= q.y <= r.y2
      && Normalize(Point(r.x1, r.y1), Point(r.x2, r.y2)) == r
  {
  }

  /** The value `select_crop_area` returns for the recorded points. */
  function CropArea(points: seq<Point>): (r: Option<Rect>)
    ensures r.Some? <==> |points| == 2
    ensures r.Some? ==> r.value == Normalize(points[0], points[1])
  {
    if |points| == 2 then Some(Normalize(points[0], points[1])) else None
  }

  /** The inputs the loop consumes: everything before the first Enter or Esc. */
  function UntilEnd(inputs: seq<Input>): seq<Input> {
    if |inputs| == 0 || IsEndKey(inputs[0]) then [] else [inputs[0]] + UntilEnd(inputs[1..])
  }

  lemma {:induction false} UntilEndAt(inputs: seq<Input>, used: nat)
    requires used <= |inputs|
    requires forall i :: 0 <= i < used ==> !IsEndKey(inputs[i])
    requires used == |inputs| || IsEndKey(inputs[used])
    ensures UntilEnd(inputs) == inputs[..used]
    decreases used
  {
    if used > 0 {
      UntilEndAt(inputs[1..], used - 1);
      assert inputs[..used] == [inputs[0]] + inputs[1..][..used - 1];
    }
  }

  /** `select_crop_area` over the given inputs. It returns only once an Enter or
      Esc arrives (`finished`), with the rectangle of the points recorded before
      it, or none unless exactly two points were recorded by then. When the inputs
      hold no such key the loop is still waiting: nothing is returned, which
      `finished == false` and `r == None` stand for. */
  method SelectCropArea(inputs: seq<Input>) returns (r: Option<Rect>, finished: bool)
    ensures finished <==> exists i :: 0 <= i < |inputs| && IsEndKey(inputs[i])
    ensures finished ==> r == CropArea(Replay(Start, MouseEvents(UntilEnd(inputs))).points)
    ensures !finished ==> r.None?
  {
    var m, used;
    m, finished, used := SelectionLoop(inputs);
    if finished {
      UntilEndAt(inputs, used);
      r := CropArea(m.points);
    } else {
      r := None;
    }
  }

  /** A press and a release select their rectangle, but a second release without a
      new press records a third point, after which nothing is selected. */
  lemma ExtraReleaseDiscards(p: Point, q: Point, s: Point)
    ensures CropArea(Replay(Start, [ButtonDown(p), ButtonUp(q), ButtonUp(s)]).points) == None
    ensures CropArea(Replay(Start, [ButtonDown(p), ButtonUp(q)]).points) == Some(Normalize(p, q))
  {
    var two := [ButtonDown(p), ButtonUp(q)];
    var three := two + [ButtonUp(s)];
    DragRecords([], p, 0, q);
    assert [] + [ButtonDown(p)] + seq(0, _ => Moved) + [ButtonUp(q)] == two;
    assert three[..2] == two;
    assert three == [ButtonDown(p), ButtonUp(q), ButtonUp(s)];
    assert |Replay(Start, three).points| == 3;
  }
}
