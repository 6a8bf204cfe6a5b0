/** Drawing the mouse cursor into the frame buffer, and taking it out again. */
module Cursor {

  datatype Pixel = Pixel(red: int, green: int, blue: int)

  const WHITE := Pixel(255, 255, 255)
  const BLACK := Pixel(0, 0, 0)

  const POINTER_WIDTH: nat := 12
  const POINTER_HEIGHT: nat := 19

  /** The size of the frame buffer and the position of the cursor on it. */
  datatype Place = Place(width: nat, height: nat, x: nat, y: nat)

  // ---- Pixels by coordinates ----

  function Column(p: Place, i: nat): nat
    requires i < p.width * p.height
  {
    assert p.width > 0;
    i % p.width
  }

  function Row(p: Place, i: nat): nat
    requires i < p.width * p.height
  {
    assert p.width > 0;
    i / p.width
  }

  /** The cursor pixel (x, y) falls on the screen. */
  predicate Visible(p: Place, x: nat, y: nat) {
    p.x + x < p.width && p.y + y < p.height
  }

  /** `fb_idx` */
  function FbIndex(p: Place, x: nat, y: nat): nat {
    (p.y + y) * p.width + (p.x + x)
  }

  /** `bg_idx` */
  function BgIndex(x: nat, y: nat): nat {
    x + y * POINTER_WIDTH
  }

  /** Buffer position `i` lies under the cursor. */
  predicate Under(p: Place, i: nat)
    requires i < p.width * p.height
  {
    p.x <= Column(p, i) < p.x + POINTER_WIDTH && p.y <= Row(p, i) < p.y + POINTER_HEIGHT
  }

  /** The cursor pixel that lies on position `i`. */
  function MaskIndex(p: Place, i: nat): (k: nat)
    requires i < p.width * p.height && Under(p, i)
    ensures k < POINTER_WIDTH * POINTER_HEIGHT
  {
    BgIndex(Column(p, i) - p.x, Row(p, i) - p.y)
  }

  function Painted(below: Pixel, pixelType: int): Pixel {
    if pixelType == 1 then WHITE else if pixelType == 2 then BLACK else below
  }

  /** The frame with the visible part of the cursor mask on it. */
  function Overlay(frame: seq<Pixel>, p: Place, mask: seq<int>): seq<Pixel>
    requires |frame| == p.width * p.height && |mask| == POINTER_WIDTH * POINTER_HEIGHT
  {
    seq(|frame|, i requires 0 <= i < |frame| =>
      if Under(p, i) then Painted(frame[i], mask[MaskIndex(p, i)]) else frame[i])
  }

  /** A multiple of `d` is zero or at least `d` in size. */
  lemma MultipleGap(k: int, d: int)
    requires d >= 0
    ensures k == 0 || k * d >= d || k * d <= -d
  {
  }

  /** Division with remainder is unique. */
  lemma QuotientUnique(q: int, r: nat, q': int, r': nat, d: nat)
    requires r < d && r' < d
    requires q * d + r == q' * d + r'
    ensures q == q' && r == r'
  {
    assert (q - q') * d == r' - r;
    MultipleGap(q - q', d);
  }

  lemma QuotientBound(q: int, h: int, d: nat)
    ensures q < h || q * d >= h * d
  {
  }

  lemma Divide(i: nat, d: nat)
    requires d > 0
    ensures i == (i / d) * d + i % d
  {
  }

  lemma InRange(p: Place, i: nat)
    requires i < p.width * p.height
    ensures Column(p, i) < p.width && Row(p, i) < p.height
    ensures i == Row(p, i) * p.width + Column(p, i)
  {
    Divide(i, p.width);
    QuotientBound(i / p.width, p.height, p.width);
  }

  lemma FbIndexBound(p: Place, x: nat, y: nat)
    requires Visible(p, x, y)
    ensures FbIndex(p, x, y) < p.width * p.height
  {
    QuotientBound(p.y + y + 1, p.height + 1, p.width);
    assert (p.y + y + 1) * p.width <= p.height * p.width;
  }

  /** Coordinates and buffer positions correspond one to one. */
  lemma IndexIff(p: Place, x: nat, y: nat, i: nat)
    requires Visible(p, x, y) && i < p.width * p.height
    ensures i == FbIndex(p, x, y) <==> Column(p, i) == p.x + x && Row(p, i) == p.y + y
  {
    InRange(p, i);
    if i == FbIndex(p, x, y) {
      QuotientUnique(Row(p, i), Column(p, i), p.y + y, p.x + x, p.width);
    }
  }

  // ---- The order in which the loops visit the cursor pixels ----

  /** Position `i` lies under a cursor pixel before (x, y) in row-major order. */
  predicate Visited(p: Place, i: nat, x: nat, y: nat)
    requires i < p.width * p.height
  {
    Under(p, i) && (Row(p, i) < p.y + y || (Row(p, i) == p.y + y && Column(p, i) < p.x + x))
  }

  lemma VisitStep(p: Place, x: nat, y: nat)
    requires x < POINTER_WIDTH && y < POINTER_HEIGHT
    ensures forall i: nat :: i < p.width * p.height ==>
              (Visited(p, i, x + 1, y) <==> Visited(p, i, x, y) || (Visible(p, x, y) && i == FbIndex(p, x, y)))
    ensures Visible(p, x, y) ==>
              var i := FbIndex(p, x, y);
              i < p.width * p.height && Under(p, i) && !Visited(p, i, x, y) && MaskIndex(p, i) == BgIndex(x, y)
  {
    if Visible(p, x, y) {
      FbIndexBound(p, x, y);
      IndexIff(p, x, y, FbIndex(p, x, y));
    }
    forall i: nat | i < p.width * p.height
      ensures Visited(p, i, x + 1, y) <==> Visited(p, i, x, y) || (Visible(p, x, y) && i == FbIndex(p, x, y))
    {
      InRange(p, i);
      if Visible(p, x, y) {
        IndexIff(p, x, y, i);
      }
      assert Visited(p, i, x + 1, y) <==>
             Visited(p, i, x, y) || (Column(p, i) == p.x + x && Row(p, i) == p.y + y);
    }
  }

  lemma BgIndexBounds(x: nat, y: nat)
    requires x < POINTER_WIDTH && y < POINTER_HEIGHT
    ensures BgIndex(x, y) < POINTER_WIDTH * POINTER_HEIGHT
  {
  }

  /** Different cursor pixels have different places in the saved background. */
  lemma MaskIndexInjective(p: Place, i: nat, j: nat)
    requires i < p.width * p.height && j < p.width * p.height
    requires Under(p, i) && Under(p, j) && MaskIndex(p, i) == MaskIndex(p, j)
    ensures i == j
  {
    QuotientUnique(Row(p, i) - p.y, Column(p, i) - p.x, Row(p, j) - p.y, Column(p, j) - p.x, POINTER_WIDTH);
    InRange(p, i);
    InRange(p, j);
  }

  // ---- The three passes ----

  method SaveBackground(fb: array<Pixel>, p: Place) returns (saved: array<Pixel>)
    requires fb.Length == p.width * p.height
    ensures fresh(saved) && saved.Length == POINTER_WIDTH * POINTER_HEIGHT
    ensures forall i: nat :: i < fb.Length && Under(p, i) ==> saved[MaskIndex(p, i)] == fb[i]
  {
    saved := new Pixel[POINTER_WIDTH * POINTER_HEIGHT](_ => BLACK);
    for y: nat := 0 to POINTER_HEIGHT
      invariant forall i: nat :: i < fb.Length && Visited(p, i, 0, y) ==> saved[MaskIndex(p, i)] == fb[i]
    {
      for x: nat := 0 to POINTER_WIDTH
        invariant forall i: nat :: i < fb.Length && Visited(p, i, x, y) ==> saved[MaskIndex(p, i)] == fb[i]
      {
        VisitStep(p, x, y);
        BgIndexBounds(x, y);
        if Visible(p, x, y) {
          var fbIdx, bgIdx := FbIndex(p, x, y), BgIndex(x, y);
          forall i: nat | i < fb.Length && Visited(p, i, x, y) ensures MaskIndex(p, i) != bgIdx {
            if MaskIndex(p, i) == bgIdx {
              MaskIndexInjective(p, i, fbIdx);
            }
          }
          saved[bgIdx] := fb[fbIdx];
        }
      }
    }
  }

  method DrawCursor(fb: array<Pixel>, p: Place, mask: seq<int>)
    requires fb.Length == p.width * p.height && |mask| == POINTER_WIDTH * POINTER_HEIGHT
    modifies fb
    ensures fb[..] == Overlay(old(fb[..]), p, mask)
  {
    ghost var frame := fb[..];
    for y: nat := 0 to POINTER_HEIGHT
      invariant forall i: nat :: i < fb.Length ==>
                  fb[i] == if Visited(p, i, 0, y) then Painted(frame[i], mask[MaskIndex(p, i)]) else frame[i]
    {
      for x: nat := 0 to POINTER_WIDTH
        invariant forall i: nat :: i < fb.Length ==>
                    fb[i] == if Visited(p, i, x, y) then Painted(frame[i], mask[MaskIndex(p, i)]) else frame[i]
      {
        VisitStep(p, x, y);
        BgIndexBounds(x, y);
        if Visible(p, x, y) {
          var fbIdx, bgIdx := FbIndex(p, x, y), BgIndex(x, y);
          var pixelType := mask[bgIdx];
          if pixelType == 1 {
            fb[fbIdx] := WHITE;
          } else if pixelType == 2 {
            fb[fbIdx] := BLACK;
          }
        }
      }
    }
  }

  method RestoreBackground(fb: array<Pixel>, p: Place, saved: array<Pixel>)
    requires fb.Length == p.width * p.height && saved.Length == POINTER_WIDTH * POINTER_HEIGHT
    requires fb != saved
    modifies fb
    ensures forall i: nat :: i < fb.Length ==>
              fb[i] == if Under(p, i) then saved[MaskIndex(p, i)] else old(fb[i])
  {
    ghost var shown := fb[..];
    for y: nat := 0 to POINTER_HEIGHT
      invariant forall i: nat :: i < fb.Length ==>
                  fb[i] == if Visited(p, i, 0, y) then saved[MaskIndex(p, i)] else shown[i]
    {
      for x: nat := 0 to POINTER_WIDTH
        invariant forall i: nat :: i < fb.Length ==>
                    fb[i] == if Visited(p, i, x, y) then saved[MaskIndex(p, i)] else shown[i]
      {
        VisitStep(p, x, y);
        BgIndexBounds(x, y);
        if Visible(p, x, y) {
          fb[FbIndex(p, x, y)] := saved[BgIndex(x, y)];
        }
      }
    }
  }

  /** The draw closure after rendering: the screen receives the rendered frame overlaid with the
      visible part of the cursor, and the buffer ends up as the rendered frame. */
  method ShowFrame(fb: array<Pixel>, p: Place, mask: seq<int>) returns (screen: seq<Pixel>)
    requires fb.Length == p.width * p.height && |mask| == POINTER_WIDTH * POINTER_HEIGHT
    modifies fb
    ensures screen == Overlay(old(fb[..]), p, mask)
    ensures fb[..] == old(fb[..])
  {
    var saved := SaveBackground(fb, p);
    DrawCursor(fb, p, mask);
    screen := fb[..];
    RestoreBackground(fb, p, saved);
  }

  /** What the overlay shows, read by coordinates: under a visible cursor pixel white where the mask
      says 1, black where it says 2, and otherwise the frame. */
  lemma OverlayByCoordinates(frame: seq<Pixel>, p: Place, mask: seq<int>, x: nat, y: nat)
    requires |frame| == p.width * p.height && |mask| == 12 * 19
    requires x < 12 && y < 19 && p.x + x < p.width && p.y + y < p.height
    ensures var i, k := (p.y + y) * p.width + (p.x + x), x + y * 12;
            && i < |frame| && k < |mask|
            && (mask[k] == 1 ==> Overlay(frame, p, mask)[i] == Pixel(255, 255, 255))
            && (mask[k] == 2 ==> Overlay(frame, p, mask)[i] == Pixel(0, 0, 0))
            && (mask[k] != 1 && mask[k] != 2 ==> Overlay(frame, p, mask)[i] == frame[i])
  {
    VisitStep(p, x, y);
    BgIndexBounds(x, y);
  }

  /** And away from the cursor the frame. */
  lemma OverlayElsewhere(frame: seq<Pixel>, p: Place, mask: seq<int>, column: nat, row: nat)
    requires |frame| == p.width * p.height && |mask| == 12 * 19
    requires column < p.width && row < p.height
    requires !(p.x <= column < p.x + 12 && p.y <= row < p.y + 19)
    ensures var i := row * p.width + column;
            i < |frame| && Overlay(frame, p, mask)[i] == frame[i]
  {
    var origin := Place(p.width, p.height, 0, 0);
    FbIndexBound(origin, column, row);
    IndexIff(origin, column, row, FbIndex(origin, column, row));
    assert Column(origin, FbIndex(origin, column, row)) == column;
    assert !Under(p, row * p.width + column);
  }

  // ---- Where the cursor can go ----

  function Clamp(v: real, max: real): real {
    if v < 0.0 then 0.0 else if v > max then max else v
  }

  /** `extent - size` on `usize`, wrapping round on a screen smaller than the cursor. */
  function MaxPosition(extent: nat, size: nat): real {
    if extent >= size then (extent - size) as real else (0x1_0000_0000_0000_0000 + extent - size) as real
  }

  /** The position after one mouse report (dx, dy). */
  function NextPointer(width: nat, height: nat, at: (real, real), move: (int, int), sensitivity: real): (real, real) {
    (Clamp(Target(at.0, move.0, sensitivity), MaxPosition(width, POINTER_WIDTH)),
     Clamp(Target(at.1, move.1, sensitivity), MaxPosition(height, POINTER_HEIGHT)))
  }

  /** `phys += movement * sensitivity` */
  function Target(at: real, report: int, sensitivity: real): real {
    at + report as real * sensitivity
  }

  /** The position after some mouse reports, from the middle of the screen. */
  function PointerAt(width: nat, height: nat, moves: seq<(int, int)>, sensitivity: real): (real, real) {
    if moves == [] then ((width / 2) as real, (height / 2) as real)
    else
      NextPointer(width, height, PointerAt(width, height, moves[..|moves| - 1], sensitivity),
                  moves[|moves| - 1], sensitivity)
  }

  /** The whole cursor is on the screen when drawn at `phys_x as usize`, `phys_y as usize`. */
  predicate OnScreen(width: nat, height: nat, at: (real, real)) {
    && at.0 >= 0.0 && at.0.Floor + POINTER_WIDTH <= width
    && at.1 >= 0.0 && at.1.Floor + POINTER_HEIGHT <= height
  }

  predicate OnScreenAfter(width: nat, height: nat, moves: seq<(int, int)>, sensitivity: real) {
    OnScreen(width, height, PointerAt(width, height, moves, sensitivity))
  }

  lemma ClampOnScreen(v: real, extent: nat, size: nat)
    requires extent >= size
    ensures Clamp(v, MaxPosition(extent, size)) >= 0.0
    ensures Clamp(v, MaxPosition(extent, size)).Floor + size <= extent
  {
    var max := MaxPosition(extent, size);
    assert Clamp(v, max) <= max && max.Floor == extent - size;
  }

  lemma {:induction false} PointerStaysOn(width: nat, height: nat, moves: seq<(int, int)>, sensitivity: real)
    requires width >= 23 && height >= 37
    ensures OnScreenAfter(width, height, moves, sensitivity)
  {
    if moves != [] {
      var (x, y) := PointerAt(width, height, moves[..|moves| - 1], sensitivity);
      var (dx, dy) := moves[|moves| - 1];
      ClampOnScreen(Target(x, dx, sensitivity), width, POINTER_WIDTH);
      ClampOnScreen(Target(y, dy, sensitivity), height, POINTER_HEIGHT);
    }
  }

  /** Over every sequence of mouse reports the whole cursor stays on the screen, if and only if the
      screen has at least 23 columns and 37 rows; on a smaller one it is cut off until the mouse is
      first moved, because the starting position is not clamped. */
  lemma CursorAlwaysOnScreenIff(width: nat, height: nat, sensitivity: real)
    ensures (forall moves :: OnScreenAfter(width, height, moves, sensitivity)) <==>
            width >= 23 && height >= 37
  {
    if width >= 23 && height >= 37 {
      forall moves ensures OnScreenAfter(width, height, moves, sensitivity) {
        PointerStaysOn(width, height, moves, sensitivity);
      }
    } else {
      var none: seq<(int, int)> := [];
      var start := PointerAt(width, height, none, sensitivity);
      assert start == ((width / 2) as real, (height / 2) as real);
      assert start.0.Floor == width / 2 && start.1.Floor == height / 2;
      assert !OnScreenAfter(width, height, none, sensitivity);
    }
  }

  /** A coordinate that is to become `target`: it does, but not out of the range in which the cursor
      fits; on a screen smaller than the cursor the end of that range wraps round 64 bits. */
  ghost predicate Moved(target: real, after: real, extent: nat, size: nat) {
    var end := if extent >= size then extent - size else 18446744073709551616 + extent - size;
    && (0.0 <= target <= end as real ==> after == target)
    && (target < 0.0 ==> after == 0.0)
    && (target > end as real && target >= 0.0 ==> after == end as real)
  }

  lemma ClampMoves(target: real, extent: nat, size: nat)
    ensures Moved(target, Clamp(target, MaxPosition(extent, size)), extent, size)
  {
  }

  lemma NextMoves(width: nat, height: nat, at: (real, real), move: (int, int), sensitivity: real)
    ensures var after := NextPointer(width, height, at, move, sensitivity);
            && Moved(Target(at.0, move.0, sensitivity), after.0, width, 12)
            && Moved(Target(at.1, move.1, sensitivity), after.1, height, 19)
  {
    ClampMoves(Target(at.0, move.0, sensitivity), width, 12);
    ClampMoves(Target(at.1, move.1, sensitivity), height, 19);
  }

  lemma PointerSteps(width: nat, height: nat, moves: seq<(int, int)>, move: (int, int), sensitivity: real)
    ensures PointerAt(width, height, moves + [move], sensitivity) ==
            NextPointer(width, height, PointerAt(width, height, moves, sensitivity), move, sensitivity)
  {
    assert (moves + [move])[..|moves + [move]| - 1] == moves;
  }

  /** Every report moves the pointer in its own direction, across by its first number and down by its
      second, times the sensitivity, starting in the middle of the screen. */
  lemma PointerMoves(width: nat, height: nat, moves: seq<(int, int)>, move: (int, int), sensitivity: real)
    ensures PointerAt(width, height, [], sensitivity) == ((width / 2) as real, (height / 2) as real)
    ensures var (before, after) := (PointerAt(width, height, moves, sensitivity),
                                    PointerAt(width, height, moves + [move], sensitivity));
            && Moved(before.0 + move.0 as real * sensitivity, after.0, width, 12)
            && Moved(before.1 + move.1 as real * sensitivity, after.1, height, 19)
  {
    PointerSteps(width, height, moves, move, sensitivity);
    NextMoves(width, height, PointerAt(width, height, moves, sensitivity), move, sensitivity);
  }
}
