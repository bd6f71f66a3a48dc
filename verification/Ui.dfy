/** The window prototype: its message loop, the incremental redraw after a message, and the picture that a repaint
    from scratch would give. */
module Ui {
  import opened Graphics
  import Input
  import Words

  type Int32 = x: int | IsI32(x)

  const DESKTOP: Colour := 0x223344
  const WIN_W: int := 400
  const WIN_H: int := 250
  const TITLE: int := 24

  /** A call of `draw_rect`. */
  datatype Rect = Rect(x: Int32, y: Int32, w: Int32, h: Int32, c: Colour)

  datatype State = State(mx: Int32, my: Int32, wx: Int32, wy: Int32, dragging: bool, ox: Int32, oy: Int32, color: Colour)

  predicate ScreenSize(w: nat, h: nat) { 6 <= w < 0x4000_0000 && 6 <= h < 0x4000_0000 }

  // ---- What a list of rectangles paints ----

  /** The call sets this pixel of a `w` by `h` screen. */
  predicate Hits(r: Rect, w: nat, h: nat, px: nat, py: nat)
    requires ScreenSize(w, h)
  {
    Draws(r.x, r.y, r.w, r.h, w, h, px, py)
  }

  /** Without negative sizes: the rectangle, if its corner is on the non-negative side, and nothing otherwise. */
  lemma HitsExact(r: Rect, w: nat, h: nat, px: nat, py: nat)
    requires ScreenSize(w, h) && r.w >= 0 && r.h >= 0 && px < w && py < h
    ensures Hits(r, w, h, px, py) <==> 0 <= r.x && 0 <= r.y && InRect(r.x, r.y, r.w, r.h, px, py)
  {
    hide Extent;
    if 0 <= r.x && 0 <= r.y {
      ExtentExact(r.x, r.w, w);
      ExtentExact(r.y, r.h, h);
    }
  }

  predicate Covered(rs: seq<Rect>, w: nat, h: nat, px: nat, py: nat)
    requires ScreenSize(w, h)
  {
    exists i :: 0 <= i < |rs| && Hits(rs[i], w, h, px, py)
  }

  /** The colour of a pixel after the calls, back to front; `under` is its colour before. */
  function Paint(rs: seq<Rect>, w: nat, h: nat, px: nat, py: nat, under: Colour): Colour
    requires ScreenSize(w, h)
  {
    if rs == [] then under
    else
      var last := rs[|rs| - 1];
      if Hits(last, w, h, px, py) then last.c else Paint(rs[..|rs| - 1], w, h, px, py, under)
  }

  lemma {:induction false} PaintAppend(a: seq<Rect>, b: seq<Rect>, w: nat, h: nat, px: nat, py: nat, under: Colour)
    requires ScreenSize(w, h)
    ensures Paint(a + b, w, h, px, py, under) == Paint(b, w, h, px, py, Paint(a, w, h, px, py, under))
  {
    hide Hits;
    if b == [] {
      assert a + b == a;
    } else {
      var front := b[..|b| - 1];
      assert (a + b)[..|a + b| - 1] == a + front;
      PaintAppend(a, front, w, h, px, py, under);
    }
  }

  /** A covered pixel gets the colour of a rectangle that covers it; any other keeps its own. */
  lemma {:induction false} PaintCovered(rs: seq<Rect>, w: nat, h: nat, px: nat, py: nat, u: Colour, v: Colour)
    requires ScreenSize(w, h)
    ensures Covered(rs, w, h, px, py) ==>
              && Paint(rs, w, h, px, py, u) == Paint(rs, w, h, px, py, v)
              && exists i :: 0 <= i < |rs| && Hits(rs[i], w, h, px, py) && Paint(rs, w, h, px, py, u) == rs[i].c
    ensures !Covered(rs, w, h, px, py) ==> Paint(rs, w, h, px, py, u) == u
  {
    hide Hits;
    if rs != [] {
      var front := rs[..|rs| - 1];
      PaintCovered(front, w, h, px, py, u, v);
      if !Hits(rs[|rs| - 1], w, h, px, py) && Covered(front, w, h, px, py) {
        var i :| 0 <= i < |front| && Hits(front[i], w, h, px, py) && Paint(front, w, h, px, py, u) == front[i].c;
        assert rs[i] == front[i];
      }
      if Covered(rs, w, h, px, py) && !Hits(rs[|rs| - 1], w, h, px, py) {
        var i :| 0 <= i < |rs| && Hits(rs[i], w, h, px, py);
        assert front[i] == rs[i];
      }
    }
  }

  // ---- The calls of the user interface ----

  function Box(x: int, y: int, w: Int32, h: Int32, c: Colour): Rect {
    Rect(I32(x), I32(y), w, h, c)
  }

  function WindowRects(x: int, y: int, title: Colour): seq<Rect> {
    [Box(x + 6, y + 6, WIN_W, WIN_H, 0x111111),
     Box(x, y, WIN_W, WIN_H, 0xDDDDDD),
     Box(x, y, WIN_W, TITLE, title),
     Box(x + WIN_W - 24, y + 4, 16, 16, 0xFF4444),
     Box(x + 10, y + 34, WIN_W - 20, WIN_H - 44, 0xFFFFFF),
     Box(x + 30, y + 60, 100, 20, 0x3366FF),
     Box(x + 30, y + 100, 200, 10, 0xAAAAAA),
     Box(x + 30, y + 120, 180, 10, 0xAAAAAA),
     Box(x + 30, y + 140, 220, 10, 0xAAAAAA)]
  }

  function CursorRects(x: int, y: int): seq<Rect> {
    [Box(x, y, 6, 6, 0xFFFFFF), Box(x + 1, y + 1, 4, 4, 0)]
  }

  function EraseCursor(s: State): Rect { Box(s.mx, s.my, 6, 6, DESKTOP) }
  function EraseWindow(s: State): Rect { Box(s.wx, s.wy, WIN_W + 6, WIN_H + 6, DESKTOP) }

  /** Window and cursor of a state. */
  function Scene(s: State): seq<Rect> {
    WindowRects(s.wx, s.wy, s.color) + CursorRects(s.mx, s.my)
  }

  /** The picture of a state, painted from scratch on the desktop. */
  function Scratch(s: State, w: nat, h: nat, px: nat, py: nat): Colour
    requires ScreenSize(w, h)
  {
    Paint(Scene(s), w, h, px, py, DESKTOP)
  }

  /** What is to be seen at a pixel, front to back: the cursor, the window's lines, button, client area, close box, title
      bar, frame and shadow, and the desktop. */
  function Look(s: State, px: int, py: int): Colour {
    var c, d := px - s.mx, py - s.my;
    if 1 <= c < 5 && 1 <= d < 5 then 0
    else if 0 <= c < 6 && 0 <= d < 6 then 0xFFFFFF
    else WindowLook(px - s.wx, py - s.wy, s.color)
  }

  function WindowLook(a: int, b: int, title: Colour): Colour {
    if 30 <= a < 250 && 140 <= b < 150 then 0xAAAAAA
    else if 30 <= a < 210 && 120 <= b < 130 then 0xAAAAAA
    else if 30 <= a < 230 && 100 <= b < 110 then 0xAAAAAA
    else if 30 <= a < 130 && 60 <= b < 80 then 0x3366FF
    else if 10 <= a < 390 && 34 <= b < 240 then 0xFFFFFF
    else if 376 <= a < 392 && 4 <= b < 20 then 0xFF4444
    else if 0 <= a < 400 && 0 <= b < 24 then title
    else if 0 <= a < 400 && 0 <= b < 250 then 0xDDDDDD
    else if 6 <= a < 406 && 6 <= b < 256 then 0x111111
    else 0x223344
  }

  lemma PaintNext(rs: seq<Rect>, i: nat, w: nat, h: nat, px: nat, py: nat, under: Colour)
    requires ScreenSize(w, h) && i < |rs| && 0 <= rs[i].x && 0 <= rs[i].y && rs[i].w >= 0 && rs[i].h >= 0 && px < w && py < h
    ensures Paint(rs[..i + 1], w, h, px, py, under) ==
            if InRect(rs[i].x, rs[i].y, rs[i].w, rs[i].h, px, py) then rs[i].c else Paint(rs[..i], w, h, px, py, under)
  {
    assert rs[..i + 1][..i] == rs[..i];
    HitsExact(rs[i], w, h, px, py);
  }

  /** A window whose corner is not left of or above the screen, and a cursor on it. */
  predicate InSight(s: State) {
    0 <= s.wx < 0x4000_0000 && 0 <= s.wy < 0x4000_0000 && 0 <= s.mx < 0x4000_0000 && 0 <= s.my < 0x4000_0000
  }

  /** The window's rectangles where nothing wraps. */
  function WindowBoxes(x: int, y: int, title: Colour): seq<Rect>
    requires 0 <= x < 0x4000_0000 && 0 <= y < 0x4000_0000
  {
    [Rect(x + 6, y + 6, 400, 250, 0x111111),
     Rect(x, y, 400, 250, 0xDDDDDD),
     Rect(x, y, 400, 24, title),
     Rect(x + 376, y + 4, 16, 16, 0xFF4444),
     Rect(x + 10, y + 34, 380, 206, 0xFFFFFF),
     Rect(x + 30, y + 60, 100, 20, 0x3366FF),
     Rect(x + 30, y + 100, 200, 10, 0xAAAAAA),
     Rect(x + 30, y + 120, 180, 10, 0xAAAAAA),
     Rect(x + 30, y + 140, 220, 10, 0xAAAAAA)]
  }

  lemma WindowRectsAre(x: int, y: int, title: Colour)
    requires 0 <= x < 0x4000_0000 && 0 <= y < 0x4000_0000
    ensures WindowRects(x, y, title) == WindowBoxes(x, y, title)
  {
  }

  lemma WindowIsLook(x: int, y: int, title: Colour, w: nat, h: nat, px: nat, py: nat)
    requires ScreenSize(w, h) && 0 <= x < 0x4000_0000 && 0 <= y < 0x4000_0000 && px < w && py < h
    ensures Paint(WindowRects(x, y, title), w, h, px, py, 0x223344) == WindowLook(px - x, py - y, title)
  {
    hide Paint, Hits, WindowRects;
    var rs := WindowBoxes(x, y, title);
    WindowRectsAre(x, y, title);
    assert rs[..9] == rs && rs[..0] == [];
    PaintNothing(w, h);
    PaintNext(rs, 0, w, h, px, py, 0x223344);
    PaintNext(rs, 1, w, h, px, py, 0x223344);
    PaintNext(rs, 2, w, h, px, py, 0x223344);
    PaintNext(rs, 3, w, h, px, py, 0x223344);
    PaintNext(rs, 4, w, h, px, py, 0x223344);
    PaintNext(rs, 5, w, h, px, py, 0x223344);
    PaintNext(rs, 6, w, h, px, py, 0x223344);
    PaintNext(rs, 7, w, h, px, py, 0x223344);
    PaintNext(rs, 8, w, h, px, py, 0x223344);
  }

  /** As long as the window's corner is on the screen's side, the picture is this one. */
  lemma ScratchIsLook(s: State, w: nat, h: nat, px: nat, py: nat)
    requires ScreenSize(w, h) && InSight(s) && px < w && py < h
    ensures Scratch(s, w, h, px, py) == Look(s, px, py)
  {
    hide Paint, Hits, WindowRects, WindowLook;
    WindowIsLook(s.wx, s.wy, s.color, w, h, px, py);
    var rs, under := CursorRects(s.mx, s.my), WindowLook(px - s.wx, py - s.wy, s.color);
    PaintAppend(WindowRects(s.wx, s.wy, s.color), rs, w, h, px, py, 0x223344);
    assert rs[..2] == rs && rs[..0] == [];
    PaintNothing(w, h);
    PaintNext(rs, 0, w, h, px, py, under);
    PaintNext(rs, 1, w, h, px, py, under);
  }

  /** The calls made when `s` has become `t`. */
  function RedrawRects(s: State, t: State): seq<Rect> {
    [EraseCursor(s), EraseWindow(s)] + Scene(t)
  }

  // ---- Messages ----

  function Clamp(v: int, limit: int): int {
    var low := if v < 0 then 0 else v;
    if low > limit - 6 then limit - 6 else low
  }

  predicate InTitle(mx: int, my: int, wx: int, wy: int) {
    mx >= wx && mx <= I32(wx + WIN_W) && my >= wy && my <= I32(wy + TITLE)
  }

  function OnMouse(s: State, flags: bv8, dx: int, dy: int, w: nat, h: nat): State
    requires ScreenSize(w, h)
  {
    var mx: Int32, my: Int32 := Clamp(I32(s.mx + dx), w), Clamp(I32(s.my - dy), h);
    var t := s.(mx := mx, my := my);
    if flags & 1 == 0 then t.(dragging := false)
    else if s.dragging then t.(wx := I32(mx - s.ox), wy := I32(my - s.oy))
    else if InTitle(mx, my, s.wx, s.wy) then t.(dragging := true, ox := I32(mx - s.wx), oy := I32(my - s.wy))
    else t
  }

  lemma LowBytes(x: nat)
    ensures Words.And(x, 0xFF_FFFF) == x % 0x100_0000
  {
    assert Words.Pow2(8) == 0x100;
    assert Words.Pow2(16) == 0x1_0000;
    assert Words.Pow2(24) == 0x100_0000;
    hide Words.And;
    Words.AndLowMask(x, 24);
  }

  /** The sum wraps at 32 bits. */
  function NextColor(c: Colour): Colour {
    LowBytes((c + 0x1133) % 0x1_0000_0000);
    Words.And((c + 0x1133) % 0x1_0000_0000, 0xFF_FFFF)
  }

  predicate Redraws(msg: bv64) {
    msg != 0 &&
    match Input.Decode(msg)
    case Mouse(_, _, _) => true
    case Key(scancode) => scancode < 0x80
    case Other => false
  }

  function Step(s: State, msg: bv64, w: nat, h: nat): State
    requires ScreenSize(w, h)
  {
    if !Redraws(msg) then s
    else
      match Input.Decode(msg)
      case Mouse(flags, dx, dy) => OnMouse(s, flags, dx, dy, w, h)
      case Key(_) => s.(color := NextColor(s.color))
      case Other => s
  }

  function Init(w: nat, h: nat): State
    requires ScreenSize(w, h)
  {
    State(w / 2, h / 2, 200, 150, false, 0, 0, 0x0055AA)
  }

  function After(msgs: seq<bv64>, w: nat, h: nat): State
    requires ScreenSize(w, h)
  {
    if msgs == [] then Init(w, h) else Step(After(msgs[..|msgs| - 1], w, h), msgs[|msgs| - 1], w, h)
  }

  /** A key press: the identifier of key messages, and a scancode without the release bit. */
  predicate IsPress(msg: bv64) {
    (msg >> 24) & 0xFF == 0x11 && (msg & 0xFF) as bv8 < 0x80
  }

  function Presses(msgs: seq<bv64>): nat {
    if msgs == [] then 0 else Presses(msgs[..|msgs| - 1]) + if IsPress(msgs[|msgs| - 1]) then 1 else 0
  }

  lemma StepColor(s: State, msg: bv64, w: nat, h: nat)
    requires ScreenSize(w, h) && s.color < 0x100_0000
    ensures Step(s, msg, w, h).color == if IsPress(msg) then (s.color + 0x1133) % 0x100_0000 else s.color
  {
    hide Words.And, Words.Pow2, InTitle;
    LowBytes((s.color + 0x1133) % 0x1_0000_0000);
    PressNotEmpty(msg);
    assert IsPress(msg) <==> msg != 0 && Input.Decode(msg).Key? && Input.Decode(msg).scancode < 0x80;
  }

  lemma PressNotEmpty(msg: bv64)
    ensures IsPress(msg) ==> msg != 0
  {
    assert (0 as bv64 >> 24) & 0xFF == 0;
  }

  lemma AddInside(sum: nat, n: nat)
    ensures (sum % 0x100_0000 + n) % 0x100_0000 == (sum + n) % 0x100_0000
  {
  }

  /** After n key presses the title bar has the colour 0x55AA + n * 0x1133, in 24 bits. */
  lemma {:induction false} ColorAfter(msgs: seq<bv64>, w: nat, h: nat)
    requires ScreenSize(w, h)
    ensures After(msgs, w, h).color == (0x55AA + Presses(msgs) * 0x1133) % 0x100_0000
  {
    hide Step, IsPress;
    if msgs != [] {
      var front := msgs[..|msgs| - 1];
      ColorAfter(front, w, h);
      StepColor(After(front, w, h), msgs[|msgs| - 1], w, h);
      AddInside(0x55AA + Presses(front) * 0x1133, 0x1133);
    }
  }

  // ---- Cursor and window over every run ----

  /** The cursor is on the screen, the window overlaps it or lies where it started, and a dragged window hangs on the
      cursor at the offset where its title bar was taken. */
  predicate Inv(s: State, w: nat, h: nat) {
    && 0 <= s.mx < w && 0 <= s.my < h
    && -WIN_W <= s.wx <= Max(w, 200) && -TITLE <= s.wy <= Max(h, 150)
    && (s.dragging ==> 0 <= s.ox <= WIN_W && 0 <= s.oy <= TITLE && s.mx - s.wx == s.ox && s.my - s.wy == s.oy)
  }

  /** Some position the cursor can take lies on the title bar. */
  predicate Grabbable(s: State, w: nat, h: nat) {
    s.wx <= w - 6 && 0 <= s.wx + WIN_W && s.wy <= h - 6 && 0 <= s.wy + TITLE
  }

  lemma MouseInv(s: State, flags: bv8, dx: int, dy: int, w: nat, h: nat)
    requires ScreenSize(w, h) && Inv(s, w, h) && -128 <= dx < 128 && -128 <= dy < 128
    ensures var t := OnMouse(s, flags, dx, dy, w, h);
            && Inv(t, w, h) && 0 <= t.mx <= w - 6 && 0 <= t.my <= h - 6
            && (t.mx, t.my) == (Max(0, Min(s.mx + dx, w - 6)), Max(0, Min(s.my - dy, h - 6)))
            && (t.dragging ==> Grabbable(t, w, h))
            && (!s.dragging || !t.dragging ==> t.wx == s.wx && t.wy == s.wy)
            && (t.dragging <==> flags & 1 != 0 && (s.dragging || OnTitle(t.mx - s.wx, t.my - s.wy)))
            && (s.dragging && t.dragging ==> t.ox == s.ox && t.oy == s.oy) && t.color == s.color
  {
    hide I32;
  }

  /** The title bar: 400 by 24 pixels, with its right and lower edges. */
  predicate OnTitle(a: int, b: int) { 0 <= a <= 400 && 0 <= b <= 24 }

  lemma SignedRange(b: bv8)
    ensures -128 <= Input.Signed(b) < 128 && (Input.Signed(b) == b as int || Input.Signed(b) == b as int - 256)
  {
  }

  lemma StepInv(s: State, msg: bv64, w: nat, h: nat)
    requires ScreenSize(w, h) && Inv(s, w, h)
    ensures var t := Step(s, msg, w, h);
            && Inv(t, w, h) && (Grabbable(s, w, h) ==> Grabbable(t, w, h))
            && (s.mx <= w - 6 && s.my <= h - 6 ==> t.mx <= w - 6 && t.my <= h - 6)
            && (!s.dragging && !Grabbable(s, w, h) ==> !t.dragging && t.wx == s.wx && t.wy == s.wy)
  {
    hide OnMouse, I32;
    if Redraws(msg) && Input.Decode(msg).Mouse? {
      var m := Input.Decode(msg);
      SignedRange(Input.Field(msg, 8));
      SignedRange(Input.Field(msg, 0));
      MouseInv(s, m.flags, m.dx, m.dy, w, h);
    }
  }

  /** Over every run: the invariant holds, the whole cursor stays on the screen, and the title bar stays within reach of
      the cursor for ever if it is at the start, which is so exactly on screens of at least 206 by 156 pixels; on smaller
      ones the window never moves. */
  lemma {:induction false} RunInv(msgs: seq<bv64>, w: nat, h: nat)
    requires ScreenSize(w, h)
    ensures Inv(After(msgs, w, h), w, h)
    ensures w >= 11 && h >= 11 ==> After(msgs, w, h).mx <= w - 6 && After(msgs, w, h).my <= h - 6
    ensures Grabbable(After(msgs, w, h), w, h) <==> w >= 206 && h >= 156
    ensures !(w >= 206 && h >= 156) ==>
              !After(msgs, w, h).dragging && After(msgs, w, h).wx == 200 && After(msgs, w, h).wy == 150
  {
    hide Step;
    if msgs != [] {
      RunInv(msgs[..|msgs| - 1], w, h);
      StepInv(After(msgs[..|msgs| - 1], w, h), msgs[|msgs| - 1], w, h);
    }
  }

  /** The cursor can be at (mx, my), and a press there takes the title bar. */
  predicate Hit(s: State, w: nat, h: nat, mx: int, my: int) {
    0 <= mx <= w - 6 && 0 <= my <= h - 6 && InTitle(mx, my, s.wx, s.wy)
  }

  /** The title bar is within reach exactly if the code's own test succeeds for some position of the cursor. */
  lemma GrabbableIff(s: State, w: nat, h: nat)
    requires ScreenSize(w, h) && Inv(s, w, h)
    ensures Grabbable(s, w, h) <==> exists mx, my :: Hit(s, w, h, mx, my)
  {
    hide I32;
    if Grabbable(s, w, h) {
      assert Hit(s, w, h, Max(s.wx, 0), Max(s.wy, 0));
    }
  }

  /** The state after more messages. */
  function RunFrom(s: State, msgs: seq<bv64>, w: nat, h: nat): State
    requires ScreenSize(w, h)
    decreases |msgs|
  {
    if msgs == [] then s else RunFrom(Step(s, msgs[0], w, h), msgs[1..], w, h)
  }

  lemma {:induction false} AfterAppend(msgs: seq<bv64>, more: seq<bv64>, w: nat, h: nat)
    requires ScreenSize(w, h)
    ensures After(msgs + more, w, h) == RunFrom(After(msgs, w, h), more, w, h)
    decreases |more|
  {
    hide Step;
    if more == [] {
      assert msgs + more == msgs;
    } else {
      var next := msgs + [more[0]];
      assert next[..|msgs|] == msgs && msgs + more == next + more[1..];
      AfterAppend(next, more[1..], w, h);
    }
  }

  /** A mouse word has the effect of its packet. */
  lemma MouseStep(s: State, flags: bv8, dx: bv8, dy: bv8, w: nat, h: nat)
    requires ScreenSize(w, h)
    ensures Step(s, Input.MousePayload(flags, dx, dy), w, h) == OnMouse(s, flags, Input.Signed(dx), Input.Signed(dy), w, h)
  {
    hide OnMouse, Input.Signed, Input.MousePayload, Input.Decode;
    Input.MouseRoundTrip(flags, dx, dy);
  }

  /** The byte for a movement by at most one pixel. */
  function Unit(d: int): (b: bv8)
    requires -1 <= d <= 1
    ensures Input.Signed(b) == d
  {
    if d < 0 then 0xFF else if d == 0 then 0 else 1
  }

  /** A mouse word without the left button. */
  predicate ButtonUp(msg: bv64) {
    Input.Decode(msg).Mouse? && Input.Decode(msg).flags & 1 == 0
  }

  function Sign(d: int): int { if d < 0 then -1 else if d == 0 then 0 else 1 }
  function Gap(a: int, b: int): nat { if a < b then b - a else a - b }

  /** A mouse word without the button that moves the cursor towards (tx, ty). */
  lemma MoveOne(s: State, tx: int, ty: int, w: nat, h: nat) returns (m: bv64)
    requires ScreenSize(w, h) && Inv(s, w, h) && 0 <= tx <= w - 6 && 0 <= ty <= h - 6
    ensures ButtonUp(m)
    ensures var t := Step(s, m, w, h);
            && Inv(t, w, h) && t == s.(mx := t.mx, my := t.my, dragging := false)
            && (s.mx == tx == t.mx || Gap(t.mx, tx) < Gap(s.mx, tx)) && (s.my == ty == t.my || Gap(t.my, ty) < Gap(s.my, ty))
  {
    hide Step, Input.Decode, Input.MousePayload, I32, Unit;
    var dx, dy := Sign(tx - s.mx), Sign(s.my - ty);
    m := Input.MousePayload(0, Unit(dx), Unit(dy));
    Input.MouseRoundTrip(0, Unit(dx), Unit(dy));
    MouseStep(s, 0, Unit(dx), Unit(dy), w, h);
    MouseInv(s, 0, dx, dy, w, h);
  }

  /** From every state the cursor can be moved to every position on the screen, without the button and without moving
      the window. */
  lemma {:induction false} MoveTo(s: State, tx: int, ty: int, w: nat, h: nat) returns (moves: seq<bv64>)
    requires ScreenSize(w, h) && Inv(s, w, h) && 0 <= tx <= w - 6 && 0 <= ty <= h - 6
    ensures forall i :: 0 <= i < |moves| ==> ButtonUp(moves[i])
    ensures RunFrom(s, moves, w, h) == s.(mx := tx, my := ty, dragging := false)
    decreases Gap(s.mx, tx) + Gap(s.my, ty)
  {
    hide Step, ButtonUp, Inv;
    var m := MoveOne(s, tx, ty, w, h);
    var t := Step(s, m, w, h);
    if s.mx == tx && s.my == ty {
      moves := [m];
      assert RunFrom(s, moves, w, h) == RunFrom(t, [], w, h);
    } else {
      var rest := MoveTo(t, tx, ty, w, h);
      moves := [m] + rest;
      assert moves[0] == m && moves[1..] == rest;
    }
  }

  /** On a screen of at least 206 by 156, in every state that can be reached the window can be taken: there are movements
      without the button after which pressing it starts to drag, with the window where it was. */
  lemma CanAlwaysGrab(msgs: seq<bv64>, w: nat, h: nat) returns (moves: seq<bv64>)
    requires ScreenSize(w, h) && w >= 206 && h >= 156
    ensures forall i :: 0 <= i < |moves| ==> ButtonUp(moves[i])
    ensures var s, t := After(msgs, w, h), After(msgs + moves + [Input.MousePayload(1, 0, 0)], w, h);
            t.dragging && t.wx == s.wx && t.wy == s.wy
  {
    hide Step, After, RunFrom, Input.Decode, Input.MousePayload, I32;
    var s, press := After(msgs, w, h), Input.MousePayload(1, 0, 0);
    RunInv(msgs, w, h);
    GrabbableIff(s, w, h);
    var tx, ty :| Hit(s, w, h, tx, ty);
    moves := MoveTo(s, tx, ty, w, h);
    AfterAppend(msgs, moves, w, h);
    AfterAppend(msgs + moves, [press], w, h);
    var at := After(msgs + moves, w, h);
    RunOne(at, press, w, h);
    MouseStep(at, 1, 0, 0, w, h);
  }

  lemma RunOne(s: State, msg: bv64, w: nat, h: nat)
    requires ScreenSize(w, h)
    ensures RunFrom(s, [msg], w, h) == Step(s, msg, w, h)
  {
    hide Step;
    assert [msg][1..] == [];
  }

  // ---- Incremental redraw against the picture from scratch ----

  ghost predicate Clean(s: State, t: State, w: nat, h: nat)
    requires ScreenSize(w, h)
  {
    (0 <= s.wx && 0 <= s.wy) || forall px: nat, py: nat :: px < w && py < h ==> Hidden(s, t, w, h, px, py)
  }

  /** What was to be seen of the old window here is painted over. */
  predicate Hidden(s: State, t: State, w: nat, h: nat, px: nat, py: nat)
    requires ScreenSize(w, h)
  {
    Covered(WindowRects(s.wx, s.wy, s.color), w, h, px, py) ==>
      Covered(Scene(t), w, h, px, py) || Hits(EraseCursor(s), w, h, px, py)
  }

  predicate SamePixel(s: State, t: State, w: nat, h: nat, px: nat, py: nat)
    requires ScreenSize(w, h)
  {
    Paint(RedrawRects(s, t), w, h, px, py, Scratch(s, w, h, px, py)) == Scratch(t, w, h, px, py)
  }

  /** The cursor's own rectangles lie in the square that erases it. */
  lemma CursorErased(s: State, w: nat, h: nat, px: nat, py: nat)
    requires ScreenSize(w, h) && Inv(s, w, h) && px < w && py < h
    requires Covered(CursorRects(s.mx, s.my), w, h, px, py)
    ensures Hits(EraseCursor(s), w, h, px, py)
  {
    hide Hits, I32;
    var rs := CursorRects(s.mx, s.my);
    var i :| 0 <= i < |rs| && Hits(rs[i], w, h, px, py);
    HitsExact(rs[i], w, h, px, py);
    HitsExact(EraseCursor(s), w, h, px, py);
  }

  /** All of the window and its shadow lie in the rectangle that erases them, if that rectangle is drawn at all. */
  lemma WindowErased(s: State, w: nat, h: nat, px: nat, py: nat)
    requires ScreenSize(w, h) && Inv(s, w, h) && px < w && py < h && 0 <= s.wx && 0 <= s.wy
    requires Covered(WindowRects(s.wx, s.wy, s.color), w, h, px, py)
    ensures Hits(EraseWindow(s), w, h, px, py)
  {
    hide Hits, I32;
    var rs := WindowRects(s.wx, s.wy, s.color);
    var i :| 0 <= i < |rs| && Hits(rs[i], w, h, px, py);
    HitsExact(rs[i], w, h, px, py);
    HitsExact(EraseWindow(s), w, h, px, py);
  }

  /** At a negative corner the frame and the title bar are not drawn, and nothing else has the desktop's colour. */
  lemma NegativeCorner(s: State, w: nat, h: nat, px: nat, py: nat, i: nat)
    requires ScreenSize(w, h) && Inv(s, w, h) && (s.wx < 0 || s.wy < 0)
    ensures !Hits(EraseWindow(s), w, h, px, py)
    ensures i < 9 && Hits(WindowRects(s.wx, s.wy, s.color)[i], w, h, px, py) ==>
              WindowRects(s.wx, s.wy, s.color)[i].c != DESKTOP
  {
    hide Extent, InRect, I32;
  }

  /** What one pixel shows once the two erasing rectangles are drawn over the old picture. */
  lemma ErasedPixel(s: State, w: nat, h: nat, px: nat, py: nat)
    requires ScreenSize(w, h) && Inv(s, w, h) && px < w && py < h
    ensures Paint([EraseCursor(s), EraseWindow(s)], w, h, px, py, Scratch(s, w, h, px, py)) == DESKTOP
            <==>
            || (0 <= s.wx && 0 <= s.wy) || Hits(EraseCursor(s), w, h, px, py)
            || !Covered(WindowRects(s.wx, s.wy, s.color), w, h, px, py)
  {
    hide Hits, WindowRects, CursorRects, I32, Inv;
    var win, cur := WindowRects(s.wx, s.wy, s.color), CursorRects(s.mx, s.my);
    var was := Scratch(s, w, h, px, py);
    PaintErase(s, w, h, px, py, was);
    if !Hits(EraseCursor(s), w, h, px, py) && !Hits(EraseWindow(s), w, h, px, py) {
      if Covered(cur, w, h, px, py) { CursorErased(s, w, h, px, py); }
      PaintAppend(win, cur, w, h, px, py, DESKTOP);
      PaintCovered(cur, w, h, px, py, Paint(win, w, h, px, py, DESKTOP), DESKTOP);
      PaintCovered(win, w, h, px, py, DESKTOP, DESKTOP);
      assert was == Paint(win, w, h, px, py, DESKTOP);
      WindowLeft(s, w, h, px, py);
    } else if s.wx < 0 || s.wy < 0 {
      NegativeCorner(s, w, h, px, py, 0);
    }
  }

  lemma PaintErase(s: State, w: nat, h: nat, px: nat, py: nat, under: Colour)
    requires ScreenSize(w, h)
    ensures Paint([EraseCursor(s), EraseWindow(s)], w, h, px, py, under) ==
            if Hits(EraseCursor(s), w, h, px, py) || Hits(EraseWindow(s), w, h, px, py) then DESKTOP else under
  {
    hide Hits, I32;
    var erase, one := [EraseCursor(s), EraseWindow(s)], [EraseCursor(s)];
    assert erase[..1] == one && one[..0] == [];
    assert Paint(one, w, h, px, py, under) == if Hits(EraseCursor(s), w, h, px, py) then DESKTOP else under;
  }

  lemma WindowLeft(s: State, w: nat, h: nat, px: nat, py: nat)
    requires ScreenSize(w, h) && Inv(s, w, h) && px < w && py < h && !Hits(EraseWindow(s), w, h, px, py)
    ensures Paint(WindowRects(s.wx, s.wy, s.color), w, h, px, py, DESKTOP) == DESKTOP
            <==> !Covered(WindowRects(s.wx, s.wy, s.color), w, h, px, py)
    ensures 0 <= s.wx && 0 <= s.wy ==> !Covered(WindowRects(s.wx, s.wy, s.color), w, h, px, py)
  {
    hide Hits, Inv, Paint, I32;
    var win := WindowRects(s.wx, s.wy, s.color);
    PaintCovered(win, w, h, px, py, DESKTOP, DESKTOP);
    if Covered(win, w, h, px, py) {
      if 0 <= s.wx && 0 <= s.wy { WindowErased(s, w, h, px, py); }
      var i :| 0 <= i < |win| && Hits(win[i], w, h, px, py) && Paint(win, w, h, px, py, DESKTOP) == win[i].c;
      if s.wx < 0 || s.wy < 0 { NegativeCorner(s, w, h, px, py, i); }
    }
  }

  lemma PixelIff(s: State, t: State, w: nat, h: nat, px: nat, py: nat)
    requires ScreenSize(w, h) && Inv(s, w, h) && px < w && py < h
    ensures SamePixel(s, t, w, h, px, py) <==> (0 <= s.wx && 0 <= s.wy) || Hidden(s, t, w, h, px, py)
  {
    hide Hits, Covered, WindowRects, CursorRects, Inv, Scene, EraseCursor, EraseWindow, Paint;
    var erase := [EraseCursor(s), EraseWindow(s)];
    var was := Scratch(s, w, h, px, py);
    ErasedPixel(s, w, h, px, py);
    PaintAppend(erase, Scene(t), w, h, px, py, was);
    var e := Paint(erase, w, h, px, py, was);
    PaintCovered(Scene(t), w, h, px, py, e, DESKTOP);
    PaintCovered(Scene(t), w, h, px, py, DESKTOP, DESKTOP);
  }

  /** The incremental redraw gives the picture from scratch if and only if the old window had no negative coordinate, or
      whatever showed of it is covered by the new window, the new cursor or the old cursor's square. */
  lemma RedrawIff(s: State, t: State, w: nat, h: nat)
    requires ScreenSize(w, h) && Inv(s, w, h)
    ensures (forall px: nat, py: nat :: px < w && py < h ==> SamePixel(s, t, w, h, px, py)) <==> Clean(s, t, w, h)
  {
    hide SamePixel, Hidden, Inv;
    forall px: nat, py: nat | px < w && py < h
      ensures SamePixel(s, t, w, h, px, py) <==> (0 <= s.wx && 0 <= s.wy) || Hidden(s, t, w, h, px, py)
    {
      PixelIff(s, t, w, h, px, py);
    }
  }

  /** A window that did not move is redrawn well wherever it is. */
  lemma UnmovedIsClean(s: State, t: State, w: nat, h: nat)
    requires ScreenSize(w, h) && t.wx == s.wx && t.wy == s.wy
    ensures Clean(s, t, w, h)
  {
    hide I32, Hits;
    forall px: nat, py: nat | px < w && py < h
      ensures Hidden(s, t, w, h, px, py)
    {
      var a, b := WindowRects(s.wx, s.wy, s.color), Scene(t);
      if Covered(a, w, h, px, py) {
        var i :| 0 <= i < |a| && Hits(a[i], w, h, px, py);
        assert b[i] == WindowRects(t.wx, t.wy, t.color)[i];
        SameShape(a[i], b[i], w, h, px, py);
      }
    }
  }

  lemma SameShape(a: Rect, b: Rect, w: nat, h: nat, px: nat, py: nat)
    requires ScreenSize(w, h) && (a.x, a.y, a.w, a.h) == (b.x, b.y, b.w, b.h)
    ensures Hits(a, w, h, px, py) == Hits(b, w, h, px, py)
  {
  }

  // ---- The loop ----

  /** Every redraw of the run is clean. */
  ghost predicate CleanRun(msgs: seq<bv64>, w: nat, h: nat)
    requires ScreenSize(w, h)
  {
    msgs != [] ==>
      var s := After(msgs[..|msgs| - 1], w, h);
      && CleanRun(msgs[..|msgs| - 1], w, h)
      && (Redraws(msgs[|msgs| - 1]) ==> Clean(s, Step(s, msgs[|msgs| - 1], w, h), w, h))
  }

  /** A run in which the window has no negative coordinate before any message is clean. */
  lemma {:induction false} NonNegativeIsClean(msgs: seq<bv64>, w: nat, h: nat)
    requires ScreenSize(w, h)
    requires forall k :: 0 <= k < |msgs| ==> After(msgs[..k], w, h).wx >= 0 && After(msgs[..k], w, h).wy >= 0
    ensures CleanRun(msgs, w, h)
  {
    hide Step, Redraws;
    if msgs != [] {
      var front := msgs[..|msgs| - 1];
      assert forall k :: 0 <= k < |front| ==> front[..k] == msgs[..k];
      assert msgs[..|front|] == front;
      NonNegativeIsClean(front, w, h);
    }
  }

  function Pick(base: seq<Colour>, w: nat, h: nat, px: nat, py: nat): Colour
    requires |base| == w * h && px < w && py < h
  {
    IndexBound(w, h, px, py);
    base[Index(w, px, py)]
  }

  /** The screen is `base` with the rectangles painted over it. */
  ghost predicate Shows(screen: Screen, base: seq<Colour>, rs: seq<Rect>)
    reads screen, screen.pixels
  {
    && screen.Valid() && screen.present && ScreenSize(screen.width, screen.height)
    && |base| == screen.width * screen.height
    && forall px: nat, py: nat :: px < screen.width && py < screen.height ==>
         screen.At(px, py) == Paint(rs, screen.width, screen.height, px, py, Pick(base, screen.width, screen.height, px, py))
  }

  /** The screen is the picture of a state. */
  ghost predicate Pictures(screen: Screen, s: State)
    requires screen.Valid() && ScreenSize(screen.width, screen.height)
    reads screen, screen.pixels
  {
    forall px: nat, py: nat :: px < screen.width && py < screen.height ==>
      screen.At(px, py) == Scratch(s, screen.width, screen.height, px, py)
  }

  method DrawNext(screen: Screen, ghost base: seq<Colour>, ghost rs: seq<Rect>, r: Rect)
    requires Shows(screen, base, rs)
    modifies screen.pixels
    ensures Shows(screen, base, rs + [r])
  {
    hide Paint, Pick, InRect, Extent;
    screen.DrawRect(r.x, r.y, r.w, r.h, r.c);
    forall px: nat, py: nat | px < screen.width && py < screen.height
      ensures screen.At(px, py) ==
        Paint(rs + [r], screen.width, screen.height, px, py, Pick(base, screen.width, screen.height, px, py))
    {
      PaintLast(rs, r, screen.width, screen.height, px, py, Pick(base, screen.width, screen.height, px, py));
    }
  }

  lemma PaintLast(rs: seq<Rect>, r: Rect, w: nat, h: nat, px: nat, py: nat, under: Colour)
    requires ScreenSize(w, h)
    ensures Paint(rs + [r], w, h, px, py, under) == if Hits(r, w, h, px, py) then r.c else Paint(rs, w, h, px, py, under)
  {
    hide Hits;
    assert (rs + [r])[..|rs|] == rs;
  }

  lemma Snoc(rs: seq<Rect>, all: seq<Rect>, k: nat)
    requires k < |all|
    ensures rs + all[..k] + [all[k]] == rs + all[..k + 1]
  {
  }

  method DrawCursor(screen: Screen, ghost base: seq<Colour>, ghost rs: seq<Rect>, x: Int32, y: Int32)
    requires Shows(screen, base, rs)
    modifies screen.pixels
    ensures Shows(screen, base, rs + CursorRects(x, y))
  {
    hide Shows, I32;
    ghost var all := CursorRects(x, y);
    assert rs + all[..0] == rs && all[..2] == all;
    DrawNext(screen, base, rs + all[..0], Box(x, y, 6, 6, 0xFFFFFF));
    Snoc(rs, all, 0);
    DrawNext(screen, base, rs + all[..1], Box(x + 1, y + 1, 4, 4, 0));
    Snoc(rs, all, 1);
  }

  method DrawWindow(screen: Screen, ghost base: seq<Colour>, ghost rs: seq<Rect>, x: Int32, y: Int32, title: Colour)
    requires Shows(screen, base, rs)
    modifies screen.pixels
    ensures Shows(screen, base, rs + WindowRects(x, y, title))
  {
    hide Shows, I32, Box;
    ghost var all := WindowRects(x, y, title);
    assert rs + all[..0] == rs && all[..9] == all;
    DrawNext(screen, base, rs + all[..0], Box(x + 6, y + 6, WIN_W, WIN_H, 0x111111));
    Snoc(rs, all, 0);
    DrawNext(screen, base, rs + all[..1], Box(x, y, WIN_W, WIN_H, 0xDDDDDD));
    Snoc(rs, all, 1);
    DrawNext(screen, base, rs + all[..2], Box(x, y, WIN_W, TITLE, title));
    Snoc(rs, all, 2);
    DrawNext(screen, base, rs + all[..3], Box(x + WIN_W - 24, y + 4, 16, 16, 0xFF4444));
    Snoc(rs, all, 3);
    DrawNext(screen, base, rs + all[..4], Box(x + 10, y + 34, WIN_W - 20, WIN_H - 44, 0xFFFFFF));
    Snoc(rs, all, 4);
    DrawNext(screen, base, rs + all[..5], Box(x + 30, y + 60, 100, 20, 0x3366FF));
    Snoc(rs, all, 5);
    DrawNext(screen, base, rs + all[..6], Box(x + 30, y + 100, 200, 10, 0xAAAAAA));
    Snoc(rs, all, 6);
    DrawNext(screen, base, rs + all[..7], Box(x + 30, y + 120, 180, 10, 0xAAAAAA));
    Snoc(rs, all, 7);
    DrawNext(screen, base, rs + all[..8], Box(x + 30, y + 140, 220, 10, 0xAAAAAA));
    Snoc(rs, all, 8);
  }

  method DrawScene(screen: Screen, ghost base: seq<Colour>, ghost rs: seq<Rect>, s: State)
    requires Shows(screen, base, rs)
    modifies screen.pixels
    ensures Shows(screen, base, rs + Scene(s))
  {
    hide Shows, WindowRects, CursorRects;
    DrawWindow(screen, base, rs, s.wx, s.wy, s.color);
    DrawCursor(screen, base, rs + WindowRects(s.wx, s.wy, s.color), s.mx, s.my);
    assert rs + WindowRects(s.wx, s.wy, s.color) + CursorRects(s.mx, s.my) == rs + Scene(s);
  }

  /** The drawing calls at the start: they paint over whatever was on the screen. */
  method DrawAll(screen: Screen, s: State)
    requires screen.Valid() && screen.present && ScreenSize(screen.width, screen.height)
    modifies screen.pixels
    ensures Pictures(screen, s)
  {
    hide Paint, Pick, Scene;
    var w, h := screen.width, screen.height;
    screen.DrawRect(0, 0, w, h, DESKTOP);
    ghost var base := screen.pixels[..];
    forall px: nat, py: nat | px < w && py < h
      ensures screen.At(px, py) == Pick(base, w, h, px, py) == DESKTOP
    {
      HitsExact(Rect(0, 0, w, h, DESKTOP), w, h, px, py);
      PickAt(screen, px, py);
    }
    PaintNothing(w, h);
    DrawScene(screen, base, [], s);
    assert [] + Scene(s) == Scene(s);
  }

  lemma PaintNothing(w: nat, h: nat)
    requires ScreenSize(w, h)
    ensures forall px: nat, py: nat, u: Colour :: Paint([], w, h, px, py, u) == u
  {
  }

  lemma PickAt(screen: Screen, px: nat, py: nat)
    requires screen.Valid() && px < screen.width && py < screen.height
    ensures screen.At(px, py) == Pick(screen.pixels[..], screen.width, screen.height, px, py)
  {
    IndexBound(screen.width, screen.height, px, py);
  }

  lemma ShowsItself(screen: Screen)
    requires screen.Valid() && screen.present && ScreenSize(screen.width, screen.height)
    ensures Shows(screen, screen.pixels[..], [])
  {
    hide Paint, Pick;
    PaintNothing(screen.width, screen.height);
    forall px: nat, py: nat | px < screen.width && py < screen.height
      ensures screen.At(px, py) == Pick(screen.pixels[..], screen.width, screen.height, px, py)
    {
      PickAt(screen, px, py);
    }
  }

  /** The drawing calls after a message. */
  method Redraw(screen: Screen, s: State, t: State)
    requires screen.Valid() && screen.present && ScreenSize(screen.width, screen.height)
    modifies screen.pixels
    ensures Shows(screen, old(screen.pixels[..]), RedrawRects(s, t))
  {
    hide Shows, Scene, EraseCursor, EraseWindow;
    ghost var base := screen.pixels[..];
    ShowsItself(screen);
    assert [] + [EraseCursor(s)] == [EraseCursor(s)];
    DrawNext(screen, base, [], EraseCursor(s));
    assert [EraseCursor(s)] + [EraseWindow(s)] == [EraseCursor(s), EraseWindow(s)];
    DrawNext(screen, base, [EraseCursor(s)], EraseWindow(s));
    DrawScene(screen, base, [EraseCursor(s), EraseWindow(s)], t);
  }

  /** Redrawing turns the picture of `s` into the picture of `t` exactly when the step is clean. */
  lemma RedrawPictures(screen: Screen, base: seq<Colour>, s: State, t: State)
    requires Shows(screen, base, RedrawRects(s, t)) && Inv(s, screen.width, screen.height)
    requires forall px: nat, py: nat :: px < screen.width && py < screen.height ==>
      Pick(base, screen.width, screen.height, px, py) == Scratch(s, screen.width, screen.height, px, py)
    ensures Pictures(screen, t) <==> Clean(s, t, screen.width, screen.height)
  {
    hide Paint, Pick, RedrawRects, Clean, Inv, Scratch;
    var w, h := screen.width, screen.height;
    RedrawIff(s, t, w, h);
    forall px: nat, py: nat | px < w && py < h
      ensures SamePixel(s, t, w, h, px, py) <==> screen.At(px, py) == Scratch(t, w, h, px, py)
    {
      assert Pick(base, w, h, px, py) == Scratch(s, w, h, px, py);
    }
  }

  /** The message loop. It follows the model of the messages, the screen shows the current state after every clean
      run, and after a run that was clean up to the last message it does so only if that one is clean too. */
  method RunUiLoop(screen: Screen, msgs: seq<bv64>) returns (s: State)
    requires screen.Valid() && screen.present && ScreenSize(screen.width, screen.height)
    modifies screen.pixels
    ensures s == After(msgs, screen.width, screen.height)
    ensures CleanRun(msgs, screen.width, screen.height) ==> Pictures(screen, s)
    ensures msgs != [] && CleanRun(msgs[..|msgs| - 1], screen.width, screen.height) ==>
      (Pictures(screen, s) <==> CleanRun(msgs, screen.width, screen.height))
  {
    hide Pictures, Clean, Inv, Step, RedrawRects, Shows;
    var w, h := screen.width, screen.height;
    s := Init(w, h);
    DrawAll(screen, s);
    for i := 0 to |msgs|
      invariant s == After(msgs[..i], w, h)
      invariant CleanRun(msgs[..i], w, h) ==> Pictures(screen, s)
      invariant i > 0 && CleanRun(msgs[..i - 1], w, h) ==> (Pictures(screen, s) <==> CleanRun(msgs[..i], w, h))
    {
      assert msgs[..i + 1][..i] == msgs[..i];
      var t := HandleMessage(s, msgs[i], w, h);
      if Redraws(msgs[i]) {
        ghost var base := screen.pixels[..];
        ghost var good := Pictures(screen, s);
        if good { PicturesPick(screen, s); }
        Redraw(screen, s, t);
        RunInv(msgs[..i], w, h);
        if good { RedrawPictures(screen, base, s, t); }
      } else {
        StepSkips(s, msgs[i], w, h);
      }
      s := t;
    }
    assert msgs[..|msgs|] == msgs;
  }

  lemma StepSkips(s: State, msg: bv64, w: nat, h: nat)
    requires ScreenSize(w, h) && !Redraws(msg)
    ensures Step(s, msg, w, h) == s
  {
  }

  lemma PicturesPick(screen: Screen, s: State)
    requires screen.Valid() && ScreenSize(screen.width, screen.height) && Pictures(screen, s)
    ensures forall px: nat, py: nat :: px < screen.width && py < screen.height ==>
      Pick(screen.pixels[..], screen.width, screen.height, px, py) == Scratch(s, screen.width, screen.height, px, py)
  {
    hide Scratch, Pick;
    forall px: nat, py: nat | px < screen.width && py < screen.height
      ensures Pick(screen.pixels[..], screen.width, screen.height, px, py) == Scratch(s, screen.width, screen.height, px, py)
    {
      PickAt(screen, px, py);
    }
  }

  /** The state changes of a mouse message, in the order the loop makes them. */
  method HandleMouse(s: State, flags: bv8, dx: int, dy: int, w: nat, h: nat) returns (t: State)
    requires ScreenSize(w, h)
    ensures t == OnMouse(s, flags, dx, dy, w, h)
  {
    hide I32, InTitle;
    var mouseX: Int32, mouseY: Int32 := I32(s.mx + dx), I32(s.my - dy);
    if mouseX < 0 { mouseX := 0; }
    if mouseY < 0 { mouseY := 0; }
    if mouseX > w - 6 { mouseX := w - 6; }
    if mouseY > h - 6 { mouseY := h - 6; }
    t := s.(mx := mouseX, my := mouseY);
    if flags & 1 != 0 {
      if !s.dragging {
        if InTitle(mouseX, mouseY, s.wx, s.wy) {
          t := t.(dragging := true, ox := I32(mouseX - s.wx), oy := I32(mouseY - s.wy));
        }
      } else {
        t := t.(wx := I32(mouseX - s.ox), wy := I32(mouseY - s.oy));
      }
    } else {
      t := t.(dragging := false);
    }
  }

  method HandleMessage(s: State, msg: bv64, w: nat, h: nat) returns (t: State)
    requires ScreenSize(w, h)
    ensures t == Step(s, msg, w, h)
  {
    hide NextColor, OnMouse, Input.Field, Input.Signed, Input.Id;
    t := s;
    if msg != 0 {
      var id := Input.Id(msg);
      if id == 0x5E {
        t := HandleMouse(s, Input.Field(msg, 16), Input.Signed(Input.Field(msg, 8)), Input.Signed(Input.Field(msg, 0)), w, h);
      } else if id == 0x11 {
        if Input.Field(msg, 0) < 0x80 {
          t := t.(color := NextColor(s.color));
        }
      }
    }
  }

  /** On a screen of 1024 by 768: to the title bar, press, drag the window over the left edge and back. */
  const DRAG: seq<bv64> :=
    [Input.MousePayload(0, 0x90, 0x7F), Input.MousePayload(0, 0, 0x64), Input.MousePayload(1, 0, 0),
     Input.MousePayload(1, 0x80, 0), Input.MousePayload(1, 0xB5, 0), Input.MousePayload(1, 0x0A, 0)]

  function Dragged(mx: Int32, my: Int32, wx: Int32): State {
    State(mx, my, wx, 150, true, 200, 7, 0x0055AA)
  }

  function Loose(mx: Int32, my: Int32): State {
    State(mx, my, 200, 150, false, 0, 0, 0x0055AA)
  }

  lemma DragSteps()
    ensures Step(Loose(512, 384), DRAG[0], 1024, 768) == Loose(400, 257)
    ensures Step(Loose(400, 257), DRAG[1], 1024, 768) == Loose(400, 157)
    ensures Step(Loose(400, 157), DRAG[2], 1024, 768) == Dragged(400, 157, 200)
    ensures Step(Dragged(400, 157, 200), DRAG[3], 1024, 768) == Dragged(272, 157, 72)
    ensures Step(Dragged(272, 157, 72), DRAG[4], 1024, 768) == Dragged(197, 157, -3)
    ensures Step(Dragged(197, 157, -3), DRAG[5], 1024, 768) == Dragged(207, 157, 7)
  {
    hide Step, Input.MousePayload, I32;
    MouseStep(Loose(512, 384), 0, 0x90, 0x7F, 1024, 768);
    MouseStep(Loose(400, 257), 0, 0, 0x64, 1024, 768);
    MouseStep(Loose(400, 157), 1, 0, 0, 1024, 768);
    MouseStep(Dragged(400, 157, 200), 1, 0x80, 0, 1024, 768);
    MouseStep(Dragged(272, 157, 72), 1, 0xB5, 0, 1024, 768);
    MouseStep(Dragged(197, 157, -3), 1, 0x0A, 0, 1024, 768);
  }

  lemma AfterLast(msgs: seq<bv64>, k: nat, w: nat, h: nat)
    requires ScreenSize(w, h) && 0 < k <= |msgs|
    ensures After(msgs[..k], w, h) == Step(After(msgs[..k - 1], w, h), msgs[k - 1], w, h)
  {
    hide Step;
    assert msgs[..k][..k - 1] == msgs[..k - 1];
  }

  lemma DragStart()
    ensures |DRAG| == 6 && After(DRAG[..0], 1024, 768) == Loose(512, 384)
  {
    hide Step, Input.MousePayload;
    assert DRAG[..0] == [];
  }

  lemma DragStates()
    ensures After(DRAG[..0], 1024, 768) == Loose(512, 384) && After(DRAG[..1], 1024, 768) == Loose(400, 257)
    ensures After(DRAG[..2], 1024, 768) == Loose(400, 157) && After(DRAG[..3], 1024, 768) == Dragged(400, 157, 200)
    ensures After(DRAG[..4], 1024, 768) == Dragged(272, 157, 72) && After(DRAG[..5], 1024, 768) == Dragged(197, 157, -3)
    ensures After(DRAG, 1024, 768) == Dragged(207, 157, 7)
  {
    DragStart();
    DragSteps();
    hide Step, After, DRAG, Dragged, Loose;
    AfterLast(DRAG, 1, 1024, 768);
    AfterLast(DRAG, 2, 1024, 768);
    AfterLast(DRAG, 3, 1024, 768);
    AfterLast(DRAG, 4, 1024, 768);
    AfterLast(DRAG, 5, 1024, 768);
    AfterLast(DRAG, 6, 1024, 768);
    assert DRAG[..6] == DRAG;
  }

  /** A run from the start that goes wrong with its last redraw: the window comes back from x = -3, and a stripe of its
      shadow stays on the desktop. */
  lemma StripeLeftBehind()
    ensures CleanRun(DRAG[..5], 1024, 768) && !CleanRun(DRAG, 1024, 768)
    ensures After(DRAG[..5], 1024, 768).wx == -3 && After(DRAG, 1024, 768).wx == 7
    ensures !SamePixel(After(DRAG[..5], 1024, 768), After(DRAG, 1024, 768), 1024, 768, 3, 200)
  {
    hide Hits, I32, Paint, Step, After, Clean, Redraws, Input.MousePayload;
    DragStates();
    var s, t := Dragged(197, 157, -3), Dragged(207, 157, 7);
    StripeNotCovered(t);
    HitsExact(WindowRects(-3, 150, 0x0055AA)[0], 1024, 768, 3, 200);
    HitsExact(EraseCursor(s), 1024, 768, 3, 200);
    PixelIff(s, t, 1024, 768, 3, 200);
    RedrawIff(s, t, 1024, 768);
    assert !Clean(s, t, 1024, 768);
    DragPrefixes();
    NonNegativeIsClean(DRAG[..5], 1024, 768);
    LastRedraws();
    AfterLast(DRAG, 6, 1024, 768);
    assert DRAG[..6] == DRAG;
  }

  lemma DragPrefixes()
    ensures forall k :: 0 <= k < 5 ==> After(DRAG[..5][..k], 1024, 768).wx >= 0 && After(DRAG[..5][..k], 1024, 768).wy >= 0
  {
    hide After, Step;
    DragStates();
    forall k | 0 <= k < 5 ensures After(DRAG[..5][..k], 1024, 768).wx >= 0 && After(DRAG[..5][..k], 1024, 768).wy >= 0 {
      assert DRAG[..5][..k] == DRAG[..k];
      assert k == 0 || k == 1 || k == 2 || k == 3 || k == 4;
    }
  }

  lemma LastRedraws()
    ensures Redraws(DRAG[5])
  {
    hide Input.MousePayload, Input.Decode;
    Input.MouseRoundTrip(1, 0x0A, 0);
  }

  lemma StripeNotCovered(t: State)
    requires t == Dragged(207, 157, 7)
    ensures !Covered(Scene(t), 1024, 768, 3, 200)
  {
    hide Hits, I32;
    var scene := Scene(t);
    forall i | 0 <= i < |scene|
      ensures !Hits(scene[i], 1024, 768, 3, 200)
    {
      HitsExact(scene[i], 1024, 768, 3, 200);
    }
  }
}
