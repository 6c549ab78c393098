/** `Window::handle_mouse_event`: the wheel moves the selection within the
    current sibling list. Wheel-down goes through signed 64-bit arithmetic
    and wheel-up through unsigned, so both conversions are written out. */
module Mouse {
  import opened Wrappers
  import opened Decimal
  import opened Tree
  import opened State
  import opened Keys
  import opened KeyProps

  const I64_MAX: nat := 0x7FFF_FFFF_FFFF_FFFF
  const I64_MIN: int := -0x8000_0000_0000_0000
  const TWO_64: nat := 0x1_0000_0000_0000_0000

  /** A `Vec` never holds more than `isize::MAX` elements. */
  const VEC_MAX: nat := I64_MAX

  /** The mouse events termion reports, as far as the handler tells them apart. */
  datatype MouseEvent = WheelDown | WheelUp | OtherMouse

  predicate IsI64(x: int) {
    I64_MIN <= x <= I64_MAX
  }

  /** `x as i64` for a `usize`: the same 64 bits read as two's complement. */
  function UsizeToI64(x: nat): (r: int)
    requires x <= USIZE_MAX
    ensures IsI64(r) && (r - x) % TWO_64 == 0
    ensures x <= I64_MAX ==> r == x
  {
    if x <= I64_MAX then x else x - TWO_64
  }

  /** `x as usize` for an `i64`. */
  function I64ToUsize(x: int): (r: nat)
    requires IsI64(x)
    ensures r <= USIZE_MAX && (r - x) % TWO_64 == 0
    ensures x >= 0 ==> r == x
  {
    if x >= 0 then x else x + TWO_64
  }

  /** An `i64` addition or subtraction, wrapping as in a release build. */
  function WrapI64(x: int): (r: int)
    ensures IsI64(r) && (r - x) % TWO_64 == 0
    ensures IsI64(x) ==> r == x
  {
    (x - I64_MIN) % TWO_64 + I64_MIN
  }

  /** `a % b` on `i64`: the remainder takes the sign of the dividend, so it
      differs from the Euclidean one by `b` exactly when `a` is negative and
      not a multiple of `b`. */
  function RemI64(a: int, b: int): (r: int)
    requires b > 0
    ensures -b < r < b && (a >= 0 ==> r >= 0) && (a < 0 ==> r <= 0)
    ensures r == if a < 0 && a % b != 0 then a % b - b else a % b
  {
    if a >= 0 then a % b
    else
      NegMod(-a, b);
      -((-a) % b)
  }

  /** How the Euclidean remainder of `-x` relates to that of `x`. */
  lemma NegMod(x: int, b: int)
    requires x >= 0 && b > 0
    ensures x % b == 0 ==> (-x) % b == 0
    ensures x % b != 0 ==> (-x) % b == b - x % b
  {
    var q := x / b;
    var m := x % b;
    if m == 0 {
      ModUnique(-x, b, -q, 0);
    } else {
      ModUnique(-x, b, -q - 1, b - m);
    }
  }

  /** The Euclidean remainder is the only `r` in `[0, b)` with `y - r` a
      multiple of `b`. */
  lemma ModUnique(y: int, b: int, k: int, r: int)
    requires b > 0 && y == b * k + r && 0 <= r < b
    ensures y % b == r
  {
    var q := y / b;
    assert b * q + y % b == b * k + r;
    if q > k {
      assert b * (q - k) == b * q - b * k;
      MulAtLeast(b, q - k);
    } else if q < k {
      assert b * (k - q) == b * k - b * q;
      MulAtLeast(b, k - q);
    }
  }

  lemma {:induction false} MulAtLeast(b: int, d: int)
    requires b > 0 && d >= 1
    ensures b * d >= b
    decreases d
  {
    if d > 1 {
      MulAtLeast(b, d - 1);
      assert b * d == b * (d - 1) + b;
    }
  }

  /** Lists of at most 2^62 nodes, which is every list in a 64-bit address
      space: for them `last - 1 + len` cannot overflow `i64`. */
  const WHEEL_MAX: nat := 0x4000_0000_0000_0000

  /** Wheel-down on a list of `len` nodes whose selection is `last`: the
      sentinel `!0` becomes the last index, any other index steps back by
      one, modulo the length, in `i64`. */
  function WheelDownIndex(len: nat, last: nat): (r: nat)
    requires 0 < len <= I64_MAX && last <= USIZE_MAX
    ensures r <= USIZE_MAX
    ensures last == USIZE_MAX ==> r == len - 1
  {
    if last == USIZE_MAX then len - 1
    else I64ToUsize(RemI64(WrapI64(WrapI64(UsizeToI64(last) - 1) + len), len))
  }

  /** Wheel-up: the sentinel becomes 0, any other index steps forward by
      one, modulo the length, in `u64`. */
  function WheelUpIndex(len: nat, last: nat): (r: nat)
    requires 0 < len && last <= USIZE_MAX
    ensures r < len
    ensures last == USIZE_MAX ==> r == 0
  {
    if last == USIZE_MAX then 0 else ((last + 1) % TWO_64) % len
  }

  /** Without overflow wheel-down is `(last + len - 1) mod len`, which is an
      index of the list; this covers a stale selection past the end too. */
  lemma WheelDownBelow(len: nat, last: nat)
    requires 0 < len <= I64_MAX && last + len <= I64_MAX + 1
    ensures WheelDownIndex(len, last) == (last + len - 1) % len
    ensures WheelDownIndex(len, last) < len
  {
    var a := UsizeToI64(last) - 1;
    assert a == last - 1;
    assert WrapI64(a) == a;
    assert WrapI64(a + len) == last + len - 1;
  }

  /** Wheel-up steps the selection as `j` does. */
  lemma WheelUpIsMoveDown(len: nat, last: nat)
    requires 0 < len <= USIZE_MAX && last < len
    ensures WheelUpIndex(len, last) == MoveDownIndex(len, last, 1)
  {
    MoveDownOneWraps(len, last);
    assert (last + 1) % TWO_64 == last + 1;
  }

  /** Wheel-down steps the selection as `k` does. */
  lemma WheelDownIsMoveUp(len: nat, last: nat)
    requires 0 < len <= WHEEL_MAX && last < len
    ensures WheelDownIndex(len, last) == MoveUpIndex(len, last, 1)
  {
    WheelDownBelow(len, last);
    MoveUpOneWraps(len, last);
  }

  /** Wheel-up then wheel-down restores any index of the list. */
  lemma WheelUpThenDown(len: nat, i: nat)
    requires 0 < len <= WHEEL_MAX && i < len
    ensures WheelDownIndex(len, WheelUpIndex(len, i)) == i
  {
    WheelUpIsMoveDown(len, i);
    var j := WheelUpIndex(len, i);
    WheelDownIsMoveUp(len, j);
    MoveDownThenUp(len, i, 1);
  }

  /** Wheel-down then wheel-up restores any index of the list. */
  lemma WheelDownThenUp(len: nat, i: nat)
    requires 0 < len <= WHEEL_MAX && i < len
    ensures WheelUpIndex(len, WheelDownIndex(len, i)) == i
  {
    WheelDownIsMoveUp(len, i);
    var j := WheelDownIndex(len, i);
    WheelUpIsMoveDown(len, j);
    MoveUpThenDown(len, i);
  }

  /** `handle_mouse_event` as a function of the session state: a wheel
      event on a non-empty list rewrites the last cursor entry and asks for
      a redraw; any other event is not recognised. */
  function HandleMouse(s: Snapshot, ev: MouseEvent): Step
    requires s.Valid() && |s.ParentList()| <= VEC_MAX
  {
    var n := |s.ParentList()|;
    match ev
    case WheelDown =>
      if n > 0 then LastInRange(s); Done(s.WithLast(WheelDownIndex(n, s.Last())), true)
      else Done(s, false)
    case WheelUp =>
      if n > 0 then LastInRange(s); Done(s.WithLast(WheelUpIndex(n, s.Last())), true)
      else Done(s, false)
    case OtherMouse => Unrecognised(s)
  }

  /** The wheel moves the selection exactly as `k` and `j` do, keeps the
      cursor valid and redraws only when there is a node to select; other
      events change nothing. */
  lemma MouseMovesLikeKeys(s: Snapshot, ev: MouseEvent)
    requires s.Valid() && |s.ParentList()| <= WHEEL_MAX
    ensures HandleMouse(s, ev).state.Valid()
    ensures ev == WheelDown ==> HandleMouse(s, ev).state == CursorUp(s).state
    ensures ev == WheelUp ==> HandleMouse(s, ev).state == CursorDown(s).state
    ensures ev != OtherMouse ==>
      HandleMouse(s, ev).result == Success(false) && (HandleMouse(s, ev).dirty <==> |s.ParentList()| > 0)
    ensures ev == OtherMouse ==> HandleMouse(s, ev) == Unrecognised(s)
  {
    var n := |s.ParentList()|;
    if n > 0 && ev != OtherMouse {
      LastInRange(s);
      if ev == WheelDown {
        WheelDownIsMoveUp(n, s.Last());
        WithLastValid(s, WheelDownIndex(n, s.Last()));
      } else {
        WheelUpIsMoveDown(n, s.Last());
        WithLastValid(s, WheelUpIndex(n, s.Last()));
      }
    }
  }

  /** Wheel-up then wheel-down restores the state. */
  lemma WheelUpThenDownRestores(s: Snapshot)
    requires s.Valid() && |s.ParentList()| <= WHEEL_MAX
    ensures HandleMouse(s, WheelUp).state.Valid()
    ensures |HandleMouse(s, WheelUp).state.ParentList()| == |s.ParentList()|
    ensures HandleMouse(HandleMouse(s, WheelUp).state, WheelDown).state == s
  {
    MouseMovesLikeKeys(s, WheelUp);
    CursorDownWraps(s);
    var t := HandleMouse(s, WheelUp).state;
    MouseMovesLikeKeys(t, WheelDown);
    DownThenUp(s);
  }

  /** Wheel-down then wheel-up restores the state. */
  lemma WheelDownThenUpRestores(s: Snapshot)
    requires s.Valid() && |s.ParentList()| <= WHEEL_MAX
    ensures HandleMouse(s, WheelDown).state.Valid()
    ensures |HandleMouse(s, WheelDown).state.ParentList()| == |s.ParentList()|
    ensures HandleMouse(HandleMouse(s, WheelDown).state, WheelUp).state == s
  {
    MouseMovesLikeKeys(s, WheelDown);
    CursorUpWraps(s);
    var t := HandleMouse(s, WheelDown).state;
    MouseMovesLikeKeys(t, WheelUp);
    UpThenDown(s);
  }
}
