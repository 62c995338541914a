/**
 * Button input of agb (agb/src/input.rs). The key register holds one bit
 * per button, clear while the button is held; the controller keeps the
 * inverted register of the current and of the previous frame, and every
 * query is a bit test against a set of buttons.
 */
module Input {
  import opened FixVector

  /** `Tri`: -1, 0 or +1, for a pair of opposite directions. */
  datatype Tri = Positive | Zero | Negative

  /** The integer a `Tri` converts to (`tri as i32`). */
  function TriValue(t: Tri): (v: int)
    ensures -1 <= v <= 1
  {
    match t
    case Positive => 1
    case Zero => 0
    case Negative => -1
  }

  function BoolValue(b: bool): int
  {
    if b then 1 else 0
  }

  /**
   * `Tri::from((a, b))`: the second flag minus the first, reinterpreted as a
   * `Tri`; so `a` alone is negative, `b` alone positive, neither or both zero.
   */
  function TriFrom(a: bool, b: bool): (t: Tri)
    ensures TriValue(t) == BoolValue(b) - BoolValue(a)
  {
    if a == b then Zero else if b then Positive else Negative
  }

  /** Swapping the two flags negates the result; pressing both gives `Zero`. */
  lemma TriFromAntisymmetric(a: bool, b: bool)
    ensures TriValue(TriFrom(b, a)) == -TriValue(TriFrom(a, b))
    ensures TriFrom(a, a) == Zero
  {
  }

  /** The `Button` flags, one bit each (the source declares them as `u32` bits). */
  const A: bv16 := 1 << 0
  const B: bv16 := 1 << 1
  const SELECT: bv16 := 1 << 2
  const START: bv16 := 1 << 3
  const RIGHT: bv16 := 1 << 4
  const LEFT: bv16 := 1 << 5
  const UP: bv16 := 1 << 6
  const DOWN: bv16 := 1 << 7
  const R: bv16 := 1 << 8
  const L: bv16 := 1 << 9

  /**
   * The bit test every query makes: some button of `keys` is set in `state`.
   * The source widens the state to 32 bits first; the flags use only the low
   * 10 bits, so the test is the same on 16.
   */
  predicate AnyPressed(state: bv16, keys: bv16)
  {
    state & keys != 0
  }

  /**
   * The test is "any of", not "all of": a set of buttons is pressed when one
   * of its parts is. For the single-button sets (`Button::A` and so on) the
   * two readings agree.
   */
  lemma AnyPressedUnion(state: bv16, k1: bv16, k2: bv16)
    ensures AnyPressed(state, k1 | k2) <==> AnyPressed(state, k1) || AnyPressed(state, k2)
  {
    assert state & (k1 | k2) == (state & k1) | (state & k2);
  }

  /** `ButtonController`: the pressed buttons of this frame and of the one before. */
  class ButtonController {
    var previous: bv16
    var current: bv16

    /**
     * `new`: both frames are the inverted register, read once; the register
     * value `register` is the read, passed in.
     */
    constructor (register: bv16)
      ensures previous == !register && current == !register
    {
      previous := !register;
      current := !register;
    }

    /** `update`: the current frame becomes the previous one, and `register` is read as the new current. */
    method Update(register: bv16)
      modifies this
      ensures previous == old(current) && current == !register
    {
      previous := current;
      current := !register;
    }

    /** `is_pressed`. */
    predicate IsPressed(keys: bv16)
      reads this
    {
      AnyPressed(current, keys)
    }

    /** `is_released`: the negation of `is_pressed`. */
    predicate IsReleased(keys: bv16)
      reads this
    {
      !IsPressed(keys)
    }

    /** `is_just_pressed`: pressed in this frame and in no way pressed in the one before. */
    predicate IsJustPressed(keys: bv16)
      reads this
    {
      AnyPressed(current, keys) && !AnyPressed(previous, keys)
    }

    /** `is_just_released`: the mirror of `is_just_pressed`. */
    predicate IsJustReleased(keys: bv16)
      reads this
    {
      !AnyPressed(current, keys) && AnyPressed(previous, keys)
    }

    /** `x_tri`: left negative, right positive. */
    function XTri(): (t: Tri)
      reads this
      ensures TriValue(t) == BoolValue(IsPressed(RIGHT)) - BoolValue(IsPressed(LEFT))
    {
      TriFrom(IsPressed(LEFT), IsPressed(RIGHT))
    }

    /** `y_tri`: up negative, down positive. */
    function YTri(): (t: Tri)
      reads this
      ensures TriValue(t) == BoolValue(IsPressed(DOWN)) - BoolValue(IsPressed(UP))
    {
      TriFrom(IsPressed(UP), IsPressed(DOWN))
    }

    /** `just_pressed_x_tri`. */
    function JustPressedXTri(): (t: Tri)
      reads this
      ensures TriValue(t) == BoolValue(IsJustPressed(RIGHT)) - BoolValue(IsJustPressed(LEFT))
    {
      TriFrom(IsJustPressed(LEFT), IsJustPressed(RIGHT))
    }

    /** `just_pressed_y_tri`. */
    function JustPressedYTri(): (t: Tri)
      reads this
      ensures TriValue(t) == BoolValue(IsJustPressed(DOWN)) - BoolValue(IsJustPressed(UP))
    {
      TriFrom(IsJustPressed(UP), IsJustPressed(DOWN))
    }

    /** `vector`: the two `Tri`s as an integer vector. */
    function Vector(): (v: IntVector)
      reads this
      ensures -1 <= v.x <= 1 && -1 <= v.y <= 1
      ensures v.x == 0 <==> IsPressed(LEFT) == IsPressed(RIGHT)
      ensures v.y == 0 <==> IsPressed(UP) == IsPressed(DOWN)
    {
      Vector2D(TriValue(XTri()), TriValue(YTri()))
    }

    /** `just_pressed_vector`. */
    function JustPressedVector(): (v: IntVector)
      reads this
      ensures -1 <= v.x <= 1 && -1 <= v.y <= 1
      ensures v.x == 0 <==> IsJustPressed(LEFT) == IsJustPressed(RIGHT)
      ensures v.y == 0 <==> IsJustPressed(UP) == IsJustPressed(DOWN)
    {
      Vector2D(TriValue(JustPressedXTri()), TriValue(JustPressedYTri()))
    }
  }

  /**
   * How the queries relate: released is not pressed; a just pressed set is
   * pressed, a just released one released; and no set is both at once.
   */
  lemma QueriesAgree(c: ButtonController, keys: bv16)
    ensures c.IsReleased(keys) <==> !c.IsPressed(keys)
    ensures c.IsJustPressed(keys) ==> c.IsPressed(keys)
    ensures c.IsJustReleased(keys) ==> c.IsReleased(keys)
    ensures !(c.IsJustPressed(keys) && c.IsJustReleased(keys))
  {
  }

  /**
   * One `update` between two frames: a button is just pressed when it is held
   * now and was not held in the frame before the update, and just released in
   * the mirror case.
   */
  method UpdateEdges(c: ButtonController, register: bv16, button: bv16) returns (pressed: bool, released: bool)
    modifies c
    ensures c.previous == old(c.current)
    ensures pressed == c.IsJustPressed(button) && released == c.IsJustReleased(button)
    ensures pressed <==> AnyPressed(!register, button) && !AnyPressed(old(c.current), button)
    ensures released <==> !AnyPressed(!register, button) && AnyPressed(old(c.current), button)
  {
    c.Update(register);
    pressed := c.IsJustPressed(button);
    released := c.IsJustReleased(button);
  }

  /**
   * Holding A across two updates: just pressed after the first, held but no
   * longer just pressed after the second; letting go makes it just released.
   * The register bit of a held button is clear.
   */
  method HoldExample() returns (first: bool, second: bool, held: bool, released: bool)
    ensures first && !second && held && released
  {
    var c := new ButtonController(0xFFFF);
    c.Update(0xFFFE);
    first := c.IsJustPressed(A);
    c.Update(0xFFFE);
    second := c.IsJustPressed(A);
    held := c.IsPressed(A);
    c.Update(0xFFFF);
    released := c.IsJustReleased(A);
  }
}
