/**
 * Game rules of "The Purple Night" (examples/the-purple-night/src/lib.rs):
 * the bouncing animation counter `ping_pong`, the colour fade
 * `interpolate_colour`, and the player's sword, which a hit downgrades and
 * a heal upgrades, with its attack frames and hurt boxes.
 */
module PurpleNight {
  import opened Bits
  import opened Wrappers
  import opened FixVector
  import opened FixRect

  /**
   * `ping_pong(i, n)` on `u16`: counts 0, 1, ..., n - 1 and back down.
   * `2 * (n - 1)` must neither underflow nor overflow and the cycle must
   * not be zero, so `n` lies in 2..=32768.
   */
  function PingPong(i: u16, n: u16): (r: u16)
    requires 2 <= n <= 0x8000
    ensures r < n
  {
    var cycle := 2 * (n - 1);
    var j := i % cycle;
    if j >= n then cycle - j else j
  }

  /**
   * The counter rises from 0 to n - 1, then comes back down, and repeats
   * with period 2 * (n - 1).
   */
  lemma PingPongShape(i: u16, n: u16)
    requires 2 <= n <= 0x8000
    ensures i < n ==> PingPong(i, n) == i
    ensures var cycle := 2 * (n - 1); 0 < i <= n - 1 ==> PingPong(cycle - i, n) == i
    ensures var cycle := 2 * (n - 1); i + cycle < 0x1_0000 ==> PingPong(i + cycle, n) == PingPong(i, n)
  {
    var cycle := 2 * (n - 1);
    if i < n {
      ModUnique(i, cycle, 0, i);
    }
    if 0 < i <= n - 1 {
      ModUnique(cycle - i, cycle, 0, cycle - i);
    }
    if i + cycle < 0x1_0000 {
      ModUnique(i + cycle, cycle, i / cycle + 1, i % cycle);
    }
  }

  const MASK: nat := 0x1f

  /** The place of colour component `k` (red 0, green 1, blue 2) in a 15-bit colour. */
  function Place(k: nat): nat
    requires k < 3
  {
    if k == 0 then 1 else if k == 1 then 32 else 1024
  }

  /** `to_components`: `(c >> 5k) & MASK`. */
  function Component(c: u16, k: nat): (r: nat)
    requires k < 3
    ensures r < 32
  {
    (c / Place(k)) % 32
  }

  /**
   * One component of the fade, `(b - a) * time / total + a`, in `u16`
   * arithmetic that wraps (as a release build does).
   */
  function Lerp(a: nat, b: nat, time: u16, total: u16): (r: u16)
    requires a < 32 && b < 32 && total != 0
  {
    var difference := (b - a) % 0x1_0000;
    var scaled := (difference * time) % 0x1_0000;
    (scaled / total + a) % 0x1_0000
  }

  /** The colour with component `k` of the fade for components `0..k` and nothing above. */
  function FadedUpTo(initial: u16, destination: u16, time: u16, total: u16, k: nat): (r: nat)
    requires total != 0 && k <= 3
    ensures r < Place2(k)
  {
    if k == 0 then 0
    else
      FadedUpTo(initial, destination, time, total, k - 1) +
      (Lerp(Component(initial, k - 1), Component(destination, k - 1), time, total) % 32) * Place(k - 1)
  }

  /** The bound below which the first `k` components lie: 1, 32, 1024, 32768. */
  function Place2(k: nat): nat
    requires k <= 3
  {
    if k == 0 then 1 else if k == 1 then 32 else if k == 2 then 1024 else 0x8000
  }

  /** `interpolate_colour`: fade each 5-bit component, masked, into its place. */
  method InterpolateColour(initial: u16, destination: u16, time: u16, total: u16) returns (colour: u16)
    requires total != 0
    ensures colour == FadedUpTo(initial, destination, time, total, 3)
    ensures colour < 0x8000
  {
    colour := 0;
    for k := 0 to 3
      invariant colour == FadedUpTo(initial, destination, time, total, k)
    {
      var c := Lerp(Component(initial, k), Component(destination, k), time, total);
      // The three fields are disjoint, so `|=` of a shifted field is addition.
      colour := colour + (c % 32) * Place(k);
    }
  }

  /** A 15-bit colour is its three components in their places. */
  lemma ColourSplit(c: u16)
    ensures c % 0x8000 == Component(c, 0) + Component(c, 1) * 32 + Component(c, 2) * 1024
  {
    var a := c / 32;
    ModUnique(c, 32, a, c % 32);
    var b := a / 32;
    ModUnique(a, 32, b, a % 32);
    ModUnique(c, 1024, b, c % 32 + 32 * (a % 32));
    var q := b / 32;
    ModUnique(b, 32, q, b % 32);
    var r := c % 32 + 32 * (a % 32) + 1024 * (b % 32);
    assert c == 0x8000 * q + r;
    ModUnique(c, 0x8000, q, r);
  }

  /** The fade of all three components, written out. */
  lemma FadedColour(initial: u16, destination: u16, time: u16, total: u16)
    requires total != 0
    ensures FadedUpTo(initial, destination, time, total, 3) ==
      Lerp(Component(initial, 0), Component(destination, 0), time, total) % 32 +
      Lerp(Component(initial, 1), Component(destination, 1), time, total) % 32 * 32 +
      Lerp(Component(initial, 2), Component(destination, 2), time, total) % 32 * 1024
  {
    assert FadedUpTo(initial, destination, time, total, 1) ==
      Lerp(Component(initial, 0), Component(destination, 0), time, total) % 32;
    assert FadedUpTo(initial, destination, time, total, 2) == FadedUpTo(initial, destination, time, total, 1) +
      Lerp(Component(initial, 1), Component(destination, 1), time, total) % 32 * 32;
  }

  /** A fade whose every component equals that of `c` shows `c`'s colour bits. */
  lemma FadedIs(initial: u16, destination: u16, time: u16, total: u16, c: u16)
    requires total != 0
    requires Lerp(Component(initial, 0), Component(destination, 0), time, total) == Component(c, 0)
    requires Lerp(Component(initial, 1), Component(destination, 1), time, total) == Component(c, 1)
    requires Lerp(Component(initial, 2), Component(destination, 2), time, total) == Component(c, 2)
    ensures FadedUpTo(initial, destination, time, total, 3) == c % 0x8000
  {
    FadedColour(initial, destination, time, total);
    ColourSplit(c);
    var c0, c1, c2 := Component(c, 0), Component(c, 1), Component(c, 2);
    ModUnique(c0, 32, 0, c0);
    ModUnique(c1, 32, 0, c1);
    ModUnique(c2, 32, 0, c2);
  }

  /** At time 0 a component has not moved. */
  lemma LerpStart(a: nat, b: nat, total: u16)
    requires a < 32 && b < 32 && total != 0
    ensures Lerp(a, b, 0, total) == a
  {
    var difference := (b - a) % 0x1_0000;
    assert difference * 0 == 0;
    ModUnique(0, 0x1_0000, 0, 0);
    DivExactly(0, total, 0);
    ModUnique(a, 0x1_0000, 0, a);
  }

  /** At time 0 the fade shows the initial colour (its 15 colour bits). */
  lemma InterpolateStart(initial: u16, destination: u16, total: u16)
    requires total != 0
    ensures FadedUpTo(initial, destination, 0, total, 3) == initial % 0x8000
  {
    LerpStart(Component(initial, 0), Component(destination, 0), total);
    LerpStart(Component(initial, 1), Component(destination, 1), total);
    LerpStart(Component(initial, 2), Component(destination, 2), total);
    FadedIs(initial, destination, 0, total, initial);
  }

  /**
   * While no component decreases and nothing overflows, each faded
   * component lies between its start and end values.
   */
  lemma LerpBetween(a: nat, b: nat, time: u16, total: u16)
    requires a <= b < 32 && total != 0 && time <= total && (b - a) * total < 0x1_0000
    ensures a <= Lerp(a, b, time, total) <= b
    ensures time == total ==> Lerp(a, b, time, total) == b
  {
    var d := b - a;
    ModUnique(d, 0x1_0000, 0, d);
    var scaled := d * time;
    MulLe(d, time, total);
    ModUnique(scaled, 0x1_0000, 0, scaled);
    var q := scaled / total;
    DivFloor(scaled, total);
    assert q <= d by {
      if q > d {
        MulLe(total, d + 1, q);
      }
    }
    ModUnique(q + a, 0x1_0000, 0, q + a);
    assert Lerp(a, b, time, total) == q + a;
    if time == total {
      DivExactly(d * total, total, d);
    }
  }

  /** At the full time the fade reaches the destination, when its components do not decrease. */
  lemma InterpolateEnd(initial: u16, destination: u16, total: u16)
    requires total != 0
    requires forall k | 0 <= k < 3 :: Component(initial, k) <= Component(destination, k)
    requires forall k | 0 <= k < 3 :: (Component(destination, k) - Component(initial, k)) * total < 0x1_0000
    ensures FadedUpTo(initial, destination, total, total, 3) == destination % 0x8000
  {
    var a0, a1, a2 := Component(initial, 0), Component(initial, 1), Component(initial, 2);
    var b0, b1, b2 := Component(destination, 0), Component(destination, 1), Component(destination, 2);
    assert a0 <= b0 && (b0 - a0) * total < 0x1_0000;
    assert a1 <= b1 && (b1 - a1) * total < 0x1_0000;
    assert a2 <= b2 && (b2 - a2) * total < 0x1_0000;
    LerpBetween(a0, b0, total, total);
    LerpBetween(a1, b1, total, total);
    LerpBetween(a2, b2, total, total);
    FadedIs(initial, destination, total, total, destination);
  }

  /** `SwordState`. */
  datatype SwordState = LongSword | ShortSword | Dagger | Swordless

  /** `attack_duration`, in frames. */
  function AttackDuration(s: SwordState): (d: nat)
    ensures d <= 60 && d % 20 == 0
  {
    match s
    case LongSword => 60
    case ShortSword => 40
    case Dagger => 20
    case Swordless => 0
  }

  /** `jump_attack_duration`, in frames. */
  function JumpAttackDuration(s: SwordState): (d: nat)
    ensures d <= AttackDuration(s) && d <= 34
  {
    match s
    case LongSword => 34
    case ShortSword => 28
    case Dagger => 20
    case Swordless => 0
  }

  /** `cooldown_time`: a longer sword recovers more slowly. */
  function CooldownTime(s: SwordState): (c: nat)
    ensures c <= 20
  {
    match s
    case LongSword => 20
    case ShortSword => 10
    case Dagger => 1
    case Swordless => 0
  }

  /** `hold_frame`. */
  const HOLD_FRAME: nat := 7

  /** `u16::saturating_sub`. */
  function SaturatingSub(a: nat, b: nat): nat
  {
    if a <= b then 0 else a - b
  }

  /** `attack_frame`: every eight frames of the attack so far, one animation frame. */
  function AttackFrame(s: SwordState, timer: u16): nat
  {
    SaturatingSub(AttackDuration(s), timer) / 8
  }

  /** `jump_attack_frame`. */
  function JumpAttackFrame(s: SwordState, timer: u16): nat
  {
    SaturatingSub(JumpAttackDuration(s), timer) / 8
  }

  /**
   * The attack frame never underflows: it is 0 once the timer reaches the
   * duration, and never passes the hold frame.
   */
  lemma AttackFrameBounds(s: SwordState, timer: u16)
    ensures timer >= AttackDuration(s) ==> AttackFrame(s, timer) == 0
    ensures timer < AttackDuration(s) ==> AttackFrame(s, timer) == (AttackDuration(s) - timer) / 8
    ensures AttackFrame(s, timer) <= AttackDuration(s) / 8 <= HOLD_FRAME
    ensures JumpAttackFrame(s, timer) <= JumpAttackDuration(s) / 8 <= 4
    ensures AttackFrame(s, 0) == AttackDuration(s) / 8
  {
  }

  /** `dagger_hurtbox`. */
  function DaggerHurtbox(frame: u16): Option<Rect>
  {
    Some(Rect(Vector2D(9, 5), Vector2D(7, 9)))
  }

  /** `long_sword_hurtbox`. */
  function LongSwordHurtbox(frame: u16): Option<Rect>
  {
    if frame == 0 then Some(Rect(Vector2D(1, 10), Vector2D(6, 3)))
    else if frame == 1 then Some(Rect(Vector2D(0, 9), Vector2D(7, 2)))
    else if frame == 2 then Some(Rect(Vector2D(0, 1), Vector2D(6, 8)))
    else if frame == 3 then Some(Rect(Vector2D(3, 0), Vector2D(6, 8)))
    else if frame == 4 then Some(Rect(Vector2D(6, 3), Vector2D(10, 8)))
    else if frame <= 7 then Some(Rect(Vector2D(6, 5), Vector2D(10, 9)))
    else None
  }

  /** `short_sword_hurtbox`. */
  function ShortSwordHurtbox(frame: u16): Option<Rect>
  {
    if frame == 1 then Some(Rect(Vector2D(10, 5), Vector2D(3, 5)))
    else if frame == 2 then Some(Rect(Vector2D(8, 5), Vector2D(6, 6)))
    else if frame == 3 then Some(Rect(Vector2D(8, 6), Vector2D(8, 8)))
    else if frame == 4 then Some(Rect(Vector2D(8, 7), Vector2D(5, 7)))
    else if frame == 5 then Some(Rect(Vector2D(8, 7), Vector2D(7, 7)))
    else if frame == 6 then Some(Rect(Vector2D(8, 5), Vector2D(7, 8)))
    else if frame == 7 then Some(Rect(Vector2D(8, 4), Vector2D(4, 7)))
    else None
  }

  /** `ground_attack_hurtbox`. */
  function GroundAttackHurtbox(s: SwordState, frame: u16): Option<Rect>
  {
    match s
    case LongSword => LongSwordHurtbox(frame)
    case ShortSword => ShortSwordHurtbox(frame)
    case Dagger => DaggerHurtbox(frame)
    case Swordless => None
  }

  /**
   * Hurt boxes exist only for frames 0..=7 (the short sword's first frame
   * excepted), the dagger always has one and the swordless player none;
   * every box has a positive size.
   */
  lemma HurtboxFrames(s: SwordState, frame: u16)
    ensures frame > 7 && s != Dagger ==> GroundAttackHurtbox(s, frame).None?
    ensures s == LongSword ==> (GroundAttackHurtbox(s, frame).Some? <==> frame <= 7)
    ensures s == ShortSword ==> (GroundAttackHurtbox(s, frame).Some? <==> 1 <= frame <= 7)
    ensures s == Dagger ==> GroundAttackHurtbox(s, frame).Some?
    ensures s == Swordless ==> GroundAttackHurtbox(s, frame).None?
    ensures GroundAttackHurtbox(s, frame).Some? ==>
      GroundAttackHurtbox(s, frame).value.size.x > 0 && GroundAttackHurtbox(s, frame).value.size.y > 0
  {
  }

  /** A long-sword attack has a hurt box on every frame it reaches. */
  lemma LongSwordAlwaysHurts(timer: u16)
    ensures GroundAttackHurtbox(LongSword, AttackFrame(LongSword, timer) as u16).Some?
  {
    AttackFrameBounds(LongSword, timer);
  }

  /** `short_sword_fudge` and `long_sword_fudge`, the sprite offset of a frame; `fudge`. */
  function Fudge(s: SwordState, frame: u16): int
  {
    match s
    case LongSword =>
      if frame == 2 then 1 else if frame == 3 || frame == 7 then 4
      else if 4 <= frame <= 6 then 5 else 0
    case ShortSword =>
      if 1 <= frame <= 2 then frame as int else if 3 <= frame <= 7 then 3 else 0
    case Dagger => 0
    case Swordless => 0
  }

  /**
   * The offset is 0 for the dagger, the swordless player and every frame
   * past 7, never more than 5, and never decreases within the short
   * sword's swing.
   */
  lemma FudgeBounds(s: SwordState, frame: u16)
    ensures 0 <= Fudge(s, frame) <= 5
    ensures s == Dagger || s == Swordless || frame > 7 ==> Fudge(s, frame) == 0
    ensures s == ShortSword && frame < 7 ==> Fudge(s, frame) <= Fudge(s, frame + 1)
    ensures Fudge(s, frame) != 0 ==> GroundAttackHurtbox(s, frame).Some?
  {
  }

  /** The sword after a hit; none for a dagger, whose holder dies. */
  function Downgrade(s: SwordState): Option<SwordState>
  {
    match s
    case LongSword => Some(ShortSword)
    case ShortSword => Some(Dagger)
    case Dagger => None
    case Swordless => Some(Swordless)
  }

  /** The sword after a heal; a long sword stays. */
  function Upgrade(s: SwordState): Option<SwordState>
  {
    match s
    case LongSword => None
    case ShortSword => Some(LongSword)
    case Dagger => Some(ShortSword)
    case Swordless => Some(Swordless)
  }

  /** How many more hits the holder survives; the swordless state is not on the ladder. */
  function Rank(s: SwordState): nat
  {
    match s
    case LongSword => 2
    case ShortSword => 1
    case Dagger => 0
    case Swordless => 0
  }

  /** A heal undoes a hit and a hit undoes a heal, along the ladder long, short, dagger. */
  lemma SwordLadder(s: SwordState)
    ensures s != Swordless && Downgrade(s).Some? ==> Upgrade(Downgrade(s).value) == Some(s) && Rank(Downgrade(s).value) + 1 == Rank(s)
    ensures s != Swordless && Upgrade(s).Some? ==> Downgrade(Upgrade(s).value) == Some(s) && Rank(Upgrade(s).value) == Rank(s) + 1
    ensures Downgrade(s).None? <==> s == Dagger
    ensures Upgrade(s).None? <==> s == LongSword
  {
  }

  /** The part of `Player` that `damage` and `heal` change. */
  class Player {
    var damageCooldown: u16
    var sword: SwordState

    /** A new player holds the long sword and can be hit at once. */
    constructor ()
      ensures damageCooldown == 0 && sword == LongSword
    {
      damageCooldown := 0;
      sword := LongSword;
    }

    /**
     * `damage`: returns (alive, hit). While the cooldown runs nothing
     * happens; otherwise the cooldown restarts at 120 and the sword is
     * downgraded, and a dagger's holder dies keeping the dagger.
     */
    method Damage() returns (alive: bool, hit: bool)
      modifies this
      ensures old(damageCooldown) != 0 ==> alive && !hit && damageCooldown == old(damageCooldown) && sword == old(sword)
      ensures old(damageCooldown) == 0 ==>
        hit && damageCooldown == 120 && (alive <==> old(sword) != Dagger) &&
        sword == (if alive then Downgrade(old(sword)).value else old(sword))
    {
      if damageCooldown != 0 {
        return true, false;
      }
      damageCooldown := 120;
      var newSword := Downgrade(sword);
      if newSword.Some? {
        sword := newSword.value;
        alive, hit := true, true;
      } else {
        alive, hit := false, true;
      }
    }

    /** `heal`: upgrade the sword (a long sword stays) and start a 30-frame cooldown. */
    method Heal()
      modifies this
      ensures damageCooldown == 30
      ensures sword == if old(sword) == LongSword then LongSword else Upgrade(old(sword)).value
    {
      var newSword := Upgrade(sword);
      if newSword.Some? {
        sword := newSword.value;
      }
      damageCooldown := 30;
    }

    /** The cooldown step of `update`. */
    method CountDownDamage()
      modifies this
      ensures damageCooldown == if old(damageCooldown) > 0 then old(damageCooldown) - 1 else 0
      ensures sword == old(sword)
    {
      if damageCooldown > 0 {
        damageCooldown := damageCooldown - 1;
      }
    }
  }

  /** From the long sword, two hits leave a dagger and the third kills. */
  method ThreeHits() returns (first: bool, second: bool, third: bool)
    ensures first && second && !third
  {
    var p := new Player();
    var hit;
    first, hit := p.Damage();
    while p.damageCooldown > 0
      invariant p.sword == ShortSword
      decreases p.damageCooldown
    {
      p.CountDownDamage();
    }
    second, hit := p.Damage();
    while p.damageCooldown > 0
      invariant p.sword == Dagger
      decreases p.damageCooldown
    {
      p.CountDownDamage();
    }
    third, hit := p.Damage();
  }
}
