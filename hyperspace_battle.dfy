/**
 * The dice battle of "Hyperspace Roll"
 * (examples/hyperspace-roll/src/battle.rs): dice that are rolling or have
 * landed, accepting the landed faces into a list of actions, the enemy's
 * attacks counting down, and applying an action to the two ships.
 * Random rolls are parameters: the faces a die would show next are passed in.
 */
module HyperspaceBattle {
  import opened Wrappers

  /** `Face` (examples/hyperspace-roll/src/lib.rs). */
  datatype Face =
    | Shoot | Shield | Malfunction | Heal | Bypass | DoubleShot | TripleShot | Blank
    | Disrupt | MalfunctionShot | DoubleShield | TripleShield | DoubleShieldValue
    | DoubleShotValue | TripleShotValue | BurstShield | Invert

  /** `MALFUNCTION_COOLDOWN_FRAMES`: three seconds. */
  const MALFUNCTION_COOLDOWN_FRAMES: nat := 3 * 60
  /** `ROLL_TIME_FRAMES_ALL`: two seconds. */
  const ROLL_TIME_FRAMES_ALL: nat := 2 * 60

  /** `RolledDie`: a landed face and, for a malfunction, how long it is stuck. */
  datatype RolledDie = RolledDie(face: Face, cooldown: nat)

  /** `RolledDie::new`. */
  function NewDie(face: Face): (d: RolledDie)
    ensures d.face == face
    ensures d.cooldown == if face == Malfunction then 180 else 0
  {
    RolledDie(face, if face == Malfunction then MALFUNCTION_COOLDOWN_FRAMES else 0)
  }

  /** `RolledDie::update`: one frame, the cooldown saturating at zero. */
  function UpdateDie(d: RolledDie): (r: RolledDie)
    ensures r.face == d.face
    ensures r.cooldown <= d.cooldown && (d.cooldown > 0 ==> r.cooldown == d.cooldown - 1)
    ensures d.cooldown == 0 ==> r.cooldown == 0
  {
    d.(cooldown := if d.cooldown == 0 then 0 else d.cooldown - 1)
  }

  /** `can_reroll`. */
  predicate CanReroll(d: RolledDie)
  {
    d.face != Malfunction || d.cooldown == 0
  }

  /** `can_reroll_after_accept`. */
  predicate CanRerollAfterAccept(d: RolledDie)
  {
    d.face != Malfunction
  }

  /** `cooldown`: shown only for a malfunction still stuck. */
  function DieCooldown(d: RolledDie): (r: Option<nat>)
    ensures r.Some? <==> !CanReroll(d)
    ensures r.Some? ==> r.value == d.cooldown && r.value > 0
  {
    if d.face == Malfunction && d.cooldown > 0 then Some(d.cooldown) else None
  }

  /** `k` frames of `update`. */
  function UpdateDieFrames(d: RolledDie, k: nat): RolledDie
  {
    if k == 0 then d else UpdateDie(UpdateDieFrames(d, k - 1))
  }

  lemma {:induction false} UpdateDieFramesCooldown(d: RolledDie, k: nat)
    ensures UpdateDieFrames(d, k).face == d.face
    ensures UpdateDieFrames(d, k).cooldown == if k <= d.cooldown then d.cooldown - k else 0
  {
    if k > 0 {
      UpdateDieFramesCooldown(d, k - 1);
    }
  }

  /** A newly landed malfunction can be rerolled after exactly 180 frames and not before. */
  lemma MalfunctionStuckFor(k: nat)
    ensures CanReroll(UpdateDieFrames(NewDie(Malfunction), k)) <==> k >= MALFUNCTION_COOLDOWN_FRAMES
  {
    UpdateDieFramesCooldown(NewDie(Malfunction), k);
  }

  /** Any other landed face can be rerolled at once. */
  lemma OtherFacesFree(face: Face)
    requires face != Malfunction
    ensures CanReroll(NewDie(face)) && CanRerollAfterAccept(NewDie(face))
  {
  }

  /** `DieState`: still rolling (frames left, face shown, face before), or landed. */
  datatype DieState = Rolling(timeout: nat, shown: Face, previous: Face) | Rolled(die: RolledDie)

  /** The retry rule of the landing loop: the `tries`-th roll gave `face`. */
  predicate AcceptableRoll(previous: Face, face: Face, tries: nat)
  {
    previous != Malfunction || face != previous || tries > 16
  }

  /** How many rolls the landing loop takes, counting from `tries` rolls already refused. */
  function RollsNeeded(previous: Face, draws: seq<Face>, tries: nat): (n: nat)
    requires tries <= 16 < |draws|
    ensures tries < n <= 17
    decreases 17 - tries
  {
    if AcceptableRoll(previous, draws[tries], tries + 1) then tries + 1
    else RollsNeeded(previous, draws, tries + 1)
  }

  /** The landing loop stops at the first acceptable roll, which is at most the 17th. */
  lemma {:induction false} RollsNeededFirst(previous: Face, draws: seq<Face>, tries: nat)
    requires tries <= 16 < |draws|
    ensures var n := RollsNeeded(previous, draws, tries);
      AcceptableRoll(previous, draws[n - 1], n) &&
      forall j | tries <= j < n - 1 :: !AcceptableRoll(previous, draws[j], j + 1)
    decreases 17 - tries
  {
    if !AcceptableRoll(previous, draws[tries], tries + 1) {
      RollsNeededFirst(previous, draws, tries + 1);
    }
  }

  /**
   * The face a die lands on: unless it had been a malfunction, the first
   * roll; after a malfunction, the first roll that is not a malfunction
   * again, giving up after 17.
   */
  lemma LandingFace(previous: Face, draws: seq<Face>)
    requires 16 < |draws|
    ensures previous != Malfunction ==> RollsNeeded(previous, draws, 0) == 1
    ensures var n := RollsNeeded(previous, draws, 0);
      previous == Malfunction ==>
        (draws[n - 1] != Malfunction || n == 17) && forall j | 0 <= j < n - 1 :: draws[j] == Malfunction
  {
    RollsNeededFirst(previous, draws, 0);
  }

  /** The landing loop of `RolledDice::update`: roll until acceptable. */
  method ChooseLanding(previous: Face, draws: seq<Face>) returns (face: Face, tries: nat)
    requires 16 < |draws|
    ensures tries == RollsNeeded(previous, draws, 0) && face == draws[tries - 1]
  {
    tries := 0;
    while true
      invariant tries <= 16
      invariant RollsNeeded(previous, draws, tries) == RollsNeeded(previous, draws, 0)
      decreases 17 - tries
    {
      var next := draws[tries];
      tries := tries + 1;
      if AcceptableRoll(previous, next, tries) {
        face := next;
        return;
      }
    }
  }

  /** One frame of one die: see `RolledDice::update`. */
  function DieFrame(s: DieState, draws: seq<Face>, shown: Face): DieState
    requires 16 < |draws|
  {
    match s
    case Rolling(timeout, face, previous) =>
      if timeout == 0 then Rolled(NewDie(draws[RollsNeeded(previous, draws, 0) - 1]))
      else Rolling(timeout - 1, if timeout % 2 == 0 then shown else face, previous)
    case Rolled(d) => Rolled(UpdateDie(d))
  }

  /** A rolling die lands after its timeout runs out, and a landed one stays landed. */
  lemma DieFrameLands(s: DieState, draws: seq<Face>, shown: Face)
    requires 16 < |draws|
    ensures s.Rolled? ==> DieFrame(s, draws, shown).Rolled? && DieFrame(s, draws, shown).die.face == s.die.face
    ensures s.Rolling? ==> (DieFrame(s, draws, shown).Rolled? <==> s.timeout == 0)
    ensures s.Rolling? && s.timeout > 0 ==> DieFrame(s, draws, shown).timeout == s.timeout - 1
  {
  }

  /** What the dice are tallied into by `accept_rolls`: face counts and the two multipliers. */
  datatype Tally = Tally(counts: map<Face, nat>, shieldMultiplier: nat, shootMultiplier: nat)

  function CountOf(t: Tally, f: Face): nat
  {
    if f in t.counts then t.counts[f] else 0
  }

  function AddCount(t: Tally, f: Face, n: nat): Tally
  {
    t.(counts := t.counts[f := CountOf(t, f) + n])
  }

  /** The tallying of one face. */
  function TallyFace(t: Tally, face: Face): Tally
  {
    match face
    case DoubleShot => AddCount(t, Shoot, 2)
    case TripleShot => AddCount(t, Shoot, 3)
    case DoubleShield => AddCount(t, Shield, 2)
    case TripleShield => AddCount(t, Shield, 3)
    case DoubleShieldValue => t.(shieldMultiplier := t.shieldMultiplier * 2)
    case DoubleShotValue => t.(shootMultiplier := t.shootMultiplier * 2)
    case TripleShotValue => t.(shootMultiplier := t.shootMultiplier * 3)
    case _ => AddCount(t, face, 1)
  }

  const EMPTY_TALLY := Tally(map[], 1, 1)

  function TallyFaces(faces: seq<Face>): Tally
  {
    if |faces| == 0 then EMPTY_TALLY
    else TallyFace(TallyFaces(faces[..|faces| - 1]), faces[|faces| - 1])
  }

  /** The faces of the landed dice, in order (`faces_for_accepting`). */
  function LandedFaces(rolls: seq<DieState>): (faces: seq<Face>)
    ensures |faces| <= |rolls|
  {
    if |rolls| == 0 then []
    else
      var last := rolls[|rolls| - 1];
      LandedFaces(rolls[..|rolls| - 1]) + if last.Rolled? then [last.die.face] else []
  }

  /** Faces counted one for one. */
  predicate CountsItself(f: Face)
  {
    !(f.DoubleShot? || f.TripleShot? || f.DoubleShield? || f.TripleShield? ||
      f.DoubleShieldValue? || f.DoubleShotValue? || f.TripleShotValue? || f.Shoot? || f.Shield?)
  }

  function Power(b: nat, e: nat): nat
  {
    if e == 0 then 1 else b * Power(b, e - 1)
  }

  /** How one face adds to the shot count, the shield count and the multipliers. */
  function ShotWeight(f: Face): nat
  {
    if f == Shoot then 1 else if f == DoubleShot then 2 else if f == TripleShot then 3 else 0
  }

  function ShieldWeight(f: Face): nat
  {
    if f == Shield then 1 else if f == DoubleShield then 2 else if f == TripleShield then 3 else 0
  }

  function ShieldValue(f: Face): nat
  {
    if f == DoubleShieldValue then 2 else 1
  }

  function ShotValue(f: Face): nat
  {
    if f == DoubleShotValue then 2 else if f == TripleShotValue then 3 else 1
  }

  /** The effect of tallying one face. */
  lemma TallyFaceEffect(t: Tally, f: Face)
    ensures CountOf(TallyFace(t, f), Shoot) == CountOf(t, Shoot) + ShotWeight(f)
    ensures CountOf(TallyFace(t, f), Shield) == CountOf(t, Shield) + ShieldWeight(f)
    ensures TallyFace(t, f).shieldMultiplier == t.shieldMultiplier * ShieldValue(f)
    ensures TallyFace(t, f).shootMultiplier == t.shootMultiplier * ShotValue(f)
    ensures forall g | CountsItself(g) :: CountOf(TallyFace(t, f), g) == CountOf(t, g) + if f == g then 1 else 0
    ensures forall g | CountsItself(g) :: g in TallyFace(t, f).counts <==> g in t.counts || g == f
  {
  }

  /** Splitting off the last face of a non-empty hand. */
  lemma LastFace(faces: seq<Face>)
    requires |faces| > 0
    ensures TallyFaces(faces) == TallyFace(TallyFaces(faces[..|faces| - 1]), faces[|faces| - 1])
    ensures forall g :: multiset(faces)[g] == multiset(faces[..|faces| - 1])[g] + if faces[|faces| - 1] == g then 1 else 0
    ensures forall g :: g in faces <==> g in faces[..|faces| - 1] || g == faces[|faces| - 1]
  {
    assert faces == faces[..|faces| - 1] + [faces[|faces| - 1]];
  }

  /** Double and triple shots count two and three shots, and likewise for shields. */
  lemma {:induction false} TallyShotsAndShields(faces: seq<Face>)
    ensures CountOf(TallyFaces(faces), Shoot) == multiset(faces)[Shoot] + 2 * multiset(faces)[DoubleShot] + 3 * multiset(faces)[TripleShot]
    ensures CountOf(TallyFaces(faces), Shield) == multiset(faces)[Shield] + 2 * multiset(faces)[DoubleShield] + 3 * multiset(faces)[TripleShield]
  {
    if |faces| > 0 {
      LastFace(faces);
      TallyShotsAndShields(faces[..|faces| - 1]);
      TallyFaceEffect(TallyFaces(faces[..|faces| - 1]), faces[|faces| - 1]);
    }
  }

  /** Every other face counts itself, and has an entry only when it occurs. */
  lemma {:induction false} TallyOthers(faces: seq<Face>, f: Face)
    requires CountsItself(f)
    ensures CountOf(TallyFaces(faces), f) == multiset(faces)[f]
    ensures f in TallyFaces(faces).counts <==> f in faces
  {
    if |faces| > 0 {
      LastFace(faces);
      TallyOthers(faces[..|faces| - 1], f);
      TallyFaceEffect(TallyFaces(faces[..|faces| - 1]), faces[|faces| - 1]);
    }
  }

  /** The shield multiplier doubles per double-shield-value face. */
  lemma {:induction false} TallyShieldMultiplier(faces: seq<Face>)
    ensures TallyFaces(faces).shieldMultiplier == Power(2, multiset(faces)[DoubleShieldValue])
  {
    if |faces| > 0 {
      LastFace(faces);
      TallyShieldMultiplier(faces[..|faces| - 1]);
      TallyFaceEffect(TallyFaces(faces[..|faces| - 1]), faces[|faces| - 1]);
    }
  }

  /** The shoot multiplier doubles and triples per shot-value face. */
  lemma {:induction false} TallyShootMultiplier(faces: seq<Face>)
    ensures TallyFaces(faces).shootMultiplier == Power(2, multiset(faces)[DoubleShotValue]) * Power(3, multiset(faces)[TripleShotValue])
  {
    if |faces| > 0 {
      var init, last := faces[..|faces| - 1], faces[|faces| - 1];
      LastFace(faces);
      TallyShootMultiplier(init);
      TallyFaceEffect(TallyFaces(init), last);
      var d, e := multiset(init)[DoubleShotValue], multiset(init)[TripleShotValue];
      if last == DoubleShotValue {
        assert multiset(faces)[DoubleShotValue] == d + 1 && multiset(faces)[TripleShotValue] == e;
        ScaleFirst(Power(2, d), Power(3, e), 2);
      } else if last == TripleShotValue {
        assert multiset(faces)[DoubleShotValue] == d && multiset(faces)[TripleShotValue] == e + 1;
        ScaleSecond(Power(2, d), Power(3, e), 3);
      } else {
        assert multiset(faces)[DoubleShotValue] == d && multiset(faces)[TripleShotValue] == e;
      }
    }
  }

  lemma ScaleFirst(a: nat, b: nat, k: nat)
    ensures (a * b) * k == (k * a) * b
  {
  }

  lemma ScaleSecond(a: nat, b: nat, k: nat)
    ensures (a * b) * k == a * (k * b)
  {
  }

  function Triangular(n: nat): nat
  {
    n * (n + 1) / 2
  }

  /** An odd number of invert faces swaps shooting and shielding. */
  predicate Inverted(t: Tally)
  {
    CountOf(t, Invert) % 2 == 1
  }

  function ShieldAmount(t: Tally): nat
  {
    CountOf(t, Shield) * t.shieldMultiplier
  }

  /** `malfunction_shoot`, with the source's evaluation order. */
  function MalfunctionShoot(t: Tally): nat
  {
    var shots, malfunctions := CountOf(t, MalfunctionShot), CountOf(t, Malfunction);
    Triangular(shots) * (malfunctions * (malfunctions + 1)) / 2
  }

  function ShootPower(t: Tally): nat
  {
    (Triangular(CountOf(t, Shoot)) + MalfunctionShoot(t)) * t.shootMultiplier
  }

  /** The damage shot and the shield raised, after inverting. */
  function Fired(t: Tally): nat
  {
    if Inverted(t) then ShieldAmount(t) else ShootPower(t)
  }

  function Shielded(t: Tally): nat
  {
    if Inverted(t) then ShootPower(t) else ShieldAmount(t)
  }

  /** `Action`. */
  datatype Action =
    | PlayerActivateShield(amount: nat)
    | PlayerShoot(damage: nat, piercing: nat)
    | PlayerDisrupt(amount: nat)
    | PlayerHeal(amount: nat)
    | PlayerBurstShield(multiplier: nat)
    | PlayerSendBurstShield(damage: nat)
    | EnemyShoot(damage: nat)
    | EnemyShield(amount: nat)
    | EnemyHeal(amount: nat)

  function Min(a: nat, b: nat): nat
  {
    if a <= b then a else b
  }

  function Max(a: nat, b: nat): nat
  {
    if a >= b then a else b
  }

  /** The actions `accept_rolls` returns for a tally, in order. */
  function AcceptedActions(t: Tally): seq<Action>
  {
    var disrupt, heal := CountOf(t, Disrupt), CountOf(t, Heal);
    (if Fired(t) > 0 then [PlayerShoot(Fired(t), CountOf(t, Bypass))] else []) +
    (if Shielded(t) > 0 then [PlayerActivateShield(Min(Shielded(t), 5))] else []) +
    (if BurstShield in t.counts then [PlayerBurstShield(t.shootMultiplier)] else []) +
    (if Triangular(disrupt) > 0 then [PlayerDisrupt(Triangular(disrupt))] else []) +
    (if heal != 0 then [PlayerHeal(Triangular(heal))] else [])
  }

  lemma {:induction false} ProductOfConsecutiveEven(n: nat)
    ensures n * (n + 1) == 2 * Triangular(n)
  {
    if n > 0 {
      ProductOfConsecutiveEven(n - 1);
      assert n * (n + 1) == (n - 1) * n + 2 * n;
    }
  }

  /**
   * The accepted actions: a shot of the fired power with the bypass count
   * as piercing exactly when the power is positive, and a shield capped at 5.
   */
  lemma AcceptedShotAndShield(t: Tally)
    ensures PlayerShoot(Fired(t), CountOf(t, Bypass)) in AcceptedActions(t) <==> Fired(t) > 0
    ensures forall a | a in AcceptedActions(t) && a.PlayerShoot? :: a == PlayerShoot(Fired(t), CountOf(t, Bypass))
    ensures forall a | a in AcceptedActions(t) && a.PlayerActivateShield? :: 0 < a.amount <= 5 && a.amount == Min(Shielded(t), 5)
    ensures PlayerActivateShield(Min(Shielded(t), 5)) in AcceptedActions(t) <==> Shielded(t) > 0
  {
  }

  /** The burst shield, heal and disrupt actions; none is an enemy action. */
  lemma AcceptedOthers(t: Tally)
    ensures PlayerBurstShield(t.shootMultiplier) in AcceptedActions(t) <==> BurstShield in t.counts
    ensures CountOf(t, Heal) > 0 <==> PlayerHeal(Triangular(CountOf(t, Heal))) in AcceptedActions(t)
    ensures forall a | a in AcceptedActions(t) :: !(a.EnemyShoot? || a.EnemyShield? || a.EnemyHeal? || a.PlayerSendBurstShield?)
  {
  }

  /** The malfunction shot is the product of two triangular numbers. */
  lemma MalfunctionShootProduct(t: Tally)
    ensures MalfunctionShoot(t) == Triangular(CountOf(t, MalfunctionShot)) * Triangular(CountOf(t, Malfunction))
  {
    var m := CountOf(t, Malfunction);
    ProductOfConsecutiveEven(m);
    var k, ts := Triangular(m), Triangular(CountOf(t, MalfunctionShot));
    assert ts * (m * (m + 1)) == 2 * (ts * k);
  }

  /** Accepting one more invert face swaps the shot and the shield. */
  lemma InvertSwaps(faces: seq<Face>)
    ensures Fired(TallyFaces(faces + [Invert])) == Shielded(TallyFaces(faces))
    ensures Shielded(TallyFaces(faces + [Invert])) == Fired(TallyFaces(faces))
  {
    assert (faces + [Invert])[..|faces|] == faces;
  }

  /** A hand of `n` plain shots deals the `n`-th triangular number. */
  lemma PlainShots(faces: seq<Face>)
    requires forall i | 0 <= i < |faces| :: faces[i] == Shoot
    ensures Fired(TallyFaces(faces)) == Triangular(|faces|)
  {
    PlainShotsTally(faces);
  }

  lemma PlainShotsTally(faces: seq<Face>)
    requires forall i | 0 <= i < |faces| :: faces[i] == Shoot
    ensures var t := TallyFaces(faces);
      CountOf(t, Shoot) == |faces| && !Inverted(t) && MalfunctionShoot(t) == 0 && t.shootMultiplier == 1
  {
    assert Invert !in faces && MalfunctionShot !in faces && DoubleShotValue !in faces && TripleShotValue !in faces;
    assert DoubleShot !in faces && TripleShot !in faces;
    TallyShotsAndShields(faces);
    assert faces == seq(|faces|, _ => Shoot);
    ShootsCounted(|faces|);
    TallyOthers(faces, Invert);
    TallyOthers(faces, MalfunctionShot);
    TallyShootMultiplier(faces);
  }

  lemma {:induction false} ShootsCounted(n: nat)
    ensures multiset(seq(n, _ => Shoot))[Shoot] == n
  {
    if n > 0 {
      ShootsCounted(n - 1);
      assert seq(n, _ => Shoot) == seq(n - 1, _ => Shoot) + [Shoot];
    }
  }

  /** The dice after accepting, step by step as `accept_rolls` rewrites them. */
  function BlankMalfunction(s: DieState): DieState
  {
    if s.Rolled? && s.die.face == Malfunction then Rolled(s.die.(face := Blank)) else s
  }

  predicate IsDouble(f: Face)
  {
    f == DoubleShot || f == DoubleShield || f == DoubleShotValue
  }

  predicate IsTriple(f: Face)
  {
    f == TripleShot || f == TripleShield || f == TripleShotValue || f == BurstShield
  }

  const STUCK := RolledDie(Malfunction, MALFUNCTION_COOLDOWN_FRAMES)

  function MalfunctionDouble(s: DieState): DieState
  {
    if s.Rolled? && IsDouble(s.die.face) then Rolled(STUCK) else s
  }

  function MalfunctionLanded(s: DieState): DieState
  {
    if s.Rolled? then Rolled(STUCK) else s
  }

  /** `roll_die`: a landed die that may be rerolled starts rolling again. */
  function RollDieState(s: DieState, time: nat, isAfterAccept: bool, face: Face): DieState
  {
    if s.Rolled? && (if isAfterAccept then CanRerollAfterAccept(s.die) else CanReroll(s.die)) then
      Rolling(time, face, s.die.face)
    else s
  }

  predicate AnyTriple(rolls: seq<DieState>)
  {
    exists i | 0 <= i < |rolls| :: rolls[i].Rolled? && IsTriple(rolls[i].die.face)
  }

  /** The four rewrites of `accept_rolls`, one die at a time. */
  function Blanked(rolls: seq<DieState>, t: Tally): (r: seq<DieState>)
    ensures |r| == |rolls|
  {
    if MalfunctionShoot(t) != 0 then seq(|rolls|, i requires 0 <= i < |rolls| => BlankMalfunction(rolls[i])) else rolls
  }

  function Doubled(rolls: seq<DieState>): (r: seq<DieState>)
    ensures |r| == |rolls|
  {
    seq(|rolls|, i requires 0 <= i < |rolls| => MalfunctionDouble(rolls[i]))
  }

  function Stuck(rolls: seq<DieState>): (r: seq<DieState>)
    ensures |r| == |rolls|
  {
    if AnyTriple(rolls) then seq(|rolls|, i requires 0 <= i < |rolls| => MalfunctionLanded(rolls[i])) else rolls
  }

  function Rerolled(rolls: seq<DieState>, faces: seq<Face>): (r: seq<DieState>)
    requires |faces| == |rolls|
    ensures |r| == |rolls|
  {
    seq(|rolls|, i requires 0 <= i < |rolls| => RollDieState(rolls[i], ROLL_TIME_FRAMES_ALL, true, faces[i]))
  }

  /** What `accept_rolls` leaves in the dice, given the faces the rerolled dice start on. */
  function AfterAccept(rolls: seq<DieState>, t: Tally, faces: seq<Face>): seq<DieState>
    requires |faces| == |rolls|
  {
    Rerolled(Stuck(Doubled(Blanked(rolls, t))), faces)
  }

  /**
   * After accepting, every die is rolling again except the malfunctions;
   * a double face or a triple face anywhere leaves stuck malfunctions, and
   * a still-rolling die is left alone.
   */
  lemma AfterAcceptMeaning(rolls: seq<DieState>, t: Tally, faces: seq<Face>, i: nat)
    requires |faces| == |rolls| && i < |rolls|
    ensures var r := AfterAccept(rolls, t, faces);
      |r| == |rolls| &&
      (r[i].Rolled? ==> r[i].die.face == Malfunction) &&
      (rolls[i].Rolling? ==> r[i] == rolls[i]) &&
      (rolls[i].Rolled? && IsDouble(rolls[i].die.face) ==> r[i] == Rolled(STUCK)) &&
      (AnyTriple(rolls) && rolls[i].Rolled? ==> r[i] == Rolled(STUCK))
  {
    var blanked := Blanked(rolls, t);
    var doubled := Doubled(blanked);
    var stuck := Stuck(doubled);
    assert blanked[i].Rolled? == rolls[i].Rolled?;
    assert rolls[i].Rolled? && IsDouble(rolls[i].die.face) ==> blanked[i] == rolls[i];
    if AnyTriple(rolls) {
      var j :| 0 <= j < |rolls| && rolls[j].Rolled? && IsTriple(rolls[j].die.face);
      assert blanked[j] == rolls[j];
      assert doubled[j] == rolls[j];
      assert AnyTriple(doubled);
    }
  }

  /** Tallying the landed faces one die further. */
  lemma LandedFacesStep(rolls: seq<DieState>, i: nat)
    requires i < |rolls|
    ensures TallyFaces(LandedFaces(rolls[..i + 1])) ==
      if rolls[i].Rolled? then TallyFace(TallyFaces(LandedFaces(rolls[..i])), rolls[i].die.face)
      else TallyFaces(LandedFaces(rolls[..i]))
  {
    assert rolls[..i + 1][..i] == rolls[..i];
    var before := LandedFaces(rolls[..i]);
    if rolls[i].Rolled? {
      assert LandedFaces(rolls[..i + 1]) == before + [rolls[i].die.face];
      assert (before + [rolls[i].die.face])[..|before|] == before;
    } else {
      assert LandedFaces(rolls[..i + 1]) == before;
    }
  }

  /** `RolledDice`: the state of each of the player's dice. */
  class RolledDice {
    var rolls: seq<DieState>

    constructor (shown: seq<Face>)
      ensures rolls == seq(|shown|, i requires 0 <= i < |shown| => Rolling(ROLL_TIME_FRAMES_ALL, shown[i], Blank))
    {
      rolls := seq(|shown|, i requires 0 <= i < |shown| => Rolling(ROLL_TIME_FRAMES_ALL, shown[i], Blank));
    }

    /**
     * `update`: one frame of every die. `draws[i]` is what die `i` would
     * roll next, `shown[i]` the face a rolling die flips to.
     */
    method Update(draws: seq<seq<Face>>, shown: seq<Face>)
      requires |draws| == |rolls| == |shown|
      requires forall i | 0 <= i < |draws| :: 16 < |draws[i]|
      modifies this
      ensures |rolls| == |old(rolls)|
      ensures forall i | 0 <= i < |rolls| :: rolls[i] == DieFrame(old(rolls)[i], draws[i], shown[i])
    {
      var i := 0;
      while i < |rolls|
        invariant 0 <= i <= |rolls| == |draws|
        decreases |draws| - i
        invariant forall j | 0 <= j < i :: rolls[j] == DieFrame(old(rolls)[j], draws[j], shown[j])
        invariant forall j | i <= j < |rolls| :: rolls[j] == old(rolls)[j]
      {
        var next := rolls[i];
        match rolls[i] {
          case Rolling(timeout, face, previous) =>
            if timeout == 0 {
              var landed, _ := ChooseLanding(previous, draws[i]);
              next := Rolled(NewDie(landed));
            } else {
              next := Rolling(timeout - 1, if timeout % 2 == 0 then shown[i] else face, previous);
            }
          case Rolled(d) =>
            next := Rolled(UpdateDie(d));
        }
        rolls := rolls[i := next];
        i := i + 1;
      }
    }

    /** `roll_die`. */
    method RollDie(index: nat, time: nat, isAfterAccept: bool, face: Face)
      requires index < |rolls|
      modifies this
      ensures rolls == old(rolls)[index := RollDieState(old(rolls)[index], time, isAfterAccept, face)]
    {
      if rolls[index].Rolled? {
        var d := rolls[index].die;
        var canReroll := if isAfterAccept then CanRerollAfterAccept(d) else CanReroll(d);
        if canReroll {
          rolls := rolls[index := Rolling(time, face, d.face)];
        }
      }
    }

    /** `faces_for_accepting`, tallied. */
    method TallyLanded() returns (t: Tally)
      ensures t == TallyFaces(LandedFaces(rolls))
    {
      t := EMPTY_TALLY;
      var i := 0;
      while i < |rolls|
        invariant 0 <= i <= |rolls|
        invariant t == TallyFaces(LandedFaces(rolls[..i]))
      {
        LandedFacesStep(rolls, i);
        if rolls[i].Rolled? {
          t := TallyFace(t, rolls[i].die.face);
        }
        i := i + 1;
      }
      assert rolls[..i] == rolls;
    }

    /** A malfunction shot spends the landed malfunctions: they become blanks. */
    method BlankMalfunctions()
      modifies this
      ensures rolls == seq(|old(rolls)|, i requires 0 <= i < |old(rolls)| => BlankMalfunction(old(rolls)[i]))
    {
      var i := 0;
      while i < |rolls|
        invariant 0 <= i <= |rolls| == |old(rolls)|
        invariant forall j | 0 <= j < i :: rolls[j] == BlankMalfunction(old(rolls)[j])
        invariant forall j | i <= j < |rolls| :: rolls[j] == old(rolls)[j]
      {
        rolls := rolls[i := BlankMalfunction(rolls[i])];
        i := i + 1;
      }
    }

    /** Landed double faces break down; the answer is whether a triple face was seen. */
    method MalfunctionDoubles() returns (malfunctionAll: bool)
      modifies this
      ensures rolls == Doubled(old(rolls))
      ensures malfunctionAll == AnyTriple(rolls)
    {
      var i := 0;
      malfunctionAll := false;
      while i < |rolls|
        invariant 0 <= i <= |rolls| == |old(rolls)|
        invariant forall j | 0 <= j < i :: rolls[j] == MalfunctionDouble(old(rolls)[j])
        invariant forall j | i <= j < |rolls| :: rolls[j] == old(rolls)[j]
        invariant malfunctionAll <==> exists j | 0 <= j < i :: rolls[j].Rolled? && IsTriple(rolls[j].die.face)
      {
        rolls := rolls[i := MalfunctionDouble(rolls[i])];
        if rolls[i].Rolled? && IsTriple(rolls[i].die.face) {
          malfunctionAll := true;
        }
        i := i + 1;
      }
    }

    /** Every landed die breaks down. */
    method MalfunctionAllLanded()
      modifies this
      ensures rolls == seq(|old(rolls)|, i requires 0 <= i < |old(rolls)| => MalfunctionLanded(old(rolls)[i]))
    {
      var i := 0;
      while i < |rolls|
        invariant 0 <= i <= |rolls| == |old(rolls)|
        invariant forall j | 0 <= j < i :: rolls[j] == MalfunctionLanded(old(rolls)[j])
        invariant forall j | i <= j < |rolls| :: rolls[j] == old(rolls)[j]
      {
        rolls := rolls[i := MalfunctionLanded(rolls[i])];
        i := i + 1;
      }
    }

    /** `roll_die` after accepting, for every die. */
    method RerollAll(faces: seq<Face>)
      requires |faces| == |rolls|
      modifies this
      ensures rolls == Rerolled(old(rolls), faces)
    {
      var i := 0;
      while i < |rolls|
        invariant 0 <= i <= |rolls| == |old(rolls)| == |faces|
        invariant forall j | 0 <= j < i :: rolls[j] == RollDieState(old(rolls)[j], ROLL_TIME_FRAMES_ALL, true, faces[j])
        invariant forall j | i <= j < |rolls| :: rolls[j] == old(rolls)[j]
      {
        RollDie(i, ROLL_TIME_FRAMES_ALL, true, faces[i]);
        i := i + 1;
      }
    }

    /**
     * `accept_rolls`: tally the landed faces into actions, turn spent
     * dice into malfunctions and reroll the rest; `faces[i]` is what die
     * `i` starts rolling on.
     */
    method AcceptRolls(faces: seq<Face>) returns (actions: seq<Action>)
      requires |faces| == |rolls|
      modifies this
      ensures actions == AcceptedActions(TallyFaces(LandedFaces(old(rolls))))
      ensures rolls == AfterAccept(old(rolls), TallyFaces(LandedFaces(old(rolls))), faces)
    {
      var t := TallyLanded();
      actions := AcceptedActions(t);
      if MalfunctionShoot(t) != 0 {
        BlankMalfunctions();
      }
      assert rolls == Blanked(old(rolls), t);
      var malfunctionAll := MalfunctionDoubles();
      if malfunctionAll {
        MalfunctionAllLanded();
      }
      assert rolls == Stuck(Doubled(Blanked(old(rolls), t)));
      RerollAll(faces);
    }
  }

  /** `EnemyAttack`. */
  datatype EnemyAttack = EnemyAttackShoot(n: nat) | EnemyAttackShield(n: nat) | EnemyAttackHeal(n: nat)

  /** `apply_effect`. */
  function ApplyEffect(a: EnemyAttack): (r: Action)
    ensures r.EnemyShoot? || r.EnemyShield? || r.EnemyHeal?
  {
    match a
    case EnemyAttackShoot(d) => EnemyShoot(d)
    case EnemyAttackShield(s) => EnemyShield(s)
    case EnemyAttackHeal(h) => EnemyHeal(h)
  }

  /** `EnemyAttackState`. */
  datatype EnemyAttackState = EnemyAttackState(attack: EnemyAttack, cooldown: nat, maxCooldown: nat)

  /** `EnemyAttackState::update`: fire once the cooldown is zero, else count down. */
  function UpdateAttack(s: EnemyAttackState): (r: (EnemyAttackState, Option<Action>))
    ensures s.cooldown == 0 <==> r.1.Some?
    ensures r.1.Some? ==> r.1.value == ApplyEffect(s.attack) && r.0 == s
    ensures r.1.None? ==> r.0 == s.(cooldown := s.cooldown - 1)
  {
    if s.cooldown == 0 then (s, Some(ApplyEffect(s.attack)))
    else (s.(cooldown := s.cooldown - 1), None)
  }

  /** `k` frames of an attack that has not fired. */
  function CountDown(s: EnemyAttackState, k: nat): EnemyAttackState
  {
    if k == 0 then s else UpdateAttack(CountDown(s, k - 1)).0
  }

  /** An attack with cooldown `c` stays silent for `c` frames and fires on the next. */
  lemma {:induction false} AttackFiresAfterCooldown(s: EnemyAttackState, k: nat)
    requires k <= s.cooldown
    ensures CountDown(s, k) == s.(cooldown := s.cooldown - k)
    ensures k < s.cooldown ==> UpdateAttack(CountDown(s, k)).1.None?
    ensures k == s.cooldown ==> UpdateAttack(CountDown(s, k)).1 == Some(ApplyEffect(s.attack))
  {
    if k > 0 {
      AttackFiresAfterCooldown(s, k - 1);
    }
  }

  /** `generate_attack`'s result, chosen outside the model. */
  datatype GeneratedAttack = GeneratedAttack(attack: EnemyAttack, cooldown: nat)

  /** One attack slot in `CurrentBattleState::update`. */
  function SlotUpdate(slot: Option<EnemyAttackState>, generated: Option<GeneratedAttack>): (Option<EnemyAttackState>, Option<Action>)
  {
    match slot
    case Some(s) =>
      var (next, fired) := UpdateAttack(s);
      if fired.Some? then (None, fired) else (Some(next), None)
    case None =>
      if generated.Some? then
        (Some(EnemyAttackState(generated.value.attack, generated.value.cooldown, generated.value.cooldown)), None)
      else (None, None)
  }

  /** The actions fired by the slots, in order. */
  function FiredActions(slots: seq<Option<EnemyAttackState>>, generated: seq<Option<GeneratedAttack>>): seq<Action>
    requires |slots| == |generated|
  {
    if |slots| == 0 then []
    else
      var n := |slots| - 1;
      var fired := SlotUpdate(slots[n], generated[n]).1;
      FiredActions(slots[..n], generated[..n]) + if fired.Some? then [fired.value] else []
  }

  /** One more slot adds what it fires to the end of the actions. */
  lemma FiredActionsStep(slots: seq<Option<EnemyAttackState>>, generated: seq<Option<GeneratedAttack>>, i: nat)
    requires |slots| == |generated| && i < |slots|
    ensures var fired := SlotUpdate(slots[i], generated[i]).1;
      FiredActions(slots[..i + 1], generated[..i + 1]) ==
      FiredActions(slots[..i], generated[..i]) + if fired.Some? then [fired.value] else []
  {
    assert slots[..i + 1][..i] == slots[..i] && generated[..i + 1][..i] == generated[..i];
  }

  /** A slot fires only an attack whose cooldown ran out, and then empties; an empty slot never fires. */
  lemma SlotUpdateMeaning(slot: Option<EnemyAttackState>, generated: Option<GeneratedAttack>)
    ensures var (next, fired) := SlotUpdate(slot, generated);
      (fired.Some? <==> slot.Some? && slot.value.cooldown == 0) &&
      (fired.Some? ==> next.None? && fired.value == ApplyEffect(slot.value.attack)) &&
      (slot.None? ==> (next.Some? <==> generated.Some?)) &&
      (slot.None? && generated.Some? ==> next.value.cooldown == next.value.maxCooldown == generated.value.cooldown)
  {
  }

  /** `CurrentBattleState`: both ships and the enemy's two attack slots. */
  class CurrentBattleState {
    var playerShield: nat
    var playerHealth: nat
    var playerMaxHealth: nat
    var enemyShield: nat
    var enemyHealth: nat
    var enemyMaxHealth: nat
    var attacks: array<Option<EnemyAttackState>>

    /** No ship is above its maximum health, and there are two attack slots. */
    predicate Valid()
      reads this
    {
      attacks.Length == 2 && playerHealth <= playerMaxHealth && enemyHealth <= enemyMaxHealth
    }

    /** The state `battle_screen` starts from: 20 health, no shields, no attacks. */
    constructor (enemyHealthAtStart: nat)
      ensures Valid() && fresh(attacks)
      ensures playerShield == 0 && playerHealth == playerMaxHealth == 20
      ensures enemyShield == 0 && enemyHealth == enemyMaxHealth == enemyHealthAtStart
      ensures attacks[..] == [None, None]
    {
      playerShield, playerHealth, playerMaxHealth := 0, 20, 20;
      enemyShield, enemyHealth, enemyMaxHealth := 0, enemyHealthAtStart, enemyHealthAtStart;
      attacks := new Option<EnemyAttackState>[2](_ => None);
    }

    /** `update`: each slot counts down, fires or takes a newly generated attack. */
    method Update(generated: seq<Option<GeneratedAttack>>) returns (actions: seq<Action>)
      requires Valid() && |generated| == 2
      modifies attacks
      ensures Valid()
      ensures forall i | 0 <= i < 2 :: attacks[i] == SlotUpdate(old(attacks[i]), generated[i]).0
      ensures actions == FiredActions(old(attacks[..]), generated)
    {
      ghost var start := attacks[..];
      actions := [];
      for i := 0 to 2
        invariant forall j | 0 <= j < i :: attacks[j] == SlotUpdate(start[j], generated[j]).0
        invariant forall j | i <= j < 2 :: attacks[j] == start[j]
        invariant actions == FiredActions(start[..i], generated[..i])
      {
        FiredActionsStep(start, generated, i);
        var (next, fired) := SlotUpdate(attacks[i], generated[i]);
        attacks[i] := next;
        if fired.Some? {
          actions := actions + [fired.value];
        }
      }
      assert start[..2] == start && generated[..2] == generated;
    }

    /** `apply_action`; the sound effects are left out. */
    method ApplyAction(action: Action) returns (follow: Option<Action>)
      requires Valid()
      modifies this, attacks
      ensures Valid() && attacks == old(attacks)
      ensures playerMaxHealth == old(playerMaxHealth) && enemyMaxHealth == old(enemyMaxHealth)
      ensures follow == if action.PlayerBurstShield? then
          Some(PlayerSendBurstShield(old(playerShield) * (old(playerShield) + 1) * action.multiplier / 2))
        else None
      ensures !action.PlayerDisrupt? ==> attacks[..] == old(attacks[..])
      ensures match action
        case PlayerActivateShield(amount) =>
          playerShield == Max(old(playerShield), amount) &&
          playerHealth == old(playerHealth) && enemyShield == old(enemyShield) && enemyHealth == old(enemyHealth)
        case PlayerShoot(damage, piercing) =>
          playerShield == old(playerShield) && playerHealth == old(playerHealth) &&
          if old(enemyShield) <= piercing then
            enemyHealth == (if old(enemyHealth) <= damage then 0 else old(enemyHealth) - damage) && enemyShield == old(enemyShield)
          else if old(enemyShield) <= damage then enemyShield == 0 && enemyHealth == old(enemyHealth)
          else enemyShield == old(enemyShield) && enemyHealth == old(enemyHealth)
        case PlayerDisrupt(amount) =>
          playerShield == old(playerShield) && playerHealth == old(playerHealth) &&
          enemyShield == old(enemyShield) && enemyHealth == old(enemyHealth) &&
          forall i | 0 <= i < 2 :: attacks[i] == Disrupted(old(attacks[i]), amount)
        case PlayerHeal(amount) =>
          playerHealth == Min(old(playerMaxHealth), old(playerHealth) + amount) &&
          playerShield == old(playerShield) && enemyShield == old(enemyShield) && enemyHealth == old(enemyHealth)
        case EnemyShoot(damage) =>
          enemyShield == old(enemyShield) && enemyHealth == old(enemyHealth) &&
          if old(playerShield) == 0 then
            playerHealth == (if old(playerHealth) <= damage then 0 else old(playerHealth) - damage) && playerShield == 0
          else if old(playerShield) <= damage then playerShield == 0 && playerHealth == old(playerHealth)
          else playerShield == old(playerShield) && playerHealth == old(playerHealth)
        case EnemyShield(amount) =>
          enemyShield == Max(old(enemyShield), amount) &&
          playerShield == old(playerShield) && playerHealth == old(playerHealth) && enemyHealth == old(enemyHealth)
        case EnemyHeal(amount) =>
          enemyHealth == Min(old(enemyMaxHealth), old(enemyHealth) + amount) &&
          playerShield == old(playerShield) && playerHealth == old(playerHealth) && enemyShield == old(enemyShield)
        case PlayerBurstShield(_) =>
          playerShield == 0 && playerHealth == old(playerHealth) && enemyShield == old(enemyShield) && enemyHealth == old(enemyHealth)
        case PlayerSendBurstShield(damage) =>
          enemyShield == 0 && enemyHealth == (if old(enemyHealth) <= damage then 0 else old(enemyHealth) - damage) &&
          playerShield == old(playerShield) && playerHealth == old(playerHealth)
    {
      follow := None;
      match action
      case PlayerActivateShield(amount) =>
        playerShield := Max(playerShield, amount);
      case PlayerShoot(damage, piercing) =>
        if enemyShield <= piercing {
          enemyHealth := if enemyHealth <= damage then 0 else enemyHealth - damage;
        } else if enemyShield <= damage {
          enemyShield := 0;
        }
      case PlayerDisrupt(amount) =>
        for i := 0 to 2
          modifies attacks
          invariant forall j | 0 <= j < i :: attacks[j] == Disrupted(old(attacks[j]), amount)
          invariant forall j | i <= j < 2 :: attacks[j] == old(attacks[j])
        {
          attacks[i] := Disrupted(attacks[i], amount);
        }
      case PlayerHeal(amount) =>
        playerHealth := Min(playerMaxHealth, playerHealth + amount);
      case EnemyShoot(damage) =>
        if playerShield == 0 {
          playerHealth := if playerHealth <= damage then 0 else playerHealth - damage;
        } else if playerShield <= damage {
          playerShield := 0;
        }
      case EnemyShield(amount) =>
        enemyShield := Max(enemyShield, amount);
      case EnemyHeal(amount) =>
        enemyHealth := Min(enemyMaxHealth, enemyHealth + amount);
      case PlayerBurstShield(multiplier) =>
        var damage := playerShield * (playerShield + 1) * multiplier / 2;
        playerShield := 0;
        follow := Some(PlayerSendBurstShield(damage));
      case PlayerSendBurstShield(damage) =>
        enemyShield := 0;
        enemyHealth := if enemyHealth <= damage then 0 else enemyHealth - damage;
    }
  }

  /** The disrupt step on one attack slot: 240 extra frames per point. */
  function Disrupted(slot: Option<EnemyAttackState>, amount: nat): (r: Option<EnemyAttackState>)
    ensures r.Some? == slot.Some?
    ensures slot.Some? ==>
      r.value.attack == slot.value.attack && r.value.cooldown == slot.value.cooldown + amount * 240 &&
      r.value.maxCooldown >= r.value.cooldown && r.value.maxCooldown >= slot.value.maxCooldown
  {
    match slot
    case Some(s) =>
      var c := s.cooldown + amount * 240;
      Some(EnemyAttackState(s.attack, c, Max(c, s.maxCooldown)))
    case None => None
  }
}
