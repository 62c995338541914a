/**
 * The software mixer's bookkeeping (agb/src/sound/mixer/sw_mixer.rs): the
 * three-buffer index state shared by the mixing loop and the buffer-swap
 * interrupt, and the eight channel slots whose ids carry a per-slot
 * generation so that an id outlives the sound it named only as a stale id.
 */
module SoundMixer {
  import opened Wrappers

  /** `SoundPriority`. */
  datatype Priority = High | Low

  /**
   * The part of a `SoundChannel` the slot logic looks at: which sound it
   * plays, its priority and whether it has finished (`is_done`).
   */
  datatype SoundChannel = SoundChannel(sound: nat, priority: Priority, isDone: bool)

  /** `SoundChannel::stop`. */
  function Stop(c: SoundChannel): (s: SoundChannel)
    ensures s.isDone && s.sound == c.sound && s.priority == c.priority
  {
    c.(isDone := true)
  }

  /** `mod3_estimate`: a remainder by 3 read off the two low bits (`x & 0b11`). */
  function Mod3Estimate(x: nat): (r: nat)
    ensures r < 3
  {
    match x % 4
    case 0 => 0
    case 1 => 1
    case 2 => 2
    case 3 => 0
  }

  /** On the only inputs it ever sees, `x <= 3`, the estimate is the remainder. */
  lemma Mod3EstimateExact(x: nat)
    requires x <= 3
    ensures Mod3Estimate(x) == x % 3
  {
  }

  /** Beyond 3 it is not: 4 gives 0. */
  lemma Mod3EstimateOnlyAnEstimate()
    ensures Mod3Estimate(4) == 0 && 4 % 3 == 1
  {
  }

  /**
   * `MixerBufferState`: `active` is the buffer last mixed into, `playing` the
   * one being sent to the sound hardware. `MixerBuffer::new` starts both at 0.
   */
  class MixerBufferState {
    var active: nat
    var playing: nat

    ghost predicate Valid()
      reads this
    {
      active < 3 && playing < 3
    }

    constructor ()
      ensures active == 0 && playing == 0 && Valid()
    {
      active := 0;
      playing := 0;
    }

    /** `should_calculate`: the buffer after `active` is not the one playing. */
    predicate ShouldCalculate()
      reads this
    {
      Mod3Estimate(active + 1) != Mod3Estimate(playing)
    }

    /** `playing_advanced`: the interrupt moves on to the next buffer (`swap`). */
    method PlayingAdvanced() returns (buffer: nat)
      requires Valid()
      modifies this
      ensures Valid()
      ensures playing == (old(playing) + 1) % 3 && active == old(active)
      ensures buffer == playing
    {
      Mod3EstimateExact(playing + 1);
      playing := Mod3Estimate(playing + 1);
      buffer := playing;
    }

    /** `active_advanced`: the mixer moves on to the next buffer to write. */
    method ActiveAdvanced() returns (buffer: nat)
      requires Valid()
      modifies this
      ensures Valid()
      ensures active == (old(active) + 1) % 3 && playing == old(playing)
      ensures buffer == active
    {
      Mod3EstimateExact(active + 1);
      active := Mod3Estimate(active + 1);
      buffer := active;
    }

    /**
     * One `Mixer::frame`: when `should_calculate` holds, the channels are
     * mixed and `write_channels` takes the next buffer; otherwise nothing
     * happens. The buffer written is never the one the hardware is playing.
     */
    method Frame() returns (written: Option<nat>)
      requires Valid()
      modifies this
      ensures Valid() && playing == old(playing)
      ensures written.Some? <==> old(ShouldCalculate())
      ensures written.Some? ==> written.value == active == (old(active) + 1) % 3
      ensures written.None? ==> active == old(active)
      ensures written.Some? ==> written.value != playing
    {
      Mod3EstimateExact(active + 1);
      Mod3EstimateExact(playing);
      if !ShouldCalculate() {
        return None;
      }
      var b := ActiveAdvanced();
      written := Some(b);
    }
  }

  /** `should_calculate` on valid indices is the comparison with true remainders. */
  lemma ShouldCalculateMeaning(s: MixerBufferState)
    requires s.Valid()
    ensures s.ShouldCalculate() <==> (s.active + 1) % 3 != s.playing
  {
    Mod3EstimateExact(s.active + 1);
    Mod3EstimateExact(s.playing);
  }

  /** The number of channel slots. */
  const SLOTS: nat := 8

  /** `ChannelId(slot, generation)`. */
  datatype ChannelId = ChannelId(slot: nat, generation: int)

  /** A slot `play_sound` may take at once: empty, or holding a finished sound. */
  predicate Free(c: Option<SoundChannel>)
  {
    c.None? || c.value.isDone
  }

  /** A slot a high-priority sound may take over: holding a low-priority sound. */
  predicate Replaceable(c: Option<SoundChannel>)
  {
    c.Some? && c.value.priority == Low
  }

  /** The first free slot. */
  function FirstFree(cs: seq<Option<SoundChannel>>): (r: Option<nat>)
    ensures r.Some? ==> r.value < |cs| && Free(cs[r.value])
    ensures r.Some? ==> forall j :: 0 <= j < r.value ==> !Free(cs[j])
    ensures r.None? ==> forall j :: 0 <= j < |cs| ==> !Free(cs[j])
  {
    if cs == [] then None
    else if Free(cs[0]) then Some(0)
    else match FirstFree(cs[1..])
      case None => None
      case Some(k) => Some(k + 1)
  }

  /** The first slot holding a low-priority sound. */
  function FirstReplaceable(cs: seq<Option<SoundChannel>>): (r: Option<nat>)
    ensures r.Some? ==> r.value < |cs| && Replaceable(cs[r.value])
    ensures r.Some? ==> forall j :: 0 <= j < r.value ==> !Replaceable(cs[j])
    ensures r.None? ==> forall j :: 0 <= j < |cs| ==> !Replaceable(cs[j])
  {
    if cs == [] then None
    else if Replaceable(cs[0]) then Some(0)
    else match FirstReplaceable(cs[1..])
      case None => None
      case Some(k) => Some(k + 1)
  }

  /**
   * The slot `play_sound` gives a sound of priority `p`: the first free one;
   * when there is none, nothing for a low-priority sound and the first
   * low-priority slot for a high-priority one.
   */
  function ChosenSlot(cs: seq<Option<SoundChannel>>, p: Priority): (r: Option<nat>)
    ensures r.Some? ==> r.value < |cs|
  {
    match FirstFree(cs)
    case Some(i) => Some(i)
    case None => if p == Low then None else FirstReplaceable(cs)
  }

  /** "Cannot play more than 8 sounds at once": every slot busy with a high-priority sound. */
  predicate PlayPanics(cs: seq<Option<SoundChannel>>, p: Priority)
  {
    FirstFree(cs).None? && p == High && FirstReplaceable(cs).None?
  }

  /** Where the chosen slot comes from, case by case. */
  lemma ChosenSlotCases(cs: seq<Option<SoundChannel>>, p: Priority)
    requires !PlayPanics(cs, p)
    ensures (exists i :: 0 <= i < |cs| && Free(cs[i])) ==> ChosenSlot(cs, p) == FirstFree(cs)
    ensures (forall i :: 0 <= i < |cs| ==> !Free(cs[i])) && p == Low ==> ChosenSlot(cs, p).None?
    ensures ChosenSlot(cs, p).Some? ==> Free(cs[ChosenSlot(cs, p).value]) || (p == High && Replaceable(cs[ChosenSlot(cs, p).value]))
    ensures p == High ==> ChosenSlot(cs, p).Some?
  {
    if exists i :: 0 <= i < |cs| && Free(cs[i]) {
      assert FirstFree(cs).Some?;
    }
  }

  /** A high-priority sound never displaces another high-priority sound that is still playing. */
  lemma ChosenSlotSparesHigh(cs: seq<Option<SoundChannel>>, p: Priority)
    requires ChosenSlot(cs, p).Some?
    ensures var c := cs[ChosenSlot(cs, p).value]; c.Some? && !c.value.isDone ==> c.value.priority == Low
  {
  }

  /**
   * `Mixer`: the eight channel slots and, per slot, the generation of the
   * sound last placed there (`indices`, starting at 0).
   */
  class Mixer {
    var channels: array<Option<SoundChannel>>
    var indices: array<int>

    ghost predicate Valid()
      reads this
    {
      channels.Length == SLOTS && indices.Length == SLOTS
    }

    /** `Mixer::new`: no sound in any slot, every generation 0. */
    constructor ()
      ensures Valid() && fresh(channels) && fresh(indices)
      ensures channels[..] == seq(SLOTS, _ => None) && indices[..] == seq(SLOTS, _ => 0)
    {
      channels := new Option<SoundChannel>[SLOTS](_ => None);
      indices := new int[SLOTS](_ => 0);
    }

    /**
     * `channel`: the sound an id names, if it is still that id's sound (the
     * generation matches) and has not finished.
     */
    function Channel(id: ChannelId): (r: Option<SoundChannel>)
      requires Valid() && id.slot < SLOTS
      reads this, channels, indices
      ensures r.Some? ==> channels[id.slot] == r && !r.value.isDone
      ensures r.None? <==> channels[id.slot].None? || indices[id.slot] != id.generation || channels[id.slot].value.isDone
    {
      match channels[id.slot]
      case Some(c) => if indices[id.slot] == id.generation && !c.isDone then Some(c) else None
      case None => None
    }

    /**
     * `play_sound`: the sound goes into `ChosenSlot`, that slot's generation
     * goes up by one and the id names the slot and its new generation.
     * With no slot chosen nothing changes and there is no id.
     */
    method PlaySound(newChannel: SoundChannel) returns (id: Option<ChannelId>)
      requires Valid() && !PlayPanics(channels[..], newChannel.priority)
      modifies channels, indices
      ensures Valid()
      ensures var s := ChosenSlot(old(channels[..]), newChannel.priority);
        if s.None? then
          id.None? && channels[..] == old(channels[..]) && indices[..] == old(indices[..])
        else
          s.value < SLOTS &&
          channels[..] == old(channels[..])[s.value := Some(newChannel)] &&
          indices[..] == old(indices[..])[s.value := old(indices[s.value]) + 1] &&
          id == Some(ChannelId(s.value, indices[s.value]))
    {
      var i := 0;
      while i < SLOTS
        invariant 0 <= i <= SLOTS
        invariant forall j :: 0 <= j < i ==> !Free(channels[j])
      {
        if Free(channels[i]) {
          assert FirstFree(channels[..]) == Some(i) by {
            assert Free(channels[..][i]);
          }
          channels[i] := Some(newChannel);
          indices[i] := indices[i] + 1;
          return Some(ChannelId(i, indices[i]));
        }
        i := i + 1;
      }
      assert FirstFree(channels[..]).None? by {
        assert forall j :: 0 <= j < SLOTS ==> !Free(channels[..][j]);
      }
      if newChannel.priority == Low {
        return None;
      }
      i := 0;
      while i < SLOTS
        invariant 0 <= i <= SLOTS
        invariant forall j :: 0 <= j < i ==> !Replaceable(channels[j])
      {
        if channels[i].value.priority != High {
          assert FirstReplaceable(channels[..]) == Some(i) by {
            assert Replaceable(channels[..][i]);
          }
          channels[i] := Some(newChannel);
          indices[i] := indices[i] + 1;
          return Some(ChannelId(i, indices[i]));
        }
        i := i + 1;
      }
      assert false;
    }
  }

  /**
   * The id `play_sound` hands out finds its sound, unless the sound was
   * already finished; any id issued earlier for that slot carries a smaller
   * generation and finds nothing.
   */
  method PlayThenLookup(m: Mixer, c: SoundChannel, earlier: int) returns (found: Option<SoundChannel>, stale: Option<SoundChannel>)
    requires m.Valid() && !PlayPanics(m.channels[..], c.priority)
    modifies m.channels, m.indices
    ensures var s := ChosenSlot(old(m.channels[..]), c.priority);
      s.Some? && earlier <= old(m.indices[s.value]) ==>
        found == (if c.isDone then None else Some(c)) && stale.None?
  {
    var id := m.PlaySound(c);
    found, stale := None, None;
    if id.Some? {
      found := m.Channel(id.value);
      stale := m.Channel(ChannelId(id.value.slot, earlier));
    }
  }
}
