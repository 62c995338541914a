/*
 * The image converter's 16-colour palettes: a palette collects at most 16
 * distinct colours, and the optimiser covers a set of such palettes with
 * as few full palettes as it can find greedily, assigning each input
 * palette to an output palette that holds all its colours.
 */
module Palette16 {
  import opened Bits
  import opened Wrappers

  const MAX_COLOURS: nat := 256
  const MAX_COLOURS_PER_PALETTE: nat := 16

  /** `Colour`: compared only for equality here. */
  datatype Colour = Colour(r: u8, g: u8, b: u8, a: u8)

  function Elements(s: seq<Colour>): set<Colour>
  {
    set c | c in s
  }

  predicate Distinct(s: seq<Colour>)
  {
    forall i, j | 0 <= i < j < |s| :: s[i] != s[j]
  }

  /** A list of distinct colours has as many elements as entries. */
  lemma {:induction false} DistinctCard(s: seq<Colour>)
    requires Distinct(s)
    ensures |Elements(s)| == |s|
  {
    if |s| > 0 {
      var init := s[..|s| - 1];
      assert Distinct(init);
      DistinctCard(init);
      assert Elements(s) == Elements(init) + {s[|s| - 1]};
      assert s[|s| - 1] !in Elements(init);
    }
  }

  /** `iter().position(|c| c == colour)`: the first place of a colour. */
  function IndexOf(s: seq<Colour>, c: Colour): (r: Option<nat>)
    ensures r.Some? <==> c in s
    ensures r.Some? ==> r.value < |s| && s[r.value] == c && c !in s[..r.value]
  {
    if |s| == 0 then None
    else if s[0] == c then Some(0)
    else
      var rest := IndexOf(s[1..], c);
      assert s[1..][..if rest.Some? then rest.value else 0] == s[1..if rest.Some? then rest.value + 1 else 1];
      if rest.Some? then Some(rest.value + 1) else None
  }

  /** In a list of distinct colours, the place of the colour at `k` is `k`. */
  lemma IndexOfDistinct(s: seq<Colour>, k: nat)
    requires Distinct(s) && k < |s|
    ensures IndexOf(s, s[k]) == Some(k)
  {
    var r := IndexOf(s, s[k]);
    assert r.Some? && r.value == k;
  }

  /** `is_satisfied_by`: every colour of `a` is in `b`. */
  function IsSatisfiedBy(a: seq<Colour>, b: seq<Colour>): (r: bool)
    ensures r <==> forall c :: c in a ==> c in b
  {
    assert forall c :: c in Elements(a) <==> c in a;
    Elements(a) <= Elements(b)
  }

  /** Satisfaction is a preorder: a palette satisfies itself, and through a chain. */
  lemma SatisfiedPreorder(a: seq<Colour>, b: seq<Colour>, c: seq<Colour>)
    ensures IsSatisfiedBy(a, a)
    ensures IsSatisfiedBy(a, b) && IsSatisfiedBy(b, c) ==> IsSatisfiedBy(a, c)
    ensures IsSatisfiedBy(a, b) ==> IsSatisfiedBy(a[..|a| / 2], b)
  {
    assert forall x | x in a[..|a| / 2] :: x in a;
  }

  /** `union_length`: how many distinct colours the two palettes hold together. */
  function UnionLength(a: seq<Colour>, b: seq<Colour>): nat
  {
    |Elements(a) + Elements(b)|
  }

  /** A palette satisfied by `b` adds nothing to it; a fitting union holds each palette. */
  lemma UnionLengthMeaning(a: seq<Colour>, b: seq<Colour>)
    ensures IsSatisfiedBy(a, b) ==> UnionLength(b, a) == |Elements(b)|
    ensures |Elements(a)| <= UnionLength(a, b) && |Elements(b)| <= UnionLength(a, b)
  {
    if IsSatisfiedBy(a, b) {
      assert Elements(b) + Elements(a) == Elements(b);
    }
    assert Elements(a) <= Elements(a) + Elements(b);
    assert Elements(b) <= Elements(a) + Elements(b);
    CardSubset(Elements(a), Elements(a) + Elements(b));
    CardSubset(Elements(b), Elements(a) + Elements(b));
  }

  lemma CardSubset(a: set<Colour>, b: set<Colour>)
    requires a <= b
    ensures |a| <= |b|
  {
    assert b == a + (b - a);
  }

  /** `Palette16`: a list of distinct colours, at most 16 of them. */
  class Palette16 {
    var colours: seq<Colour>

    ghost predicate Valid()
      reads this
    {
      Distinct(colours) && |colours| <= MAX_COLOURS_PER_PALETTE
    }

    /** `new`: an empty palette. */
    constructor ()
      ensures colours == [] && Valid()
    {
      colours := [];
    }

    /**
     * `add_colour`: a colour already present is refused with `false`;
     * otherwise it is appended and `true` returned. A 17th colour panics.
     */
    method AddColour(colour: Colour) returns (added: bool)
      requires Valid()
      requires colour in colours || |colours| < MAX_COLOURS_PER_PALETTE
      modifies this
      ensures Valid()
      ensures added <==> colour !in old(colours)
      ensures colours == if added then old(colours) + [colour] else old(colours)
    {
      if colour in colours {
        return false;
      }
      colours := colours + [colour];
      added := true;
    }

    /** `colour_index`: the place of a colour in the palette; one that is absent panics. */
    function ColourIndex(colour: Colour): (index: u8)
      reads this
      requires Valid() && colour in colours
      ensures index < |colours| && colours[index] == colour
    {
      IndexOf(colours, colour).value
    }
  }

  /** The colour list after appending, in order, those colours of `p` not yet in `known`. */
  function Appended(known: seq<Colour>, p: seq<Colour>): seq<Colour>
  {
    if |p| == 0 then known
    else
      var before := Appended(known, p[..|p| - 1]);
      if p[|p| - 1] in before then before else before + [p[|p| - 1]]
  }

  /**
   * Appending keeps what was known as a prefix, stays free of duplicates,
   * and ends holding exactly the known colours and those of `p`.
   */
  lemma {:induction false} AppendedMeaning(known: seq<Colour>, p: seq<Colour>)
    requires Distinct(known)
    ensures Distinct(Appended(known, p))
    ensures Elements(Appended(known, p)) == Elements(known) + Elements(p)
    ensures known <= Appended(known, p)
  {
    if |p| > 0 {
      var init := p[..|p| - 1];
      AppendedMeaning(known, init);
      var before := Appended(known, init);
      assert Elements(p) == Elements(init) + {p[|p| - 1]};
      if p[|p| - 1] !in before {
        var after := before + [p[|p| - 1]];
        assert Elements(after) == Elements(before) + {p[|p| - 1]};
        assert forall i | 0 <= i < |before| :: after[i] == before[i];
      }
    }
  }

  /** A colour that is not new leaves the list as it is; a new one goes at the end. */
  lemma AppendedStep(known: seq<Colour>, p: seq<Colour>, i: nat)
    requires i < |p|
    ensures Appended(known, p[..i + 1]) ==
      if p[i] in Appended(known, p[..i]) then Appended(known, p[..i]) else Appended(known, p[..i]) + [p[i]]
  {
    assert p[..i + 1][..i] == p[..i];
  }

  /** `Palette16Optimiser`: the palettes added so far and every colour they use, once each. */
  class Optimiser {
    var palettes: seq<seq<Colour>>
    var colours: seq<Colour>

    ghost predicate Valid()
      reads this
    {
      Distinct(colours) && |colours| <= MAX_COLOURS
    }

    /** `new`: no palettes and no colours. */
    constructor ()
      ensures palettes == [] && colours == [] && Valid()
    {
      palettes := [];
      colours := [];
    }

    /**
     * `add_palette`: records the palette and appends its colours not yet
     * known; more than 256 colours in all panics.
     */
    method AddPalette(palette: seq<Colour>)
      requires Valid()
      requires |Elements(colours) + Elements(palette)| <= MAX_COLOURS
      modifies this
      ensures Valid()
      ensures palettes == old(palettes) + [palette]
      ensures colours == Appended(old(colours), palette)
    {
      palettes := palettes + [palette];
      ghost var known := colours;
      for i := 0 to |palette|
        invariant palettes == old(palettes) + [palette]
        invariant colours == Appended(known, palette[..i])
      {
        AppendedStep(known, palette, i);
        if palette[i] in colours {
          continue;
        }
        colours := colours + [palette[i]];
      }
      assert palette[..|palette|] == palette;
      AppendedMeaning(known, palette);
      DistinctCard(colours);
    }

    /** `c` is a colour the optimiser knows, not in `current`, used by a palette of `unsatisfied` that fits with `current`. */
    ghost predicate Wanted(unsatisfied: set<seq<Colour>>, current: seq<Colour>, c: Colour)
      reads this
    {
      c in colours && c !in current &&
      exists q :: q in unsatisfied && Fits(current, q) && c in q
    }

    /** Only wanted colours have a positive score. */
    ghost predicate Sound(usage: seq<nat>, unsatisfied: set<seq<Colour>>, current: seq<Colour>)
      reads this
    {
      |usage| == MAX_COLOURS &&
      forall k | 0 <= k < MAX_COLOURS :: usage[k] > 0 ==> k < |colours| && Wanted(unsatisfied, current, colours[k])
    }

    /** Every known colour of `q` missing from `current` has a positive score. */
    ghost predicate Counted(usage: seq<nat>, current: seq<Colour>, q: seq<Colour>)
      reads this
      requires Valid() && |usage| == MAX_COLOURS
    {
      forall c | c in q && c !in current && c in colours :: usage[IndexOf(colours, c).value] > 0
    }

    /** Scores only grow, so what was counted stays counted. */
    lemma CountedGrows(before: seq<nat>, after: seq<nat>, current: seq<Colour>, q: seq<Colour>)
      requires Valid() && |before| == MAX_COLOURS && |after| == MAX_COLOURS
      requires forall k | 0 <= k < MAX_COLOURS :: before[k] <= after[k]
      requires Counted(before, current, q)
      ensures Counted(after, current, q)
    {
      forall c | c in q && c !in current && c in colours
        ensures after[IndexOf(colours, c).value] > 0
      {
        var k := IndexOf(colours, c).value;
        assert before[k] <= after[k];
      }
    }

    /**
     * The inner loop of the counting pass over one fitting palette `p`:
     * each of its known colours missing from `current` scores one more use.
     */
    method ScorePalette(unsatisfied: set<seq<Colour>>, current: seq<Colour>, p: seq<Colour>, usage: seq<nat>, used: bool)
      returns (scored: seq<nat>, nowUsed: bool)
      requires Valid() && p in unsatisfied && Fits(current, p)
      requires Sound(usage, unsatisfied, current) && Flag(usage, used)
      ensures Sound(scored, unsatisfied, current) && Flag(scored, nowUsed)
      ensures forall k | 0 <= k < MAX_COLOURS :: usage[k] <= scored[k]
      ensures Counted(scored, current, p)
    {
      scored, nowUsed := usage, used;
      for j := 0 to |p|
        invariant Sound(scored, unsatisfied, current) && Flag(scored, nowUsed)
        invariant forall k | 0 <= k < MAX_COLOURS :: usage[k] <= scored[k]
        invariant Counted(scored, current, p[..j])
      {
        var colour := p[j];
        assert p[..j + 1] == p[..j] + [colour];
        if colour in current {
          continue;
        }
        var index := IndexOf(colours, colour);
        if index.Some? {
          assert Wanted(unsatisfied, current, colour);
          ghost var before := scored;
          scored := scored[index.value := scored[index.value] + 1];
          nowUsed := true;
          CountedGrows(before, scored, current, p[..j]);
        }
      }
      assert p[..|p|] == p;
    }

    /**
     * The counting pass of `find_maximal_palette_for`: for each fitting
     * palette, every one of its colours that the optimiser knows and
     * `current` lacks scores a use. A positive score marks a wanted
     * colour, every wanted colour scores, and `used` says whether any did.
     */
    method CountUsage(unsatisfied: set<seq<Colour>>, current: seq<Colour>) returns (usage: seq<nat>, used: bool)
      requires Valid()
      ensures Sound(usage, unsatisfied, current) && Flag(usage, used)
      ensures forall q | q in unsatisfied && Fits(current, q) :: Counted(usage, current, q)
    {
      usage := seq(MAX_COLOURS, _ => 0);
      used := false;
      var todo := unsatisfied;
      while todo != {}
        invariant todo <= unsatisfied
        invariant Sound(usage, unsatisfied, current) && Flag(usage, used)
        invariant forall q | q in unsatisfied - todo && Fits(current, q) :: Counted(usage, current, q)
        decreases |todo|
      {
        var p :| p in todo;
        todo := todo - {p};
        if !Fits(current, p) {
          continue;
        }
        ghost var before := usage;
        usage, used := ScorePalette(unsatisfied, current, p, usage, used);
        forall q | q in unsatisfied - todo - {p} && Fits(current, q)
          ensures Counted(usage, current, q)
        {
          CountedGrows(before, usage, current, q);
        }
      }
    }

    /**
     * `find_maximal_palette_for`: starting from the transparent colour, if
     * any, add the most used wanted colour until none is wanted or the
     * palette is full. The result starts with the transparent colour,
     * holds at most 16 distinct colours, all known to the optimiser or
     * transparent, and is maximal: unless it is full, every known colour of
     * every unsatisfied palette that fits with it is already in it.
     */
    method FindMaximalPaletteFor(unsatisfied: set<seq<Colour>>, transparent: Option<Colour>) returns (result: seq<Colour>)
      requires Valid()
      ensures Distinct(result) && |result| <= MAX_COLOURS_PER_PALETTE
      ensures transparent.Some? ==> |result| > 0 && result[0] == transparent.value
      ensures DrawnFrom(result, colours, transparent)
      ensures |result| == MAX_COLOURS_PER_PALETTE || Maximal(unsatisfied, result)
    {
      var palette := new Palette16();
      if transparent.Some? {
        var _ := palette.AddColour(transparent.value);
      }
      var done := false;
      while !done
        invariant palette.Valid() && (!done ==> |palette.colours| < MAX_COLOURS_PER_PALETTE)
        invariant transparent.Some? ==> |palette.colours| > 0 && palette.colours[0] == transparent.value
        invariant DrawnFrom(palette.colours, colours, transparent)
        invariant done ==> |palette.colours| == MAX_COLOURS_PER_PALETTE || Maximal(unsatisfied, palette.colours)
        decreases MAX_COLOURS_PER_PALETTE - |palette.colours|, if done then 0 else 1
      {
        ghost var before := palette.colours;
        ghost var usage;
        done, usage := AddBestColour(unsatisfied, palette);
        if palette.colours != before {
          DrawnFromAppend(before, colours, transparent, palette.colours[|before|]);
        }
      }
      result := palette.colours;
    }

    /** Unless it is full, `r` already holds every known colour of every unsatisfied palette that fits with it. */
    ghost predicate Maximal(unsatisfied: set<seq<Colour>>, r: seq<Colour>)
      reads this
    {
      forall q | q in unsatisfied && Fits(r, q) :: forall c | c in q :: c in r || c !in colours
    }

    /**
     * One round of `find_maximal_palette_for`'s loop: count the uses
     * (`usage`), and either stop with a maximal palette when nothing scored
     * or add the colour with the highest count, the last one on a tie,
     * stopping once the palette is full.
     */
    method AddBestColour(unsatisfied: set<seq<Colour>>, palette: Palette16) returns (done: bool, ghost usage: seq<nat>)
      requires Valid() && palette.Valid() && |palette.colours| < MAX_COLOURS_PER_PALETTE
      modifies palette
      ensures palette.Valid()
      ensures Sound(usage, unsatisfied, old(palette.colours))
      ensures forall q | q in unsatisfied && Fits(old(palette.colours), q) :: Counted(usage, old(palette.colours), q)
      ensures palette.colours == old(palette.colours) <==> forall k | 0 <= k < MAX_COLOURS :: usage[k] == 0
      ensures palette.colours != old(palette.colours) ==>
        palette.colours == old(palette.colours) + [colours[LastMaxIndex(usage)]]
      ensures palette.colours == old(palette.colours) ||
        (|palette.colours| == |old(palette.colours)| + 1 &&
         palette.colours == old(palette.colours) + [palette.colours[|old(palette.colours)|]] &&
         palette.colours[|old(palette.colours)|] in colours)
      ensures !done ==> |palette.colours| == |old(palette.colours)| + 1 < MAX_COLOURS_PER_PALETTE
      ensures done ==> |palette.colours| == MAX_COLOURS_PER_PALETTE || Maximal(unsatisfied, palette.colours)
    {
      var current := palette.colours;
      var counts, used := CountUsage(unsatisfied, current);
      usage := counts;
      if !used {
        forall q, c | q in unsatisfied && Fits(current, q) && c in q && c in colours
          ensures c in current
        {
          assert Counted(usage, current, q);
        }
        return true, usage;
      }
      var some :| 0 <= some < MAX_COLOURS && counts[some] > 0;
      var best := LastMaxIndex(counts);
      assert usage[best] >= usage[some] && Wanted(unsatisfied, current, colours[best]);
      var added := palette.AddColour(colours[best]);
      done := |palette.colours| == MAX_COLOURS_PER_PALETTE;
    }

    /**
     * `optimise_palettes`: while some palette is unsatisfied, find a
     * maximal palette, drop every palette it satisfies, and assign to it
     * every input palette it satisfies. Reaching 16 output palettes panics,
     * which `ok == false` reports. On success every input palette is
     * satisfied by the output palette it is assigned to.
     */
    method OptimisePalettes(transparent: Option<Colour>) returns (ok: bool, optimised: seq<seq<Colour>>, assignments: seq<nat>)
      requires Valid()
      ensures |assignments| == |palettes|
      ensures forall k | 0 <= k < |optimised| :: Shaped(optimised[k], transparent)
      ensures ok ==> |optimised| < MAX_COLOURS / MAX_COLOURS_PER_PALETTE
      ensures !ok ==> |optimised| == MAX_COLOURS / MAX_COLOURS_PER_PALETTE
      ensures ok ==> forall i | 0 <= i < |palettes| ::
        assignments[i] < |optimised| && IsSatisfiedBy(palettes[i], optimised[assignments[i]])
    {
      assignments := seq(|palettes|, _ => 0);
      optimised := [];
      var unsatisfied := set i | 0 <= i < |palettes| :: palettes[i];
      while |unsatisfied| > 0
        invariant |assignments| == |palettes| && |optimised| < MAX_COLOURS / MAX_COLOURS_PER_PALETTE
        invariant forall k | 0 <= k < |optimised| :: Shaped(optimised[k], transparent)
        invariant forall i | 0 <= i < |palettes| && palettes[i] !in unsatisfied ::
          assignments[i] < |optimised| && IsSatisfiedBy(palettes[i], optimised[assignments[i]])
        decreases MAX_COLOURS / MAX_COLOURS_PER_PALETTE - |optimised|
      {
        var palette := FindMaximalPaletteFor(unsatisfied, transparent);
        var remaining := Satisfy(unsatisfied, palette);
        assignments := Assign(assignments, palette, |optimised|);
        unsatisfied := remaining;
        optimised := optimised + [palette];
        if |optimised| == MAX_COLOURS / MAX_COLOURS_PER_PALETTE {
          return false, optimised, assignments;
        }
      }
      ok := true;
    }

    /** The assignment pass: every input palette `palette` satisfies is assigned to `index`. */
    method Assign(assignments: seq<nat>, palette: seq<Colour>, index: nat) returns (updated: seq<nat>)
      requires |assignments| == |palettes|
      ensures |updated| == |palettes|
      ensures forall i | 0 <= i < |palettes| ::
        updated[i] == if IsSatisfiedBy(palettes[i], palette) then index else assignments[i]
    {
      updated := assignments;
      for i := 0 to |palettes|
        invariant |updated| == |palettes|
        invariant forall j | 0 <= j < |palettes| ::
          updated[j] == if j < i && IsSatisfiedBy(palettes[j], palette) then index else assignments[j]
      {
        if IsSatisfiedBy(palettes[i], palette) {
          updated := updated[i := index];
        }
      }
    }
  }

  /** `union_length(..) <= MAX_COLOURS_PER_PALETTE`: the palette fits with `current`. */
  predicate Fits(current: seq<Colour>, q: seq<Colour>)
  {
    UnionLength(current, q) <= MAX_COLOURS_PER_PALETTE
  }

  /** `a_colour_is_used` says whether some score is positive. */
  predicate Flag(usage: seq<nat>, used: bool)
  {
    (used ==> exists k | 0 <= k < |usage| :: usage[k] > 0) &&
    (!used ==> forall k | 0 <= k < |usage| :: usage[k] == 0)
  }

  /** Every colour of `s` is one of `known` or the transparent colour. */
  predicate DrawnFrom(s: seq<Colour>, known: seq<Colour>, transparent: Option<Colour>)
  {
    forall c | c in s :: c in known || transparent == Some(c)
  }

  lemma DrawnFromAppend(s: seq<Colour>, known: seq<Colour>, transparent: Option<Colour>, c: Colour)
    requires DrawnFrom(s, known, transparent) && c in known
    ensures DrawnFrom(s + [c], known, transparent)
  {
  }

  /** What every output palette looks like: distinct colours, at most 16, the transparent one first. */
  predicate Shaped(p: seq<Colour>, transparent: Option<Colour>)
  {
    Distinct(p) && |p| <= MAX_COLOURS_PER_PALETTE &&
    (transparent.Some? ==> |p| > 0 && p[0] == transparent.value)
  }

  /** `max_by` on the usage counts: the last index holding the largest count. */
  function LastMaxIndex(s: seq<nat>): (r: nat)
    requires |s| > 0
    ensures r < |s| && (forall j | 0 <= j < |s| :: s[j] <= s[r])
    ensures forall j | r < j < |s| :: s[j] < s[r]
  {
    if |s| == 1 then 0
    else
      var m := LastMaxIndex(s[..|s| - 1]);
      if s[|s| - 1] >= s[m] then |s| - 1 else m
  }

  /** The removal pass: the unsatisfied palettes that `palette` does not satisfy. */
  method Satisfy(unsatisfied: set<seq<Colour>>, palette: seq<Colour>) returns (remaining: set<seq<Colour>>)
    ensures remaining <= unsatisfied
    ensures forall q | q in unsatisfied :: q in remaining <==> !IsSatisfiedBy(q, palette)
  {
    remaining := unsatisfied;
    var todo := unsatisfied;
    while todo != {}
      invariant todo <= unsatisfied && remaining <= unsatisfied
      invariant forall q | q in unsatisfied :: q in remaining <==> q in todo || !IsSatisfiedBy(q, palette)
      decreases |todo|
    {
      var q :| q in todo;
      if IsSatisfiedBy(q, palette) {
        remaining := remaining - {q};
      }
      todo := todo - {q};
    }
  }
}
