/**
 * The control characters of agb's text renderer
 * (agb/src/display/font/special.rs): a colour change, a tag set and a tag
 * unset, each carrying an index below 16 and written as one character of the
 * Unicode private use area, in three adjacent blocks of 16 code points from
 * U+E000.
 */
module FontSpecial {
  import opened Wrappers

  const UTF8_PRIVATE_USE_START: nat := 0xE000

  /** The whole block the renderer reserves: U+E000 up to U+E030. */
  predicate InPrivateUseRange(c: char)
  {
    UTF8_PRIVATE_USE_START <= c as int < UTF8_PRIVATE_USE_START + 48
  }

  /** `ChangeColour`, `SetTag` and `UnsetTag`. */
  datatype Kind = ChangeColour | SetTag | UnsetTag

  /** A control character's value: its kind and its index (palette colour or tag bit). */
  datatype Special = Special(kind: Kind, index: nat)

  /** The first code point of each kind's `RANGE`: U+E000, U+E010 and U+E020. */
  function RangeStart(kind: Kind): (start: nat)
    ensures UTF8_PRIVATE_USE_START <= start && start + 16 <= UTF8_PRIVATE_USE_START + 48
  {
    match kind
    case ChangeColour => UTF8_PRIVATE_USE_START
    case SetTag => UTF8_PRIVATE_USE_START + 16
    case UnsetTag => UTF8_PRIVATE_USE_START + 32
  }

  predicate InRange(kind: Kind, c: char)
  {
    RangeStart(kind) <= c as int < RangeStart(kind) + 16
  }

  /** `new`: the index must be below 16, or it panics. */
  function New(kind: Kind, index: nat): (s: Special)
    requires index < 16
    ensures s.kind == kind && s.index == index
  {
    Special(kind, index)
  }

  /** `to_char`: the index added to the start of the kind's range. */
  function ToChar(s: Special): (c: char)
    requires s.index < 16
    ensures InRange(s.kind, c) && InPrivateUseRange(c)
  {
    (RangeStart(s.kind) + s.index) as char
  }

  /** `try_from_char`: the value a character of the kind's range stands for; `None` outside it. */
  function TryFromChar(kind: Kind, c: char): (r: Option<Special>)
    ensures r.Some? <==> InRange(kind, c)
    ensures r.Some? ==> r.value.kind == kind && r.value.index < 16
  {
    if InRange(kind, c) then Some(New(kind, c as int - RangeStart(kind))) else None
  }

  /** Decoding an encoded value gives it back. */
  lemma TryFromToChar(s: Special)
    requires s.index < 16
    ensures TryFromChar(s.kind, ToChar(s)) == Some(s)
  {
  }

  /** A character that decodes comes back out of its value: decoding loses nothing. */
  lemma ToCharTryFrom(kind: Kind, c: char)
    requires TryFromChar(kind, c).Some?
    ensures ToChar(TryFromChar(kind, c).value) == c
  {
  }

  /** The three ranges are disjoint: a character decodes as at most one kind. */
  lemma RangesDisjoint(k1: Kind, k2: Kind, c: char)
    requires TryFromChar(k1, c).Some? && TryFromChar(k2, c).Some?
    ensures k1 == k2
  {
  }

  /** Together the ranges are exactly the reserved block. */
  lemma RangesCoverBlock(c: char)
    ensures InPrivateUseRange(c) <==> exists k: Kind :: TryFromChar(k, c).Some?
  {
    if InPrivateUseRange(c) {
      var k := if c as int < 0xE010 then ChangeColour else if c as int < 0xE020 then SetTag else UnsetTag;
      assert TryFromChar(k, c).Some?;
    }
  }

  /** Colour 2, tag 0 and tag 15 are U+E002, U+E010 and U+E02F; `'a'` is none of them. */
  lemma SpecialExamples()
    ensures ToChar(New(ChangeColour, 2)) == '\U{E002}'
    ensures ToChar(New(SetTag, 0)) == '\U{E010}'
    ensures ToChar(New(UnsetTag, 15)) == '\U{E02F}'
    ensures TryFromChar(ChangeColour, 'a') == None
  {
  }
}
