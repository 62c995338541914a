/**
 * The crash-trace decoder of agb-debug (agb-debug/src/gwilym_encoding.rs).
 * A crash link carries a list of 32-bit addresses as text, three characters
 * of a 64-character alphabet per 16-bit chunk, followed by `v1`. A chunk
 * whose bit 16 is clear is an address in the cartridge ROM window
 * (`0x0800_xxxx`); one whose bit 16 is set holds the upper half of a full
 * address, whose lower half is the next chunk.
 */
module GwilymEncoding {
  import opened Wrappers

  datatype DecodeError = NoVersion | WrongVersion | LengthWrong(len: nat)

  /** The low byte of a character's code point. */
  function ByteOf(c: char): bv8
  {
    ((c as int) % 256) as bv8
  }

  /** A string of ASCII characters as its bytes. */
  function Ascii(s: string): (r: seq<bv8>)
    ensures |r| == |s|
  {
    seq(|s|, i requires 0 <= i < |s| => ByteOf(s[i]))
  }

  /** `https://agbrs.dev/crash#`, the prefix of a crash link. */
  const CRASH_PREFIX: seq<bv8> := Ascii("https://agbrs.dev/crash#")

  const VERSION_MARK: bv8 := 0x76  // 'v'
  const VERSION_ONE: bv8 := 0x31   // '1'

  /**
   * Character `i` of the source's `ALPHABET`: the digits, `=`, the upper-case letters,
   * `_` and the lower-case letters, in that order (ASCII order).
   */
  function AlphabetChar(i: bv8): (c: bv8)
    requires i < 64
    ensures c < 128
  {
    if i < 10 then 0x30 + i
    else if i == 10 then 0x3D
    else if i < 37 then 0x41 + (i - 11)
    else if i == 37 then 0x5F
    else 0x61 + (i - 38)
  }

  /** The position of a byte in the alphabet, if it is there. */
  function AlphabetIndex(c: bv8): (r: Option<bv8>)
    ensures r.Some? ==> r.value < 64 && AlphabetChar(r.value) == c
  {
    if 0x30 <= c < 0x3A then Some(c - 0x30)
    else if c == 0x3D then Some(10)
    else if 0x41 <= c < 0x5B then Some(c - 0x41 + 11)
    else if c == 0x5F then Some(37)
    else if 0x61 <= c < 0x7B then Some(c - 0x61 + 38)
    else None
  }

  /** Every alphabet character is found at its own position: the alphabet has no repeats. */
  lemma AlphabetIndexOfChar(i: bv8)
    requires i < 64
    ensures AlphabetIndex(AlphabetChar(i)) == Some(i)
  {
  }

  /**
   * `get_value_for_char`: the entry of the reverse table, the alphabet
   * position of the byte or 0 for a byte outside the alphabet. The table has
   * 128 entries, so a byte of 128 or more panics.
   */
  function ValueForChar(c: bv8): (v: bv32)
    requires c < 128
    ensures v < 64
  {
    match AlphabetIndex(c)
    case Some(j) => j as bv32
    case None => 0
  }

  /** The reverse table's entry for byte `c` once the first `done` alphabet characters have been entered. */
  function Entry(c: bv8, done: bv8): bv8
  {
    match AlphabetIndex(c)
    case Some(j) => if j < done then j else 0
    case None => 0
  }

  /** The reverse table as far as the first `done` alphabet characters have been entered. */
  ghost predicate TableUpTo(table: seq<bv8>, done: bv8)
  {
    |table| == 128 && forall c: bv8 :: c < 128 ==> table[c] == Entry(c, done)
  }

  /** Entering alphabet character `i` at its byte extends the table by one position. */
  lemma TableStep(table: seq<bv8>, i: bv8)
    requires i < 64 && TableUpTo(table, i)
    ensures AlphabetChar(i) < 128 && TableUpTo(table[AlphabetChar(i) := i], i + 1)
  {
    var t := table[AlphabetChar(i) := i];
    forall c: bv8 | c < 128
      ensures t[c] == Entry(c, i + 1)
    {
      EntryStep(c, i);
    }
  }

  lemma EntryStep(c: bv8, i: bv8)
    requires i < 64
    ensures Entry(c, i + 1) == if c == AlphabetChar(i) then i else Entry(c, i)
  {
    AlphabetIndexOfChar(i);
    match AlphabetIndex(c)
    case Some(j) =>
      assert AlphabetChar(j) == c;
    case None =>
  }

  /** The whole alphabet entered, every entry is `get_value_for_char`'s value. */
  lemma TableComplete(table: seq<bv8>)
    requires TableUpTo(table, 64)
    ensures forall c: bv8 :: c < 128 ==> table[c] as bv32 == ValueForChar(c)
  {
  }

  /**
   * The `get_or_init` closure: a table of 128 zeros, then for each alphabet
   * position `i` the entry of its character set to `i`.
   */
  method BuildReverseAlphabet() returns (table: seq<bv8>)
    ensures |table| == 128 && forall c: bv8 :: c < 128 ==> table[c] as bv32 == ValueForChar(c)
  {
    var result := new bv8[128](_ => 0);
    var i: bv8 := 0;
    while i < 64
      invariant i <= 64 && TableUpTo(result[..], i)
    {
      var c := AlphabetChar(i);
      ghost var before := result[..];
      TableStep(before, i);
      result[c] := i;
      assert result[..] == before[c := i];
      i := i + 1;
    }
    table := result[..];
    TableComplete(table);
  }

  /** `decode_chunk`: `(a << 11) | (b << 6) | c` over the three characters' values. */
  function DecodeChunk(a: bv8, b: bv8, c: bv8): bv32
    requires a < 128 && b < 128 && c < 128
  {
    (ValueForChar(a) << 11) | (ValueForChar(b) << 6) | ValueForChar(c)
  }

  predicate AllAscii(s: seq<bv8>)
  {
    forall i :: 0 <= i < |s| ==> s[i] < 128
  }

  lemma AllAsciiSuffix(s: seq<bv8>, k: nat)
    requires AllAscii(s) && k <= |s|
    ensures AllAscii(s[k..])
  {
    forall i | 0 <= i < |s| - k
      ensures s[k..][i] < 128
    {
      assert s[k..][i] == s[k + i];
    }
  }

  lemma AllAsciiConcat(a: seq<bv8>, b: seq<bv8>)
    requires AllAscii(a) && AllAscii(b)
    ensures AllAscii(a + b)
  {
    forall i | 0 <= i < |a + b|
      ensures (a + b)[i] < 128
    {
      if i < |a| {
        assert (a + b)[i] == a[i];
      } else {
        assert (a + b)[i] == b[i - |a|];
      }
    }
  }

  /** `strip_prefix(...).unwrap_or(input)`. */
  function StripPrefix(input: seq<bv8>): (r: seq<bv8>)
    ensures CRASH_PREFIX <= input ==> input == CRASH_PREFIX + r
    ensures !(CRASH_PREFIX <= input) ==> r == input
  {
    if CRASH_PREFIX <= input then input[|CRASH_PREFIX|..] else input
  }

  /** The position of the last occurrence of `x`, as `rsplit_once` splits. */
  function LastIndexOf(s: seq<bv8>, x: bv8): (r: Option<nat>)
    ensures r.Some? ==> r.value < |s| && s[r.value] == x && forall j :: r.value < j < |s| ==> s[j] != x
    ensures r.None? ==> forall j :: 0 <= j < |s| ==> s[j] != x
  {
    if |s| == 0 then None
    else if s[|s| - 1] == x then Some(|s| - 1)
    else LastIndexOf(s[..|s| - 1], x)
  }

  /**
   * `GwilymDecodeIter::new`: strips the link prefix, splits at the last `v`,
   * requires the version to be exactly `1` and the body's length to be a
   * multiple of 3; the result is the body, to be read in chunks of three.
   */
  function Parse(input: seq<bv8>): (r: Result<seq<bv8>, DecodeError>)
    ensures r.Ok? ==> |r.value| % 3 == 0
  {
    var stripped := StripPrefix(input);
    match LastIndexOf(stripped, VERSION_MARK)
    case None => Err(NoVersion)
    case Some(k) =>
      if stripped[k + 1..] != [VERSION_ONE] then Err(WrongVersion)
      else if k % 3 != 0 then Err(LengthWrong(k))
      else Ok(stripped[..k])
  }

  lemma ParseErrors(input: seq<bv8>)
    ensures var s := StripPrefix(input);
      (Parse(input) == Err(NoVersion) <==> VERSION_MARK !in s)
      && (VERSION_MARK in s && Parse(input).Ok? ==> s[|Parse(input).value| + 1..] == [VERSION_ONE])
  {
    var s := StripPrefix(input);
    if VERSION_MARK in s {
      var j :| 0 <= j < |s| && s[j] == VERSION_MARK;
      assert LastIndexOf(s, VERSION_MARK).Some?;
    }
  }

  /** A crash link parses exactly as its text after the prefix. */
  lemma StripsCrashPrefix(s: seq<bv8>)
    ensures StripPrefix(CRASH_PREFIX + s) == s
  {
    assert (CRASH_PREFIX + s)[|CRASH_PREFIX|..] == s;
  }

  /**
   * One `next`: `None` when the chunks are used up; otherwise the first
   * chunk's value tagged as a ROM address, or, when its bit 16 is set, its
   * low half shifted up and combined with the low half of the following
   * `next` (0 when there is none). Returns the value and the chunks left.
   */
  function NextValue(chunks: seq<bv8>): (r: (Option<bv32>, seq<bv8>))
    requires |chunks| % 3 == 0 && AllAscii(chunks)
    ensures |r.1| <= |chunks| && |r.1| % 3 == 0 && AllAscii(r.1)
    ensures r.0.None? <==> chunks == []
    ensures r.0.Some? ==> |r.1| < |chunks|
    decreases |chunks|
  {
    if |chunks| == 0 then (None, chunks)
    else
      AllAsciiSuffix(chunks, 3);
      var value := DecodeChunk(chunks[0], chunks[1], chunks[2]);
      if value & (1 << 16) != 0 then
        var (lower, rest) := NextValue(chunks[3..]);
        (Some((value << 16) | LowerBits(lower)), rest)
      else (Some(value | 0x0800_0000), chunks[3..])
  }

  /** The low half of the value after a full address's upper half, 0 when the trace ends there. */
  function LowerBits(next: Option<bv32>): (r: bv32)
    ensures r <= 0xffff
  {
    match next case Some(v) => v & 0xffff case None => 0
  }

  /** `next` on a chunk with bit 16 set: a full address made with the following `next`. */
  lemma NextValueFull(chunks: seq<bv8>, value: bv32)
    requires |chunks| % 3 == 0 && AllAscii(chunks) && |chunks| > 0
    requires value == DecodeChunk(chunks[0], chunks[1], chunks[2]) && value & (1 << 16) != 0
    ensures |chunks[3..]| % 3 == 0 && AllAscii(chunks[3..])
    ensures NextValue(chunks).0 == Some((value << 16) | LowerBits(NextValue(chunks[3..]).0))
    ensures NextValue(chunks).1 == NextValue(chunks[3..]).1
  {
    AllAsciiSuffix(chunks, 3);
  }

  /** `next` on a chunk with bit 16 clear: a ROM address. */
  lemma NextValueRom(chunks: seq<bv8>, value: bv32)
    requires |chunks| % 3 == 0 && AllAscii(chunks) && |chunks| > 0
    requires value == DecodeChunk(chunks[0], chunks[1], chunks[2]) && value & (1 << 16) == 0
    ensures NextValue(chunks) == (Some(value | 0x0800_0000), chunks[3..])
  {
  }

  /** Every value the iterator yields, in order, until it is exhausted. */
  function DecodeAll(chunks: seq<bv8>): seq<bv32>
    requires |chunks| % 3 == 0 && AllAscii(chunks)
    decreases |chunks|
  {
    var (v, rest) := NextValue(chunks);
    match v
    case None => []
    case Some(x) => [x] + DecodeAll(rest)
  }

  lemma DecodeAllStep(chunks: seq<bv8>)
    requires |chunks| % 3 == 0 && AllAscii(chunks) && chunks != []
    ensures DecodeAll(chunks) == [NextValue(chunks).0.value] + DecodeAll(NextValue(chunks).1)
  {
  }

  /** `GwilymDecodeIter`: the chunks not yet decoded. */
  class GwilymDecodeIter {
    var chunks: seq<bv8>

    constructor (body: seq<bv8>)
      requires |body| % 3 == 0
      ensures chunks == body
    {
      chunks := body;
    }

    /** `next`, recursing once for a full address. */
    method Next() returns (r: Option<bv32>)
      requires |chunks| % 3 == 0 && AllAscii(chunks)
      modifies this
      ensures r == NextValue(old(chunks)).0 && chunks == NextValue(old(chunks)).1
      decreases |chunks|
    {
      if |chunks| == 0 {
        return None;
      }
      ghost var start := chunks;
      var value := DecodeChunk(chunks[0], chunks[1], chunks[2]);
      chunks := chunks[3..];
      if value & (1 << 16) != 0 {
        var upperBits := value << 16;
        var next := Next();
        var lowerBits := LowerBits(next);
        r := Some(upperBits | lowerBits);
        NextValueFull(start, value);
        return;
      }
      r := Some(value | 0x0800_0000);
      NextValueRom(start, value);
    }

    /** `collect`: every value, in order. */
    method Collect() returns (values: seq<bv32>)
      requires |chunks| % 3 == 0 && AllAscii(chunks)
      modifies this
      ensures values == DecodeAll(old(chunks)) && chunks == []
    {
      values := [];
      while chunks != []
        invariant |chunks| % 3 == 0 && AllAscii(chunks)
        invariant values + DecodeAll(chunks) == DecodeAll(old(chunks))
        decreases |chunks|
      {
        ghost var before := chunks;
        var v := Next();
        DecodeAllStep(before);
        assert DecodeAll(before) == [v.value] + DecodeAll(chunks);
        assert (values + [v.value]) + DecodeAll(chunks) == values + DecodeAll(before);
        values := values + [v.value];
      }
    }
  }

  /** `gwilym_decode`: the parse errors, or an iterator over the body. */
  method GwilymDecode(input: seq<bv8>) returns (r: Result<GwilymDecodeIter, DecodeError>)
    ensures Parse(input).Err? ==> r == Err(Parse(input).error)
    ensures Parse(input).Ok? ==> r.Ok? && fresh(r.value) && r.value.chunks == Parse(input).value
  {
    var body := Parse(input);
    if body.Err? {
      return Err(body.error);
    }
    var iter := new GwilymDecodeIter(body.value);
    return Ok(iter);
  }

  /** The source's test encoder for a ROM address: its low 16 bits as three characters. */
  function Encode16(input: bv32): (r: seq<bv8>)
    requires input < 0x1_0000
    ensures |r| == 3 && r[0] < 128 && r[1] < 128 && r[2] < 128
  {
    [AlphabetChar((input >> 11) as bv8), AlphabetChar(((input >> 6) & 0x1f) as bv8), AlphabetChar((input & 0x3f) as bv8)]
  }

  /** The first half of `encode_32`: the upper 16 bits like `Encode16`, with bit 5 of the first character set. */
  function EncodeUpper(upper: bv32): (r: seq<bv8>)
    requires upper < 0x1_0000
    ensures |r| == 3 && r[0] < 128 && r[1] < 128 && r[2] < 128
  {
    [AlphabetChar(((upper >> 11) | 0x20) as bv8), AlphabetChar(((upper >> 6) & 0x1f) as bv8), AlphabetChar((upper & 0x3f) as bv8)]
  }

  /** The test encoder for a full address: the upper half marked, then the lower half. */
  function Encode32(input: bv32): (r: seq<bv8>)
    ensures |r| == 6 && r[0] < 128 && r[1] < 128 && r[2] < 128
  {
    EncodeUpper(input >> 16) + Encode16(input & 0xffff)
  }

  /** The test's choice per address: the short form for a ROM address, the long form for any other. */
  function EncodeAddress(ip: bv32): (r: seq<bv8>)
    ensures |r| % 3 == 0 && |r| >= 3 && AllAscii(r)
  {
    if ip & 0xFFFF_0000 == 0x0800_0000 then Encode16(ip & 0xffff) else Encode32(ip)
  }

  /** The test encoder for a whole trace: a short form for ROM addresses, the long form for the others. */
  function EncodeBody(trace: seq<bv32>): (r: seq<bv8>)
    ensures |r| % 3 == 0 && AllAscii(r)
    ensures forall i :: 0 <= i < |r| ==> AlphabetIndex(r[i]).Some?
  {
    if trace == [] then []
    else
      var head := EncodeAddress(trace[0]);
      AlphabetChars(head);
      head + EncodeBody(trace[1..])
  }

  lemma AlphabetChars(s: seq<bv8>)
    requires forall i :: 0 <= i < |s| ==> exists k: bv8 :: k < 64 && s[i] == AlphabetChar(k)
    ensures AllAscii(s) && forall i :: 0 <= i < |s| ==> AlphabetIndex(s[i]).Some?
  {
    forall i | 0 <= i < |s|
      ensures s[i] < 128 && AlphabetIndex(s[i]).Some?
    {
      var k: bv8 :| k < 64 && s[i] == AlphabetChar(k);
      AlphabetIndexOfChar(k);
    }
  }

  /** A value below 256 survives the narrowing to a byte. */
  lemma Narrow(y: bv32)
    requires y < 256
    ensures (y as bv8) as bv32 == y
  {
  }

  /** The character for an alphabet position, read back, is the position. */
  lemma CharValue(v: bv32)
    requires v < 64
    ensures AlphabetChar(v as bv8) < 128 && ValueForChar(AlphabetChar(v as bv8)) == v
  {
    Narrow(v);
    AlphabetIndexOfChar(v as bv8);
  }

  lemma ChunkOfValues(a: bv8, b: bv8, c: bv8, va: bv32, vb: bv32, vc: bv32)
    requires a < 128 && b < 128 && c < 128
    requires ValueForChar(a) == va && ValueForChar(b) == vb && ValueForChar(c) == vc
    ensures DecodeChunk(a, b, c) == (va << 11) | (vb << 6) | vc
  {
  }

  /** The three fields `Encode16` cuts a 16-bit value into put back together give the value. */
  lemma Split16(input: bv32)
    requires input < 0x1_0000
    ensures ((input >> 11) << 11) | (((input >> 6) & 0x1f) << 6) | (input & 0x3f) == input
  {
  }

  /** The same fields with bit 5 of the first one set give the value with bit 16 set. */
  lemma Split16Marked(upper: bv32)
    requires upper < 0x1_0000
    ensures (((upper >> 11) | 0x20) << 11) | (((upper >> 6) & 0x1f) << 6) | (upper & 0x3f) == upper | 0x1_0000
  {
  }

  lemma EncodeValues16(input: bv32)
    requires input < 0x1_0000
    ensures var e := Encode16(input);
      ValueForChar(e[0]) == input >> 11 && ValueForChar(e[1]) == (input >> 6) & 0x1f
      && ValueForChar(e[2]) == input & 0x3f
  {
    CharValue(input >> 11);
    CharValue((input >> 6) & 0x1f);
    CharValue(input & 0x3f);
  }

  lemma EncodeValuesUpper(upper: bv32)
    requires upper < 0x1_0000
    ensures var e := EncodeUpper(upper);
      ValueForChar(e[0]) == (upper >> 11) | 0x20 && ValueForChar(e[1]) == (upper >> 6) & 0x1f
      && ValueForChar(e[2]) == upper & 0x3f
  {
    CharValue((upper >> 11) | 0x20);
    CharValue((upper >> 6) & 0x1f);
    CharValue(upper & 0x3f);
  }

  /** A chunk written by `Encode16` decodes to the 16 bits it was made from. */
  lemma DecodeEncode16(input: bv32)
    requires input < 0x1_0000
    ensures var e := Encode16(input); DecodeChunk(e[0], e[1], e[2]) == input
  {
    var e := Encode16(input);
    EncodeValues16(input);
    ChunkOfValues(e[0], e[1], e[2], input >> 11, (input >> 6) & 0x1f, input & 0x3f);
    Split16(input);
  }

  /** The first chunk of `encode_32` decodes to the upper half with bit 16 set. */
  lemma DecodeEncodeUpper(upper: bv32)
    requires upper < 0x1_0000
    ensures var e := EncodeUpper(upper); DecodeChunk(e[0], e[1], e[2]) == upper | 0x1_0000
  {
    var e := EncodeUpper(upper);
    EncodeValuesUpper(upper);
    ChunkOfValues(e[0], e[1], e[2], (upper >> 11) | 0x20, (upper >> 6) & 0x1f, upper & 0x3f);
    Split16Marked(upper);
  }

  /** A chunk written by `Encode16`, whatever follows it, is read back as a ROM address. */
  lemma NextOfShort(low: bv32, rest: seq<bv8>, body: seq<bv8>)
    requires low < 0x1_0000 && |rest| % 3 == 0 && AllAscii(rest)
    requires body == Encode16(low) + rest
    ensures NextValue(body) == (Some(low | 0x0800_0000), rest)
  {
    var e := Encode16(low);
    AllAsciiConcat(e, rest);
    assert body[0] == e[0] && body[1] == e[1] && body[2] == e[2];
    DecodeEncode16(low);
    assert DecodeChunk(body[0], body[1], body[2]) == low;
    BitSixteenClear(low);
    assert body[3..] == rest;
    NextValueRom(body, low);
  }

  lemma BitSixteenClear(low: bv32)
    requires low < 0x1_0000
    ensures low & (1 << 16) == 0
  {
  }

  lemma BitSixteenSet(upper: bv32)
    ensures (upper | 0x1_0000) & (1 << 16) != 0
  {
  }

  /** The halves of a full address put back together. */
  lemma JoinHalves(ip: bv32)
    ensures (((ip >> 16) | 0x1_0000) << 16) | LowerBits(Some((ip & 0xffff) | 0x0800_0000)) == ip
  {
  }

  lemma UpperBelow(ip: bv32)
    ensures ip >> 16 < 0x1_0000 && ip & 0xffff < 0x1_0000
  {
  }

  lemma RomAddress(ip: bv32)
    requires ip & 0xFFFF_0000 == 0x0800_0000
    ensures (ip & 0xffff) | 0x0800_0000 == ip && ip & 0xffff < 0x1_0000
  {
  }

  /** A chunk written by `EncodeUpper` is read back as the upper half of a full address, joined with the next value. */
  lemma NextOfMarked(upper: bv32, tail: seq<bv8>, body: seq<bv8>)
    requires upper < 0x1_0000 && |tail| % 3 == 0 && AllAscii(tail)
    requires body == EncodeUpper(upper) + tail
    ensures NextValue(body).0 == Some(((upper | 0x1_0000) << 16) | LowerBits(NextValue(tail).0))
    ensures NextValue(body).1 == NextValue(tail).1
  {
    var e := EncodeUpper(upper);
    AllAsciiConcat(e, tail);
    assert body[0] == e[0] && body[1] == e[1] && body[2] == e[2];
    assert body[3..] == tail;
    DecodeEncodeUpper(upper);
    assert DecodeChunk(body[0], body[1], body[2]) == upper | 0x1_0000;
    BitSixteenSet(upper);
    NextValueFull(body, upper | 0x1_0000);
  }

  /** An address written by `encode_32`, whatever follows it, is read back whole. */
  lemma NextOfLong(ip: bv32, rest: seq<bv8>, body: seq<bv8>)
    requires |rest| % 3 == 0 && AllAscii(rest)
    requires body == Encode32(ip) + rest
    ensures NextValue(body) == (Some(ip), rest)
  {
    UpperBelow(ip);
    var tail := Encode16(ip & 0xffff) + rest;
    AllAsciiConcat(Encode16(ip & 0xffff), rest);
    assert body == EncodeUpper(ip >> 16) + tail;
    NextOfShort(ip & 0xffff, rest, tail);
    NextOfMarked(ip >> 16, tail, body);
    JoinHalves(ip);
  }

  /** An address written by the test encoder, whatever follows it, is read back. */
  lemma NextOfAddress(ip: bv32, rest: seq<bv8>, body: seq<bv8>)
    requires |rest| % 3 == 0 && AllAscii(rest)
    requires body == EncodeAddress(ip) + rest
    ensures NextValue(body) == (Some(ip), rest)
  {
    if ip & 0xFFFF_0000 == 0x0800_0000 {
      RomAddress(ip);
      NextOfShort(ip & 0xffff, rest, body);
    } else {
      NextOfLong(ip, rest, body);
    }
  }

  lemma EncodeBodyStep(trace: seq<bv32>)
    requires trace != []
    ensures EncodeBody(trace) == EncodeAddress(trace[0]) + EncodeBody(trace[1..])
  {
  }

  /** Decoding what the test encoder wrote gives back the whole trace. */
  lemma {:induction false} DecodeEncodeBody(trace: seq<bv32>)
    ensures DecodeAll(EncodeBody(trace)) == trace
  {
    if trace != [] {
      var rest := EncodeBody(trace[1..]);
      var body := EncodeBody(trace);
      DecodeEncodeBody(trace[1..]);
      EncodeBodyStep(trace);
      NextOfAddress(trace[0], rest, body);
      DecodeAllStep(body);
    }
  }

  /**
   * The source's round-trip test for every trace: the encoded body followed
   * by `v1` parses (the body holds no `:` so it is not taken for a link, and
   * its last `v` is the version mark) and decodes to the trace.
   */
  lemma RoundTrip(trace: seq<bv32>)
    ensures var body := EncodeBody(trace);
      Parse(body + [VERSION_MARK, VERSION_ONE]) == Ok(body) && DecodeAll(body) == trace
  {
    var body := EncodeBody(trace);
    var input := body + [VERSION_MARK, VERSION_ONE];
    NotALink(body, input);
    LastMarkIsVersion(body, input);
    assert input[..|body|] == body;
    DecodeEncodeBody(trace);
  }

  /** Text made of alphabet characters and `v1` has no `:`, so it does not start with the link prefix. */
  lemma NotALink(body: seq<bv8>, input: seq<bv8>)
    requires forall i :: 0 <= i < |body| ==> AlphabetIndex(body[i]).Some?
    requires input == body + [VERSION_MARK, VERSION_ONE]
    ensures StripPrefix(input) == input
  {
    assert CRASH_PREFIX[5] == 0x3A;
  }

  /** The version mark appended last is the last `v`. */
  lemma LastMarkIsVersion(body: seq<bv8>, input: seq<bv8>)
    requires input == body + [VERSION_MARK, VERSION_ONE]
    ensures LastIndexOf(input, VERSION_MARK) == Some(|body|)
  {
    assert input[..|input| - 1] == body + [VERSION_MARK];
  }

  /** A link and its bare text after the prefix parse alike. */
  lemma ParseLink(s: seq<bv8>)
    requires !(CRASH_PREFIX <= s)
    ensures Parse(CRASH_PREFIX + s) == Parse(s)
  {
    StripsCrashPrefix(s);
  }

  /**
   * The source's first test, chunk by chunk: the four chunks of
   * `2QI65Q69306Kv1` decode to the low halves of its four ROM addresses
   * 0x0800_16d3, 0x0800_315b, 0x0800_3243 and 0x0800_0195.
   */
  lemma DecodeExampleChunks()
    ensures DecodeChunk(0x32, 0x51, 0x49) == 0x16d3  // `2QI`
    ensures DecodeChunk(0x36, 0x35, 0x51) == 0x315b  // `65Q`
    ensures DecodeChunk(0x36, 0x39, 0x33) == 0x3243  // `693`
    ensures DecodeChunk(0x30, 0x36, 0x4B) == 0x0195  // `06K`
  {
  }
}
