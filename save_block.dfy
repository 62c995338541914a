/**
 * The save-block codec (agb-save/src/block.rs). A block is a fixed-size
 * buffer whose first eight bytes are the standard header: the CRC-16/ARC of
 * every byte after the first two, the block type, the next block index and
 * two reserved bytes, all little endian. The body after the header depends on
 * the block type. Bytes and the header fields are bit-vectors of their Rust widths.
 */
module SaveBlock {
  import opened Wrappers
  import opened Bits
  import opened Slices

  // ----- Little-endian integers -----

  function Le16(x: bv16): seq<bv8>
  {
    [(x & 0xFF) as bv8, (x >> 8) as bv8]
  }

  function FromLe16(b0: bv8, b1: bv8): bv16
  {
    (b0 as bv16) | ((b1 as bv16) << 8)
  }

  function Le32(x: bv32): seq<bv8>
  {
    Le16((x & 0xFFFF) as bv16) + Le16((x >> 16) as bv16)
  }

  function FromLe32(b: seq<bv8>): bv32
    requires |b| == 4
  {
    (FromLe16(b[0], b[1]) as bv32) | ((FromLe16(b[2], b[3]) as bv32) << 16)
  }

  /** `from_le_bytes` undoes `to_le_bytes` in both directions. */
  lemma Le16RoundTrip(x: bv16, b0: bv8, b1: bv8)
    ensures |Le16(x)| == 2 && FromLe16(Le16(x)[0], Le16(x)[1]) == x
    ensures Le16(FromLe16(b0, b1)) == [b0, b1]
  {
  }

  lemma Le32RoundTrip(x: bv32)
    ensures |Le32(x)| == 4 && FromLe32(Le32(x)) == x
  {
  }

  // ----- CRC-16/ARC, the checksum of the `crc16` crate's `ARC` state -----

  /** One bit of the reflected register update: polynomial 0x8005, reflected 0xA001. */
  function CrcBit(c: bv16): bv16
  {
    if c & 1 == 1 then (c >> 1) ^ 0xA001 else c >> 1
  }

  /** Eight register steps. */
  function CrcShift8(c: bv16): bv16
  {
    CrcBit(CrcBit(CrcBit(CrcBit(CrcBit(CrcBit(CrcBit(CrcBit(c))))))))
  }

  /** Feeding one byte into the register. */
  function CrcByte(c: bv16, b: bv8): bv16
  {
    CrcShift8(c ^ (b as bv16))
  }

  /** The register after feeding `data`, first byte first, from the state `c`. */
  function CrcFrom(c: bv16, data: seq<bv8>): bv16
    decreases |data|
  {
    if data == [] then c else CrcFrom(CrcByte(c, data[0]), data[1..])
  }

  /** CRC-16/ARC: initial register 0, reflected input and output, no final xor. */
  function Crc16(data: seq<bv8>): bv16
  {
    CrcFrom(0, data)
  }

  /** CRC-16/ARC's standard check value: the nine ASCII digits "123456789" give 0xBB3D. */
  lemma Crc16CheckValue()
    ensures Crc16([0x31, 0x32, 0x33, 0x34, 0x35, 0x36, 0x37, 0x38, 0x39]) == 0xBB3D
  {
    CrcSteps();
    assert CrcFrom(0x3C9D, [0x39]) == 0xBB3D;
    assert CrcFrom(0x9D68, [0x38, 0x39]) == 0xBB3D;
    assert CrcFrom(0x29E4, [0x37, 0x38, 0x39]) == 0xBB3D;
    assert CrcFrom(0xA455, [0x36, 0x37, 0x38, 0x39]) == 0xBB3D;
    assert CrcFrom(0x14BA, [0x35, 0x36, 0x37, 0x38, 0x39]) == 0xBB3D;
    assert CrcFrom(0xBA04, [0x34, 0x35, 0x36, 0x37, 0x38, 0x39]) == 0xBB3D;
    assert CrcFrom(0x4594, [0x33, 0x34, 0x35, 0x36, 0x37, 0x38, 0x39]) == 0xBB3D;
    assert CrcFrom(0xD4C1, [0x32, 0x33, 0x34, 0x35, 0x36, 0x37, 0x38, 0x39]) == 0xBB3D;
  }

  /** The register after each digit of "123456789". */
  lemma CrcSteps()
    ensures CrcByte(0, 0x31) == 0xD4C1 && CrcByte(0xD4C1, 0x32) == 0x4594 && CrcByte(0x4594, 0x33) == 0xBA04
    ensures CrcByte(0xBA04, 0x34) == 0x14BA && CrcByte(0x14BA, 0x35) == 0xA455 && CrcByte(0xA455, 0x36) == 0x29E4
    ensures CrcByte(0x29E4, 0x37) == 0x9D68 && CrcByte(0x9D68, 0x38) == 0x3C9D && CrcByte(0x3C9D, 0x39) == 0xBB3D
  {
  }

  /** A register step loses no information. */
  lemma CrcBitInjective(a: bv16, b: bv16)
    ensures CrcBit(a) == CrcBit(b) ==> a == b
  {
  }

  lemma CrcShift8Injective(a: bv16, b: bv16)
    ensures CrcShift8(a) == CrcShift8(b) ==> a == b
  {
    var a1, b1 := CrcBit(a), CrcBit(b);
    var a2, b2 := CrcBit(a1), CrcBit(b1);
    var a3, b3 := CrcBit(a2), CrcBit(b2);
    var a4, b4 := CrcBit(a3), CrcBit(b3);
    var a5, b5 := CrcBit(a4), CrcBit(b4);
    var a6, b6 := CrcBit(a5), CrcBit(b5);
    var a7, b7 := CrcBit(a6), CrcBit(b6);
    CrcBitInjective(a7, b7);
    CrcBitInjective(a6, b6);
    CrcBitInjective(a5, b5);
    CrcBitInjective(a4, b4);
    CrcBitInjective(a3, b3);
    CrcBitInjective(a2, b2);
    CrcBitInjective(a1, b1);
    CrcBitInjective(a, b);
  }

  /** Feeding a byte is injective both in the register and in the byte. */
  lemma CrcByteInjective(c: bv16, d: bv16, x: bv8, y: bv8)
    ensures CrcByte(c, x) == CrcByte(d, x) ==> c == d
    ensures CrcByte(c, x) == CrcByte(c, y) ==> x == y
  {
    CrcShift8Injective(c ^ (x as bv16), d ^ (x as bv16));
    CrcShift8Injective(c ^ (x as bv16), c ^ (y as bv16));
    XorCancels(c, d, x, y);
  }

  lemma XorCancels(c: bv16, d: bv16, x: bv8, y: bv8)
    ensures c ^ (x as bv16) == d ^ (x as bv16) ==> c == d
    ensures c ^ (x as bv16) == c ^ (y as bv16) ==> x == y
  {
  }

  /** Different registers stay different whatever bytes follow. */
  lemma {:induction false} CrcFromInjective(c: bv16, d: bv16, data: seq<bv8>)
    requires c != d
    ensures CrcFrom(c, data) != CrcFrom(d, data)
    decreases |data|
  {
    if data != [] {
      CrcByteInjective(c, d, data[0], data[0]);
      CrcFromInjective(CrcByte(c, data[0]), CrcByte(d, data[0]), data[1..]);
    }
  }

  /** Changing any single byte changes the CRC. */
  lemma {:induction false} CrcDetectsByteChange(c: bv16, data: seq<bv8>, i: nat, v: bv8)
    requires i < |data| && v != data[i]
    ensures CrcFrom(c, data[i := v]) != CrcFrom(c, data)
    decreases i
  {
    var changed := data[i := v];
    if i == 0 {
      CrcByteInjective(c, c, v, data[0]);
      assert changed[1..] == data[1..];
      CrcFromInjective(CrcByte(c, v), CrcByte(c, data[0]), data[1..]);
    } else {
      assert changed[0] == data[0];
      assert changed[1..] == data[1..][i - 1 := v];
      CrcDetectsByteChange(CrcByte(c, data[0]), data[1..], i - 1, v);
    }
  }

  lemma Crc16DetectsByteChange(data: seq<bv8>, i: nat, v: bv8)
    requires i < |data| && v != data[i]
    ensures Crc16(data[i := v]) != Crc16(data)
  {
    CrcDetectsByteChange(0, data, i, v);
  }

  // ----- Headers and blocks -----

  datatype BlockType = Free | Global | Slot | Data

  datatype SlotState = Empty | Valid | Ghost

  datatype BlockLoadError = CrcMismatch | InvalidData

  datatype BlockHeader = BlockHeader(crc16: bv16, blockType: BlockType, nextBlockIndex: bv16)

  datatype GlobalHeader = GlobalHeader(slotCount: bv16)

  datatype SlotHeader = SlotHeader(state: SlotState, logicalSlotId: bv8, firstDataBlock: bv16, generation: bv32, crc32: bv32, length: bv32)

  datatype GlobalBlock = GlobalBlock(header: GlobalHeader, gameIdentifier: seq<bv8>)

  datatype SlotHeaderBlock = SlotHeaderBlock(header: SlotHeader, metadata: seq<bv8>)

  datatype DataBlock = DataBlock(nextBlock: bv16, data: seq<bv8>)

  datatype Block = Free | Global(global: GlobalBlock) | SlotHeader(slot: SlotHeaderBlock) | Data(dataBlock: DataBlock)

  /** Size of the standard block header. */
  const BLOCK_HEADER_SIZE: nat := 8

  /** Where a slot header block's metadata starts: the standard header and 16 bytes of slot fields. */
  const SLOT_HEADER_SIZE: nat := BLOCK_HEADER_SIZE + 16

  /** The library magic "agbS" that opens a global header. */
  const LIBRARY_MAGIC: seq<bv8> := [0x61, 0x67, 0x62, 0x53]

  function Kind(b: Block): BlockType
  {
    match b
    case Free => BlockType.Free
    case Global(_) => BlockType.Global
    case SlotHeader(_) => BlockType.Slot
    case Data(_) => BlockType.Data
  }

  /** `block_type as bv16`: the declaration order of `BlockType`. */
  function BlockTypeCode(t: BlockType): bv16
  {
    match t
    case Free => 0
    case Global => 1
    case Slot => 2
    case Data => 3
  }

  /** `state as bv8`: the declaration order of `SlotState`. */
  function SlotStateCode(s: SlotState): bv8
  {
    match s
    case Empty => 0
    case Valid => 1
    case Ghost => 2
  }

  /** `SlotHeaderBlock::with_state`. */
  function WithState(b: SlotHeaderBlock, state: SlotState): SlotHeaderBlock
  {
    SlotHeaderBlock(b.header.(state := state), b.metadata)
  }

  /** `with_state` sets the state and keeps every other field and the metadata. */
  lemma WithStateChangesOnlyState(b: SlotHeaderBlock, state: SlotState)
    ensures WithState(b, state).header.state == state && WithState(b, state).metadata == b.metadata
    ensures WithState(b, state).header.(state := b.header.state) == b.header
    ensures WithState(b, b.header.state) == b
    ensures WithState(WithState(b, state), b.header.state) == b
  {
  }

  // ----- Parsing (the `TryFrom` implementations) -----

  function SlotStateFrom(v: bv8): Result<SlotState, BlockLoadError>
  {
    if v == 0 then Ok(Empty) else if v == 1 then Ok(Valid) else if v == 2 then Ok(Ghost) else Err(InvalidData)
  }

  function BlockTypeFrom(v: seq<bv8>): Result<BlockType, BlockLoadError>
  {
    if |v| != 2 then Err(InvalidData)
    else
      var code := FromLe16(v[0], v[1]);
      if code == 0 then Ok(BlockType.Free)
      else if code == 1 then Ok(BlockType.Global)
      else if code == 2 then Ok(BlockType.Slot)
      else if code == 3 then Ok(BlockType.Data)
      else Err(InvalidData)
  }

  /** Only the codes 0 to 2 are slot states, and they are exactly the codes `SlotStateCode` gives. */
  lemma SlotStateCodes(v: bv8, s: SlotState)
    ensures SlotStateFrom(v).Ok? <==> v <= 2
    ensures SlotStateFrom(v).Err? ==> SlotStateFrom(v).error == InvalidData
    ensures SlotStateFrom(v).Ok? ==> SlotStateCode(SlotStateFrom(v).value) == v
    ensures SlotStateFrom(SlotStateCode(s)) == Ok(s)
  {
  }

  /** Only two bytes holding 0 to 3 are a block type, and they are exactly the bytes `BlockTypeCode` gives. */
  lemma BlockTypeCodes(v: seq<bv8>, t: BlockType)
    ensures BlockTypeFrom(v).Ok? <==> |v| == 2 && v[1] == 0 && v[0] <= 3
    ensures BlockTypeFrom(v).Err? ==> BlockTypeFrom(v).error == InvalidData
    ensures BlockTypeFrom(v).Ok? ==> Le16(BlockTypeCode(BlockTypeFrom(v).value)) == v
    ensures BlockTypeFrom(Le16(BlockTypeCode(t))) == Ok(t)
  {
    if |v| == 2 {
      Le16RoundTrip(0, v[0], v[1]);
    }
  }

  function BlockHeaderFrom(v: seq<bv8>): Result<BlockHeader, BlockLoadError>
  {
    if |v| < 6 then Err(InvalidData)
    else
      match BlockTypeFrom(v[2..4])
      case Err(e) => Err(e)
      case Ok(t) => Ok(BlockHeader(FromLe16(v[0], v[1]), t, FromLe16(v[4], v[5])))
  }

  function GlobalHeaderFrom(v: seq<bv8>): Result<GlobalHeader, BlockLoadError>
  {
    if |v| < 6 then Err(InvalidData)
    else if v[..4] != LIBRARY_MAGIC then Err(InvalidData)
    else Ok(GlobalHeader(FromLe16(v[4], v[5])))
  }

  function SlotHeaderFrom(v: seq<bv8>): Result<SlotHeader, BlockLoadError>
  {
    if |v| < 16 then Err(InvalidData)
    else
      match SlotStateFrom(v[0])
      case Err(e) => Err(e)
      case Ok(state) => Ok(SlotHeader.SlotHeader(state, v[1], FromLe16(v[2], v[3]), FromLe32(v[4..8]), FromLe32(v[8..12]), FromLe32(v[12..16])))
  }

  /** A global header is accepted exactly when it is long enough and starts with the magic. */
  lemma GlobalHeaderNeedsMagic(v: seq<bv8>)
    ensures GlobalHeaderFrom(v).Ok? <==> |v| >= 6 && v[..4] == LIBRARY_MAGIC
    ensures GlobalHeaderFrom(v).Err? ==> GlobalHeaderFrom(v).error == InvalidData
  {
  }

  /**
   * `deserialize_block` slices the buffer from byte 8 without a length
   * check, so a buffer of 6 or 7 bytes with a valid header and a matching CRC
   * makes it panic unless the block is free.
   */
  predicate DeserializePanics(b: seq<bv8>)
  {
    |b| < 8 && BlockHeaderFrom(b).Ok? && Crc16(b[2..]) == BlockHeaderFrom(b).value.crc16 && BlockHeaderFrom(b).value.blockType != BlockType.Free
  }

  function DeserializeBlock(b: seq<bv8>): Result<Block, BlockLoadError>
    requires !DeserializePanics(b)
  {
    match BlockHeaderFrom(b)
    case Err(e) => Err(e)
    case Ok(h) =>
      if Crc16(b[2..]) != h.crc16 then Err(CrcMismatch)
      else if h.blockType == BlockType.Free then Ok(Block.Free)
      else BodyFrom(h, b[8..])
  }

  /** The block a checked header and the bytes after the standard header describe. */
  function BodyFrom(h: BlockHeader, body: seq<bv8>): Result<Block, BlockLoadError>
  {
    match h.blockType
    case Free => Ok(Block.Free)
    case Global =>
      (match GlobalHeaderFrom(body)
       case Err(e) => Err(e)
       case Ok(g) => Ok(Block.Global(GlobalBlock(g, body[6..]))))
    case Slot =>
      (match SlotHeaderFrom(body)
       case Err(e) => Err(e)
       case Ok(s) => Ok(Block.SlotHeader(SlotHeaderBlock(s, body[16..]))))
    case Data => Ok(Block.Data(DataBlock(h.nextBlockIndex, body)))
  }

  // ----- Serialising -----

  /**
   * The buffer lengths `serialize_block` accepts without panicking: room for
   * the header, and each `copy_from_slice` given a slice of its own length
   * (the 32-byte game identifier, the metadata or data filling the rest).
   */
  predicate Fits(b: Block, len: nat)
  {
    len >= BLOCK_HEADER_SIZE &&
    match b
    case Free => true
    case Global(g) => |g.gameIdentifier| == 32 && len >= 14 + 32
    case SlotHeader(s) => len >= SLOT_HEADER_SIZE && |s.metadata| == len - SLOT_HEADER_SIZE
    case Data(d) => |d.data| == len - BLOCK_HEADER_SIZE
  }

  /** The bytes after the standard header; a global block leaves the buffer's prior bytes after the game identifier. */
  function Body(b: Block, prior: seq<bv8>): seq<bv8>
    requires Fits(b, |prior|)
  {
    match b
    case Free => seq(|prior| - BLOCK_HEADER_SIZE, _ => 0)
    case Global(g) => LIBRARY_MAGIC + Le16(g.header.slotCount) + g.gameIdentifier + prior[14 + 32..]
    case SlotHeader(s) => SlotFields(s.header) + s.metadata
    case Data(d) => d.data
  }

  function SlotFields(h: SlotHeader): seq<bv8>
  {
    [SlotStateCode(h.state), h.logicalSlotId] + Le16(h.firstDataBlock) + Le32(h.generation) + Le32(h.crc32) + Le32(h.length)
  }

  /** Bytes 2 onwards: block type, next block (data blocks only), two reserved zeros, then the body. */
  function Unsealed(b: Block, prior: seq<bv8>): seq<bv8>
    requires Fits(b, |prior|)
  {
    Le16(BlockTypeCode(Kind(b))) + (if b.Data? then Le16(b.dataBlock.nextBlock) else [0, 0]) + [0, 0] + Body(b, prior)
  }

  /** The buffer `serialize_block` leaves: the CRC of bytes 2 onwards, then those bytes. */
  function Serialized(b: Block, prior: seq<bv8>): seq<bv8>
    requires Fits(b, |prior|)
  {
    Le16(Crc16(Unsealed(b, prior))) + Unsealed(b, prior)
  }

  /** A buffer whose first two bytes hold the CRC of the rest. */
  predicate Sealed(s: seq<bv8>)
  {
    |s| >= 2 && FromLe16(s[0], s[1]) == Crc16(s[2..])
  }

  lemma BodyLength(b: Block, prior: seq<bv8>)
    requires Fits(b, |prior|)
    ensures |Body(b, prior)| == |prior| - BLOCK_HEADER_SIZE
    ensures |Unsealed(b, prior)| == |prior| - 2
    ensures |Serialized(b, prior)| == |prior|
  {
    Le16RoundTrip(0, 0, 0);
    if b.SlotHeader? {
      Le32RoundTrip(0);
    }
  }

  /** The serialised buffer is sealed, and its header and body are where the parser looks for them. */
  lemma SerializedLayout(b: Block, prior: seq<bv8>)
    requires Fits(b, |prior|)
    ensures Sealed(Serialized(b, prior))
    ensures Serialized(b, prior)[2..] == Unsealed(b, prior)
    ensures Serialized(b, prior)[8..] == Body(b, prior)
    ensures BlockHeaderFrom(Serialized(b, prior)) == Ok(BlockHeader(Crc16(Unsealed(b, prior)), Kind(b), if b.Data? then b.dataBlock.nextBlock else 0))
  {
    var u := Unsealed(b, prior);
    var s := Serialized(b, prior);
    var next: bv16 := if b.Data? then b.dataBlock.nextBlock else 0;
    SerializedSlices(b, prior);
    Le16RoundTrip(Crc16(u), 0, 0);
    Le16RoundTrip(next, 0, 0);
    BlockTypeCodes(s[2..4], Kind(b));
  }

  /** Where the CRC, the block type, the next-block index and the body sit in the serialised buffer. */
  lemma SerializedSlices(b: Block, prior: seq<bv8>)
    requires Fits(b, |prior|)
    ensures |Serialized(b, prior)| == |prior| >= 8
    ensures Serialized(b, prior)[..2] == Le16(Crc16(Unsealed(b, prior)))
    ensures Serialized(b, prior)[2..] == Unsealed(b, prior)
    ensures Serialized(b, prior)[2..4] == Le16(BlockTypeCode(Kind(b)))
    ensures Serialized(b, prior)[4..6] == Le16(if b.Data? then b.dataBlock.nextBlock else 0)
    ensures Serialized(b, prior)[8..] == Body(b, prior)
  {
    BodyLength(b, prior);
    var u := Unsealed(b, prior);
    var s := Serialized(b, prior);
    var next: bv16 := if b.Data? then b.dataBlock.nextBlock else 0;
    Le16RoundTrip(Crc16(u), 0, 0);
    Le16RoundTrip(next, 0, 0);
    assert s[2..] == u;
    assert s[2..4] == Le16(BlockTypeCode(Kind(b)));
    assert s[4..6] == Le16(next);
    assert u[6..] == Body(b, prior);
    assert s[8..] == u[6..];
  }

  /** The slot fields read back as the slot header they were written from. */
  lemma SlotFieldsRoundTrip(h: SlotHeader, rest: seq<bv8>)
    ensures |SlotFields(h)| == 16
    ensures SlotHeaderFrom(SlotFields(h) + rest) == Ok(h)
  {
    var v := SlotFields(h) + rest;
    Le16RoundTrip(h.firstDataBlock, 0, 0);
    Le32RoundTrip(h.generation);
    Le32RoundTrip(h.crc32);
    Le32RoundTrip(h.length);
    SlotStateCodes(0, h.state);
    assert v[4..8] == Le32(h.generation);
    assert v[8..12] == Le32(h.crc32);
    assert v[12..16] == Le32(h.length);
  }

  /** What deserialising a serialised block gives back: the block itself, except that a global block's identifier runs on to the end of the buffer. */
  function Restored(b: Block, prior: seq<bv8>): Block
    requires Fits(b, |prior|)
  {
    if b.Global? then Block.Global(GlobalBlock(b.global.header, b.global.gameIdentifier + prior[14 + 32..])) else b
  }

  /** The body of a block reads back as the block, given the header the serialiser writes. */
  lemma BodyRoundTrip(b: Block, prior: seq<bv8>, h: BlockHeader)
    requires Fits(b, |prior|) && h.blockType == Kind(b) && (b.Data? ==> h.nextBlockIndex == b.dataBlock.nextBlock)
    ensures BodyFrom(h, Body(b, prior)) == Ok(Restored(b, prior))
  {
    var body := Body(b, prior);
    match b
    case Free =>
    case Global(g) =>
      Le16RoundTrip(g.header.slotCount, 0, 0);
      assert body[..4] == LIBRARY_MAGIC;
      assert body[4..6] == Le16(g.header.slotCount);
      assert body[6..] == g.gameIdentifier + prior[14 + 32..];
    case SlotHeader(sb) =>
      SlotFieldsRoundTrip(sb.header, sb.metadata);
      assert body[16..] == sb.metadata;
    case Data(d) =>
  }

  /**
   * `deserialize_block(serialize_block(b))` succeeds and gives back `b` for
   * every kind of block; for a global block the first 32 bytes of the
   * identifier are the ones written.
   */
  lemma RoundTrip(b: Block, prior: seq<bv8>)
    requires Fits(b, |prior|)
    ensures !DeserializePanics(Serialized(b, prior))
    ensures DeserializeBlock(Serialized(b, prior)) == Ok(Restored(b, prior))
    ensures b.Global? ==> DeserializeBlock(Serialized(b, prior)).value.global.gameIdentifier[..32] == b.global.gameIdentifier
  {
    SerializedLayout(b, prior);
    BodyLength(b, prior);
    var s := Serialized(b, prior);
    BodyRoundTrip(b, prior, BlockHeaderFrom(s).value);
  }

  /** The round trip for the test's 128-byte buffers, which hold no prior bytes after a global block's identifier. */
  lemma RoundTripExamples(b: Block)
    requires Fits(b, 128)
    ensures !b.Global? ==> DeserializeBlock(Serialized(b, seq(128, _ => 0))) == Ok(b)
  {
    RoundTrip(b, seq(128, _ => 0));
  }

  /**
   * Changing any byte after the CRC of a sealed buffer of at least 8 bytes
   * makes deserialisation fail: either the header no longer parses or the
   * CRC no longer matches.
   */
  lemma SealedCorruptionDetected(s: seq<bv8>, k: nat, v: bv8)
    requires |s| >= BLOCK_HEADER_SIZE && Sealed(s) && 2 <= k < |s| && v != s[k]
    ensures !DeserializePanics(s[k := v])
    ensures DeserializeBlock(s[k := v]).Err?
  {
    var t := s[k := v];
    assert t[2..] == s[2..][k - 2 := v];
    Crc16DetectsByteChange(s[2..], k - 2, v);
  }

  /** The same for every serialised block. */
  lemma CorruptionDetected(b: Block, prior: seq<bv8>, k: nat, v: bv8)
    requires Fits(b, |prior|) && 2 <= k < |prior| && v != Serialized(b, prior)[k]
    ensures !DeserializePanics(Serialized(b, prior)[k := v])
    ensures DeserializeBlock(Serialized(b, prior)[k := v]).Err?
  {
    SerializedLayout(b, prior);
    BodyLength(b, prior);
    SealedCorruptionDetected(Serialized(b, prior), k, v);
  }

  /** Changing one of the CRC bytes of a serialised block gives `CrcMismatch`. */
  lemma CrcCorruptionDetected(b: Block, prior: seq<bv8>, k: nat, v: bv8)
    requires Fits(b, |prior|) && k < 2 && v != Serialized(b, prior)[k]
    ensures !DeserializePanics(Serialized(b, prior)[k := v])
    ensures DeserializeBlock(Serialized(b, prior)[k := v]) == Err(CrcMismatch)
  {
    SerializedLayout(b, prior);
    BodyLength(b, prior);
    var s := Serialized(b, prior);
    var t := s[k := v];
    assert t[2..] == s[2..] && t[2..4] == s[2..4];
    Le16RoundTrip(0, s[0], s[1]);
    Le16RoundTrip(0, t[0], t[1]);
  }

  // ----- `serialize_block` on the buffer itself -----

  /** `buffer[start..].iter_mut().for_each(|x| *x = 0)`. */
  method ZeroFrom(buffer: array<bv8>, start: nat)
    requires start <= buffer.Length
    modifies buffer
    ensures buffer[..] == Overwrite(old(buffer[..]), start, seq(buffer.Length - start, _ => 0))
  {
    var i := start;
    while i < buffer.Length
      invariant start <= i <= buffer.Length
      invariant forall j :: 0 <= j < buffer.Length ==> buffer[j] == if start <= j < i then 0 else old(buffer[j])
    {
      buffer[i] := 0;
      i := i + 1;
    }
    assert buffer[..] == Overwrite(old(buffer[..]), start, seq(buffer.Length - start, _ => 0));
  }

  /** The standard header after the CRC: block type, next block and the reserved bytes. */
  function HeaderFields(b: Block): seq<bv8>
  {
    Le16(BlockTypeCode(Kind(b))) + (if b.Data? then Le16(b.dataBlock.nextBlock) else [0, 0]) + [0, 0]
  }

  /** The first part of `serialize_block`: bytes 2 to 7. */
  method WriteHeader(b: Block, buffer: array<bv8>)
    requires buffer.Length >= BLOCK_HEADER_SIZE
    modifies buffer
    ensures |HeaderFields(b)| == 6
    ensures buffer[..] == Overwrite(old(buffer[..]), 2, HeaderFields(b))
  {
    var kind := Le16(BlockTypeCode(Kind(b)));
    var next := if b.Data? then Le16(b.dataBlock.nextBlock) else [0, 0];
    ghost var s0 := buffer[..];
    CopyFromSlice(buffer, 2, kind);
    CopyFromSlice(buffer, 4, next);
    OverwriteAdjacent(s0, 2, kind, next);
    CopyFromSlice(buffer, 6, [0, 0]);
    OverwriteAdjacent(s0, 2, kind + next, [0, 0]);
  }

  /** The body part of `serialize_block`: from byte 8 on. */
  method WriteBody(b: Block, buffer: array<bv8>)
    requires Fits(b, buffer.Length)
    modifies buffer
    ensures buffer[..] == Overwrite(old(buffer[..]), BLOCK_HEADER_SIZE, Body(b, old(buffer[..])))
  {
    ghost var s0 := buffer[..];
    BodyLength(b, s0);
    match b {
      case Free =>
        ZeroFrom(buffer, 8);
      case Global(g) =>
        CopyFromSlice(buffer, 8, LIBRARY_MAGIC);
        CopyFromSlice(buffer, 12, Le16(g.header.slotCount));
        OverwriteAdjacent(s0, 8, LIBRARY_MAGIC, Le16(g.header.slotCount));
        CopyFromSlice(buffer, 14, g.gameIdentifier);
        OverwriteAdjacent(s0, 8, LIBRARY_MAGIC + Le16(g.header.slotCount), g.gameIdentifier);
        OverwriteTail(s0, 8, LIBRARY_MAGIC + Le16(g.header.slotCount) + g.gameIdentifier);
      case SlotHeader(sb) =>
        CopyFromSlice(buffer, 8, SlotFields(sb.header));
        CopyFromSlice(buffer, SLOT_HEADER_SIZE, sb.metadata);
        SlotFieldsRoundTrip(sb.header, []);
        OverwriteAdjacent(s0, 8, SlotFields(sb.header), sb.metadata);
      case Data(d) =>
        CopyFromSlice(buffer, 8, d.data);
    }
  }

  /** Only the bytes from 8 on beyond the length matter to the body. */
  lemma BodyIgnoresHeader(b: Block, s0: seq<bv8>, s1: seq<bv8>)
    requires |s0| == |s1| && Fits(b, |s0|) && s0[BLOCK_HEADER_SIZE..] == s1[BLOCK_HEADER_SIZE..]
    ensures Body(b, s0) == Body(b, s1)
  {
    if b.Global? {
      assert s0[14 + 32..] == s0[BLOCK_HEADER_SIZE..][14 + 32 - BLOCK_HEADER_SIZE..];
      assert s1[14 + 32..] == s1[BLOCK_HEADER_SIZE..][14 + 32 - BLOCK_HEADER_SIZE..];
    }
  }

  /** The header rewrite followed by the body rewrite leaves the first two bytes and the unsealed block. */
  lemma HeaderThenBody(b: Block, s0: seq<bv8>)
    requires Fits(b, |s0|)
    ensures |HeaderFields(b)| == 6
    ensures |Overwrite(s0, 2, HeaderFields(b))| == |s0|
    ensures Body(b, Overwrite(s0, 2, HeaderFields(b))) == Body(b, s0)
    ensures Overwrite(Overwrite(s0, 2, HeaderFields(b)), BLOCK_HEADER_SIZE, Body(b, s0)) == s0[..2] + Unsealed(b, s0)
  {
    BodyLength(b, s0);
    Le16RoundTrip(0, 0, 0);
    var s1 := Overwrite(s0, 2, HeaderFields(b));
    assert s1[BLOCK_HEADER_SIZE..] == s0[BLOCK_HEADER_SIZE..];
    BodyIgnoresHeader(b, s0, s1);
    OverwriteAdjacent(s0, 2, HeaderFields(b), Body(b, s0));
    assert Unsealed(b, s0) == HeaderFields(b) + Body(b, s0);
  }

  /**
   * `serialize_block`: writes the header and the body into the buffer and
   * then the CRC of bytes 2 onwards into bytes 0 and 1. It panics when the
   * buffer and the block's slices do not fit (see `Fits`).
   */
  method SerializeBlock(b: Block, buffer: array<bv8>)
    requires Fits(b, buffer.Length)
    modifies buffer
    ensures buffer[..] == Serialized(b, old(buffer[..]))
  {
    ghost var s0 := buffer[..];
    HeaderThenBody(b, s0);
    WriteHeader(b, buffer);
    WriteBody(b, buffer);
    ghost var u := Unsealed(b, s0);
    ReplaceHead(s0[..2], u, Le16(Crc16(u)));
    var checksum := Crc16(buffer[2..]);
    CopyFromSlice(buffer, 0, Le16(checksum));
  }

  /** Replacing the head of a sequence by one of the same length keeps the tail after it. */
  lemma ReplaceHead<T>(head: seq<T>, tail: seq<T>, h: seq<T>)
    requires |head| == |h|
    ensures (head + tail)[|head|..] == tail && Overwrite(head + tail, 0, h) == h + tail
  {
    assert (head + tail)[|h|..] == tail;
  }
}
