/** The UF2 file format ("File format", Microsoft's UF2 specification) as the tools write
    and read it: `tools/uf2conv.py`, `tools/check_layout.py`, `tools/verify_flash.py`. */
module Uf2 {
  import opened Bytes
  import opened Numbers
  import opened Results

  const BLOCK_SIZE := 512
  const PAYLOAD_SIZE := 256
  const HEADER_SIZE := 32
  const MAX_PAYLOAD := 476
  const MAGIC_START0 := 0x0A32_4655
  const MAGIC_START1 := 0x9E5D_5157
  const MAGIC_END := 0x0AB1_6F30
  const FLAG_FAMILY_ID_PRESENT := 0x2000
  const U32 := 0x1_0000_0000

  datatype LayoutError =
    | EmptyInput
    | FieldOutOfRange
    | BadLength(length: nat)
    | BadStartMagic(block: nat)
    | BadEndMagic(block: nat)
    | PayloadTooLarge(block: nat, size: nat)

  datatype Block = Block(
    flags: nat,
    address: nat,
    payload: seq<Byte>,
    blockNo: nat,
    numBlocks: nat,
    family: nat)

  // -------------------------------------------------------------------- writing

  function Word(n: nat): (s: seq<Byte>)
    ensures |s| == 4
  {
    LittleEndian(n, 4)
  }

  function Zeros(n: nat): (s: seq<Byte>)
    ensures |s| == n
  {
    seq(n, _ => 0)
  }

  /** The eight words that open a block, and the magic that closes it. */
  function HeaderBytes(b: Block): (s: seq<Byte>)
    ensures |s| == HEADER_SIZE
  {
    Word(MAGIC_START0) + Word(MAGIC_START1) + Word(b.flags) + Word(b.address)
    + Word(|b.payload|) + Word(b.blockNo) + Word(b.numBlocks) + Word(b.family)
  }

  function BlockBytes(b: Block): (s: seq<Byte>)
    requires |b.payload| <= MAX_PAYLOAD
    ensures |s| == BLOCK_SIZE
  {
    HeaderBytes(b) + (b.payload + Zeros(MAX_PAYLOAD - |b.payload|)) + Word(MAGIC_END)
  }

  predicate WordsFit(b: Block) {
    b.flags < U32 && b.address < U32 && b.blockNo < U32 && b.numBlocks < U32 && b.family < U32
  }

  function BlockCount(data: seq<Byte>): nat { (|data| + PAYLOAD_SIZE - 1) / PAYLOAD_SIZE }

  function Chunk(data: seq<Byte>, i: nat): (s: seq<Byte>)
    requires i < BlockCount(data)
    ensures 0 < |s| <= PAYLOAD_SIZE
  {
    data[i * PAYLOAD_SIZE..Min((i + 1) * PAYLOAD_SIZE, |data|)]
  }

  function BlockOf(data: seq<Byte>, base: nat, family: nat, i: nat): Block
    requires i < BlockCount(data)
  {
    Block(FLAG_FAMILY_ID_PRESENT, base + i * PAYLOAD_SIZE, Chunk(data, i), i, BlockCount(data), family)
  }

  function BlocksOf(data: seq<Byte>, base: nat, family: nat, n: nat): (bs: seq<Block>)
    requires n <= BlockCount(data)
    ensures |bs| == n && forall i | 0 <= i < n :: bs[i] == BlockOf(data, base, family, i)
  {
    if n == 0 then [] else BlocksOf(data, base, family, n - 1) + [BlockOf(data, base, family, n - 1)]
  }

  function Serialised(blocks: seq<Block>): Result<seq<Byte>, LayoutError>
    requires forall b | b in blocks :: |b.payload| <= MAX_PAYLOAD
  {
    if blocks == [] then Ok([]) else
    var last := blocks[|blocks| - 1];
    var before :- Serialised(blocks[..|blocks| - 1]);
    if WordsFit(last) then Ok(before + BlockBytes(last)) else Err(FieldOutOfRange)
  }

  /** `to_uf2`. */
  function ToUf2(data: seq<Byte>, base: nat, family: nat): Result<seq<Byte>, LayoutError> {
    if BlockCount(data) == 0 then Err(EmptyInput)
    else Serialised(BlocksOf(data, base, family, BlockCount(data)))
  }

  method WriteUf2(data: seq<Byte>, base: nat, family: nat) returns (r: Result<seq<Byte>, LayoutError>)
    ensures r == ToUf2(data, base, family)
  {
    hide BlockBytes, Serialised, WordsFit, BlocksOf, Chunk, BlockCount;
    var numBlocks := BlockCount(data);
    if numBlocks == 0 {
      return Err(EmptyInput);
    }
    ghost var blocks := BlocksOf(data, base, family, numBlocks);
    var out := [];
    NothingSerialised();
    for i := 0 to numBlocks
      invariant Serialised(blocks[..i]) == Ok(out)
    {
      assert blocks[..i + 1][..i] == blocks[..i];
      OneMoreSerialised(blocks[..i + 1]);
      var block := BlockOf(data, base, family, i);
      if !WordsFit(block) {
        StaysErr(blocks, i + 1);
        return Err(FieldOutOfRange);
      }
      out := out + BlockBytes(block);
    }
    assert blocks[..numBlocks] == blocks;
    r := Ok(out);
  }

  lemma NothingSerialised()
    ensures Serialised([]) == Ok([])
  {
  }

  lemma OneMoreSerialised(blocks: seq<Block>)
    requires blocks != [] && forall b | b in blocks :: |b.payload| <= MAX_PAYLOAD
    requires Serialised(blocks[..|blocks| - 1]).Ok?
    ensures var last := blocks[|blocks| - 1];
            Serialised(blocks)
            == if WordsFit(last) then Ok(Serialised(blocks[..|blocks| - 1]).value + BlockBytes(last))
               else Err(FieldOutOfRange)
  {
  }

  lemma {:induction false} StaysErr(blocks: seq<Block>, n: nat)
    requires forall b | b in blocks :: |b.payload| <= MAX_PAYLOAD
    requires n <= |blocks| && Serialised(blocks[..n]) == Err(FieldOutOfRange)
    ensures Serialised(blocks) == Err(FieldOutOfRange)
    decreases |blocks|
  {
    if n < |blocks| {
      var before := blocks[..|blocks| - 1];
      assert before[..n] == blocks[..n];
      StaysErr(before, n);
    } else {
      assert blocks[..n] == blocks;
    }
  }

  // -------------------------------------------------------------------- reading

  function WordAt(raw: seq<Byte>, i: nat): nat
    requires i + 4 <= |raw|
  {
    FromLittleEndian(raw[i..i + 4])
  }

  function ParseBlock(raw: seq<Byte>, i: nat): (r: Result<Block, LayoutError>)
    requires |raw| == BLOCK_SIZE
    ensures r.Ok? ==> |r.value.payload| <= MAX_PAYLOAD
  {
    var size := WordAt(raw, 16);
    if WordAt(raw, 0) != MAGIC_START0 || WordAt(raw, 4) != MAGIC_START1 then Err(BadStartMagic(i))
    else if WordAt(raw, BLOCK_SIZE - 4) != MAGIC_END then Err(BadEndMagic(i))
    else if size > MAX_PAYLOAD then Err(PayloadTooLarge(i, size))
    else Ok(Block(WordAt(raw, 8), WordAt(raw, 12), raw[HEADER_SIZE..HEADER_SIZE + size],
                  WordAt(raw, 20), WordAt(raw, 24), WordAt(raw, 28)))
  }

  function RawBlock(data: seq<Byte>, i: nat): (raw: seq<Byte>)
    requires (i + 1) * BLOCK_SIZE <= |data|
    ensures |raw| == BLOCK_SIZE
  {
    data[i * BLOCK_SIZE..(i + 1) * BLOCK_SIZE]
  }

  function ParseBlocks(data: seq<Byte>, n: nat): (r: Result<seq<Block>, LayoutError>)
    requires n * BLOCK_SIZE <= |data|
    ensures r.Ok? ==> |r.value| == n && forall b | b in r.value :: |b.payload| <= MAX_PAYLOAD
  {
    if n == 0 then Ok([]) else
    var before :- ParseBlocks(data, n - 1);
    var last :- ParseBlock(RawBlock(data, n - 1), n - 1);
    Ok(before + [last])
  }

  /** `parse_uf2`. */
  function Parse(data: seq<Byte>): Result<seq<Block>, LayoutError> {
    if |data| == 0 || |data| % BLOCK_SIZE != 0 then Err(BadLength(|data|))
    else ParseBlocks(data, |data| / BLOCK_SIZE)
  }

  method ReadUf2(data: seq<Byte>) returns (r: Result<seq<Block>, LayoutError>)
    ensures r == Parse(data)
  {
    if |data| == 0 || |data| % BLOCK_SIZE != 0 {
      return Err(BadLength(|data|));
    }
    hide ParseBlock;
    var blocks := [];
    var n := |data| / BLOCK_SIZE;
    for i := 0 to n
      invariant ParseBlocks(data, i) == Ok(blocks)
    {
      var block := ParseBlock(RawBlock(data, i), i);
      if block.Err? {
        ParseStaysErr(data, i + 1, n);
        return Err(block.error);
      }
      blocks := blocks + [block.value];
    }
    r := Ok(blocks);
  }

  lemma {:induction false} ParseStaysErr(data: seq<Byte>, m: nat, n: nat)
    requires m <= n && n * BLOCK_SIZE <= |data| && ParseBlocks(data, m).Err?
    ensures ParseBlocks(data, n) == ParseBlocks(data, m)
  {
    hide ParseBlock, RawBlock;
    if m < n {
      ParseStaysErr(data, m, n - 1);
    }
  }

  // ------------------------------------------------------------------- checking

  datatype Region = Region(origin: nat, length: nat) {
    predicate ContainsRange(start: nat, n: nat) { start >= origin && start + n <= origin + length }
  }

  datatype Problem =
    | NoFlashRegion
    | WrongCount(block: nat)
    | WrongNumber(block: nat)
    | WrongFamily(block: nat)
    | FamilyIgnored(block: nat)
    | WrongAddress(block: nat)
    | OutsideFlash(block: nat)
    | WrongContents

  predicate HasFamilyFlag(flags: nat) { flags / FLAG_FAMILY_ID_PRESENT % 2 == 1 }

  function BlockProblems(b: Block, i: nat, total: nat, flash: Region, base: nat, family: nat): seq<Problem> {
    (if b.numBlocks != total then [WrongCount(i)] else [])
    + (if b.blockNo != i then [WrongNumber(i)] else [])
    + (if b.family != family then [WrongFamily(i)] else [])
    + (if !HasFamilyFlag(b.flags) then [FamilyIgnored(i)] else [])
    + (if b.address != base + i * PAYLOAD_SIZE then [WrongAddress(i)] else [])
    + (if !flash.ContainsRange(b.address, |b.payload|) then [OutsideFlash(i)] else [])
  }

  function ProblemsTo(blocks: seq<Block>, n: nat, flash: Region, base: nat, family: nat): seq<Problem>
    requires n <= |blocks|
  {
    if n == 0 then []
    else ProblemsTo(blocks, n - 1, flash, base, family)
         + BlockProblems(blocks[n - 1], n - 1, |blocks|, flash, base, family)
  }

  /** The payloads, end to end. */
  function Rebuilt(blocks: seq<Block>): seq<Byte> {
    if blocks == [] then [] else Rebuilt(blocks[..|blocks| - 1]) + blocks[|blocks| - 1].payload
  }

  /** `check_uf2`; `flash` is the memory map's FLASH region, if it has one. */
  function Check(blocks: seq<Block>, flash: Option<Region>, expected: seq<Byte>, base: nat, family: nat): seq<Problem> {
    if flash.None? then [NoFlashRegion]
    else ProblemsTo(blocks, |blocks|, flash.value, base, family)
         + if Rebuilt(blocks) != expected then [WrongContents] else []
  }

  method CheckUf2(blocks: seq<Block>, flash: Option<Region>, expected: seq<Byte>, base: nat, family: nat)
      returns (problems: seq<Problem>)
    ensures problems == Check(blocks, flash, expected, base, family)
  {
    if flash.None? {
      return [NoFlashRegion];
    }
    hide BlockProblems;
    problems := [];
    var rebuilt := [];
    for i := 0 to |blocks|
      invariant problems == ProblemsTo(blocks, i, flash.value, base, family)
      invariant rebuilt == Rebuilt(blocks[..i])
    {
      var found := CheckBlock(blocks[i], i, |blocks|, flash.value, base, family);
      problems := problems + found;
      assert blocks[..i + 1][..i] == blocks[..i];
      rebuilt := rebuilt + blocks[i].payload;
    }
    assert blocks[..|blocks|] == blocks;
    if rebuilt != expected {
      problems := problems + [WrongContents];
    }
  }

  method CheckBlock(b: Block, i: nat, total: nat, flash: Region, base: nat, family: nat)
      returns (problems: seq<Problem>)
    ensures problems == BlockProblems(b, i, total, flash, base, family)
  {
    problems := if b.numBlocks != total then [WrongCount(i)] else [];
    problems := problems + if b.blockNo != i then [WrongNumber(i)] else [];
    problems := problems + if b.family != family then [WrongFamily(i)] else [];
    problems := problems + if !HasFamilyFlag(b.flags) then [FamilyIgnored(i)] else [];
    problems := problems + if b.address != base + i * PAYLOAD_SIZE then [WrongAddress(i)] else [];
    problems := problems + if !flash.ContainsRange(b.address, |b.payload|) then [OutsideFlash(i)] else [];
  }

  // ------------------------------------------------------------------- reading back

  /** The dictionary of payloads by address; of two at one address, the later. */
  function ByAddress(blocks: seq<Block>): map<nat, seq<Byte>> {
    if blocks == [] then map[]
    else ByAddress(blocks[..|blocks| - 1])[blocks[|blocks| - 1].address := blocks[|blocks| - 1].payload]
  }

  function BaseOf(addr: nat): (b: nat)
    ensures b <= addr < b + PAYLOAD_SIZE
  {
    addr - addr % PAYLOAD_SIZE
  }

  /** `chunk[off:]`, which is empty past the end. */
  function From(chunk: seq<Byte>, off: nat): seq<Byte> { if off <= |chunk| then chunk[off..] else [] }

  /** Whether the loop of `flash_image` ends: it never meets a block that does not reach
      past the address it is looking for. */
  predicate Ends(chunks: map<nat, seq<Byte>>, addr: nat, end: nat)
    decreases end - addr
  {
    addr >= end || BaseOf(addr) !in chunks ||
    (BaseOf(addr) + |chunks[BaseOf(addr)]| > addr && Ends(chunks, BaseOf(addr) + |chunks[BaseOf(addr)]|, end))
  }

  function Gathered(chunks: map<nat, seq<Byte>>, addr: nat, end: nat): seq<Byte>
    requires Ends(chunks, addr, end)
    decreases end - addr
  {
    if addr >= end || BaseOf(addr) !in chunks then []
    else
      var base: nat := BaseOf(addr);
      From(chunks[base], addr - base) + Gathered(chunks, base + |chunks[base]|, end)
  }

  /** `flash_image`, for the calls on which it returns. */
  method FlashImage(uf2: seq<Byte>, origin: nat, length: nat) returns (r: Result<seq<Byte>, LayoutError>)
    requires Parse(uf2).Ok? ==> Ends(ByAddress(Parse(uf2).value), origin, origin + length)
    ensures r.Err? <==> Parse(uf2).Err?
    ensures r.Ok? ==>
            var image := Gathered(ByAddress(Parse(uf2).value), origin, origin + length);
            r.value == image[..Min(length, |image|)]
  {
    var blocks := ReadUf2(uf2);
    if blocks.Err? {
      return Err(blocks.error);
    }
    hide Parse, Gathered, Ends;
    var out := Gather(ByAddress(blocks.value), origin, origin + length);
    r := Ok(out[..Min(length, |out|)]);
  }

  method Gather(chunks: map<nat, seq<Byte>>, origin: nat, end: nat) returns (out: seq<Byte>)
    requires Ends(chunks, origin, end)
    ensures out == Gathered(chunks, origin, end)
  {
    hide BaseOf, From;
    out := [];
    var addr: nat := origin;
    while addr < end
      invariant Ends(chunks, addr, end)
      invariant Gathered(chunks, origin, end) == out + Gathered(chunks, addr, end)
      decreases end - addr
    {
      var base: nat := BaseOf(addr);
      if base !in chunks {
        break;
      }
      var chunk := chunks[base];
      ghost var rest := Gathered(chunks, base + |chunk|, end);
      assert out + (From(chunk, addr - base) + rest) == out + From(chunk, addr - base) + rest;
      out := out + From(chunk, addr - base);
      addr := base + |chunk|;
    }
    assert Gathered(chunks, addr, end) == [];
  }
}
