/** Writing, reading, checking and reading back agree -- and where they do not. */
module Uf2Laws {
  import opened Bytes
  import opened Numbers
  import opened Results
  import opened Uf2

  // ------------------------------------------------------------ one block and back

  lemma WordInverts(n: nat)
    requires n < U32
    ensures FromLittleEndian(Word(n)) == n
  {
    assert Pow256(2) == 0x1_0000 && Pow256(3) == 0x100_0000 && Pow256(4) == U32;
    LittleEndianInverts(n, 4);
  }

  /** Where each word of a header lies. */
  lemma HeaderWords(b: Block)
    ensures var h := HeaderBytes(b);
            && h[0..4] == Word(MAGIC_START0) && h[4..8] == Word(MAGIC_START1) && h[8..12] == Word(b.flags)
            && h[12..16] == Word(b.address) && h[16..20] == Word(|b.payload|) && h[20..24] == Word(b.blockNo)
            && h[24..28] == Word(b.numBlocks) && h[28..32] == Word(b.family)
  {
    hide Word;
  }

  lemma BlockWords(b: Block)
    requires |b.payload| <= MAX_PAYLOAD
    ensures var raw := BlockBytes(b);
            && raw[..HEADER_SIZE] == HeaderBytes(b)
            && raw[HEADER_SIZE..HEADER_SIZE + |b.payload|] == b.payload
            && raw[BLOCK_SIZE - 4..BLOCK_SIZE] == Word(MAGIC_END)
  {
    hide HeaderBytes, Word, Zeros;
  }

  lemma WordOf(raw: seq<Byte>, h: seq<Byte>, i: nat, n: nat)
    requires |raw| >= HEADER_SIZE == |h| && raw[..HEADER_SIZE] == h && i + 4 <= HEADER_SIZE
    requires h[i..i + 4] == Word(n) && n < U32
    ensures WordAt(raw, i) == n
  {
    hide Word;
    WordInverts(n);
    assert raw[i..i + 4] == raw[..HEADER_SIZE][i..i + 4];
  }

  lemma BlockRoundTrip(b: Block, i: nat)
    requires |b.payload| <= MAX_PAYLOAD && WordsFit(b)
    ensures ParseBlock(BlockBytes(b), i) == Ok(b)
  {
    hide BlockBytes, HeaderBytes, Word, WordAt;
    var raw, h := BlockBytes(b), HeaderBytes(b);
    BlockWords(b);
    HeaderWords(b);
    WordOf(raw, h, 0, MAGIC_START0);
    WordOf(raw, h, 4, MAGIC_START1);
    WordOf(raw, h, 8, b.flags);
    WordOf(raw, h, 12, b.address);
    WordOf(raw, h, 16, |b.payload|);
    WordOf(raw, h, 20, b.blockNo);
    WordOf(raw, h, 24, b.numBlocks);
    WordOf(raw, h, 28, b.family);
    EndMagic(raw);
  }

  lemma EndMagic(raw: seq<Byte>)
    requires |raw| == BLOCK_SIZE && raw[BLOCK_SIZE - 4..BLOCK_SIZE] == Word(MAGIC_END)
    ensures WordAt(raw, BLOCK_SIZE - 4) == MAGIC_END
  {
    hide Word;
    WordInverts(MAGIC_END);
  }

  // ------------------------------------------------------------- a file and back

  lemma {:induction false} SerialisedParses(blocks: seq<Block>)
    requires forall b | b in blocks :: |b.payload| <= MAX_PAYLOAD
    requires Serialised(blocks).Ok?
    ensures |Serialised(blocks).value| == |blocks| * BLOCK_SIZE
    ensures ParseBlocks(Serialised(blocks).value, |blocks|) == Ok(blocks)
  {
    hide BlockBytes, ParseBlock;
    if blocks != [] {
      var n := |blocks| - 1;
      var before, last := blocks[..n], blocks[n];
      SerialisedParses(before);
      var front, data := Serialised(before).value, Serialised(blocks).value;
      assert data == front + BlockBytes(last);
      PrefixParses(front, data, n);
      assert RawBlock(data, n) == BlockBytes(last);
      BlockRoundTrip(last, n);
      assert blocks == before + [last];
    }
  }

  lemma {:induction false} PrefixParses(a: seq<Byte>, b: seq<Byte>, n: nat)
    requires n * BLOCK_SIZE <= |a| && a <= b
    ensures ParseBlocks(b, n) == ParseBlocks(a, n)
  {
    hide ParseBlock;
    if n > 0 {
      PrefixParses(a, b, n - 1);
      assert RawBlock(a, n - 1) == RawBlock(b, n - 1);
    }
  }

  lemma {:induction false} FitsIff(blocks: seq<Block>)
    requires forall b | b in blocks :: |b.payload| <= MAX_PAYLOAD
    ensures Serialised(blocks).Ok? <==> forall b | b in blocks :: WordsFit(b)
  {
    hide BlockBytes, WordsFit;
    if blocks != [] {
      FitsIff(blocks[..|blocks| - 1]);
      assert blocks == blocks[..|blocks| - 1] + [blocks[|blocks| - 1]];
    }
  }

  /** A binary can be written exactly when it is not empty and its addresses, its family
      and its count of blocks fit in words; and then the file reads back as its blocks. */
  lemma FileRoundTrip(data: seq<Byte>, base: nat, family: nat)
    ensures ToUf2(data, base, family).Ok? <==>
            data != [] && family < U32 && BlockCount(data) < U32 && base + (BlockCount(data) - 1) * PAYLOAD_SIZE < U32
    ensures ToUf2(data, base, family).Ok? ==>
            Parse(ToUf2(data, base, family).value) == Ok(BlocksOf(data, base, family, BlockCount(data)))
  {
    var n := BlockCount(data);
    if n > 0 {
      var blocks := BlocksOf(data, base, family, n);
      FitsIff(blocks);
      BlocksFitIff(data, base, family);
      hide Serialised, Parse, BlocksOf, WordsFit, BlockCount;
      if Serialised(blocks).Ok? {
        SerialisedParses(blocks);
        ParsesWhole(Serialised(blocks).value, n);
      }
    }
  }

  lemma ParsesWhole(data: seq<Byte>, n: nat)
    requires n > 0 && |data| == n * BLOCK_SIZE
    ensures Parse(data) == ParseBlocks(data, n)
  {
    hide ParseBlocks;
  }

  lemma BlocksFitIff(data: seq<Byte>, base: nat, family: nat)
    requires BlockCount(data) > 0
    ensures (forall b | b in BlocksOf(data, base, family, BlockCount(data)) :: WordsFit(b)) <==>
            family < U32 && BlockCount(data) < U32 && base + (BlockCount(data) - 1) * PAYLOAD_SIZE < U32
  {
    hide BlockCount, Chunk;
    var n := BlockCount(data);
    var blocks := BlocksOf(data, base, family, n);
    assert blocks[n - 1] in blocks && blocks[n - 1] == BlockOf(data, base, family, n - 1);
    if family < U32 && n < U32 && base + (n - 1) * PAYLOAD_SIZE < U32 {
      forall b | b in blocks ensures WordsFit(b) {
        var i :| 0 <= i < n && blocks[i] == b;
        assert b == BlockOf(data, base, family, i) && i * PAYLOAD_SIZE <= (n - 1) * PAYLOAD_SIZE;
      }
    } else {
      assert !WordsFit(blocks[n - 1]);
    }
  }

  // --------------------------------------------------------- what a clean check says

  lemma {:induction false} NoProblemsIff(blocks: seq<Block>, n: nat, flash: Region, base: nat, family: nat)
    requires n <= |blocks|
    ensures ProblemsTo(blocks, n, flash, base, family) == [] <==>
            forall i | 0 <= i < n :: BlockProblems(blocks[i], i, |blocks|, flash, base, family) == []
  {
    hide BlockProblems;
    if n > 0 {
      NoProblemsIff(blocks, n - 1, flash, base, family);
    }
  }

  /** A block in its place: number, count, family, address, and inside FLASH. */
  predicate InPlace(b: Block, i: nat, total: nat, flash: Region, base: nat, family: nat) {
    && b.numBlocks == total && b.blockNo == i && b.family == family && HasFamilyFlag(b.flags)
    && b.address == base + i * PAYLOAD_SIZE && flash.ContainsRange(b.address, |b.payload|)
  }

  lemma BlockCleanIff(b: Block, i: nat, total: nat, flash: Region, base: nat, family: nat)
    ensures BlockProblems(b, i, total, flash, base, family) == [] <==> InPlace(b, i, total, flash, base, family)
  {
  }

  /** `check_uf2` reports nothing exactly when every block is in its place and the payloads
      end to end are the binary. */
  lemma CheckIsCleanIff(blocks: seq<Block>, flash: Region, expected: seq<Byte>, base: nat, family: nat)
    ensures Check(blocks, Some(flash), expected, base, family) == [] <==>
            (forall i | 0 <= i < |blocks| :: InPlace(blocks[i], i, |blocks|, flash, base, family))
            && Rebuilt(blocks) == expected
  {
    NoProblemsIff(blocks, |blocks|, flash, base, family);
    forall i | 0 <= i < |blocks|
      ensures BlockProblems(blocks[i], i, |blocks|, flash, base, family) == []
              <==> InPlace(blocks[i], i, |blocks|, flash, base, family)
    {
      BlockCleanIff(blocks[i], i, |blocks|, flash, base, family);
    }
    hide BlockProblems, InPlace;
  }

  lemma OneMoreRebuilt(blocks: seq<Block>, last: Block)
    ensures Rebuilt(blocks + [last]) == Rebuilt(blocks) + last.payload
  {
    assert (blocks + [last])[..|blocks|] == blocks;
  }

  lemma SlicesJoin(data: seq<Byte>, i: nat, j: nat)
    requires i <= j <= |data|
    ensures data[..i] + data[i..j] == data[..j]
  {
  }

  /** Where a chunk lies, and that only the last is partial. */
  lemma ChunkEnds(data: seq<Byte>, i: nat)
    requires i < BlockCount(data)
    ensures var stop := Min((i + 1) * PAYLOAD_SIZE, |data|);
            i * PAYLOAD_SIZE < stop && Chunk(data, i) == data[i * PAYLOAD_SIZE..stop]
            && |Chunk(data, i)| == stop - i * PAYLOAD_SIZE
    ensures i == BlockCount(data) - 1 ==> i * PAYLOAD_SIZE + |Chunk(data, i)| == |data|
    ensures i < BlockCount(data) - 1 ==> |Chunk(data, i)| == PAYLOAD_SIZE
  {
    CountBounds(data);
  }

  lemma CountBounds(data: seq<Byte>)
    ensures |data| <= BlockCount(data) * PAYLOAD_SIZE < |data| + PAYLOAD_SIZE
    ensures BlockCount(data) * PAYLOAD_SIZE == |data| <==> |data| % PAYLOAD_SIZE == 0
  {
  }

  lemma {:induction false} ChunksRebuild(data: seq<Byte>, base: nat, family: nat, n: nat)
    requires n <= BlockCount(data)
    ensures Rebuilt(BlocksOf(data, base, family, n)) == data[..Min(n * PAYLOAD_SIZE, |data|)]
  {
    hide Rebuilt, Chunk, BlockCount;
    if n == 0 {
      NothingRebuilt();
    } else {
      ChunksRebuild(data, base, family, n - 1);
      OneMoreRebuilt(BlocksOf(data, base, family, n - 1), BlockOf(data, base, family, n - 1));
      ChunkEnds(data, n - 1);
      SlicesJoin(data, (n - 1) * PAYLOAD_SIZE, Min(n * PAYLOAD_SIZE, |data|));
    }
  }

  lemma NothingRebuilt()
    ensures Rebuilt([]) == []
  {
  }

  /** What is written passes its own check exactly when the image lies in FLASH. */
  lemma WrittenChecksIff(data: seq<Byte>, base: nat, family: nat, flash: Region)
    requires data != []
    ensures var blocks := BlocksOf(data, base, family, BlockCount(data));
            && Rebuilt(blocks) == data
            && (Check(blocks, Some(flash), data, base, family) == [] <==> flash.ContainsRange(base, |data|))
  {
    hide Rebuilt, Check, BlocksOf, Chunk, BlockCount, InPlace;
    var n := BlockCount(data);
    var blocks := BlocksOf(data, base, family, n);
    CountBounds(data);
    ChunksRebuild(data, base, family, n);
    assert data[..|data|] == data;
    CheckIsCleanIff(blocks, flash, data, base, family);
    forall i | 0 <= i < n
      ensures InPlace(blocks[i], i, n, flash, base, family)
              <==> flash.ContainsRange(base + i * PAYLOAD_SIZE, |Chunk(data, i)|)
      ensures flash.ContainsRange(base, |data|) ==> InPlace(blocks[i], i, n, flash, base, family)
    {
      BlockInPlaceIff(data, base, family, flash, i);
    }
    ChunkEnds(data, n - 1);
    assert InPlace(blocks[0], 0, n, flash, base, family) ==> base >= flash.origin;
    assert InPlace(blocks[n - 1], n - 1, n, flash, base, family) ==> base + |data| <= flash.origin + flash.length;
  }

  lemma BlockInPlaceIff(data: seq<Byte>, base: nat, family: nat, flash: Region, i: nat)
    requires i < BlockCount(data)
    ensures InPlace(BlockOf(data, base, family, i), i, BlockCount(data), flash, base, family)
            <==> flash.ContainsRange(base + i * PAYLOAD_SIZE, |Chunk(data, i)|)
    ensures flash.ContainsRange(base, |data|) ==> flash.ContainsRange(base + i * PAYLOAD_SIZE, |Chunk(data, i)|)
  {
    hide Chunk, BlockCount;
    ChunkEnds(data, i);
    assert HasFamilyFlag(FLAG_FAMILY_ID_PRESENT);
  }

  // --------------------------------------------------- what the bootloader would write

  /** The byte the blocks leave at an address, written in order. */
  function ByteAt(blocks: seq<Block>, addr: nat): Option<Byte> {
    if blocks == [] then None
    else
      var b := blocks[|blocks| - 1];
      if b.address <= addr < b.address + |b.payload| then Some(b.payload[addr - b.address])
      else ByteAt(blocks[..|blocks| - 1], addr)
  }

  /** The byte the binary wants at an address. */
  function Wanted(base: nat, data: seq<Byte>, addr: nat): Option<Byte> {
    if base <= addr < base + |data| then Some(data[addr - base]) else None
  }

  /** Each block that carries anything has been preceded by 256 bytes for each one before
      it. So it is when every block but the last carries 256. */
  predicate Stepped(blocks: seq<Block>) {
    forall i | 0 <= i < |blocks| :: blocks[i].payload != [] ==> |Rebuilt(blocks[..i])| == i * PAYLOAD_SIZE
  }

  lemma {:induction false} FullBlocksAreStepped(blocks: seq<Block>, n: nat)
    requires n <= |blocks| && forall i | 0 <= i < n :: |blocks[i].payload| == PAYLOAD_SIZE
    ensures |Rebuilt(blocks[..n])| == n * PAYLOAD_SIZE
  {
    if n > 0 {
      FullBlocksAreStepped(blocks, n - 1);
      assert blocks[..n][..n - 1] == blocks[..n - 1];
    }
  }

  lemma {:induction false} SteppedWrites(blocks: seq<Block>, n: nat, base: nat, addr: nat)
    requires n <= |blocks| && Stepped(blocks)
    requires forall i | 0 <= i < |blocks| :: blocks[i].address == base + i * PAYLOAD_SIZE
    ensures ByteAt(blocks[..n], addr) == Wanted(base, Rebuilt(blocks[..n]), addr)
  {
    if n > 0 {
      SteppedWrites(blocks, n - 1, base, addr);
      assert blocks[..n][..n - 1] == blocks[..n - 1];
      assert Rebuilt(blocks[..n]) == Rebuilt(blocks[..n - 1]) + blocks[n - 1].payload;
    }
  }

  /** A clean check of stepped blocks means what it says: the bytes written are the binary
      at its base, and nothing else. */
  lemma CleanCheckWritesExpected(blocks: seq<Block>, flash: Region, expected: seq<Byte>, base: nat, family: nat,
                                 addr: nat)
    requires Check(blocks, Some(flash), expected, base, family) == [] && Stepped(blocks)
    ensures ByteAt(blocks, addr) == Wanted(base, expected, addr)
  {
    CheckIsCleanIff(blocks, flash, expected, base, family);
    hide Check, Stepped;
    SteppedWrites(blocks, |blocks|, base, addr);
    assert blocks[..|blocks|] == blocks;
  }

  /** `size` zeros, the first of them a one if it is `marked`. */
  function MarkedPayload(size: nat, marked: bool): (s: seq<Byte>)
    ensures |s| == size && forall j | 0 <= j < size :: s[j] == 1 ==> marked && j == 0
  {
    if marked && size > 0 then [1] + Zeros(size - 1) else Zeros(size)
  }

  /** Blocks of the given sizes, all zero but for a one at the front of block `marked`. */
  function MarkedBlocks(sizes: seq<nat>, total: nat, marked: nat, base: nat, family: nat): (bs: seq<Block>)
    ensures |bs| == |sizes|
  {
    if sizes == [] then []
    else
      var n := |sizes| - 1;
      MarkedBlocks(sizes[..n], total, marked, base, family)
      + [Block(FLAG_FAMILY_ID_PRESENT, base + n * PAYLOAD_SIZE,
               MarkedPayload(sizes[n], n == marked), n, total, family)]
  }

  function SumTo(sizes: seq<nat>): nat {
    if sizes == [] then 0 else SumTo(sizes[..|sizes| - 1]) + sizes[|sizes| - 1]
  }

  lemma {:induction false} MarkedBlock(sizes: seq<nat>, total: nat, marked: nat, base: nat, family: nat, i: nat)
    requires i < |sizes|
    ensures var b := MarkedBlocks(sizes, total, marked, base, family)[i];
            b == Block(FLAG_FAMILY_ID_PRESENT, base + i * PAYLOAD_SIZE, MarkedPayload(sizes[i], i == marked),
                       i, total, family)
            && |b.payload| == sizes[i]
  {
    if i < |sizes| - 1 {
      MarkedBlock(sizes[..|sizes| - 1], total, marked, base, family, i);
    }
  }

  lemma OneMoreMarked(sizes: seq<nat>, total: nat, marked: nat, base: nat, family: nat)
    requires sizes != []
    ensures var n := |sizes| - 1;
            && Rebuilt(MarkedBlocks(sizes, total, marked, base, family))
               == Rebuilt(MarkedBlocks(sizes[..n], total, marked, base, family)) + MarkedPayload(sizes[n], n == marked)
            && SumTo(sizes) == SumTo(sizes[..n]) + sizes[n]
  {
    hide Rebuilt;
    var n := |sizes| - 1;
    OneMoreRebuilt(MarkedBlocks(sizes[..n], total, marked, base, family),
                   MarkedBlocks(sizes, total, marked, base, family)[n]);
  }

  lemma NothingMarked(total: nat, marked: nat, base: nat, family: nat)
    ensures Rebuilt(MarkedBlocks([], total, marked, base, family)) == [] && SumTo([]) == 0
  {
  }

  lemma {:induction false} MarkedRebuilt(sizes: seq<nat>, total: nat, marked: nat, base: nat, family: nat)
    ensures var data := Rebuilt(MarkedBlocks(sizes, total, marked, base, family));
            && |data| == SumTo(sizes)
            && forall j | 0 <= j < |data| :: data[j] == 1 ==> marked < |sizes| && j == SumTo(sizes[..marked])
  {
    hide Rebuilt, MarkedBlocks, SumTo, MarkedPayload;
    if sizes == [] {
      NothingMarked(total, marked, base, family);
    } else {
      var n := |sizes| - 1;
      MarkedRebuilt(sizes[..n], total, marked, base, family);
      OneMoreMarked(sizes, total, marked, base, family);
      if marked < n {
        assert sizes[..n][..marked] == sizes[..marked];
      }
    }
  }

  lemma {:induction false} LaterBlocksAreHigher(blocks: seq<Block>, n: nat, addr: nat)
    requires n < |blocks|
    requires forall i | n < i < |blocks| :: addr < blocks[i].address
    requires blocks[n].address <= addr < blocks[n].address + |blocks[n].payload|
    ensures ByteAt(blocks, addr) == Some(blocks[n].payload[addr - blocks[n].address])
    decreases |blocks|
  {
    if n < |blocks| - 1 {
      LaterBlocksAreHigher(blocks[..|blocks| - 1], n, addr);
    }
  }

  /** Otherwise the check is no guarantee: for any sizes that step out of line at a block
      that carries something, there are contents of those sizes that pass, and that the
      bootloader would write wrongly. */
  lemma UnsteppedCheckGuaranteesNothing(sizes: seq<nat>, i: nat, base: nat, family: nat)
    requires forall k | 0 <= k < |sizes| :: sizes[k] <= MAX_PAYLOAD
    requires i < |sizes| && sizes[i] > 0 && SumTo(sizes[..i]) != i * PAYLOAD_SIZE
    ensures var blocks := MarkedBlocks(sizes, |sizes|, i, base, family);
            var flash := Region(base, |sizes| * PAYLOAD_SIZE + MAX_PAYLOAD);
            && (forall k | 0 <= k < |sizes| :: |blocks[k].payload| == sizes[k])
            && Check(blocks, Some(flash), Rebuilt(blocks), base, family) == []
            && ByteAt(blocks, base + i * PAYLOAD_SIZE) != Wanted(base, Rebuilt(blocks), base + i * PAYLOAD_SIZE)
  {
    hide Check, Rebuilt, MarkedBlocks, InPlace, SumTo, ByteAt;
    var n := |sizes|;
    var blocks := MarkedBlocks(sizes, n, i, base, family);
    var flash := Region(base, n * PAYLOAD_SIZE + MAX_PAYLOAD);
    forall k | 0 <= k < n
      ensures InPlace(blocks[k], k, n, flash, base, family) && |blocks[k].payload| == sizes[k]
      ensures blocks[k].address == base + k * PAYLOAD_SIZE
    {
      MarkedBlock(sizes, n, i, base, family, k);
      MarkedBlockIsInPlace(blocks[k], k, n, base, family);
    }
    CheckIsCleanIff(blocks, flash, Rebuilt(blocks), base, family);
    MarkedBlock(sizes, n, i, base, family, i);
    LaterBlocksAreHigher(blocks, i, base + i * PAYLOAD_SIZE);
    MarkIsElsewhere(sizes, i, base, family);
  }

  /** The binary the marked blocks spell has no one where its block is to be written. */
  lemma MarkIsElsewhere(sizes: seq<nat>, i: nat, base: nat, family: nat)
    requires i < |sizes| && SumTo(sizes[..i]) != i * PAYLOAD_SIZE
    ensures Wanted(base, Rebuilt(MarkedBlocks(sizes, |sizes|, i, base, family)), base + i * PAYLOAD_SIZE) != Some(1)
  {
    hide Rebuilt, MarkedBlocks, SumTo;
    MarkedRebuilt(sizes, |sizes|, i, base, family);
  }

  lemma MarkedBlockIsInPlace(b: Block, k: nat, n: nat, base: nat, family: nat)
    requires k < n && |b.payload| <= MAX_PAYLOAD
    requires b == Block(FLAG_FAMILY_ID_PRESENT, base + k * PAYLOAD_SIZE, b.payload, k, n, family)
    ensures InPlace(b, k, n, Region(base, n * PAYLOAD_SIZE + MAX_PAYLOAD), base, family)
  {
  }

  /** And those blocks are a file: `parse_uf2` reads them from its bytes. */
  lemma MarkedBlocksAreAFile(sizes: seq<nat>, i: nat, base: nat, family: nat)
    requires forall k | 0 <= k < |sizes| :: sizes[k] <= MAX_PAYLOAD
    requires sizes != [] && family < U32 && |sizes| < U32 && base + (|sizes| - 1) * PAYLOAD_SIZE < U32
    ensures var blocks := MarkedBlocks(sizes, |sizes|, i, base, family);
            && (forall b | b in blocks :: |b.payload| <= MAX_PAYLOAD)
            && Serialised(blocks).Ok? && Parse(Serialised(blocks).value) == Ok(blocks)
  {
    hide MarkedBlocks, Serialised, Parse, ParseBlocks;
    var n := |sizes|;
    var blocks := MarkedBlocks(sizes, n, i, base, family);
    forall b | b in blocks ensures |b.payload| <= MAX_PAYLOAD && WordsFit(b) {
      var k :| 0 <= k < n && blocks[k] == b;
      MarkedBlock(sizes, n, i, base, family, k);
      assert k * PAYLOAD_SIZE <= (n - 1) * PAYLOAD_SIZE;
    }
    FitsIff(blocks);
    SerialisedParses(blocks);
    ParsesWhole(Serialised(blocks).value, n);
  }

  /** A file of two blocks that passes and is written wrongly: a zero and a one, 256 apart. */
  lemma APassingFileIsWrittenWrongly(base: nat, family: nat)
    requires base + PAYLOAD_SIZE < U32 && family < U32
    ensures var blocks := MarkedBlocks([1, 1], 2, 1, base, family);
            && (forall b | b in blocks :: |b.payload| <= MAX_PAYLOAD)
            && Serialised(blocks).Ok? && Parse(Serialised(blocks).value) == Ok(blocks)
            && Check(blocks, Some(Region(base, 2 * PAYLOAD_SIZE + MAX_PAYLOAD)), Rebuilt(blocks), base, family) == []
            && ByteAt(blocks, base + PAYLOAD_SIZE) != Wanted(base, Rebuilt(blocks), base + PAYLOAD_SIZE)
  {
    hide MarkedBlocks, Serialised, Parse, Check, Rebuilt, ByteAt;
    var sizes := [1, 1];
    assert sizes[..1][..0] == [] && SumTo(sizes[..1]) == 1;
    UnsteppedCheckGuaranteesNothing(sizes, 1, base, family);
    MarkedBlocksAreAFile(sizes, 1, base, family);
  }

  // ------------------------------------------------------------ reading a window back

  /** One pass of the loop in `flash_image`. */
  function LoopStep(chunks: map<nat, seq<Byte>>, addr: nat): nat
    requires BaseOf(addr) in chunks
  {
    BaseOf(addr) + |chunks[BaseOf(addr)]|
  }

  /** Where the loop's address stands after `n` passes; nowhere if it has ended by then. */
  function LoopAt(chunks: map<nat, seq<Byte>>, addr: nat, end: nat, n: nat): Option<nat> {
    if n == 0 then Some(addr)
    else
      match LoopAt(chunks, addr, end, n - 1)
      case None => None
      case Some(a) => if a >= end || BaseOf(a) !in chunks then None else Some(LoopStep(chunks, a))
  }

  lemma {:induction false} LoopShifts(chunks: map<nat, seq<Byte>>, addr: nat, end: nat, n: nat)
    requires addr < end && BaseOf(addr) in chunks
    ensures LoopAt(chunks, addr, end, n + 1) == LoopAt(chunks, LoopStep(chunks, addr), end, n)
  {
    if n > 0 {
      LoopShifts(chunks, addr, end, n - 1);
    }
  }

  lemma {:induction false} Stuck(chunks: map<nat, seq<Byte>>, addr: nat, end: nat, n: nat)
    requires addr < end && BaseOf(addr) in chunks && LoopStep(chunks, addr) == addr
    ensures LoopAt(chunks, addr, end, n) == Some(addr)
  {
    if n > 0 {
      Stuck(chunks, addr, end, n - 1);
    }
  }

  /** The loop ends if and only if `Ends` says so: a block too short to reach past the
      address sought is met again for ever. */
  lemma {:induction false} LoopEndsIff(chunks: map<nat, seq<Byte>>, addr: nat, end: nat)
    ensures Ends(chunks, addr, end) <==> exists n: nat :: LoopAt(chunks, addr, end, n).None?
    decreases end - addr
  {
    if addr >= end || BaseOf(addr) !in chunks {
      assert LoopAt(chunks, addr, end, 0) == Some(addr);
      assert LoopAt(chunks, addr, end, 1).None?;
    } else {
      var next := LoopStep(chunks, addr);
      if next > addr {
        LoopEndsIff(chunks, next, end);
        if n: nat :| LoopAt(chunks, addr, end, n).None? {
          LoopShifts(chunks, addr, end, n - 1);
        }
        if n: nat :| LoopAt(chunks, next, end, n).None? {
          LoopShifts(chunks, addr, end, n);
          assert LoopAt(chunks, addr, end, n + 1).None?;
        }
      } else {
        assert BaseOf(next) == BaseOf(addr);
        forall n: nat ensures LoopAt(chunks, addr, end, n).Some? {
          if n > 0 {
            LoopShifts(chunks, addr, end, n - 1);
            Stuck(chunks, next, end, n - 1);
          }
        }
      }
    }
  }

  lemma {:induction false} ByAddressOf(data: seq<Byte>, base: nat, family: nat, n: nat, i: nat)
    requires n <= BlockCount(data)
    ensures var chunks := ByAddress(BlocksOf(data, base, family, n));
            && (base + i * PAYLOAD_SIZE in chunks <==> i < n)
            && (i < n ==> chunks[base + i * PAYLOAD_SIZE] == Chunk(data, i))
  {
    hide Chunk, BlockCount, ByAddress, BlocksOf;
    if n == 0 {
      NoAddresses();
    } else {
      ByAddressOf(data, base, family, n - 1, i);
      OneMoreAddress(BlocksOf(data, base, family, n));
      assert BlocksOf(data, base, family, n)[..n - 1] == BlocksOf(data, base, family, n - 1);
    }
  }

  lemma NoAddresses()
    ensures ByAddress([]) == map[]
  {
  }

  lemma OneMoreAddress(blocks: seq<Block>)
    requires blocks != []
    ensures var last := blocks[|blocks| - 1];
            ByAddress(blocks) == ByAddress(blocks[..|blocks| - 1])[last.address := last.payload]
  {
  }

  lemma BaseOfAligned(base: nat, addr: nat)
    requires base % PAYLOAD_SIZE == 0 && base <= addr
    ensures BaseOf(addr) == base + (addr - base) / PAYLOAD_SIZE * PAYLOAD_SIZE
  {
  }

  /** The dictionary of an image's blocks, for an aligned base. */
  lemma ChunkAt(data: seq<Byte>, base: nat, family: nat, addr: nat)
    requires base % PAYLOAD_SIZE == 0 && base <= addr
    ensures var chunks := ByAddress(BlocksOf(data, base, family, BlockCount(data)));
            var i := (addr - base) / PAYLOAD_SIZE;
            && BaseOf(addr) == base + i * PAYLOAD_SIZE
            && (BaseOf(addr) in chunks <==> i < BlockCount(data))
            && (BaseOf(addr) in chunks ==> chunks[BaseOf(addr)] == Chunk(data, i))
  {
    hide ByAddress, Chunk, BlockCount, BlocksOf, BaseOf;
    BaseOfAligned(base, addr);
    ByAddressOf(data, base, family, BlockCount(data), (addr - base) / PAYLOAD_SIZE);
  }

  /** What the block holding the byte at offset `at` gives, from that byte on. */
  lemma ChunkFrom(data: seq<Byte>, at: nat)
    requires at < |data|
    ensures var i := at / PAYLOAD_SIZE; var stop := Min((i + 1) * PAYLOAD_SIZE, |data|);
            && i < BlockCount(data) && at < stop <= |data|
            && i * PAYLOAD_SIZE + |Chunk(data, i)| == stop
            && From(Chunk(data, i), at - i * PAYLOAD_SIZE) == data[at..stop]
  {
    hide BlockCount, Chunk;
    var i := at / PAYLOAD_SIZE;
    assert i * PAYLOAD_SIZE <= at < (i + 1) * PAYLOAD_SIZE;
    CountBounds(data);
    ChunkEnds(data, i);
  }

  /** A window inside the image is read back, exactly. */
  lemma {:induction false} WindowReadsBack(data: seq<Byte>, base: nat, family: nat, addr: nat, end: nat)
    requires base % PAYLOAD_SIZE == 0 && base <= addr && end <= base + |data|
    ensures var chunks := ByAddress(BlocksOf(data, base, family, BlockCount(data)));
            && Ends(chunks, addr, end)
            && (addr <= end ==> data[addr - base..end - base] <= Gathered(chunks, addr, end))
    decreases end - addr
  {
    hide ByAddress, BlocksOf, Chunk, BlockCount, From, BaseOf;
    if addr < end {
      var chunks := ByAddress(BlocksOf(data, base, family, BlockCount(data)));
      ChunkAt(data, base, family, addr);
      ChunkFrom(data, addr - base);
      var i := (addr - base) / PAYLOAD_SIZE;
      var stop := Min((i + 1) * PAYLOAD_SIZE, |data|);
      WindowReadsBack(data, base, family, base + stop, end);
      assert Gathered(chunks, addr, end) == data[addr - base..stop] + Gathered(chunks, base + stop, end);
      if base + stop <= end {
        assert data[addr - base..end - base] == data[addr - base..stop] + data[stop..end - base];
      } else {
        assert data[addr - base..end - base] <= data[addr - base..stop];
      }
    }
  }

  /** `flash_image` of a written file, for a window inside it, is that window of the data. */
  lemma {:induction false} FlashImageIsTheData(data: seq<Byte>, base: nat, family: nat, origin: nat, length: nat)
    requires ToUf2(data, base, family).Ok? && base % PAYLOAD_SIZE == 0
    requires base <= origin && origin + length <= base + |data|
    ensures var parsed := Parse(ToUf2(data, base, family).value);
            && parsed.Ok? && Ends(ByAddress(parsed.value), origin, origin + length)
            && var image := Gathered(ByAddress(parsed.value), origin, origin + length);
               image[..Min(length, |image|)] == data[origin - base..origin - base + length]
  {
    FileRoundTrip(data, base, family);
    hide Parse, ToUf2, ByAddress, Gathered, Ends;
    WindowReadsBack(data, base, family, origin, origin + length);
  }

  /** Past the end of the data it is another matter: from anywhere at or after the base,
      the loop ends unless it has a last, partial block to run out of. */
  lemma {:induction false} ReadingPastTheEnd(data: seq<Byte>, base: nat, family: nat, addr: nat, end: nat)
    requires base % PAYLOAD_SIZE == 0 && base <= addr
    ensures Ends(ByAddress(BlocksOf(data, base, family, BlockCount(data))), addr, end) <==>
            addr >= end || end <= base + |data| || |data| % PAYLOAD_SIZE == 0
            || addr >= base + BlockCount(data) * PAYLOAD_SIZE
    decreases end - addr
  {
    hide ByAddress, BlocksOf, Chunk, BlockCount, BaseOf;
    if addr < end {
      var i := (addr - base) / PAYLOAD_SIZE;
      assert i * PAYLOAD_SIZE <= addr - base < (i + 1) * PAYLOAD_SIZE;
      ChunkAt(data, base, family, addr);
      CountBounds(data);
      if i < BlockCount(data) {
        ChunkEnds(data, i);
        var stop := base + Min((i + 1) * PAYLOAD_SIZE, |data|);
        if stop > addr {
          ReadingPastTheEnd(data, base, family, stop, end);
        }
      }
    }
  }

  /** As it does reading two bytes of a file of one. */
  lemma AWindowThatNeverEnds(byte: Byte, base: nat, family: nat)
    requires base % PAYLOAD_SIZE == 0
    ensures !Ends(ByAddress(BlocksOf([byte], base, family, BlockCount([byte]))), base, base + 2)
  {
    hide Ends, ByAddress, BlocksOf;
    ReadingPastTheEnd([byte], base, family, base, base + 2);
  }

  // --------------------------------------------------- a file somebody else wrote

  /** Blocks of 256 bytes at addresses that are multiples of 256, as the bootloader writes
      CURRENT.UF2. */
  predicate Regular(blocks: seq<Block>) {
    forall b | b in blocks :: |b.payload| == PAYLOAD_SIZE && b.address % PAYLOAD_SIZE == 0
  }

  lemma AlignedHolds(b: nat, addr: nat)
    requires b % PAYLOAD_SIZE == 0
    ensures b <= addr < b + PAYLOAD_SIZE <==> BaseOf(addr) == b
  {
  }

  /** The dictionary holds, at its base, the byte the blocks leave at an address. */
  lemma {:induction false} DictionaryIsWritten(blocks: seq<Block>, addr: nat)
    requires Regular(blocks)
    ensures var chunks, base := ByAddress(blocks), BaseOf(addr);
            && (base in chunks <==> ByteAt(blocks, addr).Some?)
            && (base in chunks ==>
                  |chunks[base]| == PAYLOAD_SIZE && ByteAt(blocks, addr) == Some(chunks[base][addr - base]))
  {
    hide BaseOf, ByAddress;
    if blocks == [] {
      NoAddresses();
    } else {
      var most, last := blocks[..|blocks| - 1], blocks[|blocks| - 1];
      assert last in blocks;
      DictionaryIsWritten(most, addr);
      OneMoreAddress(blocks);
      AlignedHolds(last.address, addr);
    }
  }

  lemma SameBase(addr: nat, later: nat)
    requires addr <= later < BaseOf(addr) + PAYLOAD_SIZE
    ensures BaseOf(later) == BaseOf(addr)
  {
  }

  /** A full block's bytes from an address on are what the blocks write there. */
  lemma FrontIsWritten(blocks: seq<Block>, addr: nat, i: nat)
    requires Regular(blocks) && BaseOf(addr) in ByAddress(blocks) && addr + i < BaseOf(addr) + PAYLOAD_SIZE
    ensures var front := From(ByAddress(blocks)[BaseOf(addr)], addr - BaseOf(addr));
            |front| == BaseOf(addr) + PAYLOAD_SIZE - addr && ByteAt(blocks, addr + i) == Some(front[i])
  {
    hide BaseOf, ByAddress, ByteAt, Regular;
    SameBase(addr, addr + i);
    DictionaryIsWritten(blocks, addr + i);
  }

  lemma GatheredMore(chunks: map<nat, seq<Byte>>, addr: nat, end: nat)
    requires addr < end && BaseOf(addr) in chunks && |chunks[BaseOf(addr)]| == PAYLOAD_SIZE
    requires Ends(chunks, BaseOf(addr) + PAYLOAD_SIZE, end)
    ensures Ends(chunks, addr, end)
    ensures Gathered(chunks, addr, end)
         == From(chunks[BaseOf(addr)], addr - BaseOf(addr)) + Gathered(chunks, BaseOf(addr) + PAYLOAD_SIZE, end)
  {
    hide BaseOf, From;
  }

  lemma GatheredNone(chunks: map<nat, seq<Byte>>, addr: nat, end: nat)
    requires addr >= end || BaseOf(addr) !in chunks
    ensures Ends(chunks, addr, end) && Gathered(chunks, addr, end) == []
  {
    hide BaseOf, From;
  }

  /** The loop ends, and gathers what the blocks write from the address on, up to the end or
      the first block missing. */
  lemma {:induction false} AnyWindowReadsBack(blocks: seq<Block>, addr: nat, end: nat)
    requires Regular(blocks)
    ensures var chunks := ByAddress(blocks);
            && Ends(chunks, addr, end)
            && var image := Gathered(chunks, addr, end);
               && (forall i | 0 <= i < |image| :: ByteAt(blocks, addr + i) == Some(image[i]))
               && (addr + |image| >= end || ByteAt(blocks, addr + |image|).None?)
    decreases end - addr
  {
    hide BaseOf, ByAddress, ByteAt, Regular, Ends, Gathered, From;
    var chunks, base := ByAddress(blocks), BaseOf(addr);
    DictionaryIsWritten(blocks, addr);
    if addr >= end || base !in chunks {
      GatheredNone(chunks, addr, end);
    } else {
      var next := base + PAYLOAD_SIZE;
      AnyWindowReadsBack(blocks, next, end);
      GatheredMore(chunks, addr, end);
      FrontIsWritten(blocks, addr, 0);
      var front, image := From(chunks[base], addr - base), Gathered(chunks, addr, end);
      forall i | 0 <= i < |image| ensures ByteAt(blocks, addr + i) == Some(image[i]) {
        if i < |front| {
          FrontIsWritten(blocks, addr, i);
        } else {
          assert addr + i == next + (i - |front|);
        }
      }
    }
  }

  /** `flash_image` of any file of such blocks ends; byte by byte it is what the blocks write,
      and it is short only where they write nothing. */
  lemma FlashImageIsWhatIsWritten(uf2: seq<Byte>, origin: nat, length: nat)
    requires Parse(uf2).Ok? && Regular(Parse(uf2).value)
    ensures var blocks := Parse(uf2).value;
            && Ends(ByAddress(blocks), origin, origin + length)
            && var image := Gathered(ByAddress(blocks), origin, origin + length);
               var r := image[..Min(length, |image|)];
               && (forall i | 0 <= i < |r| :: ByteAt(blocks, origin + i) == Some(r[i]))
               && (|r| < length ==> ByteAt(blocks, origin + |r|).None?)
  {
    hide Parse, Regular, ByAddress, ByteAt, Gathered, Ends;
    AnyWindowReadsBack(Parse(uf2).value, origin, origin + length);
  }
}
