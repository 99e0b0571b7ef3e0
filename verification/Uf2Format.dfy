/** The files by their bytes: what stands where in a UF2 file that is read or written, which
    files are refused and why, and what the check says of each block. */
module Uf2Format {
  import opened Bytes
  import opened Results
  import opened Uf2
  import opened Uf2Laws

  /** `UF2\n` and the second start magic, least byte first; and the end magic. */
  const START_BYTES: seq<Byte> := [0x55, 0x46, 0x32, 0x0A, 0x57, 0x51, 0x5D, 0x9E]
  const END_BYTES: seq<Byte> := [0x30, 0x6F, 0xB1, 0x0A]

  predicate HasBlock(file: seq<Byte>, i: nat) { 512 * i + 512 <= |file| }

  /** The number four bytes spell, the least of them first. */
  function Spelt(a: Byte, b: Byte, c: Byte, d: Byte): nat {
    a as nat + 0x100 * b as nat + 0x1_0000 * c as nat + 0x100_0000 * d as nat
  }

  /** The word at an offset of block `i`. */
  function Field(file: seq<Byte>, i: nat, at: nat): nat
    requires HasBlock(file, i) && at <= 508
  {
    var k := 512 * i + at;
    Spelt(file[k], file[k + 1], file[k + 2], file[k + 3])
  }

  predicate StartsRight(file: seq<Byte>, i: nat)
    requires HasBlock(file, i)
  {
    file[512 * i..512 * i + 8] == START_BYTES
  }

  predicate EndsRight(file: seq<Byte>, i: nat)
    requires HasBlock(file, i)
  {
    file[512 * i + 508..512 * i + 512] == END_BYTES
  }

  /** A block the format allows: both magics, and a payload that ends before the second. */
  predicate Framed(file: seq<Byte>, i: nat)
    requires HasBlock(file, i)
  {
    StartsRight(file, i) && EndsRight(file, i) && Field(file, i, 16) <= 476
  }

  /** Block `i` of the file, its words and its payload. */
  predicate Holds(file: seq<Byte>, i: nat, b: Block)
    requires HasBlock(file, i)
  {
    && b.flags == Field(file, i, 8) && b.address == Field(file, i, 12) && |b.payload| == Field(file, i, 16) <= 476
    && b.blockNo == Field(file, i, 20) && b.numBlocks == Field(file, i, 24) && b.family == Field(file, i, 28)
    && b.payload == file[512 * i + 32..512 * i + 32 + |b.payload|]
  }

  // ------------------------------------------------------------------------ one block

  lemma FourBytes(s: seq<Byte>)
    requires |s| == 4
    ensures FromLittleEndian(s) == Spelt(s[0], s[1], s[2], s[3])
  {
    assert s[1..][1..] == s[2..] && s[2..][1..] == s[3..] && s[3..][1..] == [];
    assert FromLittleEndian(s[3..]) == s[3] as nat;
    assert FromLittleEndian(s[2..]) == s[2] as nat + 0x100 * s[3] as nat;
    assert FromLittleEndian(s[1..]) == s[1] as nat + 0x100 * (s[2] as nat + 0x100 * s[3] as nat);
  }

  lemma WordIsField(file: seq<Byte>, i: nat, at: nat)
    requires HasBlock(file, i) && at <= 508
    ensures WordAt(RawBlock(file, i), at) == Field(file, i, at)
  {
    hide FromLittleEndian;
    var raw := RawBlock(file, i);
    FourBytes(raw[at..at + 4]);
    var k := 512 * i + at;
    assert raw[at] == file[k] && raw[at + 1] == file[k + 1] && raw[at + 2] == file[k + 2] && raw[at + 3] == file[k + 3];
  }

  lemma FourDigits(a: Byte, b: Byte, c: Byte, d: Byte, n: nat)
    requires Spelt(a, b, c, d) == n
    ensures a as nat == n % 0x100 && b as nat == n / 0x100 % 0x100
    ensures c as nat == n / 0x1_0000 % 0x100 && d as nat == n / 0x100_0000
  {
    var m := b as nat + 0x100 * c as nat + 0x1_0000 * d as nat;
    assert n == 0x100 * m + a as nat;
    assert m == 0x100 * (c as nat + 0x100 * d as nat) + b as nat;
    assert n / 0x100 == m;
    assert n / 0x1_0000 == m / 0x100 == c as nat + 0x100 * d as nat;
  }

  lemma MagicIff(file: seq<Byte>, i: nat)
    requires HasBlock(file, i)
    ensures StartsRight(file, i) <==> Field(file, i, 0) == MAGIC_START0 && Field(file, i, 4) == MAGIC_START1
    ensures EndsRight(file, i) <==> Field(file, i, 508) == MAGIC_END
  {
    var k := 512 * i;
    SameWord(file, k, 0x55, 0x46, 0x32, 0x0A);
    SameWord(file, k + 4, 0x57, 0x51, 0x5D, 0x9E);
    SameWord(file, k + 508, 0x30, 0x6F, 0xB1, 0x0A);
    var start, end := file[k..k + 8], file[k + 508..k + 512];
    assert forall j | 0 <= j < 8 :: start[j] == file[k + j];
    assert forall j | 0 <= j < 4 :: end[j] == file[k + 508 + j];
  }

  lemma SameWord(file: seq<Byte>, k: nat, a: Byte, b: Byte, c: Byte, d: Byte)
    requires k + 4 <= |file|
    ensures file[k] == a && file[k + 1] == b && file[k + 2] == c && file[k + 3] == d
       <==> Spelt(file[k], file[k + 1], file[k + 2], file[k + 3]) == Spelt(a, b, c, d)
  {
    FourDigits(a, b, c, d, Spelt(a, b, c, d));
    if Spelt(file[k], file[k + 1], file[k + 2], file[k + 3]) == Spelt(a, b, c, d) {
      FourDigits(file[k], file[k + 1], file[k + 2], file[k + 3], Spelt(a, b, c, d));
    }
  }

  /** Why a block is refused: its start, else its end, else its size. */
  predicate IsWhy(file: seq<Byte>, i: nat, e: LayoutError)
    requires HasBlock(file, i)
  {
    e == if !StartsRight(file, i) then BadStartMagic(i)
         else if !EndsRight(file, i) then BadEndMagic(i)
         else PayloadTooLarge(i, Field(file, i, 16))
  }

  lemma BlockIsRead(file: seq<Byte>, i: nat)
    requires HasBlock(file, i)
    ensures var r := ParseBlock(RawBlock(file, i), i);
            && (r.Ok? <==> Framed(file, i)) && (r.Ok? ==> Holds(file, i, r.value))
            && (r.Err? ==> IsWhy(file, i, r.error))
  {
    hide WordAt, Field, StartsRight, EndsRight, RawBlock;
    MagicIff(file, i);
    WordIsField(file, i, 0);
    WordIsField(file, i, 4);
    WordIsField(file, i, 8);
    WordIsField(file, i, 12);
    WordIsField(file, i, 16);
    WordIsField(file, i, 20);
    WordIsField(file, i, 24);
    WordIsField(file, i, 28);
    WordIsField(file, i, 508);
    if Field(file, i, 16) <= 476 {
      PayloadIs(file, i, Field(file, i, 16));
    }
  }

  lemma PayloadIs(file: seq<Byte>, i: nat, size: nat)
    requires HasBlock(file, i) && size <= 476
    ensures RawBlock(file, i)[32..32 + size] == file[512 * i + 32..512 * i + 32 + size]
  {
    var raw := RawBlock(file, i);
    assert forall k | 0 <= k < 512 :: raw[k] == file[512 * i + k];
  }

  // ----------------------------------------------------------------------- a whole file

  lemma {:induction false} BlocksAreRead(file: seq<Byte>, n: nat)
    requires 512 * n <= |file|
    ensures var r := ParseBlocks(file, n);
            && (r.Ok? <==> forall i | 0 <= i < n :: Framed(file, i))
            && (r.Ok? ==> |r.value| == n && forall i | 0 <= i < n :: Holds(file, i, r.value[i]))
            && (r.Err? ==> exists i | 0 <= i < n ::
                  !Framed(file, i) && IsWhy(file, i, r.error) && forall j | 0 <= j < i :: Framed(file, j))
  {
    hide ParseBlock, RawBlock, Framed, Holds, IsWhy;
    if n > 0 {
      BlocksAreRead(file, n - 1);
      BlockIsRead(file, n - 1);
    }
  }

  /** A file is read exactly if it is some whole blocks, each framed, and then as what stands in
      them; one that is not is refused for its length, or for its first bad block. */
  lemma {:induction false} FilesAreRead(file: seq<Byte>)
    ensures var r, n := Parse(file), |file| / 512;
            && (r.Ok? <==> file != [] && |file| % 512 == 0 && forall i | 0 <= i < n :: Framed(file, i))
            && (r.Ok? ==> |r.value| == n && forall i | 0 <= i < n :: Holds(file, i, r.value[i]))
            && (r == Err(BadLength(|file|)) <==> file == [] || |file| % 512 != 0)
            && (r.Err? && file != [] && |file| % 512 == 0 ==> exists i | 0 <= i < n ::
                  !Framed(file, i) && IsWhy(file, i, r.error) && forall j | 0 <= j < i :: Framed(file, j))
  {
    hide ParseBlocks, Framed, Holds, StartsRight, EndsRight;
    BlocksAreRead(file, |file| / 512);
  }

  /** What is written: block by block its number and their count, the family and that it counts,
      the address, and up to 256 bytes of the binary from 256 times its number. */
  lemma {:induction false} FilesAreWritten(data: seq<Byte>, base: nat, family: nat, i: nat)
    requires ToUf2(data, base, family).Ok? && 256 * i < |data|
    ensures var file, n := ToUf2(data, base, family).value, (|data| + 255) / 256;
            && |file| == 512 * n && i < n && Framed(file, i)
            && Field(file, i, 8) == 0x2000 && Field(file, i, 12) == base + 256 * i
            && Field(file, i, 20) == i && Field(file, i, 24) == n && Field(file, i, 28) == family
            && Field(file, i, 16) == (if 256 * i + 256 <= |data| then 256 else |data| - 256 * i)
            && file[512 * i + 32..512 * i + 32 + Field(file, i, 16)] == data[256 * i..256 * i + Field(file, i, 16)]
  {
    hide ToUf2, Parse, Field, Framed, BlocksOf;
    var file, n := ToUf2(data, base, family).value, BlockCount(data);
    FileRoundTrip(data, base, family);
    FilesAreRead(file);
    assert BlocksOf(data, base, family, n)[i] == BlockOf(data, base, family, i);
  }

  // ---------------------------------------------------------------------------- the check

  lemma FamilyFlagIff(flags: nat)
    ensures HasFamilyFlag(flags) <==> flags % 0x4000 >= 0x2000
  {
    var q, r := flags / 0x4000, flags % 0x4000;
    assert flags / 0x2000 == 2 * q + r / 0x2000;
  }

  /** What can be wrong with block `i` of a file. */
  predicate IsWrong(blocks: seq<Block>, i: nat, p: Problem, flash: Region, base: nat, family: nat)
    requires i < |blocks|
  {
    var b := blocks[i];
    match p
    case WrongCount(k) => k == i && b.numBlocks != |blocks|
    case WrongNumber(k) => k == i && b.blockNo != i
    case WrongFamily(k) => k == i && b.family != family
    case FamilyIgnored(k) => k == i && b.flags % 0x4000 < 0x2000
    case WrongAddress(k) => k == i && b.address != base + 256 * i
    case OutsideFlash(k) =>
      k == i && (b.address < flash.origin || b.address + |b.payload| > flash.origin + flash.length)
    case _ => false
  }

  lemma BlockProblemsAre(blocks: seq<Block>, i: nat, p: Problem, flash: Region, base: nat, family: nat)
    requires i < |blocks|
    ensures p in BlockProblems(blocks[i], i, |blocks|, flash, base, family)
       <==> IsWrong(blocks, i, p, flash, base, family)
  {
    FamilyFlagIff(blocks[i].flags);
    hide HasFamilyFlag;
  }

  lemma {:induction false} ProblemsUpTo(blocks: seq<Block>, n: nat, p: Problem, flash: Region, base: nat, family: nat)
    requires n <= |blocks|
    ensures p in ProblemsTo(blocks, n, flash, base, family)
       <==> exists i | 0 <= i < n :: IsWrong(blocks, i, p, flash, base, family)
  {
    hide BlockProblems, IsWrong;
    if n > 0 {
      ProblemsUpTo(blocks, n - 1, p, flash, base, family);
      BlockProblemsAre(blocks, n - 1, p, flash, base, family);
    }
  }

  /** The check names every problem there is, and none there is not. */
  lemma {:induction false} ProblemsAre(blocks: seq<Block>, flash: Region, expected: seq<Byte>, base: nat, family: nat,
                                       p: Problem)
    ensures p in Check(blocks, Some(flash), expected, base, family) <==>
            (exists i | 0 <= i < |blocks| :: IsWrong(blocks, i, p, flash, base, family))
            || (p == WrongContents && Rebuilt(blocks) != expected)
    ensures Check(blocks, None, expected, base, family) == [NoFlashRegion]
  {
    hide ProblemsTo, IsWrong, Rebuilt;
    ProblemsUpTo(blocks, |blocks|, p, flash, base, family);
  }

  /** Nothing is written of an empty binary; and of another, only what does not fit its words. */
  lemma WriteRefusals(data: seq<Byte>, base: nat, family: nat)
    ensures ToUf2(data, base, family) == Err(EmptyInput) <==> data == []
    ensures ToUf2(data, base, family).Err? && data != [] ==> ToUf2(data, base, family) == Err(FieldOutOfRange)
  {
    hide Serialised, BlocksOf;
    if BlockCount(data) > 0 {
      SerialisedErrs(BlocksOf(data, base, family, BlockCount(data)));
    }
  }

  lemma {:induction false} SerialisedErrs(blocks: seq<Block>)
    requires forall b | b in blocks :: |b.payload| <= MAX_PAYLOAD
    ensures Serialised(blocks).Err? ==> Serialised(blocks) == Err(FieldOutOfRange)
  {
    hide BlockBytes, WordsFit;
    if blocks != [] {
      SerialisedErrs(blocks[..|blocks| - 1]);
    }
  }
}
