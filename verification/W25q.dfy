/** The flash test pattern of `core/src/w25q.rs`: an xorshift generator, a sector filled from
    it, and the check of a sector read back. */
module W25q {
  import opened Results

  /** `oxinode1`. */
  const MAGIC: seq<bv8> := [0x6F, 0x78, 0x69, 0x6E, 0x6F, 0x64, 0x65, 0x31]
  const HEADER := 12

  // ------------------------------------------------------------------ the generator

  function Nudged(x: bv32): bv32 { if x == 0 then 0x6F78_696E else x }

  function Xor(x: bv32, y: bv32): bv32 { x ^ y }

  function Up13(x: bv32): bv32 { x << 13 }

  function Down17(x: bv32): bv32 { x >> 17 }

  function Up5(x: bv32): bv32 { x << 5 }

  function Left13(x: bv32): bv32 { Xor(x, Up13(x)) }

  function Right17(x: bv32): bv32 { Xor(x, Down17(x)) }

  function Left5(x: bv32): bv32 { Xor(x, Up5(x)) }

  /** The generator, one word on. */
  function StepOf(x: bv32): bv32 { Left5(Right17(Left13(Nudged(x)))) }

  lemma RawSwap(a: bv32, b: bv32, c: bv32, d: bv32)
    requires a ^ b == c ^ d
    ensures a ^ c == b ^ d
  {
  }

  lemma Swap(a: bv32, b: bv32, c: bv32, d: bv32)
    requires Xor(a, b) == Xor(c, d)
    ensures Xor(a, c) == Xor(b, d)
  {
    RawSwap(a, b, c, d);
  }

  lemma EqualIfNoDifference(a: bv32, b: bv32)
    requires Xor(a, b) == 0
    ensures a == b
  {
  }

  /** A difference that a shift leaves as it is can only be zero: shifted on, it is gone. */
  lemma ShiftsMoveDifferences(d: bv32)
    ensures d == Up13(d) ==> d == 0
    ensures d == Down17(d) ==> d == 0
    ensures d == Up5(d) ==> d == 0
  {
  }

  lemma Up13IsLinear(x: bv32, y: bv32)
    ensures Up13(Xor(x, y)) == Xor(Up13(x), Up13(y))
  {
    assert (x ^ y) << 13 == (x << 13) ^ (y << 13);
  }

  lemma Down17IsLinear(x: bv32, y: bv32)
    ensures Down17(Xor(x, y)) == Xor(Down17(x), Down17(y))
  {
    assert (x ^ y) >> 17 == (x >> 17) ^ (y >> 17);
  }

  lemma Up5IsLinear(x: bv32, y: bv32)
    ensures Up5(Xor(x, y)) == Xor(Up5(x), Up5(y))
  {
    assert (x ^ y) << 5 == (x << 5) ^ (y << 5);
  }

  lemma Left13IsInjective(x: bv32, y: bv32)
    requires Left13(x) == Left13(y)
    ensures x == y
  {
    hide Xor, Up13, Down17, Up5;
    Swap(x, Up13(x), y, Up13(y));
    Up13IsLinear(x, y);
    ShiftsMoveDifferences(Xor(x, y));
    EqualIfNoDifference(x, y);
  }

  lemma Right17IsInjective(x: bv32, y: bv32)
    requires Right17(x) == Right17(y)
    ensures x == y
  {
    hide Xor, Up13, Down17, Up5;
    Swap(x, Down17(x), y, Down17(y));
    Down17IsLinear(x, y);
    ShiftsMoveDifferences(Xor(x, y));
    EqualIfNoDifference(x, y);
  }

  lemma Left5IsInjective(x: bv32, y: bv32)
    requires Left5(x) == Left5(y)
    ensures x == y
  {
    hide Xor, Up13, Down17, Up5;
    Swap(x, Up5(x), y, Up5(y));
    Up5IsLinear(x, y);
    ShiftsMoveDifferences(Xor(x, y));
    EqualIfNoDifference(x, y);
  }

  lemma {:induction false} MixIsInjective(x: bv32, y: bv32)
    requires Left5(Right17(Left13(x))) == Left5(Right17(Left13(y)))
    ensures x == y
  {
    hide Left13, Right17, Left5;
    Left5IsInjective(Right17(Left13(x)), Right17(Left13(y)));
    Right17IsInjective(Left13(x), Left13(y));
    Left13IsInjective(x, y);
  }

  lemma ZeroStaysZero()
    ensures Left5(Right17(Left13(0))) == 0
  {
  }

  /** The generator never reaches zero, and two states step to the same one only if they are
      the same, zero counting as the state it is moved to. */
  lemma {:induction false} StepIsInjective(x: bv32, y: bv32)
    ensures StepOf(x) != 0
    ensures StepOf(x) == StepOf(y) <==> Nudged(x) == Nudged(y)
  {
    ZeroStaysZero();
    hide Left13, Right17, Left5;
    if StepOf(x) == 0 {
      MixIsInjective(Nudged(x), 0);
    }
    if StepOf(x) == StepOf(y) {
      MixIsInjective(Nudged(x), Nudged(y));
    }
  }

  /** The generator's first words from one, and its word from nought and from all ones. */
  lemma KnownWords()
    ensures StepOf(1) == 270_369 && StepOf(270_369) == 67_634_689 && StepOf(67_634_689) == 2_647_435_461
    ensures StepOf(2_647_435_461) == 307_599_695
    ensures StepOf(0) == StepOf(0x6F78_696E) && StepOf(0xFFFF_FFFF) == 0x0003_E01F
  {
  }

  /** The state after `n` steps. */
  function StateAfter(seed: bv32, n: nat): bv32 {
    if n == 0 then seed else StepOf(StateAfter(seed, n - 1))
  }

  /** Two streams that are ever in the same state were in the same one at the start. */
  lemma {:induction false} StreamsStayApart(a: bv32, b: bv32, n: nat)
    ensures n > 0 ==> StateAfter(a, n) != 0
    ensures n > 0 && StateAfter(a, n) == StateAfter(b, n) ==> Nudged(a) == Nudged(b)
    decreases n
  {
    hide StepOf;
    if n > 0 {
      StepIsInjective(StateAfter(a, n - 1), StateAfter(b, n - 1));
      StreamsStayApart(a, b, n - 1);
      StreamsStayApart(b, a, n - 1);
    }
  }

  // --------------------------------------------------------------------- the sector

  function LowByte(x: bv32): bv8 { (x & 0xFF) as bv8 }

  /** `to_le_bytes`. */
  function SeedBytes(seed: bv32): (s: seq<bv8>)
    ensures |s| == 4
  {
    [LowByte(seed), LowByte(seed >> 8), LowByte(seed >> 16), LowByte(seed >> 24)]
  }

  /** `from_le_bytes`. */
  function SeedFrom(a: bv8, b: bv8, c: bv8, d: bv8): bv32 {
    (a as bv32) | (b as bv32 << 8) | (c as bv32 << 16) | (d as bv32 << 24)
  }

  lemma SeedRoundTrip(seed: bv32)
    ensures SeedFrom(LowByte(seed), LowByte(seed >> 8), LowByte(seed >> 16), LowByte(seed >> 24)) == seed
  {
  }

  /** The least byte first. */
  lemma KnownBytes()
    ensures SeedBytes(0x0102_0304) == [4, 3, 2, 1] && SeedFrom(4, 3, 2, 1) == 0x0102_0304
  {
  }

  function HeaderBytes(seed: bv32): (s: seq<bv8>)
    ensures |s| == HEADER
  {
    MAGIC + SeedBytes(seed)
  }

  /** What belongs at offset `i` of a sector filled from `seed`. */
  function PatternAt(seed: bv32, i: nat): bv8 {
    if i < HEADER then HeaderBytes(seed)[i] else LowByte(StateAfter(seed, i - HEADER + 1))
  }

  /** The first bytes generated from one: the low bytes of the generator's words, the first word
      it makes being the first. */
  lemma KnownPattern()
    ensures PatternAt(1, 12) == 0x21 && PatternAt(1, 13) == 0x01 && PatternAt(1, 14) == 0xC5 && PatternAt(1, 15) == 0x4F
    ensures PatternAt(0x0102_0304, 0) == 0x6F && PatternAt(0x0102_0304, 8) == 4 && PatternAt(0x0102_0304, 11) == 1
  {
    KnownWords();
    KnownBytes();
    hide StepOf, SeedBytes;
    assert StateAfter(1, 1) == 270_369 && StateAfter(1, 2) == 67_634_689;
    assert StateAfter(1, 3) == 2_647_435_461 && StateAfter(1, 4) == 307_599_695;
  }

  /** `fill`, in place. */
  method Fill(sector: array<bv8>, seed: bv32)
    modifies sector
    ensures forall i | 0 <= i < sector.Length :: sector[i] == PatternAt(seed, i)
  {
    hide StepOf, LowByte;
    var header := HeaderBytes(seed);
    var n := if sector.Length < HEADER then sector.Length else HEADER;
    forall i | 0 <= i < n {
      sector[i] := header[i];
    }
    var x := seed;
    for i := n to sector.Length
      invariant forall k | 0 <= k < i :: sector[k] == PatternAt(seed, k)
      invariant n < HEADER ==> i == sector.Length
      invariant n == HEADER ==> x == StateAfter(seed, i - HEADER)
    {
      x := StepOf(x);
      sector[i] := LowByte(x);
    }
  }

  datatype Found = Erased | Pattern(seed: bv32, wrong: nat, firstWrong: Option<nat>) | Foreign

  function SeedOf(s: seq<bv8>): bv32
    requires |s| >= HEADER
  {
    SeedFrom(s[8], s[9], s[10], s[11])
  }

  /** How many of the offsets from the header to `n` hold something else. */
  function WrongTo(s: seq<bv8>, seed: bv32, n: nat): nat
    requires n <= |s|
  {
    if n <= HEADER then 0 else WrongTo(s, seed, n - 1) + if s[n - 1] != PatternAt(seed, n - 1) then 1 else 0
  }

  /** The first of them. */
  function FirstWrongTo(s: seq<bv8>, seed: bv32, n: nat): Option<nat>
    requires n <= |s|
  {
    if n <= HEADER then None
    else if FirstWrongTo(s, seed, n - 1).Some? then FirstWrongTo(s, seed, n - 1)
    else if s[n - 1] != PatternAt(seed, n - 1) then Some(n - 1)
    else None
  }

  function Checked(s: seq<bv8>): Found {
    if forall i | 0 <= i < |s| :: s[i] == 0xFF then Erased
    else if |s| < HEADER || s[..8] != MAGIC then Foreign
    else Pattern(SeedOf(s), WrongTo(s, SeedOf(s), |s|), FirstWrongTo(s, SeedOf(s), |s|))
  }

  /** `check`. */
  method Check(s: seq<bv8>) returns (found: Found)
    ensures found == Checked(s)
  {
    hide StepOf, LowByte, SeedFrom;
    if forall i | 0 <= i < |s| :: s[i] == 0xFF {
      return Erased;
    }
    if |s| < HEADER || s[..8] != MAGIC {
      return Foreign;
    }
    var seed := SeedOf(s);
    var x, wrong, firstWrong := seed, 0, None;
    for i := HEADER to |s|
      invariant x == StateAfter(seed, i - HEADER)
      invariant wrong == WrongTo(s, seed, i) && firstWrong == FirstWrongTo(s, seed, i)
    {
      x := StepOf(x);
      if s[i] != LowByte(x) {
        wrong := wrong + 1;
        if firstWrong.None? {
          firstWrong := Some(i);
        }
      }
    }
    found := Pattern(seed, wrong, firstWrong);
  }

  /** Which of the three a sector is taken for. */
  lemma CheckSays(s: seq<bv8>)
    ensures Checked(s) == Erased <==> forall i | 0 <= i < |s| :: s[i] == 0xFF
    ensures Checked(s).Pattern? <==> |s| >= 12 && forall i | 0 <= i < 8 :: s[i] == "oxinode1"[i] as int as bv8
  {
    hide WrongTo, FirstWrongTo, SeedOf;
    assert "oxinode1"[0] as int as bv8 == 0x6F;
    if |s| >= 8 {
      assert forall i | 0 <= i < 8 :: s[..8][i] == s[i];
      assert forall i | 0 <= i < 8 :: MAGIC[i] == "oxinode1"[i] as int as bv8;
    }
  }

  /** The offsets after the header that differ from the fill. */
  function Differing(s: seq<bv8>, seed: bv32, n: nat): set<nat>
    requires n <= |s|
  {
    set i: nat | HEADER <= i < n && s[i] != PatternAt(seed, i)
  }

  lemma DifferingMore(s: seq<bv8>, seed: bv32, n: nat)
    requires n <= |s|
    ensures n <= HEADER ==> Differing(s, seed, n) == {}
    ensures n > HEADER ==>
              (Differing(s, seed, n) ==
               Differing(s, seed, n - 1) + if s[n - 1] != PatternAt(seed, n - 1) then {n - 1} else {})
    ensures forall i | i in Differing(s, seed, n) :: i < n
  {
    hide PatternAt;
  }

  lemma {:induction false} WrongCounts(s: seq<bv8>, seed: bv32, n: nat)
    requires n <= |s|
    ensures WrongTo(s, seed, n) == |Differing(s, seed, n)|
    ensures var first := FirstWrongTo(s, seed, n);
            if Differing(s, seed, n) == {} then first == None
            else first.Some? && first.value in Differing(s, seed, n)
                 && forall i | i in Differing(s, seed, n) :: first.value <= i
  {
    hide PatternAt, Differing;
    DifferingMore(s, seed, n);
    if n > HEADER {
      WrongCounts(s, seed, n - 1);
      DifferingMore(s, seed, n - 1);
    }
  }

  /** For any sector with the header of a seed, `check` gives that seed, the number of
      offsets where it differs from the fill, and the least of them. */
  lemma CheckMeasuresDamage(s: seq<bv8>, seed: bv32)
    requires |s| >= HEADER && forall i | 0 <= i < HEADER :: s[i] == PatternAt(seed, i)
    ensures Checked(s).Pattern? && Checked(s).seed == seed
    ensures Checked(s).wrong == |Differing(s, seed, |s|)|
    ensures if Differing(s, seed, |s|) == {} then Checked(s).firstWrong == None
            else Checked(s).firstWrong.Some? && Checked(s).firstWrong.value in Differing(s, seed, |s|)
                 && forall i | i in Differing(s, seed, |s|) :: Checked(s).firstWrong.value <= i
  {
    WrongCounts(s, seed, |s|);
    HeaderIsRead(s, seed);
    hide PatternAt, SeedOf, WrongTo, FirstWrongTo, Differing;
  }

  lemma HeaderIsRead(s: seq<bv8>, seed: bv32)
    requires |s| >= HEADER && forall i | 0 <= i < HEADER :: s[i] == PatternAt(seed, i)
    ensures s[..8] == MAGIC && s[0] != 0xFF && SeedOf(s) == seed
  {
    SeedRoundTrip(seed);
    hide LowByte, SeedFrom, StepOf;
    assert forall i | 0 <= i < 8 :: HeaderBytes(seed)[i] == MAGIC[i];
    assert s[8] == SeedBytes(seed)[0] && s[9] == SeedBytes(seed)[1];
    assert s[10] == SeedBytes(seed)[2] && s[11] == SeedBytes(seed)[3];
  }

  /** What was filled checks as what it is. */
  lemma FilledChecksClean(s: seq<bv8>, seed: bv32)
    requires |s| >= HEADER && forall i | 0 <= i < |s| :: s[i] == PatternAt(seed, i)
    ensures Checked(s) == Pattern(seed, 0, None)
  {
    hide PatternAt, SeedOf, WrongTo, FirstWrongTo, Checked;
    CheckMeasuresDamage(s, seed);
    assert Differing(s, seed, |s|) == {};
  }
}
