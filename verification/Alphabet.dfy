/**
 The literal/length and distance alphabets of section 3.2.5 of RFC 1951: the encoder's view
 (trees.c), the decoder's view (inftrees.c) and the fact that they are one and the same.
 */
module Alphabet {
  import opened Bits

  const LITERALS: nat := 256
  const END_BLOCK: nat := 256
  const L_CODES: nat := 286
  const D_CODES: nat := 30
  const BL_CODES: nat := 19

  function ExtraLBits(): (r: seq<nat>)
    ensures |r| == 29
  {
    [0, 0, 0, 0, 0, 0, 0, 0, 1, 1, 1, 1, 2, 2, 2, 2, 3, 3, 3, 3, 4, 4, 4, 4, 5, 5, 5, 5, 0]
  }

  function ExtraDBits(): (r: seq<nat>)
    ensures |r| == 30
  {
    [0, 0, 0, 0, 1, 1, 2, 2, 3, 3, 4, 4, 5, 5, 6, 6, 7, 7, 8, 8, 9, 9, 10, 10, 11, 11, 12, 12, 13, 13]
  }

  function BaseLength(): (r: seq<nat>)
    ensures |r| == 29
  {
    [0, 1, 2, 3, 4, 5, 6, 7, 8, 10, 12, 14, 16, 20, 24, 28, 32, 40, 48, 56,
     64, 80, 96, 112, 128, 160, 192, 224, 0]
  }

  function BaseDist(): (r: seq<nat>)
    ensures |r| == 30
  {
    [0, 1, 2, 3, 4, 6, 8, 12, 16, 24, 32, 48, 64, 96, 128, 192, 256, 384, 512, 768,
     1024, 1536, 2048, 3072, 4096, 6144, 8192, 12288, 16384, 24576]
  }

  // The decoder's tables; an extra value of 16 + e means e extra bits.
  function LBase(): (r: seq<nat>)
    ensures |r| == 31
  {
    [3, 4, 5, 6, 7, 8, 9, 10, 11, 13, 15, 17, 19, 23, 27, 31,
     35, 43, 51, 59, 67, 83, 99, 115, 131, 163, 195, 227, 258, 0, 0]
  }

  function LExt(): (r: seq<nat>)
    ensures |r| == 31
  {
    [16, 16, 16, 16, 16, 16, 16, 16, 17, 17, 17, 17, 18, 18, 18, 18,
     19, 19, 19, 19, 20, 20, 20, 20, 21, 21, 21, 21, 16, 72, 78]
  }

  function DBase(): (r: seq<nat>)
    ensures |r| == 32
  {
    [1, 2, 3, 4, 5, 7, 9, 13, 17, 25, 33, 49, 65, 97, 129, 193,
     257, 385, 513, 769, 1025, 1537, 2049, 3073, 4097, 6145,
     8193, 12289, 16385, 24577, 0, 0]
  }

  function DExt(): (r: seq<nat>)
    ensures |r| == 32
  {
    [16, 16, 16, 16, 17, 17, 18, 18, 19, 19, 20, 20, 21, 21, 22, 22,
     23, 23, 24, 24, 25, 25, 26, 26, 27, 27,
     28, 28, 29, 29, 64, 64]
  }

  /** The largest index up to c whose base does not exceed v. */
  function FindCode(base: seq<nat>, v: nat, c: nat): (r: nat)
    requires c < |base| && base[0] == 0
    ensures r <= c && base[r] <= v
    ensures r < c ==> v < base[r + 1]
  {
    if c == 0 || base[c] <= v then c else FindCode(base, v, c - 1)
  }

  /** The length code of a match of length lc + 3; 258 has a code of its own. */
  function LengthCode(lc: nat): (c: nat)
    ensures c <= 28
  {
    if lc >= 255 then 28 else FindCode(BaseLength(), lc, 27)
  }

  /** The distance code of distance d + 1. */
  function DistCode(d: nat): (c: nat)
    ensures c <= 29
  {
    FindCode(BaseDist(), d, 29)
  }

  lemma LengthSteps(c: nat)
    requires c < 28
    ensures ExtraLBits()[c] <= 5
    ensures BaseLength()[c] + Pow2(ExtraLBits()[c]) == (if c == 27 then 256 else BaseLength()[c + 1])
  {
    Pow2Values();
  }

  lemma DistSteps(c: nat)
    requires c < 30
    ensures ExtraDBits()[c] <= 13
    ensures BaseDist()[c] + Pow2(ExtraDBits()[c]) == (if c == 29 then 32768 else BaseDist()[c + 1])
  {
    Pow2Values();
  }

  /** The rest of a length fits the extra bits of its code, and the decoder adds it back. */
  lemma LengthCodeInverse(lc: nat)
    requires lc < 256
    ensures var c := LengthCode(lc);
            && LExt()[c] == 16 + ExtraLBits()[c] && ExtraLBits()[c] <= 5
            && (ExtraLBits()[c] == 0 ==> LBase()[c] == lc + 3)
            && (ExtraLBits()[c] != 0 ==>
                  0 <= lc - BaseLength()[c] < Pow2(ExtraLBits()[c]) && LBase()[c] + (lc - BaseLength()[c]) == lc + 3)
  {
    var c := LengthCode(lc);
    if c < 28 {
      LengthSteps(c);
      LengthBases(c);
      if ExtraLBits()[c] == 0 {
        assert Pow2(0) == 1;
      }
    }
  }

  lemma LengthBases(c: nat)
    requires c < 28
    ensures LBase()[c] == BaseLength()[c] + 3 && LExt()[c] == 16 + ExtraLBits()[c]
  {
    hide LBase, BaseLength, LExt, ExtraLBits;
    LengthOffset(c);
    LengthExtra(c);
  }

  lemma LengthOffset(c: nat)
    requires c < 28
    ensures LBase()[c] == BaseLength()[c] + 3
  {
  }

  lemma LengthExtra(c: nat)
    requires c < 28
    ensures LExt()[c] == 16 + ExtraLBits()[c]
  {
  }

  lemma DistBases(c: nat)
    requires c < 30
    ensures DBase()[c] == BaseDist()[c] + 1 && DExt()[c] == 16 + ExtraDBits()[c]
  {
    hide DBase, BaseDist, DExt, ExtraDBits;
    DistOffset(c);
    DistExtra(c);
  }

  lemma DistOffset(c: nat)
    requires c < 30
    ensures DBase()[c] == BaseDist()[c] + 1
  {
  }

  lemma DistExtra(c: nat)
    requires c < 30
    ensures DExt()[c] == 16 + ExtraDBits()[c]
  {
  }

  /**
   The table of lengths in section 3.2.5 of RFC 1951 in closed form: from 265 on four codes at a
   time have one extra bit more, and 285 is by itself.
   */
  lemma LengthAlphabet(c: nat)
    requires c < 29
    ensures c < 8 ==> LExt()[c] == 16 && LBase()[c] == 3 + c
    ensures 8 <= c < 28 ==> LExt()[c] - 16 == c / 4 - 1 && LBase()[c] == 3 + (4 + c % 4) * Pow2(c / 4 - 1)
    ensures c == 28 ==> LExt()[c] == 16 && LBase()[c] == 258
  {
    Pow2Values();
  }

  /** The table of distances: from 4 on two codes at a time have one extra bit more. */
  lemma DistanceAlphabet(d: nat)
    requires d < 30
    ensures d < 4 ==> DExt()[d] == 16 && DBase()[d] == 1 + d
    ensures 4 <= d ==> DExt()[d] - 16 == d / 2 - 1 && DBase()[d] == 1 + (2 + d % 2) * Pow2(d / 2 - 1)
  {
    Pow2Values();
  }

  lemma DistCodeInverse(d: nat)
    requires d < 32768
    ensures var c := DistCode(d);
            && DExt()[c] == 16 + ExtraDBits()[c] && ExtraDBits()[c] <= 13
            && (ExtraDBits()[c] == 0 ==> DBase()[c] == d + 1)
            && 0 <= d - BaseDist()[c] < Pow2(ExtraDBits()[c]) && DBase()[c] + (d - BaseDist()[c]) == d + 1
  {
    var c := DistCode(d);
    DistSteps(c);
    DistBases(c);
    if ExtraDBits()[c] == 0 {
      assert Pow2(0) == 1;
    }
  }
}
