/** Byte-level views of a 64-bit word: byte extraction, the byte swap used by
    the comparison operators, unsigned comparison, and the two ways of reading
    eight bytes of memory as a word (the host's little-endian order, and
    big-endian order). */
module ByteOrder {

  import opened LexOrder

  /** Byte k of a 64-bit word, k = 0 being the least significant byte. */
  function ByteOf(x: bv64, k: nat): bv8
    requires k < 8
  {
    if k == 0 then (x & 0xff) as bv8
    else if k == 1 then ((x >> 8) & 0xff) as bv8
    else if k == 2 then ((x >> 16) & 0xff) as bv8
    else if k == 3 then ((x >> 24) & 0xff) as bv8
    else if k == 4 then ((x >> 32) & 0xff) as bv8
    else if k == 5 then ((x >> 40) & 0xff) as bv8
    else if k == 6 then ((x >> 48) & 0xff) as bv8
    else (x >> 56) as bv8
  }

  /** swap_bytes: the mask-and-shift expression of the source, operator for operator. */
  function SwapBytes(x: bv64): bv64
  {
    ((x & 0x0000_0000_0000_00ff) << 56) |
    ((x & 0x0000_0000_0000_ff00) << 40) |
    ((x & 0x0000_0000_00ff_0000) << 24) |
    ((x & 0x0000_0000_ff00_0000) << 8) |
    ((x & 0x0000_00ff_0000_0000) >> 8) |
    ((x & 0x0000_ff00_0000_0000) >> 24) |
    ((x & 0x00ff_0000_0000_0000) >> 40) |
    ((x & 0xff00_0000_0000_0000) >> 56)
  }

  /** What swap_bytes means: byte k of the result is byte 7 - k of the argument. */
  lemma SwapBytesReversesBytes(x: bv64)
    ensures forall k :: 0 <= k < 8 ==> ByteOf(SwapBytes(x), k) == ByteOf(x, 7 - k)
  {
    forall k | 0 <= k < 8 ensures ByteOf(SwapBytes(x), k) == ByteOf(x, 7 - k) {
      if k == 0 {
      } else if k == 1 {
      } else if k == 2 {
      } else if k == 3 {
      } else if k == 4 {
      } else if k == 5 {
      } else if k == 6 {
      } else {
      }
    }
  }

  /** Two words are equal exactly when all eight of their bytes are. */
  lemma WordsEqualByBytes(x: bv64, y: bv64)
    ensures (forall k :: 0 <= k < 8 ==> ByteOf(x, k) == ByteOf(y, k)) <==> x == y
  {
    if forall k :: 0 <= k < 8 ==> ByteOf(x, k) == ByteOf(y, k) {
      assert ByteOf(x, 0) == ByteOf(y, 0) && ByteOf(x, 1) == ByteOf(y, 1);
      assert ByteOf(x, 2) == ByteOf(y, 2) && ByteOf(x, 3) == ByteOf(y, 3);
      assert ByteOf(x, 4) == ByteOf(y, 4) && ByteOf(x, 5) == ByteOf(y, 5);
      assert ByteOf(x, 6) == ByteOf(y, 6) && ByteOf(x, 7) == ByteOf(y, 7);
    }
  }

  /** Swapping twice restores the word, so the swap is a bijection. */
  lemma SwapBytesInvolution(x: bv64, y: bv64)
    ensures SwapBytes(SwapBytes(x)) == x
    ensures SwapBytes(x) == SwapBytes(y) <==> x == y
  {
    SwapBytesReversesBytes(x);
    SwapBytesReversesBytes(SwapBytes(x));
    SwapBytesReversesBytes(y);
    SwapBytesReversesBytes(SwapBytes(y));
    WordsEqualByBytes(SwapBytes(SwapBytes(x)), x);
    WordsEqualByBytes(SwapBytes(SwapBytes(y)), y);
  }

  /** Unsigned comparison of two uint64_t values. */
  predicate WordLess(x: bv64, y: bv64)
  {
    x < y
  }

  /** The word a little-endian host reads from bytes b0 .. b7 at increasing addresses. */
  function PackLE(b0: bv8, b1: bv8, b2: bv8, b3: bv8, b4: bv8, b5: bv8, b6: bv8, b7: bv8): bv64
  {
    (b0 as bv64) | ((b1 as bv64) << 8) | ((b2 as bv64) << 16) | ((b3 as bv64) << 24) |
    ((b4 as bv64) << 32) | ((b5 as bv64) << 40) | ((b6 as bv64) << 48) | ((b7 as bv64) << 56)
  }

  /** The little-endian read puts the byte at offset k in byte k of the word. */
  lemma PackLEBytes(b0: bv8, b1: bv8, b2: bv8, b3: bv8, b4: bv8, b5: bv8, b6: bv8, b7: bv8)
    ensures ByteOf(PackLE(b0, b1, b2, b3, b4, b5, b6, b7), 0) == b0
    ensures ByteOf(PackLE(b0, b1, b2, b3, b4, b5, b6, b7), 1) == b1
    ensures ByteOf(PackLE(b0, b1, b2, b3, b4, b5, b6, b7), 2) == b2
    ensures ByteOf(PackLE(b0, b1, b2, b3, b4, b5, b6, b7), 3) == b3
    ensures ByteOf(PackLE(b0, b1, b2, b3, b4, b5, b6, b7), 4) == b4
    ensures ByteOf(PackLE(b0, b1, b2, b3, b4, b5, b6, b7), 5) == b5
    ensures ByteOf(PackLE(b0, b1, b2, b3, b4, b5, b6, b7), 6) == b6
    ensures ByteOf(PackLE(b0, b1, b2, b3, b4, b5, b6, b7), 7) == b7
  {
  }

  /** Reading little-endian and then swapping is reading big-endian. */
  lemma SwapPackLE(b0: bv8, b1: bv8, b2: bv8, b3: bv8, b4: bv8, b5: bv8, b6: bv8, b7: bv8)
    ensures SwapBytes(PackLE(b0, b1, b2, b3, b4, b5, b6, b7)) == PackBE(b0, b1, b2, b3, b4, b5, b6, b7)
  {
  }

  // The order of big-endian words, one byte at a time. TailOrder<j> compares the
  // words built from bytes j .. 7, written out in full so that each step speaks of
  // the very same words as the next; ByteOnTop<k> is the single step, and
  // TailFits<j> the bound it needs. One lemma per shift amount, because a single
  // lemma taking the shift amount as a parameter (even one split into a case per
  // amount) runs out of solver resource, and so does a step stated over a function
  // that builds the word rather than over the written-out word.

  /** A byte placed above a word that fits in the low 56 bits: the byte decides, the rest breaks ties. */
  lemma ByteOnTop56(u: bv8, r: bv64, v: bv8, s: bv64)
    requires r >> 56 == 0 && s >> 56 == 0
    ensures ((u as bv64) << 56) | r < ((v as bv64) << 56) | s <==> u < v || (u == v && r < s)
  {
  }

  /** A byte placed above a word that fits in the low 48 bits: the byte decides, the rest breaks ties. */
  lemma ByteOnTop48(u: bv8, r: bv64, v: bv8, s: bv64)
    requires r >> 48 == 0 && s >> 48 == 0
    ensures ((u as bv64) << 48) | r < ((v as bv64) << 48) | s <==> u < v || (u == v && r < s)
  {
  }

  /** A byte placed above a word that fits in the low 40 bits: the byte decides, the rest breaks ties. */
  lemma ByteOnTop40(u: bv8, r: bv64, v: bv8, s: bv64)
    requires r >> 40 == 0 && s >> 40 == 0
    ensures ((u as bv64) << 40) | r < ((v as bv64) << 40) | s <==> u < v || (u == v && r < s)
  {
  }

  /** A byte placed above a word that fits in the low 32 bits: the byte decides, the rest breaks ties. */
  lemma ByteOnTop32(u: bv8, r: bv64, v: bv8, s: bv64)
    requires r >> 32 == 0 && s >> 32 == 0
    ensures ((u as bv64) << 32) | r < ((v as bv64) << 32) | s <==> u < v || (u == v && r < s)
  {
  }

  /** A byte placed above a word that fits in the low 24 bits: the byte decides, the rest breaks ties. */
  lemma ByteOnTop24(u: bv8, r: bv64, v: bv8, s: bv64)
    requires r >> 24 == 0 && s >> 24 == 0
    ensures ((u as bv64) << 24) | r < ((v as bv64) << 24) | s <==> u < v || (u == v && r < s)
  {
  }

  /** A byte placed above a word that fits in the low 16 bits: the byte decides, the rest breaks ties. */
  lemma ByteOnTop16(u: bv8, r: bv64, v: bv8, s: bv64)
    requires r >> 16 == 0 && s >> 16 == 0
    ensures ((u as bv64) << 16) | r < ((v as bv64) << 16) | s <==> u < v || (u == v && r < s)
  {
  }

  /** A byte placed above a word that fits in the low 8 bits: the byte decides, the rest breaks ties. */
  lemma ByteOnTop8(u: bv8, r: bv64, v: bv8, s: bv64)
    requires r >> 8 == 0 && s >> 8 == 0
    ensures ((u as bv64) << 8) | r < ((v as bv64) << 8) | s <==> u < v || (u == v && r < s)
  {
  }

  /** The big-endian word of bytes 7 .. 7 fits in the low 8 bits. */
  lemma TailFits7(b7: bv8)
    ensures (b7 as bv64) >> 8 == 0
  {
  }

  /** The big-endian word of bytes 6 .. 7 fits in the low 16 bits. */
  lemma TailFits6(b6: bv8, b7: bv8)
    ensures (((b6 as bv64) << 8) | (b7 as bv64)) >> 16 == 0
  {
    TailFits7(b7);
  }

  /** The big-endian word of bytes 5 .. 7 fits in the low 24 bits. */
  lemma TailFits5(b5: bv8, b6: bv8, b7: bv8)
    ensures (((b5 as bv64) << 16) | (((b6 as bv64) << 8) | (b7 as bv64))) >> 24 == 0
  {
    TailFits6(b6, b7);
  }

  /** The big-endian word of bytes 4 .. 7 fits in the low 32 bits. */
  lemma TailFits4(b4: bv8, b5: bv8, b6: bv8, b7: bv8)
    ensures (((b4 as bv64) << 24) | (((b5 as bv64) << 16) | (((b6 as bv64) << 8) | (b7 as bv64)))) >> 32 == 0
  {
    TailFits5(b5, b6, b7);
  }

  /** The big-endian word of bytes 3 .. 7 fits in the low 40 bits. */
  lemma TailFits3(b3: bv8, b4: bv8, b5: bv8, b6: bv8, b7: bv8)
    ensures (((b3 as bv64) << 32) | (((b4 as bv64) << 24) | (((b5 as bv64) << 16) | (((b6 as bv64) << 8) | (b7 as bv64))))) >> 40 == 0
  {
    TailFits4(b4, b5, b6, b7);
  }

  /** The big-endian word of bytes 2 .. 7 fits in the low 48 bits. */
  lemma TailFits2(b2: bv8, b3: bv8, b4: bv8, b5: bv8, b6: bv8, b7: bv8)
    ensures (((b2 as bv64) << 40) | (((b3 as bv64) << 32) | (((b4 as bv64) << 24) | (((b5 as bv64) << 16) | (((b6 as bv64) << 8) | (b7 as bv64)))))) >> 48 == 0
  {
    TailFits3(b3, b4, b5, b6, b7);
  }

  /** The big-endian word of bytes 1 .. 7 fits in the low 56 bits. */
  lemma TailFits1(b1: bv8, b2: bv8, b3: bv8, b4: bv8, b5: bv8, b6: bv8, b7: bv8)
    ensures (((b1 as bv64) << 48) | (((b2 as bv64) << 40) | (((b3 as bv64) << 32) | (((b4 as bv64) << 24) | (((b5 as bv64) << 16) | (((b6 as bv64) << 8) | (b7 as bv64))))))) >> 56 == 0
  {
    TailFits2(b2, b3, b4, b5, b6, b7);
  }

  /** Byte order on bytes 7 .. 7 given one by one: the first differing byte decides. */
  predicate LexFrom7(a7: bv8, b7: bv8)
  {
    a7 < b7
  }

  /** Byte order on bytes 6 .. 7 given one by one: the first differing byte decides. */
  predicate LexFrom6(a6: bv8, a7: bv8, b6: bv8, b7: bv8)
  {
    a6 < b6 || (a6 == b6 && LexFrom7(a7, b7))
  }

  /** Byte order on bytes 5 .. 7 given one by one: the first differing byte decides. */
  predicate LexFrom5(a5: bv8, a6: bv8, a7: bv8, b5: bv8, b6: bv8, b7: bv8)
  {
    a5 < b5 || (a5 == b5 && LexFrom6(a6, a7, b6, b7))
  }

  /** Byte order on bytes 4 .. 7 given one by one: the first differing byte decides. */
  predicate LexFrom4(a4: bv8, a5: bv8, a6: bv8, a7: bv8, b4: bv8, b5: bv8, b6: bv8, b7: bv8)
  {
    a4 < b4 || (a4 == b4 && LexFrom5(a5, a6, a7, b5, b6, b7))
  }

  /** Byte order on bytes 3 .. 7 given one by one: the first differing byte decides. */
  predicate LexFrom3(a3: bv8, a4: bv8, a5: bv8, a6: bv8, a7: bv8, b3: bv8, b4: bv8, b5: bv8, b6: bv8, b7: bv8)
  {
    a3 < b3 || (a3 == b3 && LexFrom4(a4, a5, a6, a7, b4, b5, b6, b7))
  }

  /** Byte order on bytes 2 .. 7 given one by one: the first differing byte decides. */
  predicate LexFrom2(a2: bv8, a3: bv8, a4: bv8, a5: bv8, a6: bv8, a7: bv8, b2: bv8, b3: bv8, b4: bv8, b5: bv8, b6: bv8, b7: bv8)
  {
    a2 < b2 || (a2 == b2 && LexFrom3(a3, a4, a5, a6, a7, b3, b4, b5, b6, b7))
  }

  /** Byte order on bytes 1 .. 7 given one by one: the first differing byte decides. */
  predicate LexFrom1(a1: bv8, a2: bv8, a3: bv8, a4: bv8, a5: bv8, a6: bv8, a7: bv8, b1: bv8, b2: bv8, b3: bv8, b4: bv8, b5: bv8, b6: bv8, b7: bv8)
  {
    a1 < b1 || (a1 == b1 && LexFrom2(a2, a3, a4, a5, a6, a7, b2, b3, b4, b5, b6, b7))
  }

  /** Byte order on bytes 0 .. 7 given one by one: the first differing byte decides. */
  predicate LexFrom0(a0: bv8, a1: bv8, a2: bv8, a3: bv8, a4: bv8, a5: bv8, a6: bv8, a7: bv8, b0: bv8, b1: bv8, b2: bv8, b3: bv8, b4: bv8, b5: bv8, b6: bv8, b7: bv8)
  {
    a0 < b0 || (a0 == b0 && LexFrom1(a1, a2, a3, a4, a5, a6, a7, b1, b2, b3, b4, b5, b6, b7))
  }

  /** Unsigned order of the big-endian words of bytes 7 .. 7 is their byte order. */
  lemma TailOrder7(a7: bv8, b7: bv8)
    ensures (a7 as bv64) < (b7 as bv64) <==> LexFrom7(a7, b7)
  {
  }

  /** Unsigned order of the big-endian words of bytes 6 .. 7 is their byte order. */
  lemma TailOrder6(a6: bv8, a7: bv8, b6: bv8, b7: bv8)
    ensures (((a6 as bv64) << 8) | (a7 as bv64))
        < (((b6 as bv64) << 8) | (b7 as bv64))
        <==> LexFrom6(a6, a7, b6, b7)
  {
    TailFits7(a7);
    TailFits7(b7);
    ByteOnTop8(a6, (a7 as bv64), b6, (b7 as bv64));
    TailOrder7(a7, b7);
  }

  /** Unsigned order of the big-endian words of bytes 5 .. 7 is their byte order. */
  lemma TailOrder5(a5: bv8, a6: bv8, a7: bv8, b5: bv8, b6: bv8, b7: bv8)
    ensures (((a5 as bv64) << 16) | (((a6 as bv64) << 8) | (a7 as bv64)))
        < (((b5 as bv64) << 16) | (((b6 as bv64) << 8) | (b7 as bv64)))
        <==> LexFrom5(a5, a6, a7, b5, b6, b7)
  {
    TailFits6(a6, a7);
    TailFits6(b6, b7);
    ByteOnTop16(a5, (((a6 as bv64) << 8) | (a7 as bv64)), b5, (((b6 as bv64) << 8) | (b7 as bv64)));
    TailOrder6(a6, a7, b6, b7);
  }

  /** Unsigned order of the big-endian words of bytes 4 .. 7 is their byte order. */
  lemma TailOrder4(a4: bv8, a5: bv8, a6: bv8, a7: bv8, b4: bv8, b5: bv8, b6: bv8, b7: bv8)
    ensures (((a4 as bv64) << 24) | (((a5 as bv64) << 16) | (((a6 as bv64) << 8) | (a7 as bv64))))
        < (((b4 as bv64) << 24) | (((b5 as bv64) << 16) | (((b6 as bv64) << 8) | (b7 as bv64))))
        <==> LexFrom4(a4, a5, a6, a7, b4, b5, b6, b7)
  {
    TailFits5(a5, a6, a7);
    TailFits5(b5, b6, b7);
    ByteOnTop24(a4, (((a5 as bv64) << 16) | (((a6 as bv64) << 8) | (a7 as bv64))), b4, (((b5 as bv64) << 16) | (((b6 as bv64) << 8) | (b7 as bv64))));
    TailOrder5(a5, a6, a7, b5, b6, b7);
  }

  /** Unsigned order of the big-endian words of bytes 3 .. 7 is their byte order. */
  lemma TailOrder3(a3: bv8, a4: bv8, a5: bv8, a6: bv8, a7: bv8, b3: bv8, b4: bv8, b5: bv8, b6: bv8, b7: bv8)
    ensures (((a3 as bv64) << 32) | (((a4 as bv64) << 24) | (((a5 as bv64) << 16) | (((a6 as bv64) << 8) | (a7 as bv64)))))
        < (((b3 as bv64) << 32) | (((b4 as bv64) << 24) | (((b5 as bv64) << 16) | (((b6 as bv64) << 8) | (b7 as bv64)))))
        <==> LexFrom3(a3, a4, a5, a6, a7, b3, b4, b5, b6, b7)
  {
    TailFits4(a4, a5, a6, a7);
    TailFits4(b4, b5, b6, b7);
    ByteOnTop32(a3,
      (((a4 as bv64) << 24) | (((a5 as bv64) << 16) | (((a6 as bv64) << 8) | (a7 as bv64)))),
      b3,
      (((b4 as bv64) << 24) | (((b5 as bv64) << 16) | (((b6 as bv64) << 8) | (b7 as bv64)))));
    TailOrder4(a4, a5, a6, a7, b4, b5, b6, b7);
  }

  /** Unsigned order of the big-endian words of bytes 2 .. 7 is their byte order. */
  lemma TailOrder2(a2: bv8, a3: bv8, a4: bv8, a5: bv8, a6: bv8, a7: bv8,
                   b2: bv8, b3: bv8, b4: bv8, b5: bv8, b6: bv8, b7: bv8)
    ensures (((a2 as bv64) << 40) | (((a3 as bv64) << 32) | (((a4 as bv64) << 24) | (((a5 as bv64) << 16) | (((a6 as bv64) << 8) | (a7 as bv64))))))
        < (((b2 as bv64) << 40) | (((b3 as bv64) << 32) | (((b4 as bv64) << 24) | (((b5 as bv64) << 16) | (((b6 as bv64) << 8) | (b7 as bv64))))))
        <==> LexFrom2(a2, a3, a4, a5, a6, a7, b2, b3, b4, b5, b6, b7)
  {
    TailFits3(a3, a4, a5, a6, a7);
    TailFits3(b3, b4, b5, b6, b7);
    ByteOnTop40(a2,
      (((a3 as bv64) << 32) | (((a4 as bv64) << 24) | (((a5 as bv64) << 16) | (((a6 as bv64) << 8) | (a7 as bv64))))),
      b2,
      (((b3 as bv64) << 32) | (((b4 as bv64) << 24) | (((b5 as bv64) << 16) | (((b6 as bv64) << 8) | (b7 as bv64))))));
    TailOrder3(a3, a4, a5, a6, a7, b3, b4, b5, b6, b7);
  }

  /** Unsigned order of the big-endian words of bytes 1 .. 7 is their byte order. */
  lemma TailOrder1(a1: bv8, a2: bv8, a3: bv8, a4: bv8, a5: bv8, a6: bv8, a7: bv8,
                   b1: bv8, b2: bv8, b3: bv8, b4: bv8, b5: bv8, b6: bv8, b7: bv8)
    ensures (((a1 as bv64) << 48) | (((a2 as bv64) << 40) | (((a3 as bv64) << 32) | (((a4 as bv64) << 24) | (((a5 as bv64) << 16) | (((a6 as bv64) << 8) | (a7 as bv64)))))))
        < (((b1 as bv64) << 48) | (((b2 as bv64) << 40) | (((b3 as bv64) << 32) | (((b4 as bv64) << 24) | (((b5 as bv64) << 16) | (((b6 as bv64) << 8) | (b7 as bv64)))))))
        <==> LexFrom1(a1, a2, a3, a4, a5, a6, a7, b1, b2, b3, b4, b5, b6, b7)
  {
    TailFits2(a2, a3, a4, a5, a6, a7);
    TailFits2(b2, b3, b4, b5, b6, b7);
    ByteOnTop48(a1,
      (((a2 as bv64) << 40) | (((a3 as bv64) << 32) | (((a4 as bv64) << 24) | (((a5 as bv64) << 16) | (((a6 as bv64) << 8) | (a7 as bv64)))))),
      b1,
      (((b2 as bv64) << 40) | (((b3 as bv64) << 32) | (((b4 as bv64) << 24) | (((b5 as bv64) << 16) | (((b6 as bv64) << 8) | (b7 as bv64)))))));
    TailOrder2(a2, a3, a4, a5, a6, a7, b2, b3, b4, b5, b6, b7);
  }

  /** Unsigned order of the big-endian words of bytes 0 .. 7 is their byte order. */
  lemma TailOrder0(a0: bv8, a1: bv8, a2: bv8, a3: bv8, a4: bv8, a5: bv8, a6: bv8, a7: bv8,
                   b0: bv8, b1: bv8, b2: bv8, b3: bv8, b4: bv8, b5: bv8, b6: bv8, b7: bv8)
    ensures (((a0 as bv64) << 56) | (((a1 as bv64) << 48) | (((a2 as bv64) << 40) | (((a3 as bv64) << 32) | (((a4 as bv64) << 24) | (((a5 as bv64) << 16) | (((a6 as bv64) << 8) | (a7 as bv64))))))))
        < (((b0 as bv64) << 56) | (((b1 as bv64) << 48) | (((b2 as bv64) << 40) | (((b3 as bv64) << 32) | (((b4 as bv64) << 24) | (((b5 as bv64) << 16) | (((b6 as bv64) << 8) | (b7 as bv64))))))))
        <==> LexFrom0(a0, a1, a2, a3, a4, a5, a6, a7, b0, b1, b2, b3, b4, b5, b6, b7)
  {
    TailFits1(a1, a2, a3, a4, a5, a6, a7);
    TailFits1(b1, b2, b3, b4, b5, b6, b7);
    ByteOnTop56(a0,
      (((a1 as bv64) << 48) | (((a2 as bv64) << 40) | (((a3 as bv64) << 32) | (((a4 as bv64) << 24) | (((a5 as bv64) << 16) | (((a6 as bv64) << 8) | (a7 as bv64))))))),
      b0,
      (((b1 as bv64) << 48) | (((b2 as bv64) << 40) | (((b3 as bv64) << 32) | (((b4 as bv64) << 24) | (((b5 as bv64) << 16) | (((b6 as bv64) << 8) | (b7 as bv64))))))));
    TailOrder1(a1, a2, a3, a4, a5, a6, a7, b1, b2, b3, b4, b5, b6, b7);
  }

  /** The word whose bytes, most significant first, are b0 .. b7. */
  function PackBE(b0: bv8, b1: bv8, b2: bv8, b3: bv8, b4: bv8, b5: bv8, b6: bv8, b7: bv8): bv64
  {
    ((b0 as bv64) << 56) | (((b1 as bv64) << 48) | (((b2 as bv64) << 40) | (((b3 as bv64) << 32) | (((b4 as bv64) << 24) | (((b5 as bv64) << 16) | (((b6 as bv64) << 8) | (b7 as bv64)))))))
  }

  /** The same, for the written-out words compared as uint64_t values. */
  lemma BigEndianOrder(a0: bv8, a1: bv8, a2: bv8, a3: bv8, a4: bv8, a5: bv8, a6: bv8, a7: bv8,
                    b0: bv8, b1: bv8, b2: bv8, b3: bv8, b4: bv8, b5: bv8, b6: bv8, b7: bv8)
    ensures WordLess((((a0 as bv64) << 56) | (((a1 as bv64) << 48) | (((a2 as bv64) << 40) | (((a3 as bv64) << 32) | (((a4 as bv64) << 24) | (((a5 as bv64) << 16) | (((a6 as bv64) << 8) | (a7 as bv64)))))))),
                     (((b0 as bv64) << 56) | (((b1 as bv64) << 48) | (((b2 as bv64) << 40) | (((b3 as bv64) << 32) | (((b4 as bv64) << 24) | (((b5 as bv64) << 16) | (((b6 as bv64) << 8) | (b7 as bv64)))))))))
        <==> LexFrom0(a0, a1, a2, a3, a4, a5, a6, a7, b0, b1, b2, b3, b4, b5, b6, b7)
  {
    TailOrder0(a0, a1, a2, a3, a4, a5, a6, a7, b0, b1, b2, b3, b4, b5, b6, b7);
  }

  /** Unsigned order of big-endian words is byte order, most significant byte first.
      The two asserts unfold PackBE into the written-out words BigEndianOrder speaks of;
      the solver does not make that step by itself within its resource bound. */
  lemma PackBEOrder(a0: bv8, a1: bv8, a2: bv8, a3: bv8, a4: bv8, a5: bv8, a6: bv8, a7: bv8,
                    b0: bv8, b1: bv8, b2: bv8, b3: bv8, b4: bv8, b5: bv8, b6: bv8, b7: bv8)
    ensures WordLess(PackBE(a0, a1, a2, a3, a4, a5, a6, a7), PackBE(b0, b1, b2, b3, b4, b5, b6, b7))
        <==> LexFrom0(a0, a1, a2, a3, a4, a5, a6, a7, b0, b1, b2, b3, b4, b5, b6, b7)
  {
    BigEndianOrder(a0, a1, a2, a3, a4, a5, a6, a7, b0, b1, b2, b3, b4, b5, b6, b7);
    assert PackBE(a0, a1, a2, a3, a4, a5, a6, a7) == (((a0 as bv64) << 56) | (((a1 as bv64) << 48) | (((a2 as bv64) << 40) | (((a3 as bv64) << 32) | (((a4 as bv64) << 24) | (((a5 as bv64) << 16) | (((a6 as bv64) << 8) | (a7 as bv64))))))));
    assert PackBE(b0, b1, b2, b3, b4, b5, b6, b7) == (((b0 as bv64) << 56) | (((b1 as bv64) << 48) | (((b2 as bv64) << 40) | (((b3 as bv64) << 32) | (((b4 as bv64) << 24) | (((b5 as bv64) << 16) | (((b6 as bv64) << 8) | (b7 as bv64))))))));
  }

  /** The word a little-endian host reads from eight bytes of memory (one `ui64` slot). */
  function LoadLE(s: seq<bv8>): bv64
    requires |s| == 8
  {
    PackLE(s[0], s[1], s[2], s[3], s[4], s[5], s[6], s[7])
  }

  /** Memory byte k is byte k of the little-endian word... */
  lemma LoadLEBytes(s: seq<bv8>)
    requires |s| == 8
    ensures forall k :: 0 <= k < 8 ==> ByteOf(LoadLE(s), k) == s[k]
  {
    PackLEBytes(s[0], s[1], s[2], s[3], s[4], s[5], s[6], s[7]);
    forall k | 0 <= k < 8 ensures ByteOf(LoadLE(s), k) == s[k] {
      if k == 0 {
      } else if k == 1 {
      } else if k == 2 {
      } else if k == 3 {
      } else if k == 4 {
      } else if k == 5 {
      } else if k == 6 {
      } else {
      }
    }
  }

  /** ... so the read loses nothing: equal words come from equal bytes. */
  lemma LoadLEInjective(s: seq<bv8>, t: seq<bv8>)
    requires |s| == 8 && |t| == 8
    ensures LoadLE(s) == LoadLE(t) <==> s == t
  {
    LoadLEBytes(s);
    LoadLEBytes(t);
    if LoadLE(s) == LoadLE(t) {
      forall k | 0 <= k < 8 ensures s[k] == t[k] {
        assert ByteOf(LoadLE(s), k) == ByteOf(LoadLE(t), k);
      }
    }
  }

  /** The word whose most significant byte is the byte at the lowest address. */
  function LoadBE(s: seq<bv8>): bv64
    requires |s| == 8
  {
    PackBE(s[0], s[1], s[2], s[3], s[4], s[5], s[6], s[7])
  }

  /** Reading in host order and then swapping is reading big-endian:
      this is what swap_bytes is for in the comparison operators. */
  lemma SwapLoadLE(s: seq<bv8>)
    requires |s| == 8
    ensures SwapBytes(LoadLE(s)) == LoadBE(s)
  {
    SwapPackLE(s[0], s[1], s[2], s[3], s[4], s[5], s[6], s[7]);
  }

  /** The big-endian read loses nothing either. */
  lemma LoadBEInjective(s: seq<bv8>, t: seq<bv8>)
    requires |s| == 8 && |t| == 8
    ensures LoadBE(s) == LoadBE(t) <==> s == t
  {
    SwapLoadLE(s);
    SwapLoadLE(t);
    SwapBytesInvolution(LoadLE(s), LoadLE(t));
    LoadLEInjective(s, t);
  }

  /** The byte-by-byte order of LexFrom0 is lexicographic order on the eight-byte strings. */
  lemma LexFromIsLexLess(s: seq<bv8>, t: seq<bv8>)
    requires |s| == 8 && |t| == 8
    ensures LexFrom0(s[0], s[1], s[2], s[3], s[4], s[5], s[6], s[7], t[0], t[1], t[2], t[3], t[4], t[5], t[6], t[7])
        <==> LexLess(s, t)
  {
    LexLessStep(s, t, 0);
    LexLessStep(s, t, 1);
    LexLessStep(s, t, 2);
    LexLessStep(s, t, 3);
    LexLessStep(s, t, 4);
    LexLessStep(s, t, 5);
    LexLessStep(s, t, 6);
    LexLessStep(s, t, 7);
    assert s[0..] == s && t[0..] == t;
  }

  /** Unsigned order of big-endian words is lexicographic order of the bytes they were read from.
      As in PackBEOrder, the asserts unfold LoadBE to the PackBE words the earlier lemma speaks of. */
  lemma LoadBEOrder(s: seq<bv8>, t: seq<bv8>)
    requires |s| == 8 && |t| == 8
    ensures WordLess(LoadBE(s), LoadBE(t)) <==> LexLess(s, t)
  {
    PackBEOrder(s[0], s[1], s[2], s[3], s[4], s[5], s[6], s[7], t[0], t[1], t[2], t[3], t[4], t[5], t[6], t[7]);
    LexFromIsLexLess(s, t);
    assert LoadBE(s) == PackBE(s[0], s[1], s[2], s[3], s[4], s[5], s[6], s[7]);
    assert LoadBE(t) == PackBE(t[0], t[1], t[2], t[3], t[4], t[5], t[6], t[7]);
  }
}
