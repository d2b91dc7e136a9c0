/** The six comparison operators of IPaddr_cpp, over the 16 stored bytes of an
    ip_addr_t, and the order they define: big-endian unsigned 128-bit order,
    which is lexicographic order on the bytes in memory. */
module AddressOrder {
  import opened ByteOrder
  import opened LexOrder

  /** An ip_addr_t: 16 bytes in network (big-endian) order. */
  type Bytes16 = s: seq<bv8> | |s| == 16
    witness [0, 0, 0, 0, 0, 0, 0, 0, 0, 0, 0, 0, 0, 0, 0, 0]

  /** The `ui64[0]` view: bytes 0-7, read by a little-endian host. */
  function High(a: Bytes16): bv64
  {
    LoadLE(a[..8])
  }

  /** The `ui64[1]` view: bytes 8-15, read by a little-endian host. */
  function Low(a: Bytes16): bv64
  {
    LoadLE(a[8..])
  }

  /** operator<: the byte-swapped high words decide, the byte-swapped low words break ties. */
  predicate Less(a: Bytes16, b: Bytes16)
  {
    WordLess(SwapBytes(High(a)), SwapBytes(High(b))) ||
    (SwapBytes(High(a)) == SwapBytes(High(b)) && WordLess(SwapBytes(Low(a)), SwapBytes(Low(b))))
  }

  /** operator<=: not greater. */
  predicate LessEq(a: Bytes16, b: Bytes16)
  {
    !Greater(a, b)
  }

  /** operator>: the mirror image of operator<, `x > y` being `y < x` on uint64_t. */
  predicate Greater(a: Bytes16, b: Bytes16)
  {
    WordLess(SwapBytes(High(b)), SwapBytes(High(a))) ||
    (SwapBytes(High(a)) == SwapBytes(High(b)) && WordLess(SwapBytes(Low(b)), SwapBytes(Low(a))))
  }

  /** operator>=: not less. */
  predicate GreaterEq(a: Bytes16, b: Bytes16)
  {
    !Less(a, b)
  }

  /** operator==: both raw words are equal, no byte swap. */
  predicate Equal(a: Bytes16, b: Bytes16)
  {
    High(a) == High(b) && Low(a) == Low(b)
  }

  /** operator!=: not equal. */
  predicate NotEqual(a: Bytes16, b: Bytes16)
  {
    !Equal(a, b)
  }

  /** The swapped high and low words are the big-endian words of the two halves. */
  lemma SwappedWords(a: Bytes16)
    ensures SwapBytes(High(a)) == LoadBE(a[..8])
    ensures SwapBytes(Low(a)) == LoadBE(a[8..])
  {
    SwapLoadLE(a[..8]);
    SwapLoadLE(a[8..]);
  }

  /** operator< is lexicographic order on the 16 stored bytes. */
  lemma LessIsLex(a: Bytes16, b: Bytes16)
    ensures Less(a, b) <==> LexLess(a, b)
  {
    SwappedWords(a);
    SwappedWords(b);
    LoadBEOrder(a[..8], b[..8]);
    LoadBEOrder(a[8..], b[8..]);
    LoadBEInjective(a[..8], b[..8]);
    LexSplit(a, b, 8);
  }

  /** operator> holds exactly when operator< holds with the arguments exchanged. */
  lemma GreaterIsConverse(a: Bytes16, b: Bytes16)
    ensures Greater(a, b) <==> Less(b, a)
  {
  }

  /** operator== holds exactly when all 16 bytes are equal. */
  lemma EqualIsSameBytes(a: Bytes16, b: Bytes16)
    ensures Equal(a, b) <==> a == b
  {
    LoadLEInjective(a[..8], b[..8]);
    LoadLEInjective(a[8..], b[8..]);
    assert a == a[..8] + a[8..] && b == b[..8] + b[8..];
  }

  /** operator< is the order of the addresses read as big-endian unsigned 128-bit integers. */
  lemma LessIsValueOrder(a: Bytes16, b: Bytes16)
    ensures Less(a, b) <==> BigEndianValue(a) < BigEndianValue(b)
    ensures Equal(a, b) <==> BigEndianValue(a) == BigEndianValue(b)
  {
    LessIsLex(a, b);
    EqualIsSameBytes(a, b);
    LexLessIsValueOrder(a, b);
  }

  /** Exactly one of a < b, a == b, a > b holds. */
  lemma Trichotomy(a: Bytes16, b: Bytes16)
    ensures Less(a, b) || Equal(a, b) || Greater(a, b)
    ensures !(Less(a, b) && Equal(a, b))
    ensures !(Less(a, b) && Greater(a, b))
    ensures !(Equal(a, b) && Greater(a, b))
  {
    LessIsLex(a, b);
    LessIsLex(b, a);
    GreaterIsConverse(a, b);
    EqualIsSameBytes(a, b);
    LexTrichotomy(a, b);
  }

  /** operator< is a strict total order: irreflexive, transitive and connected. */
  lemma LessIsStrictTotalOrder(a: Bytes16, b: Bytes16, c: Bytes16)
    ensures !Less(a, a)
    ensures Less(a, b) && Less(b, c) ==> Less(a, c)
    ensures a != b ==> Less(a, b) || Less(b, a)
  {
    LessIsLex(a, a);
    LexTrichotomy(a, a);
    LessIsLex(a, b);
    LessIsLex(b, a);
    LessIsLex(b, c);
    LessIsLex(a, c);
    LexTrichotomy(a, b);
    if Less(a, b) && Less(b, c) {
      LexTransitive(a, b, c);
    }
  }

  /** operator<= is "less or equal". */
  lemma LessEqIsLessOrEqual(a: Bytes16, b: Bytes16)
    ensures LessEq(a, b) <==> Less(a, b) || Equal(a, b)
  {
    Trichotomy(a, b);
  }

  /** operator>= is "greater or equal". */
  lemma GreaterEqIsGreaterOrEqual(a: Bytes16, b: Bytes16)
    ensures GreaterEq(a, b) <==> Greater(a, b) || Equal(a, b)
  {
    Trichotomy(a, b);
  }

  /** operator!= holds exactly when some byte differs. */
  lemma NotEqualIsDifferentBytes(a: Bytes16, b: Bytes16)
    ensures NotEqual(a, b) <==> a != b
  {
    EqualIsSameBytes(a, b);
  }

  /** operator<= is a total order: reflexive, antisymmetric, transitive and total. */
  lemma LessEqIsTotalOrder(a: Bytes16, b: Bytes16, c: Bytes16)
    ensures LessEq(a, a)
    ensures LessEq(a, b) && LessEq(b, a) ==> a == b
    ensures LessEq(a, b) && LessEq(b, c) ==> LessEq(a, c)
    ensures LessEq(a, b) || LessEq(b, a)
  {
    LessEqIsLessOrEqual(a, a);
    LessEqIsLessOrEqual(a, b);
    LessEqIsLessOrEqual(b, a);
    LessEqIsLessOrEqual(b, c);
    LessEqIsLessOrEqual(a, c);
    EqualIsSameBytes(a, a);
    EqualIsSameBytes(a, b);
    EqualIsSameBytes(b, c);
    EqualIsSameBytes(a, c);
    LessIsStrictTotalOrder(a, b, c);
  }
}
