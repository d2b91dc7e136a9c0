/** Lexicographic order on byte strings of equal length, and the big-endian
    integer a byte string denotes. These are the reference orders against which
    the address comparison operators are proved. */
module LexOrder {

  /** s comes strictly before t: at the first byte where they differ, s has the smaller one. */
  predicate LexLess(s: seq<bv8>, t: seq<bv8>)
    requires |s| == |t|
    decreases |s|
  {
    |s| > 0 && (s[0] < t[0] || (s[0] == t[0] && LexLess(s[1..], t[1..])))
  }

  /** The unsigned integer whose big-endian base-256 digits are s. */
  function BigEndianValue(s: seq<bv8>): nat
    decreases |s|
  {
    if s == [] then 0 else BigEndianValue(s[..|s| - 1]) * 256 + s[|s| - 1] as int
  }

  /** LexLess means: some position i where the strings agree before i and s is smaller at i. */
  lemma {:induction false} LexLessFirstDifference(s: seq<bv8>, t: seq<bv8>)
    requires |s| == |t|
    ensures LexLess(s, t) <==>
              exists i :: 0 <= i < |s| && s[..i] == t[..i] && s[i] < t[i]
  {
    if |s| > 0 {
      LexLessFirstDifference(s[1..], t[1..]);
      if LexLess(s, t) {
        if s[0] < t[0] {
          assert s[..0] == t[..0];
        } else {
          var i :| 0 <= i < |s| - 1 && s[1..][..i] == t[1..][..i] && s[1..][i] < t[1..][i];
          assert s[..i + 1] == [s[0]] + s[1..][..i];
          assert t[..i + 1] == [t[0]] + t[1..][..i];
          assert s[i + 1] < t[i + 1];
        }
      }
      if exists i :: 0 <= i < |s| && s[..i] == t[..i] && s[i] < t[i] {
        var i :| 0 <= i < |s| && s[..i] == t[..i] && s[i] < t[i];
        if i > 0 {
          assert s[0] == s[..i][0] == t[..i][0] == t[0];
          assert s[1..][..i - 1] == s[..i][1..];
          assert t[1..][..i - 1] == t[..i][1..];
          assert s[1..][i - 1] < t[1..][i - 1];
        }
      }
    }
  }

  /** Comparing the suffixes from position j: byte j decides, the suffixes from j + 1 break ties. */
  lemma LexLessStep(s: seq<bv8>, t: seq<bv8>, j: nat)
    requires |s| == |t| && j < |s|
    ensures LexLess(s[j..], t[j..]) <==> s[j] < t[j] || (s[j] == t[j] && LexLess(s[j + 1..], t[j + 1..]))
  {
    assert s[j..][1..] == s[j + 1..] && t[j..][1..] == t[j + 1..];
  }

  /** Exactly one of: s before t, s equal to t, t before s. */
  lemma {:induction false} LexTrichotomy(s: seq<bv8>, t: seq<bv8>)
    requires |s| == |t|
    ensures LexLess(s, t) || s == t || LexLess(t, s)
    ensures !(LexLess(s, t) && s == t)
    ensures !(LexLess(s, t) && LexLess(t, s))
    ensures !(s == t && LexLess(t, s))
  {
    if |s| > 0 {
      LexTrichotomy(s[1..], t[1..]);
      if s[0] == t[0] && s[1..] == t[1..] {
        assert s == [s[0]] + s[1..] && t == [t[0]] + t[1..];
      }
    }
  }

  /** LexLess is transitive. */
  lemma {:induction false} LexTransitive(s: seq<bv8>, t: seq<bv8>, u: seq<bv8>)
    requires |s| == |t| == |u|
    requires LexLess(s, t) && LexLess(t, u)
    ensures LexLess(s, u)
  {
    if s[0] == t[0] && t[0] == u[0] {
      LexTransitive(s[1..], t[1..], u[1..]);
    }
  }

  /** Comparing a split string: the first k bytes decide, the rest break ties. */
  lemma {:induction false} LexSplit(s: seq<bv8>, t: seq<bv8>, k: nat)
    requires |s| == |t| && k <= |s|
    ensures LexLess(s, t) <==>
              LexLess(s[..k], t[..k]) || (s[..k] == t[..k] && LexLess(s[k..], t[k..]))
  {
    if k > 0 {
      LexSplit(s[1..], t[1..], k - 1);
      assert s[1..][..k - 1] == s[..k][1..] && t[1..][..k - 1] == t[..k][1..];
      assert s[1..][k - 1..] == s[k..] && t[1..][k - 1..] == t[k..];
      if s[..k] == t[..k] {
        assert s[0] == s[..k][0] && t[0] == t[..k][0];
      }
      if s[0] == t[0] && s[..k][1..] == t[..k][1..] {
        assert s[..k] == [s[0]] + s[..k][1..] && t[..k] == [t[0]] + t[..k][1..];
      }
    } else {
      assert s[..0] == t[..0] && s[0..] == s && t[0..] == t;
    }
  }

  /** Appending one byte to strings of equal length: the strings decide, the byte breaks ties. */
  lemma {:induction false} LexAppend(p: seq<bv8>, a: bv8, q: seq<bv8>, b: bv8)
    requires |p| == |q|
    ensures LexLess(p + [a], q + [b]) <==> LexLess(p, q) || (p == q && a < b)
    decreases |p|
  {
    if |p| == 0 {
      assert p + [a] == [a] && q + [b] == [b];
      assert [a][1..] == [] && [b][1..] == [];
    } else {
      LexAppend(p[1..], a, q[1..], b);
      assert (p + [a])[1..] == p[1..] + [a] && (q + [b])[1..] == q[1..] + [b];
      assert p == [p[0]] + p[1..] && q == [q[0]] + q[1..];
    }
  }

  /** Appending a byte appends a base-256 digit. */
  lemma {:induction false} BigEndianValueAppend(p: seq<bv8>, a: bv8)
    ensures BigEndianValue(p + [a]) == BigEndianValue(p) * 256 + a as int
  {
    assert (p + [a])[..|p|] == p;
  }

  /** Bytes compare as the integers they denote. */
  lemma ByteAsInt(a: bv8, b: bv8)
    ensures 0 <= a as int < 256 && 0 <= b as int < 256
    ensures (a < b) == (a as int < b as int)
    ensures (a == b) == (a as int == b as int)
  {
  }

  /** Base-256 numbers with one more digit: the higher digits decide, the last one breaks ties. */
  lemma DigitOrder(x: int, a: int, y: int, b: int)
    requires 0 <= a < 256 && 0 <= b < 256
    ensures x * 256 + a < y * 256 + b <==> x < y || (x == y && a < b)
    ensures x * 256 + a == y * 256 + b <==> x == y && a == b
  {
    if x < y {
      assert x * 256 + 256 <= y * 256;
    } else if y < x {
      assert y * 256 + 256 <= x * 256;
    }
  }

  /** One more digit on both sides keeps lexicographic order and value order in step. */
  lemma ValueOrderStep(p: seq<bv8>, a: bv8, q: seq<bv8>, b: bv8)
    requires |p| == |q|
    requires LexLess(p, q) <==> BigEndianValue(p) < BigEndianValue(q)
    requires p == q <==> BigEndianValue(p) == BigEndianValue(q)
    ensures LexLess(p + [a], q + [b]) <==> BigEndianValue(p + [a]) < BigEndianValue(q + [b])
    ensures p + [a] == q + [b] <==> BigEndianValue(p + [a]) == BigEndianValue(q + [b])
  {
    LexAppend(p, a, q, b);
    BigEndianValueAppend(p, a);
    BigEndianValueAppend(q, b);
    ByteAsInt(a, b);
    DigitOrder(BigEndianValue(p), a as int, BigEndianValue(q), b as int);
    if p + [a] == q + [b] {
      assert p == (p + [a])[..|p|] && a == (p + [a])[|p|];
    }
  }

  /** For strings of equal length, lexicographic order is the order of their big-endian values. */
  lemma {:induction false} LexLessIsValueOrder(s: seq<bv8>, t: seq<bv8>)
    requires |s| == |t|
    ensures LexLess(s, t) <==> BigEndianValue(s) < BigEndianValue(t)
    ensures s == t <==> BigEndianValue(s) == BigEndianValue(t)
    decreases |s|
  {
    if |s| > 0 {
      var p, q := s[..|s| - 1], t[..|t| - 1];
      assert s == p + [s[|s| - 1]] && t == q + [t[|t| - 1]];
      LexLessIsValueOrder(p, q);
      ValueOrderStep(p, s[|s| - 1], q, t[|t| - 1]);
    }
  }
}
