/**
 * Key ordering of the binomial heap: byte-string keys, the default comparator
 * (length first, then memcmp) and the mode-dependent precedence test.
 */
module Keys {

  type Byte = b: int | 0 <= b < 256
  type Key = seq<Byte>

  /** A key comparator callback: negative, zero or positive. */
  type Comparator = (Key, Key) -> int

  datatype Mode = Max | Min

  /**
   * A comparison as it appears in the comparator laws. The laws are stated on
   * this term rather than on `cmp(a, b)`, so that the verifier instantiates
   * them only where a proof asks for a law, not at every comparison.
   */
  ghost function Sign(cmp: Comparator, a: Key, b: Key): int
  {
    cmp(a, b)
  }

  /** The laws every comparator is expected to obey: a total preorder given by the sign of its result. */
  ghost predicate ComparatorLaws(cmp: Comparator)
  {
    && (forall a, b :: Sign(cmp, a, b) <= 0 <==> Sign(cmp, b, a) >= 0)
    && (forall a, b, c :: Sign(cmp, a, b) <= 0 && Sign(cmp, b, c) <= 0 ==> Sign(cmp, a, c) <= 0)
  }

  /** `a` comes strictly before `b` in byte-wise lexicographic order. */
  ghost predicate LexLess(a: Key, b: Key)
  {
    exists i :: 0 <= i < |a| && i < |b| && a[..i] == b[..i] && a[i] < b[i]
  }

  /** memcmp over two byte strings of the same length, bytes read as unsigned. */
  function Memcmp(a: Key, b: Key): (r: int)
    requires |a| == |b|
  {
    if |a| == 0 then 0
    else if a[0] != b[0] then a[0] - b[0]
    else Memcmp(a[1..], b[1..])
  }

  /** The default comparator: by length first, then by memcmp. */
  function DefaultCompare(a: Key, b: Key): int
  {
    if |a| != |b| then |a| - |b| else Memcmp(a, b)
  }

  /** HAS_PRECEDENCE: in MAX mode the greater-or-equal key, in MIN mode the less-or-equal key. */
  predicate HasPrecedence(mode: Mode, cmp: Comparator, a: Key, b: Key)
  {
    match mode
    case Max => cmp(a, b) >= 0
    case Min => cmp(a, b) <= 0
  }

  /** The opposite mode. */
  function Flip(mode: Mode): (r: Mode)
    ensures r != mode
  {
    if mode == Max then Min else Max
  }

  lemma {:induction false} MemcmpZero(a: Key, b: Key)
    requires |a| == |b|
    ensures Memcmp(a, b) == 0 <==> a == b
  {
    if |a| > 0 && a[0] == b[0] {
      MemcmpZero(a[1..], b[1..]);
      assert a == [a[0]] + a[1..] && b == [b[0]] + b[1..];
    }
  }

  lemma {:induction false} MemcmpAntisymmetric(a: Key, b: Key)
    requires |a| == |b|
    ensures Memcmp(b, a) == -Memcmp(a, b)
  {
    if |a| > 0 && a[0] == b[0] {
      MemcmpAntisymmetric(a[1..], b[1..]);
    }
  }

  lemma {:induction false} MemcmpTransitive(a: Key, b: Key, c: Key)
    requires |a| == |b| == |c|
    requires Memcmp(a, b) <= 0 && Memcmp(b, c) <= 0
    ensures Memcmp(a, c) <= 0
  {
    if |a| > 0 && a[0] == b[0] && b[0] == c[0] {
      MemcmpTransitive(a[1..], b[1..], c[1..]);
    }
  }

  /** memcmp is negative exactly when the first key is lexicographically smaller. */
  lemma {:induction false} MemcmpLexicographic(a: Key, b: Key)
    requires |a| == |b|
    ensures Memcmp(a, b) < 0 <==> LexLess(a, b)
  {
    if |a| == 0 {
    } else if a[0] != b[0] {
      if a[0] < b[0] {
        assert a[..0] == b[..0];
      } else if LexLess(a, b) {
        var i :| 0 <= i < |a| && i < |b| && a[..i] == b[..i] && a[i] < b[i];
        if i > 0 { assert a[..i][0] == b[..i][0]; }
      }
    } else {
      MemcmpLexicographic(a[1..], b[1..]);
      if LexLess(a[1..], b[1..]) {
        var i :| 0 <= i < |a[1..]| && a[1..][..i] == b[1..][..i] && a[1..][i] < b[1..][i];
        assert a[..i + 1] == [a[0]] + a[1..][..i];
        assert b[..i + 1] == [b[0]] + b[1..][..i];
      }
      if LexLess(a, b) {
        var i :| 0 <= i < |a| && i < |b| && a[..i] == b[..i] && a[i] < b[i];
        assert i > 0;
        assert a[1..][..i - 1] == a[..i][1..];
        assert b[1..][..i - 1] == b[..i][1..];
      }
    }
  }

  /**
   * What the default comparator means: keys of different length compare by
   * length, keys of equal length compare lexicographically by byte, and it is
   * zero exactly on equal keys.
   */
  lemma DefaultCompareMeaning(a: Key, b: Key)
    ensures DefaultCompare(a, b) == 0 <==> a == b
    ensures |a| < |b| ==> DefaultCompare(a, b) < 0
    ensures |a| > |b| ==> DefaultCompare(a, b) > 0
    ensures |a| == |b| ==> (DefaultCompare(a, b) < 0 <==> LexLess(a, b))
  {
    if |a| == |b| {
      MemcmpZero(a, b);
      MemcmpLexicographic(a, b);
    }
  }

  /** The default comparator obeys the comparator laws. */
  lemma DefaultCompareLaws()
    ensures ComparatorLaws(DefaultCompare)
  {
    forall a: Key, b: Key
      ensures Sign(DefaultCompare, a, b) <= 0 <==> Sign(DefaultCompare, b, a) >= 0
    {
      if |a| == |b| { MemcmpAntisymmetric(a, b); }
    }
    forall a: Key, b: Key, c: Key | Sign(DefaultCompare, a, b) <= 0 && Sign(DefaultCompare, b, c) <= 0
      ensures Sign(DefaultCompare, a, c) <= 0
    {
      if |a| == |b| == |c| { MemcmpTransitive(a, b, c); }
    }
  }

  /** Under the laws every key compares equal to itself. */
  lemma CompareSelf(cmp: Comparator, a: Key)
    requires ComparatorLaws(cmp)
    ensures cmp(a, a) == 0
  {
    assert Sign(cmp, a, a) <= 0 <==> Sign(cmp, a, a) >= 0;
  }

  lemma CompareFlip(cmp: Comparator, a: Key, b: Key)
    requires ComparatorLaws(cmp)
    ensures cmp(a, b) <= 0 <==> cmp(b, a) >= 0
    ensures cmp(a, b) < 0 <==> cmp(b, a) > 0
  {
    assert Sign(cmp, b, a) <= 0 <==> Sign(cmp, a, b) >= 0;
    assert Sign(cmp, a, b) <= 0 <==> Sign(cmp, b, a) >= 0;
  }

  lemma CompareTransitive(cmp: Comparator, a: Key, b: Key, c: Key)
    requires ComparatorLaws(cmp) && cmp(a, b) <= 0 && cmp(b, c) <= 0
    ensures cmp(a, c) <= 0
  {
    assert Sign(cmp, a, b) <= 0 && Sign(cmp, b, c) <= 0;
  }

  /** A strictly smaller key stays strictly smaller than anything its successor is at most. */
  lemma CompareStrict(cmp: Comparator, a: Key, b: Key, c: Key)
    requires ComparatorLaws(cmp) && cmp(a, b) < 0 && cmp(b, c) <= 0
    ensures cmp(a, c) < 0
  {
    CompareFlip(cmp, a, c);
    CompareFlip(cmp, a, b);
    if cmp(c, a) <= 0 {
      CompareTransitive(cmp, b, c, a);
    }
  }

  /** HAS_PRECEDENCE is reflexive. */
  lemma PrecedenceReflexive(mode: Mode, cmp: Comparator, a: Key)
    requires ComparatorLaws(cmp)
    ensures HasPrecedence(mode, cmp, a, a)
  {
    CompareSelf(cmp, a);
  }

  /** HAS_PRECEDENCE is total: of two keys, one has precedence over the other. */
  lemma PrecedenceTotal(mode: Mode, cmp: Comparator, a: Key, b: Key)
    requires ComparatorLaws(cmp)
    ensures HasPrecedence(mode, cmp, a, b) || HasPrecedence(mode, cmp, b, a)
  {
    CompareFlip(cmp, a, b);
  }

  /** HAS_PRECEDENCE is transitive. */
  lemma PrecedenceTransitive(mode: Mode, cmp: Comparator, a: Key, b: Key, c: Key)
    requires ComparatorLaws(cmp)
    requires HasPrecedence(mode, cmp, a, b) && HasPrecedence(mode, cmp, b, c)
    ensures HasPrecedence(mode, cmp, a, c)
  {
    CompareFlip(cmp, a, b);
    CompareFlip(cmp, b, c);
    CompareFlip(cmp, a, c);
    if mode == Min {
      CompareTransitive(cmp, a, b, c);
    } else {
      CompareTransitive(cmp, c, b, a);
    }
  }

  /** Precedence in one mode is precedence the other way round in the opposite mode. */
  lemma PrecedenceFlip(mode: Mode, cmp: Comparator, a: Key, b: Key)
    requires ComparatorLaws(cmp)
    ensures HasPrecedence(mode, cmp, a, b) <==> HasPrecedence(Flip(mode), cmp, b, a)
  {
    CompareFlip(cmp, a, b);
  }
}
