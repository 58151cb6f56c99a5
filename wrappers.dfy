/** The optional value used for the C source's NULL returns and -1 index returns. */
module Wrappers {

  datatype Option<+T> = None | Some(value: T)

  /** The elements of an option, as a multiset (empty or a singleton). */
  function OptBag<T>(o: Option<T>): (b: multiset<T>)
    ensures |b| == if o.Some? then 1 else 0
  {
    if o.Some? then multiset{o.value} else multiset{}
  }

  /** shift_value on the root list: the first element, if any, and the rest. */
  function Shift<T>(s: seq<T>): (r: (Option<T>, seq<T>))
    ensures r.0.None? <==> s == []
    ensures r.0.Some? ==> s == [r.0.value] + r.1
    ensures r.0.None? ==> r.1 == []
    ensures multiset(s) == OptBag(r.0) + multiset(r.1)
  {
    if s == [] then (None, [])
    else
      assert s == [s[0]] + s[1..];
      (Some(s[0]), s[1..])
  }

  /** No element occurs twice. */
  predicate NoDup<T(==)>(s: seq<T>)
  {
    forall i, j :: 0 <= i < j < |s| ==> s[i] != s[j]
  }

  /** `s` with the element at index `i` taken out, the rest kept in order. */
  function Without<T>(s: seq<T>, i: nat): (r: seq<T>)
    requires i < |s|
    ensures |r| == |s| - 1
    ensures forall j :: 0 <= j < i ==> r[j] == s[j]
    ensures forall j :: i <= j < |r| ==> r[j] == s[j + 1]
  {
    s[..i] + s[i + 1..]
  }

  lemma WithoutMembers<T>(s: seq<T>, i: nat)
    requires i < |s| && NoDup(s)
    ensures NoDup(Without(s, i))
    ensures s[i] !in Without(s, i)
    ensures forall y :: y in s && y != s[i] ==> y in Without(s, i)
    ensures forall y :: y in Without(s, i) ==> y in s
    ensures multiset(Without(s, i)) == multiset(s) - multiset{s[i]}
  {
    var r := Without(s, i);
    assert s == s[..i] + [s[i]] + s[i + 1..];
    forall y | y in s && y != s[i] ensures y in r {
      var k :| 0 <= k < |s| && s[k] == y;
      if k < i { assert r[k] == y; } else { assert r[k - 1] == y; }
    }
  }

  /** Position of the first occurrence of `x` in `s`. */
  function IndexOf<T(==)>(s: seq<T>, x: T): (i: nat)
    requires x in s
    ensures i < |s| && s[i] == x && x !in s[..i]
  {
    if s[0] == x then 0 else 1 + IndexOf(s[1..], x)
  }

  /** The first occurrence of `x` is the one `IndexOf` finds. */
  lemma FirstIndex<T>(s: seq<T>, x: T, i: nat)
    requires i < |s| && s[i] == x && x !in s[..i]
    ensures IndexOf(s, x) == i
  {
  }

  /** The suffix from `i` is its first element followed by the suffix after it. */
  lemma Uncons<T>(s: seq<T>, i: nat)
    requires i < |s|
    ensures s[i..] == [s[i]] + s[i + 1..]
  {
  }

  /** Putting `a` in front of `[b] + rest` gives `[a, b] + rest`. */
  lemma ConsTwo<T>(a: T, s: seq<T>, b: T, rest: seq<T>)
    requires s == [b] + rest
    ensures [a] + s == [a, b] + rest
  {
  }

  /** Outside the replaced slot, the element at `k` of the new sequence is an element of `s` other than `s[i]`. */
  lemma ReplacedAt<T>(s: seq<T>, i: nat, p: seq<T>, k: nat)
    requires i < |s| && |p| <= 1 && k < |s[..i] + p + s[i + 1..]| && !(i <= k < i + |p|)
    ensures var j := if k < i then k else k - |p| + 1;
      j < |s| && j != i && (s[..i] + p + s[i + 1..])[k] == s[j]
  {
  }

  /** Replacing the element at `i` by at most one new element keeps the sequence free of duplicates. */
  lemma ReplaceMembers<T>(s: seq<T>, i: nat, p: seq<T>)
    requires i < |s| && NoDup(s) && |p| <= 1 && forall y :: y in p ==> y !in s
    ensures NoDup(s[..i] + p + s[i + 1..])
    ensures forall y :: y in s[..i] + p + s[i + 1..] <==> (y in s && y != s[i]) || y in p
  {
    var r := s[..i] + p + s[i + 1..];
    forall a, b | 0 <= a < b < |r| ensures r[a] != r[b] {
      if i <= a < i + |p| {
        assert r[a] == p[0] && p[0] in p;
        ReplacedAt(s, i, p, b);
        assert r[b] in s;
      } else if i <= b < i + |p| {
        assert r[b] == p[0] && p[0] in p;
        ReplacedAt(s, i, p, a);
        assert r[a] in s;
      } else {
        ReplacedAt(s, i, p, a);
        ReplacedAt(s, i, p, b);
        var ja := if a < i then a else a - |p| + 1;
        var jb := if b < i then b else b - |p| + 1;
        assert ja < jb && r[a] == s[ja] && r[b] == s[jb];
      }
    }
    forall y | y in r ensures (y in s && y != s[i]) || y in p {
      var k :| 0 <= k < |r| && r[k] == y;
      if !(i <= k < i + |p|) {
        ReplacedAt(s, i, p, k);
      }
    }
    forall y | y in s && y != s[i] ensures y in r {
      var k :| 0 <= k < |s| && s[k] == y;
      if k < i {
        ReplacedAt(s, i, p, k);
      } else {
        ReplacedAt(s, i, p, k - 1 + |p|);
      }
    }
  }
}
