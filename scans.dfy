/**
 * The linear scans of the heap as functions over sequences of keys:
 * the extreme-child scan, the root scan and the "closest dominating key"
 * selection of delete-by-key. Each is a left fold written the way the
 * source's loop runs; the lemmas say what the fold computes.
 */
module Scans {
  import opened Wrappers
  import opened Keys

  /**
   * find_max_child (dir = Max) / find_min_child (dir = Min): keep the index
   * of the best key so far, replaced by every later key that has precedence
   * in `dir` over it (so the last of equal keys wins).
   */
  function ExtremeIndex(dir: Mode, cmp: Comparator, ks: seq<Key>): (r: nat)
    requires |ks| > 0
    ensures r < |ks|
  {
    ExtremeUpTo(dir, cmp, ks, |ks|)
  }

  /** The extreme-child scan after its first `n` steps. */
  function ExtremeUpTo(dir: Mode, cmp: Comparator, ks: seq<Key>, n: nat): (r: nat)
    requires 0 < n <= |ks|
    ensures r < n
  {
    if n == 1 then 0
    else
      var m := ExtremeUpTo(dir, cmp, ks, n - 1);
      if HasPrecedence(dir, cmp, ks[n - 1], ks[m]) then n - 1 else m
  }

  /**
   * The first `n` steps of the extreme-child scan return a key with
   * precedence over each of the first `n` keys, and no later one of them
   * has precedence over it.
   */
  lemma {:induction false} ExtremeUpToMeaning(dir: Mode, cmp: Comparator, ks: seq<Key>, n: nat)
    requires ComparatorLaws(cmp) && 0 < n <= |ks|
    ensures forall j :: 0 <= j < n ==> HasPrecedence(dir, cmp, ks[ExtremeUpTo(dir, cmp, ks, n)], ks[j])
    ensures forall j :: ExtremeUpTo(dir, cmp, ks, n) < j < n ==> !HasPrecedence(dir, cmp, ks[j], ks[ExtremeUpTo(dir, cmp, ks, n)])
  {
    var r := ExtremeUpTo(dir, cmp, ks, n);
    PrecedenceReflexive(dir, cmp, ks[r]);
    if n > 1 {
      ExtremeUpToMeaning(dir, cmp, ks, n - 1);
      var m := ExtremeUpTo(dir, cmp, ks, n - 1);
      if r == n - 1 {
        forall j | 0 <= j < n - 1 ensures HasPrecedence(dir, cmp, ks[r], ks[j]) {
          PrecedenceTransitive(dir, cmp, ks[n - 1], ks[m], ks[j]);
        }
      } else {
        PrecedenceTotal(dir, cmp, ks[n - 1], ks[m]);
      }
    }
  }

  /**
   * The extreme-child scan returns a key with precedence over every key,
   * and no later key has precedence over it (ties go to the highest index).
   */
  lemma ExtremeIndexMeaning(dir: Mode, cmp: Comparator, ks: seq<Key>)
    requires ComparatorLaws(cmp) && |ks| > 0
    ensures forall j :: 0 <= j < |ks| ==> HasPrecedence(dir, cmp, ks[ExtremeIndex(dir, cmp, ks)], ks[j])
    ensures forall j :: ExtremeIndex(dir, cmp, ks) < j < |ks| ==> !HasPrecedence(dir, cmp, ks[j], ks[ExtremeIndex(dir, cmp, ks)])
  {
    ExtremeUpToMeaning(dir, cmp, ks, |ks|);
  }

  /**
   * __binheap_maxmin over the root keys: the maximum scan takes every later
   * key that compares >= 0 to the current one, the minimum scan every later
   * key that compares < 0.
   */
  function ScanIndex(dir: Mode, cmp: Comparator, ks: seq<Key>): (r: nat)
    requires |ks| > 0
    ensures r < |ks|
  {
    ScanUpTo(dir, cmp, ks, |ks|)
  }

  /** The root scan after its first `n` steps. */
  function ScanUpTo(dir: Mode, cmp: Comparator, ks: seq<Key>, n: nat): (r: nat)
    requires 0 < n <= |ks|
    ensures r < n
  {
    if n == 1 then 0
    else
      var m := ScanUpTo(dir, cmp, ks, n - 1);
      var isBigger := cmp(ks[n - 1], ks[m]) >= 0;
      if (dir == Max && isBigger) || (dir == Min && !isBigger) then n - 1 else m
  }

  /**
   * The root scan returns a key with precedence in `dir` over every key; the
   * maximum scan lets the last of equal keys win, the minimum scan returns a
   * key strictly smaller than every earlier key (the first of equal keys wins).
   */
  lemma ScanIndexMeaning(dir: Mode, cmp: Comparator, ks: seq<Key>)
    requires ComparatorLaws(cmp) && |ks| > 0
    ensures forall j :: 0 <= j < |ks| ==> HasPrecedence(dir, cmp, ks[ScanIndex(dir, cmp, ks)], ks[j])
    ensures dir == Max ==> forall j :: ScanIndex(dir, cmp, ks) < j < |ks| ==> cmp(ks[j], ks[ScanIndex(dir, cmp, ks)]) < 0
    ensures dir == Min ==> forall j :: 0 <= j < ScanIndex(dir, cmp, ks) ==> cmp(ks[ScanIndex(dir, cmp, ks)], ks[j]) < 0
  {
    if dir == Max { ScanMaxMeaning(cmp, ks, |ks|); } else { ScanMinMeaning(cmp, ks, |ks|); }
  }

  lemma {:induction false} ScanMaxMeaning(cmp: Comparator, ks: seq<Key>, n: nat)
    requires ComparatorLaws(cmp) && 0 < n <= |ks|
    ensures forall j :: 0 <= j < n ==> cmp(ks[ScanUpTo(Max, cmp, ks, n)], ks[j]) >= 0
    ensures forall j :: ScanUpTo(Max, cmp, ks, n) < j < n ==> cmp(ks[j], ks[ScanUpTo(Max, cmp, ks, n)]) < 0
  {
    var r := ScanUpTo(Max, cmp, ks, n);
    CompareSelf(cmp, ks[r]);
    if n > 1 {
      ScanMaxMeaning(cmp, ks, n - 1);
      var m := ScanUpTo(Max, cmp, ks, n - 1);
      if r == n - 1 {
        forall j | 0 <= j < n - 1 ensures cmp(ks[n - 1], ks[j]) >= 0 {
          PrecedenceTransitive(Max, cmp, ks[n - 1], ks[m], ks[j]);
        }
      } else {
        CompareFlip(cmp, ks[n - 1], ks[m]);
      }
    }
  }

  lemma {:induction false} ScanMinMeaning(cmp: Comparator, ks: seq<Key>, n: nat)
    requires ComparatorLaws(cmp) && 0 < n <= |ks|
    ensures forall j :: 0 <= j < n ==> cmp(ks[ScanUpTo(Min, cmp, ks, n)], ks[j]) <= 0
    ensures forall j :: 0 <= j < ScanUpTo(Min, cmp, ks, n) ==> cmp(ks[ScanUpTo(Min, cmp, ks, n)], ks[j]) < 0
  {
    var r := ScanUpTo(Min, cmp, ks, n);
    CompareSelf(cmp, ks[r]);
    if n > 1 {
      ScanMinMeaning(cmp, ks, n - 1);
      var m := ScanUpTo(Min, cmp, ks, n - 1);
      if r == n - 1 {
        forall j | 0 <= j < n - 1 ensures cmp(ks[n - 1], ks[j]) < 0 {
          CompareStrict(cmp, ks[n - 1], ks[m], ks[j]);
        }
      } else {
        CompareFlip(cmp, ks[n - 1], ks[m]);
      }
    }
  }

  /**
   * The selection of binheap_delete, over roots and then over children:
   * among the keys with precedence over `key`, keep the current pick unless
   * the pick has precedence over the next candidate, which then replaces it.
   */
  function Closest(mode: Mode, cmp: Comparator, ks: seq<Key>, key: Key): (r: Option<nat>)
    ensures r.Some? ==> r.value < |ks|
  {
    if |ks| == 0 then None
    else
      var m := Closest(mode, cmp, ks[..|ks| - 1], key);
      var cur := ks[|ks| - 1];
      if !HasPrecedence(mode, cmp, cur, key) then m
      else if m.None? || HasPrecedence(mode, cmp, ks[m.value], cur) then Some(|ks| - 1)
      else m
  }

  /**
   * The selection finds nothing exactly when no key has precedence over
   * `key`; otherwise it picks a key with precedence over `key` that every
   * such key has precedence over (the one closest to `key`).
   */
  lemma {:induction false} ClosestMeaning(mode: Mode, cmp: Comparator, ks: seq<Key>, key: Key)
    requires ComparatorLaws(cmp)
    ensures Closest(mode, cmp, ks, key).None? <==> forall j :: 0 <= j < |ks| ==> !HasPrecedence(mode, cmp, ks[j], key)
    ensures Closest(mode, cmp, ks, key).Some? ==>
      && HasPrecedence(mode, cmp, ks[Closest(mode, cmp, ks, key).value], key)
      && forall j :: 0 <= j < |ks| && HasPrecedence(mode, cmp, ks[j], key) ==>
           HasPrecedence(mode, cmp, ks[j], ks[Closest(mode, cmp, ks, key).value])
  {
    if |ks| > 0 {
      var n := |ks| - 1;
      var init := ks[..n];
      ClosestMeaning(mode, cmp, init, key);
      var m := Closest(mode, cmp, init, key);
      var r := Closest(mode, cmp, ks, key);
      assert forall j :: 0 <= j < n ==> init[j] == ks[j];
      if r.Some? {
        PrecedenceReflexive(mode, cmp, ks[r.value]);
        if r.value == n && m.Some? {
          forall j | 0 <= j < n && HasPrecedence(mode, cmp, ks[j], key)
            ensures HasPrecedence(mode, cmp, ks[j], ks[n])
          {
            PrecedenceTransitive(mode, cmp, ks[j], ks[m.value], ks[n]);
          }
        } else if r.value != n && HasPrecedence(mode, cmp, ks[n], key) {
          PrecedenceTotal(mode, cmp, ks[m.value], ks[n]);
        }
      }
    }
  }
}
