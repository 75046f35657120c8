/** `listAllArrangements`: every ordering of a sequence, enumerated by picking
    each position in turn as the head and recursing on what is left. */
module Arrangements {

  function Factorial(n: nat): nat {
    if n == 0 then 1 else n * Factorial(n - 1)
  }

  /** `sequence[:idx] + sequence[idx+1:]`. */
  function RemoveAt<T>(s: seq<T>, idx: nat): (r: seq<T>)
    requires idx < |s|
    ensures |r| == |s| - 1
  {
    s[..idx] + s[idx + 1..]
  }

  /** `[x] + subCombo` for every `subCombo` of `ss`, in order. */
  function PrependAll<T>(x: T, ss: seq<seq<T>>): (r: seq<seq<T>>)
    ensures |r| == |ss|
    ensures forall k :: 0 <= k < |ss| ==> r[k] == [x] + ss[k]
  {
    if |ss| == 0 then [] else [[x] + ss[0]] + PrependAll(x, ss[1..])
  }

  /** The arrangements in generation order: an input of length at most one
      yields itself; otherwise, for idx = 0, 1, ..., the arrangements of the
      rest, each prefixed with `s[idx]`. */
  function AllArrangements<T>(s: seq<T>): seq<seq<T>>
    decreases |s|, 1
  {
    if |s| <= 1 then [s] else ArrangementsFrom(s, 0)
  }

  /** The part of the enumeration that starts with the head `s[idx]`. */
  function ArrangementsFrom<T>(s: seq<T>, idx: nat): seq<seq<T>>
    requires 2 <= |s| && idx <= |s|
    decreases |s|, 0, |s| - idx
  {
    if idx == |s| then []
    else PrependAll(s[idx], AllArrangements(RemoveAt(s, idx))) + ArrangementsFrom(s, idx + 1)
  }

  // ---- how many ----

  /** n elements have exactly n! arrangements. */
  lemma {:induction false} ArrangementsCount<T>(s: seq<T>)
    ensures |AllArrangements(s)| == Factorial(|s|)
    decreases |s|, 1
  {
    if |s| > 1 {
      ArrangementsFromCount(s, 0);
    }
  }

  lemma {:induction false} ArrangementsFromCount<T>(s: seq<T>, idx: nat)
    requires 2 <= |s| && idx <= |s|
    ensures |ArrangementsFrom(s, idx)| == (|s| - idx) * Factorial(|s| - 1)
    decreases |s|, 0, |s| - idx
  {
    if idx < |s| {
      ArrangementsCount(RemoveAt(s, idx));
      ArrangementsFromCount(s, idx + 1);
      assert (|s| - idx) * Factorial(|s| - 1)
          == Factorial(|s| - 1) + (|s| - (idx + 1)) * Factorial(|s| - 1);
    }
  }

  // ---- each one is a permutation ----

  lemma RemoveAtMultiset<T>(s: seq<T>, idx: nat)
    requires idx < |s|
    ensures multiset(s) == multiset(RemoveAt(s, idx)) + multiset{s[idx]}
  {
    assert s == s[..idx] + [s[idx]] + s[idx + 1..];
  }

  /** Every arrangement holds the same elements, as often, as the input. */
  lemma {:induction false} ArrangementsArePermutations<T>(s: seq<T>)
    ensures forall r :: r in AllArrangements(s) ==> multiset(r) == multiset(s) && |r| == |s|
    decreases |s|, 1
  {
    if |s| > 1 {
      ArrangementsFromArePermutations(s, 0);
    }
  }

  lemma {:induction false} ArrangementsFromArePermutations<T>(s: seq<T>, idx: nat)
    requires 2 <= |s| && idx <= |s|
    ensures forall r :: r in ArrangementsFrom(s, idx) ==> multiset(r) == multiset(s) && |r| == |s|
    decreases |s|, 0, |s| - idx
  {
    if idx < |s| {
      var rest := RemoveAt(s, idx);
      ArrangementsArePermutations(rest);
      ArrangementsFromArePermutations(s, idx + 1);
      RemoveAtMultiset(s, idx);
      var block := PrependAll(s[idx], AllArrangements(rest));
      forall r | r in block
        ensures multiset(r) == multiset(s) && |r| == |s|
      {
        var k :| 0 <= k < |block| && block[k] == r;
        assert AllArrangements(rest)[k] in AllArrangements(rest);
      }
    }
  }

  // ---- every permutation occurs ----

  /** Every rearrangement of the input is enumerated. */
  lemma {:induction false} ArrangementsComplete<T>(s: seq<T>, r: seq<T>)
    requires multiset(r) == multiset(s)
    ensures r in AllArrangements(s)
    decreases |s|
  {
    assert |r| == |multiset(r)| == |multiset(s)| == |s|;
    if |s| == 0 {
      assert r == s;
    } else if |s| == 1 {
      assert r[0] in multiset(s);
      assert r == [r[0]];
      assert s == [s[0]];
    } else {
      assert r[0] in multiset(s);
      var idx :| 0 <= idx < |s| && s[idx] == r[0];
      var rest := RemoveAt(s, idx);
      RemoveAtMultiset(s, idx);
      assert r == [r[0]] + r[1..];
      assert multiset(r) == multiset{r[0]} + multiset(r[1..]);
      assert multiset(r[1..]) == multiset(r) - multiset{r[0]};
      assert multiset(rest) == multiset(s) - multiset{s[idx]};
      ArrangementsComplete(rest, r[1..]);
      var k :| 0 <= k < |AllArrangements(rest)| && AllArrangements(rest)[k] == r[1..];
      var block := PrependAll(s[idx], AllArrangements(rest));
      assert block[k] == r;
      BlockInArrangementsFrom(s, 0, idx);
    }
  }

  /** The block headed by `s[j]` is part of the enumeration from `idx <= j` on. */
  lemma {:induction false} BlockInArrangementsFrom<T>(s: seq<T>, idx: nat, j: nat)
    requires 2 <= |s| && idx <= j < |s|
    ensures forall r :: r in PrependAll(s[j], AllArrangements(RemoveAt(s, j))) ==> r in ArrangementsFrom(s, idx)
    decreases j - idx
  {
    if idx < j {
      BlockInArrangementsFrom(s, idx + 1, j);
    }
  }

  /** A sequence is an arrangement of `s` exactly when it is a permutation of `s`. */
  lemma ArrangementsExactlyPermutations<T>(s: seq<T>, r: seq<T>)
    ensures r in AllArrangements(s) <==> multiset(r) == multiset(s)
  {
    ArrangementsArePermutations(s);
    if multiset(r) == multiset(s) {
      ArrangementsComplete(s, r);
    }
  }

  // ---- no arrangement twice ----

  predicate Distinct<T(==)>(s: seq<T>) {
    forall i, j :: 0 <= i < j < |s| ==> s[i] != s[j]
  }

  /** For an input without repeated elements, the arrangements are pairwise distinct. */
  lemma {:induction false} ArrangementsDistinct<T>(s: seq<T>)
    requires Distinct(s)
    ensures Distinct(AllArrangements(s))
    decreases |s|, 1
  {
    if |s| > 1 {
      ArrangementsFromDistinct(s, 0);
    }
  }

  lemma {:induction false} ArrangementsFromDistinct<T>(s: seq<T>, idx: nat)
    requires 2 <= |s| && idx <= |s| && Distinct(s)
    ensures Distinct(ArrangementsFrom(s, idx))
    ensures forall r :: r in ArrangementsFrom(s, idx) ==> |r| > 0 && r[0] in s[idx..]
    decreases |s|, 0, |s| - idx
  {
    if idx < |s| {
      var rest := RemoveAt(s, idx);
      RemoveAtDistinct(s, idx);
      ArrangementsDistinct(rest);
      ArrangementsFromDistinct(s, idx + 1);
      var block := PrependAll(s[idx], AllArrangements(rest));
      var tail := ArrangementsFrom(s, idx + 1);
      PrependDistinct(s[idx], AllArrangements(rest));
      HeadsAfter(s, idx, tail);
      DistinctConcat(block, tail);
      assert ArrangementsFrom(s, idx) == block + tail;
    }
  }

  /** Removing one element keeps a sequence free of repetitions. */
  lemma RemoveAtDistinct<T>(s: seq<T>, idx: nat)
    requires idx < |s| && Distinct(s)
    ensures Distinct(RemoveAt(s, idx))
  {
    var rest := RemoveAt(s, idx);
    forall i, j | 0 <= i < j < |rest| ensures rest[i] != rest[j] {
      var i' := if i < idx then i else i + 1;
      var j' := if j < idx then j else j + 1;
      assert rest[i] == s[i'] && rest[j] == s[j'];
    }
  }

  /** Prefixing one common head keeps distinct sequences distinct. */
  lemma PrependDistinct<T>(x: T, ss: seq<seq<T>>)
    requires Distinct(ss)
    ensures Distinct(PrependAll(x, ss))
    ensures forall r :: r in PrependAll(x, ss) ==> |r| > 0 && r[0] == x
  {
    var block := PrependAll(x, ss);
    forall i, j | 0 <= i < j < |block| ensures block[i] != block[j] {
      assert block[i][1..] == ss[i] && block[j][1..] == ss[j];
    }
    forall r | r in block ensures |r| > 0 && r[0] == x {
      var k :| 0 <= k < |block| && block[k] == r;
    }
  }

  /** Sequences headed by a later element of a repetition-free `s` are headed by
      neither `s[idx]` nor anything before it. */
  lemma HeadsAfter<T>(s: seq<T>, idx: nat, tail: seq<seq<T>>)
    requires idx < |s| && Distinct(s)
    requires forall r :: r in tail ==> |r| > 0 && r[0] in s[idx + 1..]
    ensures forall r :: r in tail ==> r[0] != s[idx] && r[0] in s[idx..]
  {
    assert s[idx] !in s[idx + 1..] by {
      forall k | idx + 1 <= k < |s| ensures s[k] != s[idx] {}
    }
    assert s[idx + 1..] == s[idx..][1..];
  }

  lemma DistinctConcat<T>(a: seq<seq<T>>, b: seq<seq<T>>)
    requires Distinct(a) && Distinct(b)
    requires forall x :: x in a ==> x !in b
    ensures Distinct(a + b)
  {
    var c := a + b;
    forall i, j | 0 <= i < j < |c| ensures c[i] != c[j] {
      if i < |a| && j >= |a| {
        assert c[i] in a && c[j] == b[j - |a|];
      } else if i >= |a| {
        assert c[i] == b[i - |a|] && c[j] == b[j - |a|];
      }
    }
  }

  // ---- generation order ----

  /** The enumeration starts with the input itself (the identity ordering). */
  lemma {:induction false} FirstArrangementIsInput<T>(s: seq<T>)
    ensures |AllArrangements(s)| > 0 && AllArrangements(s)[0] == s
    decreases |s|
  {
    if |s| > 1 {
      var rest := RemoveAt(s, 0);
      FirstArrangementIsInput(rest);
      var block := PrependAll(s[0], AllArrangements(rest));
      assert AllArrangements(s) == block + ArrangementsFrom(s, 1);
      assert rest == s[1..];
      assert block[0] == [s[0]] + s[1..] == s;
    }
  }
}
