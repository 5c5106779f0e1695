/** Sequence and set facts shared by the order resolver and the board reducers. */
module SeqUtil {

  datatype Option<T> = None | Some(value: T)

  /** No element occurs twice. */
  ghost predicate Distinct<T>(s: seq<T>) {
    forall i, j :: 0 <= i < j < |s| ==> s[i] != s[j]
  }

  /** The set of elements of a sequence. */
  function Elems<T(==)>(s: seq<T>): set<T> {
    set x | x in s
  }

  /**
   * The elements of `s` in order of first occurrence, each once.  This is the
   * key order of a JavaScript `Map` filled by `set` calls in the order of `s`.
   */
  function Dedup<T(==)>(s: seq<T>): (r: seq<T>)
    ensures Distinct(r)
    ensures forall i :: 0 <= i < |r| ==> r[i] in s
    ensures forall i :: 0 <= i < |s| ==> s[i] in r
    decreases |s|
  {
    if s == [] then []
    else
      var d := Dedup(s[..|s| - 1]);
      if s[|s| - 1] in d then d else d + [s[|s| - 1]]
  }

  /** One more element of `s`: how the elements and the first occurrences of a prefix grow. */
  lemma PrefixGrows<T>(s: seq<T>, i: nat)
    requires i < |s|
    ensures Elems(s[..i + 1]) == Elems(s[..i]) + {s[i]}
    ensures Dedup(s[..i + 1]) == if s[i] in Elems(s[..i]) then Dedup(s[..i]) else Dedup(s[..i]) + [s[i]]
  {
    assert s[..i + 1] == s[..i] + [s[i]];
    assert s[..i + 1][..i] == s[..i];
  }

  /** The tail of a duplicate-free sequence is duplicate-free and misses the head. */
  lemma DistinctTail<T>(s: seq<T>)
    requires s != [] && Distinct(s)
    ensures Distinct(s[1..]) && s[0] !in s[1..]
  {
  }

  /** A prefix of a prefix is a prefix. */
  lemma PrefixOfPrefix<T>(a: seq<T>, b: seq<T>, c: seq<T>)
    requires |a| <= |b| <= |c|
    requires b[..|a|] == a && c[..|b|] == b
    ensures c[..|a|] == a
  {
  }

  lemma SubsetCard<T>(a: set<T>, b: set<T>)
    requires a <= b
    ensures |a| <= |b|
  {
    assert b == a + (b - a);
    assert a * (b - a) == {};
  }

  lemma {:induction false} DistinctCard<T>(s: seq<T>)
    requires Distinct(s)
    ensures |Elems(s)| == |s|
  {
    if s != [] {
      DistinctCard(s[1..]);
      assert Elems(s) == {s[0]} + Elems(s[1..]);
      assert s[0] !in Elems(s[1..]);
    }
  }

  /** A duplicate-free sequence drawn from `r` is no longer than `r` is large. */
  lemma DistinctWithin<T>(s: seq<T>, r: set<T>)
    requires Distinct(s)
    requires forall i :: 0 <= i < |s| ==> s[i] in r
    ensures |s| <= |r|
  {
    DistinctCard(s);
    SubsetCard(Elems(s), r);
  }

  /** Pigeonhole: a sequence drawn from `r` and longer than `r` repeats an element. */
  lemma Pigeonhole<T>(s: seq<T>, r: set<T>) returns (i: nat, j: nat)
    requires forall k :: 0 <= k < |s| ==> s[k] in r
    requires |s| > |r|
    ensures i < j < |s| && s[i] == s[j]
  {
    if Distinct(s) {
      DistinctWithin(s, r);
    }
    i, j :| 0 <= i < j < |s| && s[i] == s[j];
  }
}
