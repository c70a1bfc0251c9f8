/** Order-preserving operations on lists that several scripts share:
    keep-first deduplication (a Python dict's insertion order, a membership
    check before `append`, pandas' `drop_duplicates(keep="first")`) and the
    concatenation of a list of lists. */
module Sequences {

  function Identity<T>(x: T): T { x }

  /** The key of every element, in order. */
  function Keys<T, K>(s: seq<T>, key: T -> K): (ks: seq<K>)
    ensures |ks| == |s|
    ensures forall i :: 0 <= i < |s| ==> ks[i] == key(s[i])
  {
    seq(|s|, i requires 0 <= i < |s| => key(s[i]))
  }

  lemma KeysSnoc<T, K>(s: seq<T>, x: T, key: T -> K)
    ensures Keys(s + [x], key) == Keys(s, key) + [key(x)]
  {
  }

  lemma KeysCons<T, K>(x: T, s: seq<T>, key: T -> K)
    ensures Keys([x] + s, key) == [key(x)] + Keys(s, key)
  {
  }

  /** No two elements share a key. */
  predicate DistinctKeys<T, K(==)>(s: seq<T>, key: T -> K) {
    forall i, j :: 0 <= i < j < |s| ==> key(s[i]) != key(s[j])
  }

  /** The position of the first occurrence of `k`. */
  function FirstIndex<K(==)>(ks: seq<K>, k: K): (i: nat)
    requires k in ks
    ensures i < |ks| && ks[i] == k
    ensures forall j :: 0 <= j < i ==> ks[j] != k
  {
    if ks[0] == k then 0 else 1 + FirstIndex(ks[1..], k)
  }

  lemma {:induction false} FirstIndexAppend<K>(ks: seq<K>, k: K, x: K)
    requires k in ks + [x]
    ensures k in ks ==> FirstIndex(ks + [x], k) == FirstIndex(ks, k)
    ensures k !in ks ==> FirstIndex(ks + [x], k) == |ks|
  {
    var i := FirstIndex(ks + [x], k);
    if k in ks {
      var j := FirstIndex(ks, k);
      assert (ks + [x])[j] == k;
      assert ks[i] == (ks + [x])[i] by { assert i <= j; }
    }
  }

  /** The elements of `s` whose key has not been seen before, in the order of
      their first occurrence: the first element with each key is kept, later
      ones are dropped. */
  function KeepFirstBy<T, K(==)>(s: seq<T>, key: T -> K): seq<T>
    decreases |s|
  {
    if s == [] then []
    else
      var kept := KeepFirstBy(s[..|s| - 1], key);
      if key(s[|s| - 1]) in Keys(kept, key) then kept else kept + [s[|s| - 1]]
  }

  /** Unfolds `KeepFirstBy` on a list with one more element. */
  lemma KeepFirstBySnoc<T, K>(s: seq<T>, x: T, key: T -> K)
    ensures KeepFirstBy(s + [x], key) ==
      if key(x) in Keys(KeepFirstBy(s, key), key) then KeepFirstBy(s, key)
      else KeepFirstBy(s, key) + [x]
  {
    assert (s + [x])[..|s|] == s;
  }

  lemma {:induction false} KeepFirstByLength<T, K>(s: seq<T>, key: T -> K)
    ensures |KeepFirstBy(s, key)| <= |s|
  {
    if s != [] {
      KeepFirstByLength(s[..|s| - 1], key);
    }
  }

  /** The elements kept have pairwise different keys. */
  lemma {:induction false} KeepFirstByDistinct<T, K>(s: seq<T>, key: T -> K)
    ensures DistinctKeys(KeepFirstBy(s, key), key)
  {
    if s != [] {
      var p, x := s[..|s| - 1], s[|s| - 1];
      KeepFirstByDistinct(p, key);
      var r0 := KeepFirstBy(p, key);
      if key(x) !in Keys(r0, key) {
        var r := r0 + [x];
        forall i, j | 0 <= i < j < |r| ensures key(r[i]) != key(r[j]) {
          if j == |r0| {
            assert Keys(r0, key)[i] == key(r[i]);
          }
        }
      }
    }
  }

  /** Every key of the input is the key of some element kept. */
  lemma {:induction false} KeepFirstByCovers<T, K>(s: seq<T>, key: T -> K)
    ensures forall x :: x in s ==> key(x) in Keys(KeepFirstBy(s, key), key)
  {
    if s != [] {
      var p, x := s[..|s| - 1], s[|s| - 1];
      assert s == p + [x];
      KeepFirstByCovers(p, key);
      var r0, r := KeepFirstBy(p, key), KeepFirstBy(s, key);
      forall y | y in s ensures key(y) in Keys(r, key) {
        if y in p && r == r0 + [x] {
          var j :| 0 <= j < |r0| && Keys(r0, key)[j] == key(y);
          assert Keys(r, key)[j] == key(y);
        } else if y !in p && r == r0 + [x] {
          assert Keys(r, key)[|r0|] == key(y);
        }
      }
    }
  }

  /** Each element kept is the FIRST element of the input with its key. */
  lemma {:induction false} KeepFirstByFirst<T, K>(s: seq<T>, key: T -> K)
    ensures forall i :: 0 <= i < |KeepFirstBy(s, key)| ==>
      key(KeepFirstBy(s, key)[i]) in Keys(s, key) &&
      KeepFirstBy(s, key)[i] == s[FirstIndex(Keys(s, key), key(KeepFirstBy(s, key)[i]))]
  {
    if s != [] {
      var p, x := s[..|s| - 1], s[|s| - 1];
      assert s == p + [x];
      KeepFirstByFirst(p, key);
      KeysSnoc(p, x, key);
      var r0, r := KeepFirstBy(p, key), KeepFirstBy(s, key);
      var kp, ks := Keys(p, key), Keys(s, key);
      forall i | 0 <= i < |r0|
        ensures key(r0[i]) in ks && r0[i] == s[FirstIndex(ks, key(r0[i]))]
      {
        FirstIndexAppend(kp, key(r0[i]), key(x));
      }
      if r != r0 {
        assert key(x) !in kp by {
          KeepFirstByCovers(p, key);
        }
        FirstIndexAppend(kp, key(x), key(x));
      }
    }
  }

  /** The kept elements are listed in the order in which their keys first
      occur in the input. */
  lemma {:induction false} KeepFirstByOrder<T, K>(s: seq<T>, key: T -> K)
    ensures forall i, j :: 0 <= i < j < |KeepFirstBy(s, key)| ==>
      key(KeepFirstBy(s, key)[i]) in Keys(s, key) &&
      key(KeepFirstBy(s, key)[j]) in Keys(s, key) &&
      FirstIndex(Keys(s, key), key(KeepFirstBy(s, key)[i])) <
      FirstIndex(Keys(s, key), key(KeepFirstBy(s, key)[j]))
  {
    if s != [] {
      var p, x := s[..|s| - 1], s[|s| - 1];
      assert s == p + [x];
      KeepFirstByOrder(p, key);
      KeepFirstByFirst(p, key);
      KeysSnoc(p, x, key);
      var r0, r := KeepFirstBy(p, key), KeepFirstBy(s, key);
      var kp, ks := Keys(p, key), Keys(s, key);
      forall i | 0 <= i < |r0|
        ensures key(r0[i]) in ks
        ensures FirstIndex(ks, key(r0[i])) == FirstIndex(kp, key(r0[i])) < |p|
      {
        FirstIndexAppend(kp, key(r0[i]), key(x));
      }
      if r != r0 {
        assert key(x) !in kp by {
          KeepFirstByCovers(p, key);
        }
        FirstIndexAppend(kp, key(x), key(x));
      }
      forall i, j | 0 <= i < j < |r|
        ensures key(r[i]) in ks && key(r[j]) in ks
        ensures FirstIndex(ks, key(r[i])) < FirstIndex(ks, key(r[j]))
      {
        assert r[i] == r0[i];
        if j < |r0| {
          assert r[j] == r0[j];
        } else {
          assert r[j] == x;
          assert FirstIndex(ks, key(x)) == |p|;
        }
      }
      assert forall i, j :: 0 <= i < j < |r| ==> key(r[i]) in ks && key(r[j]) in ks && FirstIndex(ks, key(r[i])) < FirstIndex(ks, key(r[j]));
    } else {
      assert KeepFirstBy(s, key) == [];
    }
  }

  /** A prefix followed by the slice after it is a longer prefix. */
  lemma PrefixThenSlice<T>(s: seq<T>, a: nat, b: nat)
    requires a <= b <= |s|
    ensures s[..a] + s[a..b] == s[..b]
  {
  }

  /** Flattens a list of lists: `[x for chunk in chunks for x in chunk]`. */
  function Concat<T>(chunks: seq<seq<T>>): seq<T> {
    if chunks == [] then [] else chunks[0] + Concat(chunks[1..])
  }

  /** Flattening distributes over concatenation of the lists of lists. */
  lemma {:induction false} ConcatAppend<T>(a: seq<seq<T>>, b: seq<seq<T>>)
    ensures Concat(a + b) == Concat(a) + Concat(b)
  {
    if a != [] {
      assert (a + b)[1..] == a[1..] + b;
      ConcatAppend(a[1..], b);
    } else {
      assert a + b == b;
    }
  }
}
