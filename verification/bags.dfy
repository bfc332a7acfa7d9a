/** Multiset bookkeeping for the merge of filtering results: what is filed
    under a code, independent of the order in which it was filed. */
module Bags {

  /** Everything the entries of `xs` with key `c` carry, as one bag. */
  ghost function Filed<K, T>(xs: seq<K>, key: K -> string, items: K -> seq<T>, c: string): multiset<T> {
    if |xs| == 0 then multiset{}
    else (if key(xs[0]) == c then multiset(items(xs[0])) else multiset{}) + Filed(xs[1..], key, items, c)
  }

  lemma {:induction false} FiledAppend<K, T>(a: seq<K>, b: seq<K>, key: K -> string, items: K -> seq<T>, c: string)
    ensures Filed(a + b, key, items, c) == Filed(a, key, items, c) + Filed(b, key, items, c)
    decreases |a|
  {
    if |a| == 0 {
      assert a + b == b;
    } else {
      assert (a + b)[1..] == a[1..] + b;
      FiledAppend(a[1..], b, key, items, c);
    }
  }

  /** The bag filed under a key does not depend on the order of the entries. */
  lemma {:induction false} FiledPermutation<K, T>(a: seq<K>, b: seq<K>, key: K -> string, items: K -> seq<T>, c: string)
    requires multiset(a) == multiset(b)
    ensures Filed(a, key, items, c) == Filed(b, key, items, c)
    decreases |a|
  {
    if |a| == 0 {
      assert |multiset(b)| == 0;
    } else {
      var x := a[0];
      assert x in multiset(b);
      var j :| 0 <= j < |b| && b[j] == x;
      var before, after := b[..j], b[j + 1..];
      assert multiset(a[1..]) == multiset(before + after) by {
        assert b == before + [x] + after;
        assert a == [x] + a[1..];
        MultisetCancel(x, multiset(a[1..]), multiset(before + after));
      }
      FiledPermutation(a[1..], before + after, key, items, c);
      FiledMoveToFront(b, j, key, items, c);
    }
  }

  /** Removing the entry at `j` and filing it first files the same bag. */
  lemma FiledMoveToFront<K, T>(b: seq<K>, j: nat, key: K -> string, items: K -> seq<T>, c: string)
    requires j < |b|
    ensures Filed(b, key, items, c) == Filed([b[j]] + (b[..j] + b[j + 1..]), key, items, c)
  {
    var x, before, after := b[j], b[..j], b[j + 1..];
    assert b == (before + [x]) + after;
    FiledAppend(before + [x], after, key, items, c);
    FiledAppend(before, [x], key, items, c);
    FiledAppend(before, after, key, items, c);
    assert ([x] + (before + after))[1..] == before + after;
    assert [x][1..] == [];
  }

  lemma MultisetCancel<T>(x: T, p: multiset<T>, q: multiset<T>)
    requires multiset{x} + p == multiset{x} + q
    ensures p == q
  {
    assert forall y :: p[y] == (multiset{x} + p)[y] - multiset{x}[y] == (multiset{x} + q)[y] - multiset{x}[y] == q[y];
  }

  lemma PutInFront<T>(x: T, a: seq<T>, b: seq<T>, c: seq<T>)
    requires multiset(a) + multiset(b) == multiset(c)
    ensures multiset([x] + a) + multiset(b) == multiset([x] + c)
    ensures multiset(a) + multiset([x] + b) == multiset([x] + c)
  {
  }

  /** Appending to both halves of a split adds the appended parts to the whole. */
  lemma Regroup<T>(a: seq<T>, b: seq<T>, c: seq<T>, d: seq<T>)
    ensures multiset(a + b) + multiset(c + d) == (multiset(a) + multiset(c)) + (multiset(b) + multiset(d))
  {
  }
}
