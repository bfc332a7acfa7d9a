/** Cutting a sequence into bounded pieces and gluing pieces back together.
    `Split` is `split_description` (patient.py), which the model also uses for
    characters and, through `Filtering.ChunkTrials`, for lists of trials. */
module Chunking {

  /** The pieces glued end to end (`''.join` for strings, `sum(lists, [])` for lists). */
  function Concat<T>(xs: seq<seq<T>>): seq<T> {
    if |xs| == 0 then [] else xs[0] + Concat(xs[1..])
  }

  lemma {:induction false} ConcatAppend<T>(a: seq<seq<T>>, b: seq<seq<T>>)
    ensures Concat(a + b) == Concat(a) + Concat(b)
  {
    if |a| == 0 {
      assert a + b == b;
    } else {
      assert (a + b)[1..] == a[1..] + b;
      ConcatAppend(a[1..], b);
    }
  }

  /** Number of pieces of size `k` needed to hold `n` items: ceil(n / k),
      counted one piece at a time. */
  function CeilDiv(n: nat, k: nat): (c: nat)
    requires k > 0
    decreases n
  {
    if n == 0 then 0 else if n <= k then 1 else 1 + CeilDiv(n - k, k)
  }

  /** `CeilDiv` is the ceiling of the quotient: `c` pieces hold `n` items and
      `c - 1` pieces do not. */
  lemma {:induction false} CeilDivBounds(n: nat, k: nat)
    requires k > 0
    ensures k * CeilDiv(n, k) >= n
    ensures n > 0 ==> k * (CeilDiv(n, k) - 1) < n
    decreases n
  {
    if n > k {
      var c := CeilDiv(n - k, k);
      CeilDivBounds(n - k, k);
      assert k * (c + 1) == k * c + k;
      assert k * (c + 1 - 1) == k * c;
    }
  }

  /** `split_description(s, limit)`: while more than `limit` items remain, cut
      off exactly `limit` of them; the remainder (possibly empty) is the last
      piece. */
  function Split<T>(s: seq<T>, limit: nat): (pieces: seq<seq<T>>)
    requires limit > 0
    ensures |pieces| >= 1
    ensures Concat(pieces) == s
    ensures forall i :: 0 <= i < |pieces| ==> |pieces[i]| <= limit
    ensures forall i :: 0 <= i < |pieces| - 1 ==> |pieces[i]| == limit
    ensures |s| > 0 ==> forall i :: 0 <= i < |pieces| ==> |pieces[i]| > 0
    ensures |pieces| == if |s| == 0 then 1 else CeilDiv(|s|, limit)
    decreases |s|
  {
    if |s| > limit then
      var rest := Split(s[limit..], limit);
      assert s == s[..limit] + s[limit..];
      assert ([s[..limit]] + rest)[1..] == rest;
      [s[..limit]] + rest
    else
      [s]
  }

  /** A sequence longer than `limit` splits into its first `limit` items
      followed by the split of the rest. */
  lemma SplitFront<T>(s: seq<T>, limit: nat)
    requires 0 < limit < |s|
    ensures Split(s, limit) == [s[..limit]] + Split(s[limit..], limit)
  {
  }

  /** Taking the next run of `limit` items off the front of what is left,
      when more remains after it, yields the next piece of `Split`. */
  lemma SplitStep<T>(s: seq<T>, start: nat, done: seq<seq<T>>, limit: nat)
    requires 0 < limit && start + limit < |s|
    requires done + Split(s[start..], limit) == Split(s, limit)
    ensures (done + [s[start..start + limit]]) + Split(s[start + limit..], limit) == Split(s, limit)
  {
    var rest, piece, after := s[start..], s[start..start + limit], s[start + limit..];
    assert Split(rest, limit) == [piece] + Split(after, limit) by {
      SplitFront(rest, limit);
      assert rest[..limit] == piece;
      assert rest[limit..] == after;
    }
    assert (done + [piece]) + Split(after, limit) == done + ([piece] + Split(after, limit));
  }

  /** When at most `limit` items remain, they are the last piece of `Split`. */
  lemma SplitLast<T>(s: seq<T>, start: nat, done: seq<seq<T>>, limit: nat)
    requires 0 < limit && start < |s| && |s| - start <= limit
    requires done + Split(s[start..], limit) == Split(s, limit)
    ensures done + [s[start..]] == Split(s, limit)
  {
    assert Split(s[start..], limit) == [s[start..]];
  }
}
