/**
 The flattened trie of address/fastmap.go. A builder allocates nodes in growing blocks and reaches them through
 pointers; the blocks are then laid end to end, and lookups move through the result by index arithmetic.
 */
module FastMap {
  import opened Wrappers
  import opened Radix

  type Key = seq<byte>

  /** A node; `nextLo` is a uint32, `nextLen` and `nextOffset` are bytes. */
  datatype Node<+A> = Node(nextLo: nat, nextLen: nat, nextOffset: nat, valid: bool, value: Option<A>)

  const TWO32: nat := 0x1_0000_0000
  const MAX_BUILD_BUF_SIZE: nat := 0x10_0000

  function Zero<A>(): Node<A> { Node(0, 0, 0, false, None) }

  // ---------- what the index stands for ----------

  function Answer<A>(keys: seq<Key>, get: Key -> A, t: Key): (Option<A>, bool)
  {
    if t in keys then (Some(get(t)), true) else (None, false)
  }

  /** The walk of a lookup from node `at` over the bytes of `t` from `d` on; None is an index out of range. */
  function Walk<A>(s: seq<Node<A>>, at: nat, t: Key, d: nat): Option<(Option<A>, bool)>
    requires d <= |t|
    decreases |t| - d
  {
    if at >= |s| then None
    else if d == |t| then Some((s[at].value, s[at].valid))
    else if t[d] < s[at].nextOffset || t[d] - s[at].nextOffset >= s[at].nextLen then Some((None, false))
    else Walk(s, (s[at].nextLo + (t[d] - s[at].nextOffset)) % TWO32, t, d + 1)
  }

  /** Node `at` answers every key that starts with `pre` as the map does. */
  ghost predicate Correct<A>(s: seq<Node<A>>, at: nat, keys: seq<Key>, get: Key -> A, pre: Key)
  {
    forall t: Key :: pre <= t ==> Walk(s, at, t, |pre|) == Some(Answer(keys, get, t))
  }

  /** Some keys continue `q` with byte 0 and some with byte 255. */
  ghost predicate WideAt(keys: seq<Key>, q: Key)
  {
    && (exists k :: k in keys && q + [0] <= k)
    && (exists k :: k in keys && q + [255] <= k)
  }

  ghost predicate NarrowFrom(keys: seq<Key>, pre: Key)
  {
    forall q: Key :: pre <= q ==> !WideAt(keys, q)
  }

  // ---------- sorted keys ----------

  ghost predicate DiffersAt(x: Key, y: Key, k: nat)
  {
    && k <= |x| && k < |y| && x[..k] == y[..k]
    && (k < |x| ==> x[k] < y[k])
  }

  /** Go's order on strings. */
  ghost predicate Before(x: Key, y: Key) { exists k: nat :: DiffersAt(x, y, k) }

  ghost predicate Sorted(a: seq<Key>)
  {
    forall i, j :: 0 <= i < j < |a| ==> Before(a[i], a[j])
  }

  /** `a` holds exactly the keys that start with `pre`. */
  ghost predicate Slice(a: seq<Key>, keys: seq<Key>, pre: Key)
  {
    && (forall i :: 0 <= i < |a| ==> a[i] in keys && pre <= a[i])
    && (forall k :: k in keys && pre <= k ==> k in a)
  }

  lemma BeforeByte(x: Key, y: Key, pre: Key)
    requires pre <= x && pre <= y && Before(x, y)
    ensures |y| > |pre|
    ensures |x| > |pre| ==> x[|pre|] <= y[|pre|]
    ensures x != y
  {
    var k: nat :| DiffersAt(x, y, k);
    assert forall i :: 0 <= i < |pre| ==> x[i] == pre[i] && y[i] == pre[i];
    assert k >= |pre|;
    if k > |pre| {
      assert x[|pre|] == x[..k][|pre|] == y[..k][|pre|] == y[|pre|];
    }
  }

  /** Bytes at the end of a common prefix never fall along a sorted list. */
  lemma BytesRise(a: seq<Key>, keys: seq<Key>, pre: Key)
    requires Sorted(a) && Slice(a, keys, pre)
    ensures forall j :: 0 < j < |a| ==> |a[j]| > |pre|
    ensures forall i, j :: 0 <= i < j < |a| && |a[i]| > |pre| ==> a[i][|pre|] <= a[j][|pre|]
    ensures forall i, j :: 0 <= i < j < |a| ==> a[i] != a[j]
  {
    forall j | 0 < j < |a| ensures |a[j]| > |pre| {
      assert Before(a[0], a[j]);
      BeforeByte(a[0], a[j], pre);
    }
    forall i, j | 0 <= i < j < |a|
      ensures a[i] != a[j]
      ensures |a[i]| > |pre| ==> a[i][|pre|] <= a[j][|pre|]
    {
      assert Before(a[i], a[j]);
      BeforeByte(a[i], a[j], pre);
    }
  }

  // ---------- regions of the store ----------

  ghost predicate Points<A>(n: Node<A>, lo: nat, hi: nat)
  {
    n.nextLen > 0 ==> lo <= n.nextLo && n.nextLo + n.nextLen <= hi
  }

  ghost predicate ClosedIn<A>(s: seq<Node<A>>, lo: nat, hi: nat)
    requires hi <= |s|
  {
    forall i :: lo <= i < hi ==> Points(s[i], lo, hi)
  }

  /** `s` extends `s0` and differs from it only at node `at`. */
  ghost predicate Grown<A>(s0: seq<Node<A>>, s: seq<Node<A>>, at: nat)
  {
    && |s0| <= |s|
    && forall k :: 0 <= k < |s0| && k != at ==> s[k] == s0[k]
  }

  /** A walk sees only its first node and the closed region below it. */
  lemma {:induction false} WalkFrame<A>(s: seq<Node<A>>, s': seq<Node<A>>, at: nat, lo: nat, hi: nat, t: Key, d: nat)
    requires d <= |t| && at < |s| && at < |s'| && s[at] == s'[at]
    requires hi <= |s| && hi <= |s'| && hi <= TWO32
    requires Points(s[at], lo, hi) && ClosedIn(s, lo, hi)
    requires forall k :: lo <= k < hi ==> s[k] == s'[k]
    ensures Walk(s, at, t, d) == Walk(s', at, t, d)
    decreases |t| - d
  {
    if d < |t| && s[at].nextOffset <= t[d] && t[d] - s[at].nextOffset < s[at].nextLen {
      WalkFrame(s, s', s[at].nextLo + (t[d] - s[at].nextOffset), lo, hi, t, d + 1);
    }
  }

  lemma CorrectFrame<A>(
      s: seq<Node<A>>, s': seq<Node<A>>, at: nat, lo: nat, hi: nat, keys: seq<Key>, get: Key -> A, pre: Key)
    requires at < |s| && at < |s'| && s[at] == s'[at]
    requires hi <= |s| && hi <= |s'| && hi <= TWO32
    requires Points(s[at], lo, hi) && ClosedIn(s, lo, hi)
    requires forall k :: lo <= k < hi ==> s[k] == s'[k]
    requires Correct(s, at, keys, get, pre)
    ensures Correct(s', at, keys, get, pre)
  {
    forall t: Key | pre <= t ensures Walk(s', at, t, |pre|) == Some(Answer(keys, get, t)) {
      WalkFrame(s, s', at, lo, hi, t, |pre|);
    }
  }

  /** What building node `at` for the keys that start with `pre` does to the store `s0`. */
  ghost predicate Built<A>(
      s0: seq<Node<A>>, s: seq<Node<A>>, at: nat, keys: seq<Key>, get: Key -> A, pre: Key)
  {
    && at < |s0| && Grown(s0, s, at)
    && (|s| <= TWO32 ==>
          Points(s[at], |s0|, |s|) && ClosedIn(s, |s0|, |s|) && Correct(s, at, keys, get, pre))
  }

  // ---------- the children of one node ----------

  /** One of the first `i` keys has byte `c` at `d`. */
  ghost predicate HasByte(a: seq<Key>, i: nat, d: nat, c: int)
    requires i <= |a|
  {
    exists k :: 0 <= k < i && d < |a[k]| && a[k][d] == c
  }

  /** Child `j`: untouched without a key for its byte, otherwise answering for it from the region below. */
  ghost predicate Child<A>(s: seq<Node<A>>, lo: nat, len: nat, off: nat, keys: seq<Key>, get: Key -> A,
                           pre: Key, a: seq<Key>, i: nat, j: nat)
    requires i <= |a| && j < len && lo + len <= |s| && off + len <= 256
  {
    && (!HasByte(a, i, |pre|, off + j) ==> s[lo + j] == Zero())
    && (|s| <= TWO32 ==> Points(s[lo + j], lo + len, |s|))
    && (|s| <= TWO32 && HasByte(a, i, |pre|, off + j) ==> Correct(s, lo + j, keys, get, pre + [off + j]))
  }

  /** The `len` children from `lo` on, of which those with a byte among the first `i` keys are built. */
  ghost predicate Children<A>(s: seq<Node<A>>, lo: nat, len: nat, off: nat, keys: seq<Key>, get: Key -> A,
                              pre: Key, a: seq<Key>, i: nat)
    requires i <= |a|
  {
    && lo + len <= |s| && off + len <= 256
    && (|s| <= TWO32 ==> ClosedIn(s, lo + len, |s|))
    && forall j: nat :: j < len ==> Child(s, lo, len, off, keys, get, pre, a, i, j)
  }

  lemma ChildrenStart<A>(s: seq<Node<A>>, n: nat, len: nat, off: nat, keys: seq<Key>, get: Key -> A,
                         pre: Key, a: seq<Key>)
    requires n + len == |s| && off + len <= 256
    requires forall j :: n <= j < |s| ==> s[j] == Zero()
    ensures Children(s, n, len, off, keys, get, pre, a, 0)
  {
    hide Correct;
  }

  lemma HasByteGrows(a: seq<Key>, i: nat, hi: nat, d: nat, c: int, x: int)
    requires i < hi <= |a|
    requires forall k :: i <= k < hi ==> d < |a[k]| && a[k][d] == c
    ensures HasByte(a, hi, d, x) <==> HasByte(a, i, d, x) || x == c
  {
    assert HasByte(a, hi, d, c) by { assert a[i][d] == c; }
    if HasByte(a, hi, d, x) {
      var k :| 0 <= k < hi && d < |a[k]| && a[k][d] == x;
      if k >= i { assert a[k][d] == c; }
    }
    if HasByte(a, i, d, x) {
      var k :| 0 <= k < i && d < |a[k]| && a[k][d] == x;
    }
  }

  lemma ChildrenStep<A>(s: seq<Node<A>>, s': seq<Node<A>>, lo: nat, len: nat, off: nat, keys: seq<Key>,
                        get: Key -> A, pre: Key, a: seq<Key>, i: nat, hi: nat, c: nat)
    requires i < hi <= |a| && off <= c < off + len
    requires forall k :: i <= k < hi ==> |pre| < |a[k]| && a[k][|pre|] == c
    requires Children(s, lo, len, off, keys, get, pre, a, i)
    requires Built(s, s', lo + (c - off), keys, get, pre + [c])
    ensures Children(s', lo, len, off, keys, get, pre, a, hi)
  {
    hide HasByte, Correct;
    forall j: nat | j < len ensures Child(s', lo, len, off, keys, get, pre, a, hi, j) {
      HasByteGrows(a, i, hi, |pre|, c, off + j);
      assert Child(s, lo, len, off, keys, get, pre, a, i, j);
      if off + j != c {
        assert s'[lo + j] == s[lo + j];
        if |s'| <= TWO32 && HasByte(a, hi, |pre|, off + j) {
          CorrectFrame(s, s', lo + j, lo + len, |s|, keys, get, pre + [off + j]);
        }
      }
    }
    if |s'| <= TWO32 {
      forall k | lo + len <= k < |s'| ensures Points(s'[k], lo + len, |s'|) {
        if k < |s| { assert s'[k] == s[k]; }
      }
    }
  }

  /** A node with its own answer and all its children built is built. */
  lemma NodeBuilt<A>(s0: seq<Node<A>>, s: seq<Node<A>>, at: nat, len: nat, off: nat, keys: seq<Key>,
                     get: Key -> A, pre: Key, a: seq<Key>)
    requires at < |s0| && Grown(s0, s, at)
    requires Children(s, |s0|, len, off, keys, get, pre, a, |a|)
    requires forall k :: k in keys && pre <= k && k != pre ==> k in a
    requires forall k :: 0 <= k < |a| ==> |pre| < |a[k]| && off <= a[k][|pre|] < off + len
    requires s[at] == Node(|s0| % TWO32, len, off, pre in keys, Answer(keys, get, pre).0)
    ensures Built(s0, s, at, keys, get, pre)
  {
    if |s| <= TWO32 {
      ChildrenClosed(s, |s0|, len, off, keys, get, pre, a);
      NodeCorrect(s0, s, at, len, off, keys, get, pre, a);
    }
  }

  lemma ChildrenClosed<A>(s: seq<Node<A>>, lo: nat, len: nat, off: nat, keys: seq<Key>,
                     get: Key -> A, pre: Key, a: seq<Key>)
    requires |s| <= TWO32 && Children(s, lo, len, off, keys, get, pre, a, |a|)
    ensures ClosedIn(s, lo, |s|)
  {
    hide Correct, HasByte;
    forall k | lo <= k < |s| ensures Points(s[k], lo, |s|) {
      if k < lo + len {
        assert Child(s, lo, len, off, keys, get, pre, a, |a|, k - lo);
      }
    }
  }

  lemma NodeCorrect<A>(s0: seq<Node<A>>, s: seq<Node<A>>, at: nat, len: nat, off: nat, keys: seq<Key>,
                     get: Key -> A, pre: Key, a: seq<Key>)
    requires at < |s| <= TWO32
    requires Children(s, |s0|, len, off, keys, get, pre, a, |a|)
    requires forall k :: k in keys && pre <= k && k != pre ==> k in a
    requires forall k :: 0 <= k < |a| ==> |pre| < |a[k]| && off <= a[k][|pre|] < off + len
    requires s[at] == Node(|s0| % TWO32, len, off, pre in keys, Answer(keys, get, pre).0)
    ensures Correct(s, at, keys, get, pre)
  {
    hide Children, Child, HasByte;
    forall t: Key | pre <= t ensures Walk(s, at, t, |pre|) == Some(Answer(keys, get, t)) {
      if |t| == |pre| {
        assert t == pre;
      } else {
        if t in keys {
          NextByte(keys, pre, a, pre, t);
        }
        OneChild(s, |s0|, len, off, keys, get, pre, a, t[|pre|]);
        LongerKey(s, at, len, off, keys, get, pre, a, |s0|, t);
      }
    }
  }

  lemma OneChild<A>(s: seq<Node<A>>, lo: nat, len: nat, off: nat, keys: seq<Key>, get: Key -> A,
                    pre: Key, a: seq<Key>, c: nat)
    requires Children(s, lo, len, off, keys, get, pre, a, |a|)
    ensures lo + len <= |s| && off + len <= 256
    ensures off <= c < off + len ==> Child(s, lo, len, off, keys, get, pre, a, |a|, c - off)
  {
  }

  lemma LongerKey<A>(s: seq<Node<A>>, at: nat, len: nat, off: nat, keys: seq<Key>, get: Key -> A,
                     pre: Key, a: seq<Key>, lo: nat, t: Key)
    requires at < |s| <= TWO32 && pre < t && lo + len <= |s| && off + len <= 256
    requires t in keys ==> off <= t[|pre|] < off + len && HasByte(a, |a|, |pre|, t[|pre|])
    requires off <= t[|pre|] < off + len ==> Child(s, lo, len, off, keys, get, pre, a, |a|, t[|pre|] - off)
    requires s[at].nextLo == lo % TWO32 && s[at].nextLen == len && s[at].nextOffset == off
    ensures Walk(s, at, t, |pre|) == Some(Answer(keys, get, t))
  {
    hide *;
    if off <= t[|pre|] < off + len {
      WalkIn(s, at, lo, t, |pre|);
      BelowNextByte(pre, t);
      ChildWalk(s, lo, len, off, keys, get, pre, a, t);
    } else {
      WalkOut(s, at, t, |pre|);
      OwnAnswer(keys, get, t);
    }
  }

  lemma WalkOut<A>(s: seq<Node<A>>, at: nat, t: Key, d: nat)
    requires at < |s| && d < |t|
    requires t[d] < s[at].nextOffset || t[d] - s[at].nextOffset >= s[at].nextLen
    ensures Walk(s, at, t, d) == Some((None, false))
  {
  }

  /** The uint32 index arithmetic finds the child although the first child's index was cut to 32 bits. */
  lemma WalkIn<A>(s: seq<Node<A>>, at: nat, lo: nat, t: Key, d: nat)
    requires at < |s| <= TWO32 && d < |t| && s[at].nextLo == lo % TWO32
    requires s[at].nextOffset <= t[d] < s[at].nextOffset + s[at].nextLen && lo + s[at].nextLen <= |s|
    ensures Walk(s, at, t, d) == Walk(s, lo + (t[d] - s[at].nextOffset), t, d + 1)
  {
    LoMod(lo, t[d] - s[at].nextOffset, |s|);
    WalkStep(s, at, t, d);
  }

  lemma LoMod(lo: nat, j: nat, n: nat)
    requires lo + j < n <= TWO32
    ensures (lo % TWO32 + j) % TWO32 == lo + j
  {
  }

  lemma ChildWalk<A>(s: seq<Node<A>>, lo: nat, len: nat, off: nat, keys: seq<Key>, get: Key -> A,
                     pre: Key, a: seq<Key>, t: Key)
    requires |s| <= TWO32 && lo + len <= |s| && off + len <= 256 && pre < t && off <= t[|pre|] < off + len
    requires pre + [t[|pre|]] <= t
    requires t in keys ==> HasByte(a, |a|, |pre|, t[|pre|])
    requires Child(s, lo, len, off, keys, get, pre, a, |a|, t[|pre|] - off)
    ensures Walk(s, lo + (t[|pre|] - off), t, |pre| + 1) == Some(Answer(keys, get, t))
  {
    hide HasByte, Correct, Walk, Points;
    var c: nat := t[|pre|];
    var j: nat := c - off;
    if HasByte(a, |a|, |pre|, c) {
      assert pre + [off + j] == pre + [c];
      ChildAnswer(s, lo + j, keys, get, pre + [c], t);
    } else {
      ZeroWalk(s, lo + j, t, |pre| + 1);
    }
  }

  lemma WalkStep<A>(s: seq<Node<A>>, at: nat, t: Key, d: nat)
    requires at < |s| && d < |t|
    ensures Walk(s, at, t, d) ==
            if t[d] < s[at].nextOffset || t[d] - s[at].nextOffset >= s[at].nextLen then Some((None, false))
            else Walk(s, (s[at].nextLo + (t[d] - s[at].nextOffset)) % TWO32, t, d + 1)
  {
  }

  lemma ZeroWalk<A>(s: seq<Node<A>>, at: nat, t: Key, d: nat)
    requires at < |s| && s[at] == Zero() && d <= |t|
    ensures Walk(s, at, t, d) == Some((None, false))
  {
  }

  lemma ChildAnswer<A>(s: seq<Node<A>>, at: nat, keys: seq<Key>, get: Key -> A, pre: Key, t: Key)
    requires Correct(s, at, keys, get, pre) && pre <= t
    ensures Walk(s, at, t, |pre|) == Some(Answer(keys, get, t))
  {
  }

  /** No key is wide below `pre` when none is at `pre` and none below any next byte. */
  lemma NarrowBelow(keys: seq<Key>, pre: Key, a: seq<Key>, off: nat, len: nat)
    requires forall k :: k in keys && pre <= k && k != pre ==> k in a
    requires forall k :: 0 <= k < |a| ==> |pre| < |a[k]| && off <= a[k][|pre|] < off + len
    requires len < 256
    requires forall c: byte :: HasByte(a, |a|, |pre|, c) ==> NarrowFrom(keys, pre + [c])
    ensures NarrowFrom(keys, pre)
  {
    forall q: Key | pre <= q && WideAt(keys, q) ensures false {
      var x :| x in keys && q + [0] <= x;
      var y :| y in keys && q + [255] <= y;
      ContinuedBy(q, 0, x);
      ContinuedBy(q, 255, y);
      NextByte(keys, pre, a, q, x);
      NextByte(keys, pre, a, q, y);
      if |q| > |pre| {
        BelowNextByte(pre, q);
      }
    }
  }

  lemma ContinuedBy(q: Key, c: byte, x: Key)
    requires q + [c] <= x
    ensures q < x && x[|q|] == c
  {
    assert (q + [c])[|q|] == c;
  }

  lemma BelowNextByte(pre: Key, q: Key)
    requires pre < q
    ensures pre + [q[|pre|]] <= q
  {
  }

  lemma NextByte(keys: seq<Key>, pre: Key, a: seq<Key>, q: Key, x: Key)
    requires forall k :: k in keys && pre <= k && k != pre ==> k in a
    requires x in keys && pre <= q < x
    ensures x in a && HasByte(a, |a|, |pre|, x[|pre|])
    ensures |q| > |pre| ==> x[|pre|] == q[|pre|]
  {
    var k :| 0 <= k < |a| && a[k] == x;
  }

  // ---------- the keys below a node ----------

  /** The number of values from `lowest` to `highest`, as a byte. */
  function Span(lowest: nat, highest: nat): nat
    requires lowest <= highest
  {
    (highest - lowest + 1) % 256
  }

  lemma SpanBound(lowest: nat, highest: nat)
    requires lowest <= highest < 256
    ensures Span(lowest, highest) > 0 ==> Span(lowest, highest) == highest - lowest + 1 < 256
  {
  }

  lemma PrefixOf(pre: Key, q: Key, c: byte, x: Key)
    requires pre <= q
    ensures q + [c] <= x ==> pre <= x && |x| > |pre|
  {
    if q + [c] <= x {
      ContinuedBy(q, c, x);
    }
  }

  lemma SortedTail(a: seq<Key>)
    requires Sorted(a) && |a| > 0
    ensures Sorted(a[1..])
  {
    forall i, j | 0 <= i < j < |a| - 1 ensures Before(a[1..][i], a[1..][j]) {
      assert Before(a[i + 1], a[j + 1]);
    }
  }

  /** The keys longer than `pre` among the sorted keys `a` that start with it. */
  ghost predicate Longer(rest: seq<Key>, a: seq<Key>, pre: Key)
  {
    && Sorted(rest)
    && (forall k :: 0 <= k < |rest| ==> rest[k] in a && |pre| < |rest[k]|)
    && (forall k :: k in a && k != pre ==> k in rest)
    && (forall i, j :: 0 <= i < j < |rest| ==> rest[i][|pre|] <= rest[j][|pre|])
  }

  /** The key that ends at the node, if there is one, is the first. */
  lemma FirstKey(a: seq<Key>, keys: seq<Key>, pre: Key)
    requires |a| > 0 && Sorted(a) && Slice(a, keys, pre)
    ensures |a[0]| == |pre| <==> pre in keys
    ensures |a[0]| == |pre| ==> a[0] == pre
    ensures Longer(if |a[0]| == |pre| then a[1..] else a, a, pre)
  {
    hide Sorted;
    BytesRise(a, keys, pre);
    SortedTail(a);
    if |a[0]| == |pre| {
      assert a[0] == pre;
      LongerTail(a, pre);
    } else {
      assert forall m :: 0 <= m < |a| ==> |a[m]| > |pre|;
    }
  }

  lemma LongerTail(a: seq<Key>, pre: Key)
    requires |a| > 0 && a[0] == pre && Sorted(a[1..])
    requires forall j :: 0 < j < |a| ==> |a[j]| > |pre|
    requires forall i, j :: 0 <= i < j < |a| && |a[i]| > |pre| ==> a[i][|pre|] <= a[j][|pre|]
    ensures Longer(a[1..], a, pre)
  {
    hide Sorted;
    var rest := a[1..];
    forall k | k in a && k != pre ensures k in rest {
      var m :| 0 <= m < |a| && a[m] == k;
      assert rest[m - 1] == k;
    }
  }

  /** The keys with the next byte `c` are one run of a sorted list. */
  lemma RunIsSlice(keys: seq<Key>, pre: Key, a: seq<Key>, rest: seq<Key>, i: nat, hi: nat, c: byte)
    requires Slice(a, keys, pre) && Longer(rest, a, pre) && i < hi <= |rest|
    requires forall k :: 0 <= k < |rest| ==> (rest[k][|pre|] == c <==> i <= k < hi)
    ensures Slice(rest[i..hi], keys, pre + [c]) && Sorted(rest[i..hi])
  {
    var run := rest[i..hi];
    forall k | 0 <= k < |run| ensures run[k] in keys && pre + [c] <= run[k] {
      assert run[k] == rest[i + k];
      assert rest[i + k] in a;
      var m :| 0 <= m < |a| && a[m] == rest[i + k];
      BelowNextByte(pre, run[k]);
    }
    forall k | k in keys && pre + [c] <= k ensures k in run {
      ContinuedBy(pre, c, k);
      assert k in a;
      var m :| 0 <= m < |rest| && rest[m] == k;
      assert run[m - i] == k;
    }
  }

  /** A run that starts above all earlier bytes and ends where the byte changes holds all of its byte. */
  lemma RunBounds(rest: seq<Key>, a: seq<Key>, pre: Key, i: nat, hi: nat, c: byte)
    requires Longer(rest, a, pre) && i < hi <= |rest|
    requires i > 0 ==> rest[i - 1][|pre|] < c
    requires forall k :: i <= k < hi ==> rest[k][|pre|] == c
    requires hi < |rest| ==> rest[hi][|pre|] != c
    ensures forall k :: 0 <= k < |rest| ==> (rest[k][|pre|] == c <==> i <= k < hi)
    ensures hi < |rest| ==> c < rest[hi][|pre|]
    ensures !HasByte(rest, i, |pre|, c)
  {
    hide Sorted;
    assert rest[i][|pre|] == c;
    forall k | 0 <= k < |rest| ensures rest[k][|pre|] == c <==> i <= k < hi {
      if k < i {
        assert k == i - 1 || rest[k][|pre|] <= rest[i - 1][|pre|];
      } else if k >= hi {
        assert rest[i][|pre|] <= rest[hi][|pre|];
        assert k == hi || rest[hi][|pre|] <= rest[k][|pre|];
      }
    }
    if hi < |rest| {
      assert rest[i][|pre|] <= rest[hi][|pre|];
    }
  }

  lemma LongerBytes(rest: seq<Key>, a: seq<Key>, pre: Key)
    requires Longer(rest, a, pre) && |rest| > 0
    ensures forall k :: 0 <= k < |rest| ==> |pre| < |rest[k]|
    ensures forall k :: 0 <= k < |rest| ==> rest[0][|pre|] <= rest[k][|pre|] <= rest[|rest| - 1][|pre|]
  {
    hide Sorted;
  }

  lemma LongerKeys(rest: seq<Key>, a: seq<Key>, keys: seq<Key>, pre: Key)
    requires Slice(a, keys, pre) && Longer(rest, a, pre)
    ensures forall k :: k in keys && pre <= k && k != pre ==> k in rest
  {
    hide Sorted;
  }

  lemma RunHeight(rest: seq<Key>, a: seq<Key>, pre: Key, i: nat, hi: nat, height: nat)
    requires Longer(rest, a, pre) && i < hi <= |rest|
    requires forall k :: 0 <= k < |a| ==> |a[k]| <= |pre| + height
    ensures height > 0
    ensures forall k :: 0 <= k < |rest[i..hi]| ==> |rest[i..hi][k]| <= |pre| + 1 + (height - 1)
  {
    hide Sorted;
    assert rest[i] in a;
    forall k | 0 <= k < hi - i ensures |rest[i..hi][k]| <= |pre| + height {
      assert rest[i + k] in a;
    }
  }

  /** A node without longer keys is built as soon as it is written. */
  lemma LeafBuilt<A>(s0: seq<Node<A>>, s: seq<Node<A>>, at: nat, keys: seq<Key>, get: Key -> A, pre: Key)
    requires at < |s0| == |s| && Grown(s0, s, at)
    requires forall k :: k in keys && pre <= k ==> k == pre
    requires s[at] == Node(0, 0, 0, pre in keys, Answer(keys, get, pre).0)
    ensures Built(s0, s, at, keys, get, pre)
    ensures NarrowFrom(keys, pre)
  {
    forall t: Key | pre <= t ensures Walk(s, at, t, |pre|) == Some(Answer(keys, get, t)) {
      if |t| == |pre| {
        assert t == pre;
      }
    }
    forall q: Key | pre <= q ensures !WideAt(keys, q) {
      forall x | x in keys ensures !(q + [0] <= x) {
        PrefixOf(pre, q, 0, x);
      }
    }
  }

  lemma Fresh<A>(s0: seq<Node<A>>, at: nat, node: Node<A>, n: nat, s: seq<Node<A>>)
    requires at < |s0| && s == s0[at := node] + seq(n, _ => Zero())
    ensures |s| == |s0| + n && Grown(s0, s, at) && s[at] == node
    ensures forall k :: |s0| <= k < |s| ==> s[k] == Zero()
  {
  }

  lemma OwnAnswer<A>(keys: seq<Key>, get: Key -> A, pre: Key)
    ensures Answer(keys, get, pre) == if pre in keys then (Some(get(pre)), true) else (None, false)
  {
  }

  lemma NothingLonger(keys: seq<Key>, pre: Key, a: seq<Key>, rest: seq<Key>)
    requires Slice(a, keys, pre) && Longer(rest, a, pre) && rest == []
    ensures forall k :: k in keys && pre <= k ==> k == pre
  {
  }

  /** The children's bytes span all 256 values exactly when the first is 0 and the last 255. */
  lemma AllBytes(keys: seq<Key>, pre: Key, a: seq<Key>, rest: seq<Key>)
    requires Slice(a, keys, pre) && Longer(rest, a, pre) && |rest| > 0
    requires rest[0][|pre|] <= rest[|rest| - 1][|pre|] && Span(rest[0][|pre|], rest[|rest| - 1][|pre|]) == 0
    ensures !NarrowFrom(keys, pre)
  {
    var x, y := rest[0], rest[|rest| - 1];
    assert x in a && y in a;
    assert x in keys && pre <= x && y in keys && pre <= y;
    assert x[|pre|] <= y[|pre|];
    assert x[|pre|] == 0 && y[|pre|] == 255;
    BelowNextByte(pre, x);
    BelowNextByte(pre, y);
    assert WideAt(keys, pre);
  }

  lemma NoBytes(a: seq<Key>, d: nat)
    ensures forall c :: !HasByte(a, 0, d, c)
  {
  }

  lemma OneChildSoFar<A>(s: seq<Node<A>>, lo: nat, len: nat, off: nat, keys: seq<Key>, get: Key -> A,
                         pre: Key, a: seq<Key>, i: nat, j: nat)
    requires i <= |a| && j < len && Children(s, lo, len, off, keys, get, pre, a, i)
    requires !HasByte(a, i, |pre|, off + j)
    ensures lo + j < |s| && off + j < 256 && s[lo + j] == Zero()
  {
    assert Child(s, lo, len, off, keys, get, pre, a, i, j);
  }

  lemma NarrowDown(keys: seq<Key>, pre: Key, c: byte)
    requires NarrowFrom(keys, pre)
    ensures NarrowFrom(keys, pre + [c])
  {
    forall q: Key | pre + [c] <= q ensures !WideAt(keys, q) {
      assert pre <= q;
    }
  }

  lemma BytesAdded(a: seq<Key>, i: nat, hi: nat, d: nat, c: int)
    requires i < hi <= |a|
    requires forall k :: i <= k < hi ==> d < |a[k]| && a[k][d] == c
    ensures forall x :: HasByte(a, hi, d, x) ==> HasByte(a, i, d, x) || x == c
  {
    forall x | HasByte(a, hi, d, x) ensures HasByte(a, i, d, x) || x == c {
      HasByteGrows(a, i, hi, d, c, x);
    }
  }

  lemma GrownFurther<A>(s0: seq<Node<A>>, s: seq<Node<A>>, s': seq<Node<A>>, at: nat, at': nat,
                        keys: seq<Key>, get: Key -> A, pre: Key)
    requires at < |s0| <= at' && Grown(s0, s, at) && Built(s, s', at', keys, get, pre)
    ensures Grown(s0, s', at) && s'[at] == s[at]
  {
  }

  // ---------- blocks and pointers ----------

  datatype Block<+A> = Block(cells: seq<Node<A>>, capacity: nat)

  /** A cell of a block. Blocks never move: a slice is only ever extended within its capacity. */
  datatype Ptr = Ptr(block: nat, offset: nat)

  function Flat<A>(all: seq<Block<A>>): (s: seq<Node<A>>)
  {
    if all == [] then [] else Flat(all[..|all| - 1]) + all[|all| - 1].cells
  }

  /** The position of a block's first cell once all blocks are laid end to end. */
  function Start<A>(all: seq<Block<A>>, block: nat): nat
    requires block <= |all|
  {
    |Flat(all[..block])|
  }

  ghost predicate Live<A>(all: seq<Block<A>>, p: Ptr)
  {
    p.block < |all| && p.offset < |all[p.block].cells|
  }

  function Index<A>(all: seq<Block<A>>, p: Ptr): nat
    requires p.block < |all|
  {
    Start(all, p.block) + p.offset
  }

  /** Every cell stays where it is. */
  ghost predicate Stable<A>(old': seq<Block<A>>, all: seq<Block<A>>)
  {
    && |old'| <= |all|
    && forall b :: 0 <= b < |old'| ==> Start(all, b) == Start(old', b) && |old'[b].cells| <= |all[b].cells|
  }

  lemma StableIndex<A>(old': seq<Block<A>>, all: seq<Block<A>>, p: Ptr)
    requires Stable(old', all) && p.block < |old'|
    ensures p.block < |all| && Index(all, p) == Index(old', p) && |old'[p.block].cells| <= |all[p.block].cells|
  {
  }

  lemma StableSelf<A>(all: seq<Block<A>>)
    ensures Stable(all, all)
  {
  }

  lemma StableTrans<A>(a: seq<Block<A>>, b: seq<Block<A>>, c: seq<Block<A>>)
    requires Stable(a, b) && Stable(b, c)
    ensures Stable(a, c)
  {
    hide Start;
    forall x | 0 <= x < |a| ensures Start(c, x) == Start(a, x) && |a[x].cells| <= |c[x].cells| {
      assert Start(b, x) == Start(a, x);
    }
  }

  lemma {:induction false} FlatCell<A>(all: seq<Block<A>>, p: Ptr)
    requires Live(all, p)
    ensures Index(all, p) < |Flat(all)| && Flat(all)[Index(all, p)] == all[p.block].cells[p.offset]
  {
    var n := |all| - 1;
    if p.block == n {
    } else {
      FlatCell(all[..n], p);
      assert all[..n][..p.block] == all[..p.block];
    }
  }

  lemma {:induction false} FlatStore<A>(all: seq<Block<A>>, p: Ptr, node: Node<A>)
    requires Live(all, p)
    ensures Index(all, p) < |Flat(all)|
    ensures var b := all[p.block].(cells := all[p.block].cells[p.offset := node]);
            Flat(all[p.block := b]) == Flat(all)[Index(all, p) := node]
  {
    hide Flat;
    FlatCell(all, p);
    var n := |all| - 1;
    var b := all[p.block].(cells := all[p.block].cells[p.offset := node]);
    var all' := all[p.block := b];
    FlatLast(all);
    FlatLast(all');
    if p.block == n {
      assert all'[..n] == all[..n];
    } else {
      FlatStore(all[..n], p, node);
      FlatCell(all[..n], p);
      assert all'[..n] == all[..n][p.block := b];
      assert all[..n][..p.block] == all[..p.block];
    }
  }

  lemma FlatLast<A>(all: seq<Block<A>>)
    requires all != []
    ensures Flat(all) == Flat(all[..|all| - 1]) + all[|all| - 1].cells
  {
  }

  lemma {:induction false} FlatLength<A>(x: seq<Block<A>>, y: seq<Block<A>>)
    requires |x| == |y| && forall b :: 0 <= b < |x| ==> |x[b].cells| == |y[b].cells|
    ensures |Flat(x)| == |Flat(y)|
  {
    if x != [] {
      FlatLength(x[..|x| - 1], y[..|y| - 1]);
    }
  }

  /** The capacity of the first block. */
  method FirstBufSize(mapSize: nat) returns (size: nat)
    ensures size >= 16 && (size >= mapSize || size >= MAX_BUILD_BUF_SIZE)
  {
    size := 16;
    while size < mapSize && size < MAX_BUILD_BUF_SIZE
      invariant size >= 16
    {
      size := size * 2;
    }
  }

  class MapBuilder<A> {
    var all: seq<Block<A>>
    var length: nat
    const get: Key -> A

    ghost predicate Valid()
      reads this
    {
      && |all| > 0
      && length == |Flat(all)|
      && all[|all| - 1].capacity > 0
    }

    constructor (mapSize: nat, get: Key -> A)
      ensures Valid() && this.get == get && Live(all, Ptr(0, 0)) && Index(all, Ptr(0, 0)) == 0
      ensures Flat(all) == [Zero()]
    {
      var size := FirstBufSize(mapSize);
      all := [Block([Zero()], size)];
      length := 1;
      this.get := get;
      new;
      assert all[..0] == [];
      assert Flat(all[..0]) == [];
    }

    /** Writes through a pointer. */
    method Store(p: Ptr, node: Node<A>)
      requires Valid() && Live(all, p)
      modifies this
      ensures Valid() && length == old(length) && Stable(old(all), all)
      ensures Index(all, p) == old(Index(all, p)) < |old(Flat(all))|
      ensures Flat(all) == old(Flat(all))[Index(all, p) := node]
    {
      FlatStore(all, p, node);
      ghost var before := all;
      all := all[p.block := all[p.block].(cells := all[p.block].cells[p.offset := node])];
      forall b | 0 <= b < |all| ensures Start(all, b) == Start(before, b) {
        FlatLength(all[..b], before[..b]);
      }
    }

    /** The new cells are, in the final store, exactly the next `n` positions. */
    method Alloc(n: nat) returns (next: Ptr)
      requires Valid() && n < 256
      modifies this
      ensures Valid() && Stable(old(all), all)
      ensures Flat(all) == old(Flat(all)) + seq(n, _ => Zero())
      ensures next.block < |all| && Index(all, next) == old(length)
      ensures next.offset + n == |all[next.block].cells|
    {
      hide Flat;
      ghost var before := all;
      FlatLast(all);
      length := length + n;
      var last := |all| - 1;
      var cur := all[last];
      var curLen := |cur.cells|;
      if curLen <= cur.capacity && cur.capacity - curLen >= n {
        all := all[last := cur.(cells := cur.cells + seq(n, _ => Zero()))];
        assert forall b :: 0 <= b <= last ==> all[..b] == before[..b];
        FlatLast(all);
        return Ptr(last, curLen);
      }
      var newCap := cur.capacity * 2;
      while newCap < n
        invariant newCap > 0
        decreases n - newCap
      {
        newCap := newCap * 2;
      }
      if newCap > MAX_BUILD_BUF_SIZE {
        newCap := MAX_BUILD_BUF_SIZE;
      }
      all := all + [Block(seq(n, _ => Zero()), newCap)];
      assert forall b :: 0 <= b <= last + 1 ==> all[..b] == before[..b];
      assert before[..last + 1] == before;
      FlatLast(all);
      return Ptr(last + 1, 0);
    }

    /** The end of the run of keys that share the byte of key `i`. */
    static method RunEnd(a: seq<Key>, i: nat, byteIndex: nat) returns (hi: nat)
      requires i < |a| && forall k :: 0 <= k < |a| ==> byteIndex < |a[k]|
      ensures i < hi <= |a|
      ensures forall k :: i <= k < hi ==> a[k][byteIndex] == a[i][byteIndex]
      ensures hi < |a| ==> a[hi][byteIndex] != a[i][byteIndex]
    {
      hi := i + 1;
      while hi < |a| && a[hi][byteIndex] == a[i][byteIndex]
        invariant i < hi <= |a|
        invariant forall k :: i <= k < hi ==> a[k][byteIndex] == a[i][byteIndex]
      {
        hi := hi + 1;
      }
    }

    /**
     Builds the node at `p` for the keys `a`, all those that start with `pre`. It fails, indexing past an empty
     slice, exactly when somewhere below some keys go on with byte 0 and some with byte 255: the number of
     children is then 256, which a byte holds as 0.
     */
    method MakeByteValue(p: Ptr, a: seq<Key>, byteIndex: nat, ghost keys: seq<Key>, ghost pre: Key,
                         ghost height: nat)
        returns (ok: bool)
      requires Valid() && Live(all, p) && |a| > 0 && byteIndex == |pre|
      requires Sorted(a) && Slice(a, keys, pre)
      requires forall i :: 0 <= i < |a| ==> |a[i]| <= |pre| + height
      requires Index(all, p) < |Flat(all)| && Flat(all)[Index(all, p)] == Zero()
      modifies this
      ensures Valid() && Stable(old(all), all)
      ensures ok ==> Built(old(Flat(all)), Flat(all), old(Index(all, p)), keys, get, pre)
      ensures ok <==> NarrowFrom(keys, pre)
      decreases height, 2
    {
      hide Flat, Start, Built, NarrowFrom, Sorted, HasByte, Children, WideAt, Answer, Slice, Longer, Stable, Grown;
      FlatCell(all, p);
      FirstKey(a, keys, pre);
      ghost var s0, at := Flat(all), Index(all, p);
      var node := all[p.block].cells[p.offset];
      var rest := a;
      if |a[0]| == byteIndex {
        node := node.(valid := true, value := Some(get(a[0])));
        rest := a[1..];
      }
      OwnAnswer(keys, get, pre);
      if |rest| == 0 {
        Store(p, node);
        NothingLonger(keys, pre, a, rest);
        Fresh(s0, at, node, 0, Flat(all));
        LeafBuilt(s0, Flat(all), at, keys, get, pre);
        return true;
      }
      LongerBytes(rest, a, pre);
      var offset: nat, highest: nat := rest[0][byteIndex], rest[|rest| - 1][byteIndex];
      node := node.(nextOffset := offset, nextLen := Span(offset, highest), nextLo := length % TWO32);
      Store(p, node);
      ghost var stored := all;
      var next := Alloc(node.nextLen);
      StableTrans(old(all), stored, all);
      Fresh(s0, at, node, node.nextLen, Flat(all));
      if node.nextLen == 0 {
        AllBytes(keys, pre, a, rest);
      }
      ghost var extended := all;
      ok := MakeChildren(next, a, rest, byteIndex, node, s0, at, keys, pre, height);
      StableTrans(old(all), extended, all);
    }

    /** The loop over the runs of keys that share the next byte, each the keys of one child. */
    method MakeChildren(next: Ptr, ghost a: seq<Key>, rest: seq<Key>, byteIndex: nat, node: Node<A>,
                        ghost s0: seq<Node<A>>, ghost at: nat, ghost keys: seq<Key>, ghost pre: Key,
                        ghost height: nat)
        returns (ok: bool)
      requires Valid() && byteIndex == |pre| && |rest| > 0
      requires Slice(a, keys, pre) && Longer(rest, a, pre)
      requires forall i :: 0 <= i < |a| ==> |a[i]| <= |pre| + height
      requires forall k :: 0 <= k < |rest| ==> |pre| < |rest[k]|
      requires rest[0][|pre|] <= rest[|rest| - 1][|pre|]
      requires node == Node(|s0| % TWO32, Span(rest[0][|pre|], rest[|rest| - 1][|pre|]), rest[0][|pre|],
                            pre in keys, Answer(keys, get, pre).0)
      requires node.nextLen == 0 ==> !NarrowFrom(keys, pre)
      requires at < |s0| && Grown(s0, Flat(all), at) && Flat(all)[at] == node
      requires |Flat(all)| == |s0| + node.nextLen
      requires forall k :: |s0| <= k < |Flat(all)| ==> Flat(all)[k] == Zero()
      requires next.block < |all| && Index(all, next) == |s0|
      requires next.offset + node.nextLen <= |all[next.block].cells|
      modifies this
      ensures Valid() && Stable(old(all), all)
      ensures ok ==> Built(s0, Flat(all), at, keys, get, pre)
      ensures ok <==> NarrowFrom(keys, pre)
      decreases height, 1
    {
      hide Flat, Start, Built, NarrowFrom, Sorted, HasByte, Children, WideAt, Answer, Slice, Longer, Stable, Grown;
      var n := |rest|;
      LongerBytes(rest, a, pre);
      ChildrenStart(Flat(all), |s0|, node.nextLen, node.nextOffset, keys, get, pre, rest);
      NoBytes(rest, |pre|);
      StableSelf(all);
      var i := 0;
      while i < n
        invariant Valid() && Stable(old(all), all) && 0 <= i <= n
        invariant i > 0 ==> node.nextLen > 0
        invariant 0 < i < n ==> rest[i - 1][|pre|] < rest[i][|pre|]
        invariant Grown(s0, Flat(all), at) && |s0| <= |Flat(all)| && Flat(all)[at] == node
        invariant next.block < |all| && Index(all, next) == |s0|
        invariant next.offset + node.nextLen <= |all[next.block].cells|
        invariant Children(Flat(all), |s0|, node.nextLen, node.nextOffset, keys, get, pre, rest, i)
        invariant forall c: byte :: HasByte(rest, i, |pre|, c) ==> NarrowFrom(keys, pre + [c])
      {
        var hi := RunEnd(rest, i, byteIndex);
        var c := rest[i][byteIndex];
        var slot: nat := c - node.nextOffset;
        if slot >= node.nextLen {
          return false;
        }
        RunBounds(rest, a, pre, i, hi, c);
        ghost var s, before := Flat(all), all;
        ok := MakeChild(next, slot, byteIndex, a, rest, i, hi, node, s0, keys, pre, height);
        StableTrans(old(all), before, all);
        StableIndex(before, all, next);
        if NarrowFrom(keys, pre) {
          NarrowDown(keys, pre, c);
        }
        if !ok {
          return false;
        }
        GrownFurther(s0, s, Flat(all), at, |s0| + slot, keys, get, pre + [c]);
        ChildrenStep(s, Flat(all), |s0|, node.nextLen, node.nextOffset, keys, get, pre, rest, i, hi, c);
        BytesAdded(rest, i, hi, |pre|, c);
        i := hi;
      }
      LongerKeys(rest, a, keys, pre);
      SpanBound(rest[0][|pre|], rest[n - 1][|pre|]);
      NodeBuilt(s0, Flat(all), at, node.nextLen, node.nextOffset, keys, get, pre, rest);
      NarrowBelow(keys, pre, rest, node.nextOffset, node.nextLen);
      return true;
    }

    /** The child for one run of keys, reached through the slice of new nodes. */
    method MakeChild(next: Ptr, slot: nat, byteIndex: nat, ghost a: seq<Key>, rest: seq<Key>, i: nat, hi: nat,
                     ghost node: Node<A>, ghost s0: seq<Node<A>>, ghost keys: seq<Key>, ghost pre: Key,
                     ghost height: nat)
        returns (ok: bool)
      requires Valid() && i < hi <= |rest| && byteIndex == |pre|
      requires forall k :: 0 <= k < |rest| ==> |pre| < |rest[k]|
      requires Slice(a, keys, pre) && Longer(rest, a, pre)
      requires forall k :: 0 <= k < |a| ==> |a[k]| <= |pre| + height
      requires slot < node.nextLen && rest[i][|pre|] == node.nextOffset + slot
      requires forall k :: 0 <= k < |rest| ==> (rest[k][|pre|] == rest[i][|pre|] <==> i <= k < hi)
      requires !HasByte(rest, i, |pre|, rest[i][|pre|])
      requires next.block < |all| && Index(all, next) == |s0|
      requires next.offset + node.nextLen <= |all[next.block].cells|
      requires Children(Flat(all), |s0|, node.nextLen, node.nextOffset, keys, get, pre, rest, i)
      modifies this
      ensures Valid() && Stable(old(all), all)
      ensures ok ==> Built(old(Flat(all)), Flat(all), |s0| + slot, keys, get, pre + [rest[i][|pre|]])
      ensures ok <==> NarrowFrom(keys, pre + [rest[i][|pre|]])
      decreases height, 0
    {
      hide Flat, Start, Built, NarrowFrom, HasByte, Children, Longer, Stable, Slice, Sorted;
      RunIsSlice(keys, pre, a, rest, i, hi, rest[i][|pre|]);
      RunHeight(rest, a, pre, i, hi, height);
      var p := Ptr(next.block, next.offset + slot);
      FlatCell(all, p);
      OneChildSoFar(Flat(all), |s0|, node.nextLen, node.nextOffset, keys, get, pre, rest, i, slot);
      ok := MakeByteValue(p, rest[i..hi], byteIndex + 1, keys, pre + [rest[i][|pre|]], height - 1);
    }
  }

  // ---------- building and looking up ----------

  /** The finished store answers every key as the map does. */
  ghost predicate Agrees<A>(store: seq<Node<A>>, keys: seq<Key>, get: Key -> A)
  {
    forall t: Key :: Walk(store, 0, t, 0) == Some(Answer(keys, get, t))
  }

  ghost function Longest(a: seq<Key>): (n: nat)
    ensures forall i :: 0 <= i < |a| ==> |a[i]| <= n
  {
    if a == [] then 0 else
      var m := Longest(a[..|a| - 1]);
      var k := a[|a| - 1];
      assert forall i :: 0 <= i < |a| - 1 ==> a[i] == a[..|a| - 1][i];
      if |k| > m then |k| else m
  }

  method ObjectBuild<A>(keys: seq<Key>, get: Key -> A) returns (res: Option<seq<Node<A>>>)
    requires |keys| > 0 && Sorted(keys)
    ensures res.Some? <==> forall q: Key :: !WideAt(keys, q)
    ensures res.Some? && |res.value| <= TWO32 ==> Agrees(res.value, keys, get)
  {
    hide Flat, WideAt, Walk, Answer, Sorted;
    var b := new MapBuilder(|keys|, get);
    ghost var s0 := Flat(b.all);
    var ok := b.MakeByteValue(Ptr(0, 0), keys, 0, keys, [], Longest(keys));
    EveryPrefix(keys);
    if !ok {
      return None;
    }
    var all := b.all;
    var s: seq<Node<A>> := [];
    NoBlocks<A>();
    for i := 0 to |all|
      invariant s == Flat(all[..i])
    {
      FlatLast(all[..i + 1]);
      assert all[..i + 1][..i] == all[..i];
      s := s + all[i].cells;
    }
    assert all[..|all|] == all;
    if |s| <= TWO32 {
      RootAgrees(s0, s, keys, get);
    }
    return Some(s);
  }

  lemma RootAgrees<A>(s0: seq<Node<A>>, s: seq<Node<A>>, keys: seq<Key>, get: Key -> A)
    requires Built(s0, s, 0, keys, get, []) && |s| <= TWO32
    ensures Agrees(s, keys, get)
  {
    hide Walk, Answer;
    forall t: Key ensures Walk(s, 0, t, 0) == Some(Answer(keys, get, t)) {
      ChildAnswer(s, 0, keys, get, [], t);
    }
  }

  /** Two keys that the builder fails on: siblings 0 and 255 make 256 children, which a byte holds as 0. */
  lemma WideKeys(keys: seq<Key>)
    requires keys == [[0], [255]]
    ensures Sorted(keys) && WideAt(keys, [])
  {
    var q: Key := [];
    assert DiffersAt(keys[0], keys[1], 0);
    assert keys[0] in keys && q + [0] <= keys[0];
    assert keys[1] in keys && q + [255] <= keys[1];
  }

  lemma EveryPrefix(keys: seq<Key>)
    ensures NarrowFrom(keys, []) <==> forall q: Key :: !WideAt(keys, q)
  {
    hide WideAt;
    if NarrowFrom(keys, []) {
      forall q: Key ensures !WideAt(keys, q) {
        assert [] <= q;
      }
    }
  }

  lemma NoBlocks<A>()
    ensures Flat<A>([]) == []
  {
  }

  /** `keys` are the sorted keys of the source. */
  method NewAddressMemStore<A>(keys: seq<Key>, get: Key -> A) returns (store: Option<seq<Node<A>>>)
    requires Sorted(keys)
    ensures store.Some? <==> forall q: Key :: !WideAt(keys, q)
    ensures store.Some? && |store.value| <= TWO32 ==> Agrees(store.value, keys, get)
  {
    if |keys| > 0 {
      store := ObjectBuild(keys, get);
    } else {
      store := Some([Zero()]);
      forall t: Key ensures Walk(store.value, 0, t, 0) == Some(Answer(keys, get, t)) {
        ZeroWalk(store.value, 0, t, 0);
      }
    }
  }

  /** The loop that moves the current node; a missing key gives the null value. */
  method LookupString<A>(store: seq<Node<A>>, s: Key, ghost keys: seq<Key>, ghost get: Key -> A)
      returns (value: Option<A>, valid: bool)
    requires |store| > 0 && Agrees(store, keys, get)
    ensures s in keys ==> value == Some(get(s)) && valid
    ensures s !in keys ==> value == None && !valid
  {
    hide Answer;
    assert Walk(store, 0, s, 0) == Some(Answer(keys, get, s));
    OwnAnswer(keys, get, s);
    var bv := store[0];
    ghost var at: nat := 0;
    for i := 0 to |s|
      invariant at < |store| && bv == store[at]
      invariant Walk(store, at, s, i) == Some(Answer(keys, get, s))
    {
      var b := s[i];
      if b < bv.nextOffset {
        return None, false;
      }
      var ni := b - bv.nextOffset;
      if ni >= bv.nextLen {
        return None, false;
      }
      WalkStep(store, at, s, i);
      at := (bv.nextLo + ni) % TWO32;
      bv := store[(bv.nextLo + ni) % TWO32];
    }
    return bv.value, bv.valid;
  }
}
