/** The nodes of queue.c (`list_ele_t`) and what it means for a run of them,
    listed in a ghost sequence, to form one `next`-linked, null-terminated,
    cycle-free chain. */
module Chains {
  import opened StringOrder

  /** Whether `memset(value, '\0', len + 1)` and the `strncpy` of `len`
      characters that follow it stay inside a buffer of `bytes` bytes. */
  predicate CopyFits(len: nat, bytes: nat)
  {
    len + 1 <= bytes
  }

  /** A list element: a private copy of an inserted string in a buffer of
      `capacity` bytes, and the link to the following element. The string is
      never rewritten once stored. */
  class Node {
    const value: string
    const capacity: nat
    var next: Node?

    /** The copy of `s` and its terminator must fit the buffer. */
    constructor (s: string, bytes: nat)
      requires CopyFits(|s|, bytes)
      ensures value == s && capacity == bytes && next == null
    {
      value := s;
      capacity := bytes;
      next := null;
    }
  }

  /** No node occurs twice. Stated one node at a time, so that the verifier
      unfolds it only as far as a proof asks; `DistinctPairwise` and
      `PairwiseDistinct` convert to and from the all-pairs form. */
  ghost predicate Distinct(ns: seq<Node>)
    decreases |ns|
  {
    ns == [] || (ns[0] !in ns[1..] && Distinct(ns[1..]))
  }

  lemma {:induction false} DistinctPairwise(ns: seq<Node>)
    requires Distinct(ns)
    ensures forall i, j :: 0 <= i < j < |ns| ==> ns[i] != ns[j]
    decreases |ns|
  {
    if ns != [] {
      DistinctPairwise(ns[1..]);
      forall i, j | 0 <= i < j < |ns|
        ensures ns[i] != ns[j]
      {
        assert ns[j] == ns[1..][j - 1];
        if i > 0 {
          assert ns[i] == ns[1..][i - 1];
        }
      }
    }
  }

  lemma {:induction false} PairwiseDistinct(ns: seq<Node>)
    requires forall i, j :: 0 <= i < j < |ns| ==> ns[i] != ns[j]
    ensures Distinct(ns)
    decreases |ns|
  {
    if ns != [] {
      var t := ns[1..];
      forall i, j | 0 <= i < j < |t|
        ensures t[i] != t[j]
      {
        assert t[i] == ns[i + 1] && t[j] == ns[j + 1];
      }
      PairwiseDistinct(t);
    }
  }

  /** No node occurs in both runs. */
  ghost predicate Disjoint(xs: seq<Node>, ys: seq<Node>)
  {
    forall x :: x in xs ==> x !in ys
  }

  /** Every node's `next` is the node listed after it. */
  ghost predicate Linked(ns: seq<Node>)
    reads ns
  {
    forall i {:trigger ns[i].next} :: 0 <= i < |ns| - 1 ==> ns[i].next == ns[i + 1]
  }

  /** Following `next` from `h` visits exactly `ns`, in order, and then reaches
      null; `h` is null exactly when `ns` is empty. */
  ghost predicate Chain(h: Node?, ns: seq<Node>)
    reads ns
  {
    Distinct(ns) && Linked(ns) &&
    if ns == [] then h == null else h == ns[0] && ns[|ns| - 1].next == null
  }

  /** The chain continues at the first node's successor. */
  lemma ChainTail(h: Node?, ns: seq<Node>)
    requires Chain(h, ns) && ns != []
    ensures Chain(ns[0].next, ns[1..])
  {
  }

  /** Each node of a chain links to the next one listed, the last to null. */
  lemma ChainNext(h: Node?, ns: seq<Node>, k: nat)
    requires Chain(h, ns) && k < |ns|
    ensures ns[k].next == if k + 1 < |ns| then ns[k + 1] else null
  {
    if k + 1 < |ns| {
      assert ns[(k + 1) - 1] == ns[k];
    }
  }

  /** The strings held by a run of nodes, in order. */
  ghost function Values(ns: seq<Node>): (vs: seq<string>)
    ensures |vs| == |ns|
    ensures forall i {:trigger vs[i]} :: 0 <= i < |ns| ==> vs[i] == ns[i].value
  {
    if ns == [] then [] else [ns[0].value] + Values(ns[1..])
  }

  lemma {:induction false} ValuesAppend(xs: seq<Node>, ys: seq<Node>)
    ensures Values(xs + ys) == Values(xs) + Values(ys)
  {
    if xs != [] {
      assert (xs + ys)[1..] == xs[1..] + ys;
      ValuesAppend(xs[1..], ys);
    }
  }

  /** Sequence reversal, the abstract meaning of `q_reverse`. */
  function Reversal<T>(s: seq<T>): (r: seq<T>)
    ensures |r| == |s|
  {
    if s == [] then [] else Reversal(s[1..]) + [s[0]]
  }

  lemma {:induction false} ReversalAt<T>(s: seq<T>, k: nat)
    requires k < |s|
    ensures Reversal(s)[k] == s[|s| - 1 - k]
  {
    if k < |s| - 1 {
      ReversalAt(s[1..], k);
    }
  }

  /** Reversing twice gives back the original order. */
  lemma ReversalInvolutive<T>(s: seq<T>)
    ensures Reversal(Reversal(s)) == s
  {
    forall k | 0 <= k < |s|
      ensures Reversal(Reversal(s))[k] == s[k]
    {
      ReversalAt(Reversal(s), k);
      ReversalAt(s, |s| - 1 - k);
    }
  }

  lemma ValuesReversal(ns: seq<Node>)
    ensures Values(Reversal(ns)) == Reversal(Values(ns))
  {
    forall k | 0 <= k < |ns|
      ensures Values(Reversal(ns))[k] == Reversal(Values(ns))[k]
    {
      ReversalAt(ns, k);
      ReversalAt(Values(ns), k);
    }
  }

  /** A run whose links all point backwards, and whose first node ends the
      chain, is a chain when read from its last node; its strings are those
      of the run in reverse order. */
  lemma ChainReversal(ns: seq<Node>)
    requires ns != [] && Distinct(ns)
    requires ns[0].next == null
    requires forall i :: 0 < i < |ns| ==> ns[i].next == ns[i - 1]
    ensures Chain(ns[|ns| - 1], Reversal(ns))
    ensures Reversal(ns)[|ns| - 1] == ns[0]
    ensures Values(Reversal(ns)) == Reversal(Values(ns))
  {
    var r := Reversal(ns);
    forall k | 0 <= k < |ns|
      ensures r[k] == ns[|ns| - 1 - k]
    {
      ReversalAt(ns, k);
    }
    DistinctPairwise(ns);
    forall i, j | 0 <= i < j < |r|
      ensures r[i] != r[j]
    {
      assert r[i] == ns[|ns| - 1 - i] && r[j] == ns[|ns| - 1 - j];
    }
    PairwiseDistinct(r);
    ValuesReversal(ns);
  }

  /** A linked run whose last node points at the head of a disjoint chain
      forms one chain with it. */
  lemma ChainConcat(xs: seq<Node>, h: Node?, ys: seq<Node>)
    requires xs != [] && Distinct(xs) && Linked(xs)
    requires Chain(h, ys) && Disjoint(xs, ys)
    requires xs[|xs| - 1].next == h
    ensures Chain(xs[0], xs + ys)
  {
    var zs := xs + ys;
    DistinctPairwise(xs);
    DistinctPairwise(ys);
    forall i, j | 0 <= i < j < |zs|
      ensures zs[i] != zs[j]
    {
      if i < |xs| <= j {
        assert zs[i] in xs && zs[j] == ys[j - |xs|];
      } else if j < |xs| {
        assert zs[i] == xs[i] && zs[j] == xs[j];
      } else {
        assert zs[i] == ys[i - |xs|] && zs[j] == ys[j - |xs|];
      }
    }
    PairwiseDistinct(zs);
  }

  lemma DisjointSuffixes(xs: seq<Node>, ys: seq<Node>, i: nat, j: nat)
    requires Disjoint(xs, ys) && i <= |xs| && j <= |ys|
    ensures Disjoint(xs[i..], ys[j..])
  {
    forall x | x in xs[i..]
      ensures x !in ys[j..]
    {
      assert x in xs;
    }
  }

  /** Cutting a run without repeated nodes gives two halves without repeated
      nodes that share no node and together hold exactly its nodes. */
  lemma Halves(ns: seq<Node>, m: nat)
    requires Distinct(ns) && m <= |ns|
    ensures ns == ns[..m] + ns[m..]
    ensures Disjoint(ns[..m], ns[m..]) && Disjoint(ns[m..], ns[..m])
    ensures Distinct(ns[..m]) && Distinct(ns[m..])
  {
    DistinctPairwise(ns);
    SlicesDistinct(ns, m);
    SlicesDisjoint(ns, m);
  }

  lemma SlicesDistinct(ns: seq<Node>, m: nat)
    requires m <= |ns|
    requires forall i, j :: 0 <= i < j < |ns| ==> ns[i] != ns[j]
    ensures Distinct(ns[..m]) && Distinct(ns[m..])
  {
    var f, b := ns[..m], ns[m..];
    forall i, j | 0 <= i < j < |f|
      ensures f[i] != f[j]
    {
      assert f[i] == ns[i] && f[j] == ns[j];
    }
    forall i, j | 0 <= i < j < |b|
      ensures b[i] != b[j]
    {
      assert b[i] == ns[m + i] && b[j] == ns[m + j];
    }
    PairwiseDistinct(f);
    PairwiseDistinct(b);
  }

  lemma SlicesDisjoint(ns: seq<Node>, m: nat)
    requires m <= |ns|
    requires forall i, j :: 0 <= i < j < |ns| ==> ns[i] != ns[j]
    ensures Disjoint(ns[..m], ns[m..]) && Disjoint(ns[m..], ns[..m])
  {
    forall x | x in ns[..m]
      ensures x !in ns[m..]
    {
      var i :| 0 <= i < m && ns[i] == x;
      forall k | m <= k < |ns|
        ensures ns[k] != x
      {
      }
    }
    forall x | x in ns[m..]
      ensures x !in ns[..m]
    {
      var i :| m <= i < |ns| && ns[i] == x;
      forall k | 0 <= k < m
        ensures ns[k] != x
      {
      }
    }
  }

  /** A rearrangement `fs` of a run `xs` lies inside any run that contains
      `xs` and apart from any run that `xs` is apart from. */
  lemma PermutedWithin(xs: seq<Node>, fs: seq<Node>, ns: seq<Node>, ys: seq<Node>)
    requires multiset(fs) == multiset(xs) && Disjoint(xs, ys)
    requires forall x :: x in xs ==> x in ns
    ensures forall k :: 0 <= k < |fs| ==> fs[k] in ns && fs[k] !in ys
  {
    forall k | 0 <= k < |fs|
      ensures fs[k] in ns && fs[k] !in ys
    {
      assert fs[k] in multiset(xs);
    }
  }

  /** Disjointness depends only on which nodes the runs hold. */
  lemma DisjointPermuted(xs: seq<Node>, ys: seq<Node>, xs': seq<Node>, ys': seq<Node>)
    requires Disjoint(xs, ys) && multiset(xs') == multiset(xs) && multiset(ys') == multiset(ys)
    ensures Disjoint(xs', ys')
  {
    forall x | x in xs'
      ensures x !in ys'
    {
      assert x in multiset(xs');
      assert x in xs;
      assert x !in multiset(ys);
    }
  }

  /** Moving the first node of `rest` onto the end of `done` keeps the taken
      nodes distinct and apart from what is still to be merged. */
  lemma TakeFirst(done: seq<Node>, rest: seq<Node>, other: seq<Node>)
    requires rest != [] && Distinct(done) && Distinct(rest)
    requires Disjoint(done, rest) && Disjoint(done, other) && rest[0] !in other
    ensures Distinct(done + [rest[0]])
    ensures Disjoint(done + [rest[0]], rest[1..]) && Disjoint(done + [rest[0]], other)
    ensures Disjoint(done, rest[1..]) && Disjoint(done, other)
  {
    var d := done + [rest[0]];
    DistinctPairwise(done);
    forall i, j | 0 <= i < j < |d|
      ensures d[i] != d[j]
    {
      if j == |done| {
        assert d[i] in done;
      } else {
        assert d[i] == done[i] && d[j] == done[j];
      }
    }
    PairwiseDistinct(d);
    forall x | x in d
      ensures x !in rest[1..]
    {
      if x != rest[0] {
        assert x in done;
      }
    }
  }

  /** `merge` on the level of nodes: take the left head only when its string
      is strictly smaller (`strcmp < 0`), otherwise the right head, and append
      whatever remains once one side is used up. */
  ghost function MergedNodes(xs: seq<Node>, ys: seq<Node>): (ms: seq<Node>)
    ensures |ms| == |xs| + |ys|
    decreases |xs| + |ys|
  {
    if xs == [] then ys
    else if ys == [] then xs
    else if Lt(xs[0].value, ys[0].value) then [xs[0]] + MergedNodes(xs[1..], ys)
    else [ys[0]] + MergedNodes(xs, ys[1..])
  }

  /** Taking `x` off the front of what is still to be merged and onto the
      end of what is taken leaves their concatenation unchanged. */
  lemma ShiftFirst(done: seq<Node>, x: Node, rest: seq<Node>, next: seq<Node>)
    requires rest == [x] + next
    ensures (done + [x]) + next == done + rest
  {
  }

  /** Merging rearrangements of two runs, each ascending, gives an
      ascending rearrangement of the two runs one after the other. */
  lemma MergedHalves(front: seq<Node>, back: seq<Node>, fs: seq<Node>, bs: seq<Node>)
    requires multiset(fs) == multiset(front) && multiset(bs) == multiset(back)
    requires multiset(Values(fs)) == multiset(Values(front)) && multiset(Values(bs)) == multiset(Values(back))
    requires Sorted(Values(fs)) && Sorted(Values(bs))
    ensures multiset(MergedNodes(fs, bs)) == multiset(front + back)
    ensures multiset(Values(MergedNodes(fs, bs))) == multiset(Values(front + back))
    ensures Sorted(Values(MergedNodes(fs, bs)))
  {
    MergedNodesPermutes(fs, bs);
    MergedValuesPermute(fs, bs);
    MergedNodesSorted(fs, bs);
    ValuesAppend(front, back);
  }

  /** The merge uses exactly the nodes of both runs. */
  lemma {:induction false} MergedNodesPermutes(xs: seq<Node>, ys: seq<Node>)
    ensures multiset(MergedNodes(xs, ys)) == multiset(xs) + multiset(ys)
    decreases |xs| + |ys|
  {
    if xs != [] && ys != [] {
      if Lt(xs[0].value, ys[0].value) {
        MergedNodesPermutes(xs[1..], ys);
        assert xs == [xs[0]] + xs[1..];
      } else {
        MergedNodesPermutes(xs, ys[1..]);
        assert ys == [ys[0]] + ys[1..];
      }
    }
  }

  /** ... and therefore exactly their strings. */
  lemma {:induction false} MergedValuesPermute(xs: seq<Node>, ys: seq<Node>)
    ensures multiset(Values(MergedNodes(xs, ys))) == multiset(Values(xs)) + multiset(Values(ys))
    decreases |xs| + |ys|
  {
    if xs != [] && ys != [] {
      if Lt(xs[0].value, ys[0].value) {
        MergedValuesPermute(xs[1..], ys);
        assert Values(xs) == [xs[0].value] + Values(xs[1..]);
        assert Values([xs[0]] + MergedNodes(xs[1..], ys)) == [xs[0].value] + Values(MergedNodes(xs[1..], ys));
      } else {
        MergedValuesPermute(xs, ys[1..]);
        assert Values(ys) == [ys[0].value] + Values(ys[1..]);
        assert Values([ys[0]] + MergedNodes(xs, ys[1..])) == [ys[0].value] + Values(MergedNodes(xs, ys[1..]));
      }
    }
  }

  /** A non-empty merge starts with the head of one of the two runs. */
  lemma MergedNodesHead(xs: seq<Node>, ys: seq<Node>)
    requires xs != [] || ys != []
    ensures MergedNodes(xs, ys) != []
    ensures (xs != [] && MergedNodes(xs, ys)[0] == xs[0]) || (ys != [] && MergedNodes(xs, ys)[0] == ys[0])
  {
  }

  lemma SortedValuesTail(xs: seq<Node>)
    requires xs != [] && Sorted(Values(xs))
    ensures Sorted(Values(xs[1..]))
    ensures |xs| > 1 ==> Le(xs[0].value, xs[1].value)
  {
    var vs, ws := Values(xs), Values(xs[1..]);
    assert vs == [xs[0].value] + ws;
    forall i | 0 < i < |ws|
      ensures Le(ws[i - 1], ws[i])
    {
      assert ws[i - 1] == vs[i] && ws[i] == vs[i + 1];
    }
    if |xs| > 1 {
      assert vs[0] == xs[0].value && vs[1] == xs[1].value;
    }
  }

  lemma SortedValuesCons(x: Node, rest: seq<Node>)
    requires Sorted(Values(rest))
    requires rest != [] ==> Le(x.value, rest[0].value)
    ensures Sorted(Values([x] + rest))
  {
    var vs, ws := Values([x] + rest), Values(rest);
    assert ([x] + rest)[1..] == rest;
    assert vs == [x.value] + ws;
    forall i | 0 < i < |vs|
      ensures Le(vs[i - 1], vs[i])
    {
      if i > 1 {
        assert vs[i - 1] == ws[i - 2] && vs[i] == ws[i - 1];
      } else {
        assert vs[1] == ws[0] == rest[0].value;
      }
    }
  }

  /** Merging two ascending runs gives an ascending run. */
  lemma {:induction false} MergedNodesSorted(xs: seq<Node>, ys: seq<Node>)
    requires Sorted(Values(xs)) && Sorted(Values(ys))
    ensures Sorted(Values(MergedNodes(xs, ys)))
    decreases |xs| + |ys|
  {
    if xs != [] && ys != [] {
      var x, y := xs[0], ys[0];
      var rest;
      if Lt(x.value, y.value) {
        rest := MergedNodes(xs[1..], ys);
        SortedValuesTail(xs);
        MergedNodesSorted(xs[1..], ys);
        MergedNodesHead(xs[1..], ys);
        SortedValuesCons(x, rest);
      } else {
        rest := MergedNodes(xs, ys[1..]);
        SortedValuesTail(ys);
        MergedNodesSorted(xs, ys[1..]);
        MergedNodesHead(xs, ys[1..]);
        LtTotal(x.value, y.value);
        SortedValuesCons(y, rest);
      }
    }
  }
}
