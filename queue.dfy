/** The string queue of queue.c: a `queue_t` record with `head`, `tail` and a
    cached `size` over a singly linked chain of `list_ele_t` nodes. Every C
    entry point accepts a possibly null queue, so each is modelled as a method
    over `Queue?`. */
module LinkedQueue {
  import opened StringOrder
  import opened Chains

  /** A C string: no character is the terminator, so `strlen(s) == |s|`. */
  predicate IsCString(s: string)
  {
    forall i :: 0 <= i < |s| ==> s[i] != '\0'
  }

  /** Every node of the run holds a C string. */
  ghost predicate CStrings(ns: seq<Node>)
  {
    forall k :: 0 <= k < |ns| ==> IsCString(ns[k].value)
  }

  lemma CStringsReversal(ns: seq<Node>)
    requires CStrings(ns)
    ensures CStrings(Reversal(ns))
  {
    forall k | 0 <= k < |ns|
      ensures IsCString(Reversal(ns)[k].value)
    {
      ReversalAt(ns, k);
    }
  }

  /** Rearranging nodes keeps every stored string free of '\0'. */
  lemma CStringsPermuted(ns: seq<Node>, ms: seq<Node>)
    requires CStrings(ns) && multiset(ms) == multiset(ns)
    ensures CStrings(ms)
  {
    forall k | 0 <= k < |ms|
      ensures IsCString(ms[k].value)
    {
      assert ms[k] in multiset(ns);
      var j :| 0 <= j < |ns| && ns[j] == ms[k];
    }
  }

  /** `queue_t`. The ghost `nodes` lists the chain that starts at `head`. */
  class Queue {
    var head: Node?
    var tail: Node?
    var size: int
    ghost var nodes: seq<Node>

    /** The queue invariant: `head` starts a chain over `nodes`, `tail` is its
        last node (null when empty), `size` counts it, and every stored string
        is a C string. */
    ghost predicate Valid()
      reads this, nodes
    {
      && Chain(head, nodes)
      && tail == (if nodes == [] then null else nodes[|nodes| - 1])
      && size == |nodes|
      && CStrings(nodes)
    }

    /** The strings in the queue, head first. */
    ghost function Contents(): seq<string>
      reads this
    {
      Values(nodes)
    }

    constructor ()
      ensures Valid() && head == null && tail == null && size == 0
      ensures nodes == [] && Contents() == []
    {
      head, tail, size := null, null, 0;
      nodes := [];
    }
  }

  /** `q_new`; `allocOk` is whether `malloc` succeeds. */
  method New(allocOk: bool) returns (q: Queue?)
    ensures (q != null) == allocOk
    ensures q != null ==> fresh(q) && q.Valid() && q.head == null && q.tail == null && q.size == 0
    ensures q != null ==> q.Contents() == []
  {
    if !allocOk {
      return null;
    }
    q := new Queue();
  }

  /** `q_size`: 0 for a null queue, otherwise the cached count, which the
      invariant ties to the number of nodes reachable from `head`. */
  function Size(q: Queue?): (n: int)
    reads q, if q != null then q.nodes else []
    requires q != null ==> q.Valid()
    ensures q == null ==> n == 0
    ensures q != null ==> n == |q.nodes| == |q.Contents()|
  {
    if q == null then 0 else q.size
  }

  /** `q_free`: walks the chain from `head`, releasing each node once in
      order (`released`), and leaves `head` null. Releasing memory is not
      modelled; after the call the queue must not be used again. */
  method Free(q: Queue?) returns (ghost released: seq<Node>)
    requires q != null ==> q.Valid()
    modifies q
    ensures q == null ==> released == []
    ensures q != null ==> released == old(q.nodes) && q.head == null
  {
    released := [];
    if q == null {
      return;
    }
    while q.head != null
      invariant |released| <= |q.nodes| && released == q.nodes[..|released|]
      invariant Chain(q.head, q.nodes[|released|..])
      invariant q.nodes == old(q.nodes)
      decreases |q.nodes| - |released|
    {
      var next := q.head.next;
      released := released + [q.head];
      q.head := next;
    }
  }

  /** `q_insert_head`. `nodeAlloc` and `valueAlloc` say whether the two
      `malloc` calls succeed; when the second fails the new node is released
      and nothing changes. */
  method InsertHead(q: Queue?, s: string, nodeAlloc: bool, valueAlloc: bool) returns (ok: bool)
    requires IsCString(s)
    requires q != null ==> q.Valid()
    modifies q
    ensures ok == (q != null && nodeAlloc && valueAlloc)
    ensures q != null ==> q.Valid()
    ensures ok ==> fresh(q.head) && q.head.value == s && q.head.next == old(q.head)
    ensures ok ==> q.head.capacity == |s| + 1
    ensures ok ==> q.nodes == [q.head] + old(q.nodes) && q.size == old(q.size) + 1
    ensures ok ==> q.Contents() == [s] + old(q.Contents())
    ensures ok ==> q.tail == if old(q.tail) == null then q.head else old(q.tail)
    ensures !ok && q != null ==> q.nodes == old(q.nodes) && q.head == old(q.head) && q.tail == old(q.tail) && q.size == old(q.size)
  {
    if q == null {
      return false;
    }
    if !nodeAlloc {
      return false;
    }
    if !valueAlloc {
      return false;
    }
    var newh := new Node(s, CopyBytes(|s|));
    newh.next := q.head;
    q.head := newh;
    if q.tail == null {
      q.tail := newh;
      newh.next := null;
    }
    q.size := q.size + 1;
    q.nodes := [newh] + q.nodes;
    ok := true;
  }

  /** `q_insert_tail`, with the same allocation failures as `InsertHead`.
      The stored value is an exact copy of `s`. */
  method InsertTail(q: Queue?, s: string, nodeAlloc: bool, valueAlloc: bool) returns (ok: bool)
    requires IsCString(s)
    requires q != null ==> q.Valid()
    modifies q, if q != null then q.tail else null
    ensures ok == (q != null && nodeAlloc && valueAlloc)
    ensures q != null ==> q.Valid()
    ensures ok ==> fresh(q.tail) && q.tail.value == s && q.tail.next == null
    ensures ok ==> q.tail.capacity == |s| + 1
    ensures ok ==> q.nodes == old(q.nodes) + [q.tail] && q.size == old(q.size) + 1
    ensures ok ==> q.Contents() == old(q.Contents()) + [s]
    ensures ok ==> q.head == if old(q.head) == null then q.tail else old(q.head)
    ensures !ok && q != null ==> q.nodes == old(q.nodes) && q.head == old(q.head) && q.tail == old(q.tail) && q.size == old(q.size)
  {
    if q == null {
      return false;
    }
    if !nodeAlloc {
      return false;
    }
    if !valueAlloc {
      return false;
    }
    var newt := new Node(s, CopyBytes(|s|));
    if q.tail == null {
      q.head, q.tail := newt, newt;
      newt.next := null;
    } else {
      LinkTail(q.head, q.nodes, q.tail, newt);
      q.tail := newt;
    }
    q.size := q.size + 1;
    q.nodes := q.nodes + [newt];
    ok := true;
    assert Chain(q.head, q.nodes);
    assert q.tail == q.nodes[|q.nodes| - 1];
    assert q.size == |q.nodes|;
    assert CStrings(q.nodes);
    assert q.Contents() == old(q.Contents()) + [s];
  }

  /** `q->tail->next = newt; ... newt->next = NULL;` of `q_insert_tail` on a
      non-empty queue: a node outside the chain is hung after its last node
      and ends it. */
  method LinkTail(h: Node, ghost ns: seq<Node>, t: Node, x: Node)
    requires ns != [] && Chain(h, ns) && t == ns[|ns| - 1] && x !in ns
    modifies t, x
    ensures Chain(h, ns + [x]) && t.next == x && x.next == null
  {
    DistinctPairwise(ns);
    t.next := x;
    x.next := null;
    assert forall k :: 0 <= k < |ns| - 1 ==> ns[k] != t;
    ChainConcat(ns, x, [x]);
  }

  /** `sizeof(size_t)`, assuming an LP64 target (`sizeof(size_t)` = 8). */
  const SizeOfSizeT: nat := 8

  /** The buffer `q_insert_tail` asks `malloc` for as written:
      `sizeof(char) * sizeof(strlen(s)) + 1`. The `sizeof` is of the
      `size_t` result, so the size does not depend on the string at all,
      and the copy and its terminator fit exactly when the string has at
      most `sizeof(size_t)` characters. */
  function TailCopyBytesAsWritten(len: nat): (n: nat)
    ensures CopyFits(len, n) <==> len <= SizeOfSizeT
  {
    1 * SizeOfSizeT + 1
  }

  /** A nine-character string already overruns the buffer `q_insert_tail`
      allocates as written. */
  lemma TailCopyOverrun()
    ensures !CopyFits(|"abcdefghi"|, TailCopyBytesAsWritten(|"abcdefghi"|))
  {
  }

  /** The buffer both insertions should ask for, as `q_insert_head` does:
      `strlen(s) + 1`; `InsertHead` and `InsertTail` allocate this size. */
  function CopyBytes(len: nat): (n: nat)
    ensures CopyFits(len, n) && !CopyFits(len, n - 1)
  {
    len + 1
  }

  /** How many characters `q_remove_head` copies out of a string of length
      `len` into a buffer of `bufsize` bytes: all of it when it fits with its
      terminator, otherwise `bufsize - 1`. */
  function CopyLength(len: nat, bufsize: nat): (k: nat)
    requires bufsize >= 1
    ensures k <= len && k < bufsize
    ensures k == len || k == bufsize - 1
  {
    if len < bufsize then len else bufsize - 1
  }

  /** `q_remove_head`. A null or empty queue gives false and nothing changes.
      Otherwise the head node is unlinked and, when the queue becomes empty,
      `tail` is cleared too (queue.c leaves it dangling; see
      `RemoveHeadAsWritten`). When `sp` is given, its first `bufsize` bytes
      become the removed string cut to `bufsize - 1` characters and padded
      with terminators. */
  method RemoveHead(q: Queue?, sp: array?<char>, bufsize: nat) returns (ok: bool)
    requires q != null ==> q.Valid()
    requires sp != null ==> 1 <= bufsize <= sp.Length
    modifies q, sp
    ensures ok == (q != null && old(q.nodes) != [])
    ensures q != null ==> q.Valid()
    ensures ok ==> q.nodes == old(q.nodes)[1..] && q.size == old(q.size) - 1
    ensures ok ==> q.Contents() == old(q.Contents())[1..]
    ensures ok ==> q.head == old(q.head.next)
    ensures ok && q.nodes == [] ==> q.head == null && q.tail == null
    ensures ok && q.nodes != [] ==> q.tail == old(q.tail)
    ensures ok && sp != null ==>
      var v := old(q.Contents())[0];
      var k := CopyLength(|v|, bufsize);
      && sp[..k] == v[..k]
      && (forall i :: k <= i < bufsize ==> sp[i] == '\0')
      && sp[bufsize..] == old(sp[bufsize..])
    ensures !ok && q != null ==> q.nodes == old(q.nodes) && q.head == old(q.head) && q.tail == old(q.tail) && q.size == old(q.size)
    ensures !ok || sp == null ==> sp == null || sp[..] == old(sp[..])
  {
    if q == null {
      return false;
    }
    var rmh := q.head;
    if rmh == null {
      return false;
    }
    ChainTail(rmh, q.nodes);
    q.head := q.head.next;
    if q.head == null {
      q.tail := null;
    }
    if sp != null {
      var v := rmh.value;
      var k := CopyLength(|v|, bufsize);
      forall i | 0 <= i < bufsize {
        sp[i] := '\0';
      }
      forall i | 0 <= i < k {
        sp[i] := v[i];
      }
    }
    q.size := q.size - 1;
    q.nodes := q.nodes[1..];
    ok := true;
  }

  /** The unlinking in `q_remove_head` as queue.c writes it: `tail` is left
      untouched. Removing the only node then leaves a null `head` beside a
      non-null `tail` that points at the released node, so the queue
      invariant no longer holds. */
  method RemoveHeadAsWritten(q: Queue)
    requires q.Valid() && q.nodes != []
    modifies q
    ensures q.head == old(q.head.next) && q.tail == old(q.tail)
    ensures q.nodes == old(q.nodes)[1..] && q.size == old(q.size) - 1
    ensures old(|q.nodes|) > 1 ==> q.Valid()
    ensures old(|q.nodes|) == 1 ==> q.head == null && q.tail == old(q.head) && !q.Valid()
  {
    q.head := q.head.next;
    q.size := q.size - 1;
    q.nodes := q.nodes[1..];
  }

  /** The recursive helper `reverse(cur, &head)` of `q_reverse`, on the chain
      `ns` that starts at `cur`: every node after the first is made to point
      back at its predecessor, the first node's link is left as it was, the
      chain's last node is reported as the new head, and `cur` is returned. */
  method ReverseFrom(cur: Node, ghost ns: seq<Node>) returns (r: Node, newHead: Node)
    requires Chain(cur, ns)
    modifies ns
    ensures r == cur && newHead == ns[|ns| - 1]
    ensures ns[0].next == old(ns[0].next)
    ensures forall i :: 0 < i < |ns| ==> ns[i].next == ns[i - 1]
    decreases |ns|
  {
    if cur.next != null {
      var last;
      last, newHead := ReverseFrom(cur.next, ns[1..]);
      last.next := cur;
    } else {
      ChainTail(cur, ns);
      newHead := cur;
    }
    r := cur;
  }

  /** The relinking `q_reverse` does on a chain `ns` of two or more nodes
      starting at `h`: `reverse` turns every later link backwards, the second
      node is pointed at `h`, and `h`, the new last node, gets a null `next`.
      The same nodes now form the reversed chain, which starts at the old last
      node. */
  method RelinkReversed(h: Node, ghost ns: seq<Node>) returns (nh: Node)
    requires Chain(h, ns) && |ns| >= 2
    modifies ns
    ensures nh == ns[|ns| - 1] && ns[0].next == null
    ensures Chain(nh, Reversal(ns)) && Reversal(ns)[|ns| - 1] == h
  {
    var last;
    ChainTail(h, ns);
    last, nh := ReverseFrom(h.next, ns[1..]);
    last.next := h;
    h.next := null;
    ChainReversal(ns);
  }

  /** `q_reverse`: no effect on a null, empty or one-node queue; otherwise the
      same nodes are relinked in reverse order, the old head becomes `tail`
      with a null `next`, and the old last node becomes `head`. */
  method Reverse(q: Queue?)
    requires q != null ==> q.Valid()
    modifies q, if q != null then q.nodes else []
    ensures q != null ==> q.Valid() && q.size == old(q.size)
    ensures q != null ==> q.nodes == Reversal(old(q.nodes))
    ensures q != null ==> q.Contents() == Reversal(old(q.Contents()))
    ensures q != null && old(|q.nodes|) >= 2 ==> q.head == old(q.tail) && q.tail == old(q.head) && q.tail.next == null
    ensures q != null && old(|q.nodes|) < 2 ==> q.head == old(q.head) && q.tail == old(q.tail)
  {
    if q == null || q.head == null {
      return;
    }
    ghost var ns := q.nodes;
    if q.head.next == null {
      assert |ns| == 1 by {
        ChainTail(q.head, ns);
      }
      assert Reversal(ns) == Reversal([]) + [ns[0]] == ns;
      return;
    }
    ChainNext(q.head, ns, 0);
    ReverseLong(q);
  }

  /** The body of `q_reverse` for a queue of two or more nodes. */
  method ReverseLong(q: Queue)
    requires q.Valid() && |q.nodes| >= 2
    modifies q, q.nodes
    ensures q.Valid() && q.size == old(q.size)
    ensures q.nodes == Reversal(old(q.nodes)) && q.Contents() == Reversal(old(q.Contents()))
    ensures q.head == old(q.tail) && q.tail == old(q.head) && q.tail.next == null
  {
    ghost var ns := q.nodes;
    ValuesReversal(ns);
    CStringsReversal(ns);
    q.tail := q.head;
    q.head := RelinkReversed(q.head, ns);
    q.nodes := Reversal(ns);
  }

  /** The fast/slow pointer walk of `mergesort` on a chain of two or more
      nodes: `t` steps one node while `r` steps two, and `t` stops on the last
      node of the front half, which holds ceil(n/2) nodes and leaves
      floor(n/2) behind it. */
  method SplitPoint(h: Node, ghost ns: seq<Node>) returns (t: Node)
    requires Chain(h, ns) && |ns| >= 2
    ensures t == ns[(|ns| - 1) / 2]
    ensures (|ns| - 1) / 2 + 1 == (|ns| + 1) / 2 && |ns| - ((|ns| - 1) / 2 + 1) == |ns| / 2
    ensures 0 < (|ns| - 1) / 2 + 1 < |ns|
  {
    t := h;
    var r := h.next;
    ghost var i := 0;
    while r != null && r.next != null
      invariant 2 * i + 1 <= |ns|
      invariant t == ns[i]
      invariant r == if 2 * i + 1 < |ns| then ns[2 * i + 1] else null
      decreases |ns| - 2 * i
    {
      ChainNext(h, ns, i);
      ChainNext(h, ns, 2 * i + 1);
      ChainNext(h, ns, 2 * i + 2);
      t := t.next;
      r := r.next.next;
      i := i + 1;
    }
    if r != null {
      ChainNext(h, ns, 2 * i + 1);
    }
  }

  /** One `cur->next = tmp` step of `merge`: the run taken so far, which ends
      in `cur`, grows by `tmp`, and the two chains still to be merged, which do
      not contain `cur`, are left as they were. */
  method Attach(cur: Node, tmp: Node, ghost done: seq<Node>, a: Node?, ghost ra: seq<Node>, b: Node?, ghost rb: seq<Node>)
    requires done != [] && cur == done[|done| - 1] && Distinct(done) && Linked(done)
    requires Chain(a, ra) && Chain(b, rb) && Disjoint(done, ra) && Disjoint(done, rb)
    modifies cur
    ensures cur.next == tmp && Linked(done) && Linked(done + [tmp])
    ensures Chain(a, ra) && Chain(b, rb)
  {
    assert cur in done;
    DistinctPairwise(done);
    cur.next := tmp;
    assert forall k :: 0 <= k < |done| - 1 ==> done[k] != cur;
  }

  /** What `merge` keeps true between steps: the nodes taken so far, `done`,
      form a linked run from `head` to `cur` made of nodes of `xs` and `ys`;
      `a` and `b` head the untouched remainders `xs[i..]` and `ys[j..]`, and
      `done` followed by the merge of the remainders is the whole merge. */
  ghost predicate MergeInv(xs: seq<Node>, ys: seq<Node>, i: int, j: int, done: seq<Node>,
                           a: Node?, b: Node?, head: Node?, cur: Node?)
    reads xs, ys, done
  {
    0 <= i <= |xs| && 0 <= j <= |ys| && |done| == i + j && Disjoint(xs, ys) &&
    Chain(a, xs[i..]) && Chain(b, ys[j..]) && (i < |xs| || j < |ys|) &&
    Distinct(done) && Linked(done) &&
    (if done == [] then head == null && cur == null else head == done[0] && cur == done[|done| - 1]) &&
    (forall k :: 0 <= k < |done| ==> done[k] in xs || done[k] in ys) &&
    Disjoint(done, xs[i..]) && Disjoint(done, ys[j..]) &&
    done + MergedNodes(xs[i..], ys[j..]) == MergedNodes(xs, ys)
  }

  /** One pass of the loop in `merge`: the smaller head (the right one on a
      tie) is unlinked from its chain and appended after `cur`. */
  method MergeStep(ghost xs: seq<Node>, ghost ys: seq<Node>, a0: Node, b0: Node, head0: Node?, cur0: Node?,
                   ghost i0: int, ghost j0: int, ghost done0: seq<Node>)
    returns (a: Node?, b: Node?, head: Node?, cur: Node?, ghost i: int, ghost j: int, ghost done: seq<Node>)
    requires MergeInv(xs, ys, i0, j0, done0, a0, b0, head0, cur0)
    modifies if cur0 != null then {cur0} else {}
    ensures MergeInv(xs, ys, i, j, done, a, b, head, cur)
    ensures i + j == i0 + j0 + 1
  {
    a, b, head, cur, i, j, done := a0, b0, head0, cur0, i0, j0, done0;
    ghost var rest := MergedNodes(xs[i..], ys[j..]);
    var tmp;
    if Lt(a.value, b.value) {
      tmp := a;
      ChainTail(a, xs[i..]);
      assert xs[i..][1..] == xs[i + 1..];
      assert rest == [a] + MergedNodes(xs[i + 1..], ys[j..]);
      DisjointSuffixes(xs, ys, i, j);
      TakeFirst(done, xs[i..], ys[j..]);
      a := a.next;
      i := i + 1;
    } else {
      tmp := b;
      ChainTail(b, ys[j..]);
      assert ys[j..][1..] == ys[j + 1..];
      assert rest == [b] + MergedNodes(xs[i..], ys[j + 1..]);
      DisjointSuffixes(ys, xs, j, i);
      TakeFirst(done, ys[j..], xs[i..]);
      b := b.next;
      j := j + 1;
    }
    ghost var taken := done + [tmp];
    ShiftFirst(done, tmp, rest, MergedNodes(xs[i..], ys[j..]));
    if head == null {
      head := tmp;
    } else {
      Attach(cur, tmp, done, a, xs[i..], b, ys[j..]);
    }
    cur := tmp;
    done := taken;
  }

  /** `merge(l1, l2, &head)` on two non-empty, disjoint chains `xs` and `ys`
      (its only caller, `mergesort`, never passes an empty one; queue.c would
      dereference a null `cur` otherwise). Nodes are relinked, never copied:
      the left node is taken when its string is strictly smaller, otherwise
      the right one, and once one chain runs out the rest of the other is
      appended, so the result is the chain `MergedNodes(xs, ys)`. */
  method Merge(l1: Node?, ghost xs: seq<Node>, l2: Node?, ghost ys: seq<Node>) returns (head: Node?, ghost ms: seq<Node>)
    requires Chain(l1, xs) && Chain(l2, ys) && Disjoint(xs, ys)
    requires xs != [] && ys != []
    modifies xs, ys
    ensures ms == MergedNodes(xs, ys)
    ensures Chain(head, ms)
  {
    var a, b := l1, l2;
    var cur: Node? := null;
    head := null;
    ghost var i, j := 0, 0;
    ghost var done: seq<Node> := [];
    while a != null && b != null
      invariant MergeInv(xs, ys, i, j, done, a, b, head, cur)
      decreases |xs| - i + |ys| - j
    {
      a, b, head, cur, i, j, done := MergeStep(xs, ys, a, b, head, cur, i, j, done);
    }
    assert cur in done;
    if a != null || b != null {
      if a != null {
        assert ys[j..] == [] && MergedNodes(xs[i..], ys[j..]) == xs[i..];
        Attach(cur, a, done, a, xs[i..], b, ys[j..]);
        ms := done + xs[i..];
        ChainConcat(done, a, xs[i..]);
      } else {
        assert xs[i..] == [] && MergedNodes(xs[i..], ys[j..]) == ys[j..];
        Attach(cur, b, done, a, xs[i..], b, ys[j..]);
        ms := done + ys[j..];
        ChainConcat(done, b, ys[j..]);
      }
    } else {
      // queue.c sets `cur->next = NULL` here; the loop always stops with one
      // chain left over, so this branch is never taken.
      assert false;
    }
  }

  /** `r = t->next; t->next = NULL;` in `mergesort`: cutting the chain after
      its `m`-th node leaves two chains, the first `m` nodes from `h` and the
      rest from the returned node. */
  method Split(h: Node, ghost ns: seq<Node>, t: Node, ghost m: nat) returns (r: Node?)
    requires Chain(h, ns) && 0 < m < |ns| && t == ns[m - 1]
    modifies t
    ensures Chain(h, ns[..m]) && Chain(r, ns[m..])
  {
    ChainNext(h, ns, m - 1);
    Halves(ns, m);
    DistinctPairwise(ns);
    r := t.next;
    t.next := null;
    assert forall k :: 0 <= k < m - 1 ==> ns[k] != t;
    assert forall k :: m <= k < |ns| ==> ns[k] != t;
  }

  /** The first half of `mergesort` beyond the base case: find the last node
      of the front half with the fast/slow walk and cut the chain after it.
      The front half keeps `h` and ceil(n/2) nodes; the back half starts at
      `r`; the two halves share no node. */
  method Halve(h: Node, ghost ns: seq<Node>) returns (r: Node?, ghost front: seq<Node>, ghost back: seq<Node>)
    requires Chain(h, ns) && h.next != null
    modifies ns
    ensures ns == front + back && |front| == (|ns| + 1) / 2 && front != [] && back != []
    ensures Chain(h, front) && Chain(r, back)
    ensures Disjoint(front, back)
    ensures forall k :: 0 <= k < |front| ==> front[k] in ns
    ensures forall k :: 0 <= k < |back| ==> back[k] in ns && back[k] !in front
  {
    ChainNext(h, ns, 0);
    var t := SplitPoint(h, ns);
    ghost var m := (|ns| - 1) / 2 + 1;
    Halves(ns, m);
    r := Split(h, ns, t, m);
    front, back := ns[..m], ns[m..];
  }

  /** The second half of `mergesort`: the sorted runs `fs` (a permutation of
      `front`) and `bs` (a permutation of `back`) are merged into one chain
      holding the nodes and strings of `front + back` in ascending order. */
  method MergeRuns(t: Node?, ghost fs: seq<Node>, r: Node?, ghost bs: seq<Node>, ghost front: seq<Node>, ghost back: seq<Node>)
    returns (nh: Node?, ghost ms: seq<Node>)
    requires Chain(t, fs) && Chain(r, bs) && Disjoint(fs, bs) && fs != [] && bs != []
    requires multiset(fs) == multiset(front) && multiset(bs) == multiset(back)
    requires multiset(Values(fs)) == multiset(Values(front)) && multiset(Values(bs)) == multiset(Values(back))
    requires Sorted(Values(fs)) && Sorted(Values(bs))
    modifies fs, bs
    ensures Chain(nh, ms)
    ensures multiset(ms) == multiset(front + back)
    ensures multiset(Values(ms)) == multiset(Values(front + back))
    ensures Sorted(Values(ms))
  {
    nh, ms := Merge(t, fs, r, bs);
    MergedHalves(front, back, fs, bs);
  }

  /** `mergesort(&head)` on the chain `ns` from `h`: a chain of fewer than two
      nodes is left alone; otherwise it is cut after its first ceil(n/2)
      nodes, both halves are sorted, and the halves are merged. The result is
      a chain of the same nodes whose strings ascend. */
  method MergeSort(h: Node?, ghost ns: seq<Node>) returns (nh: Node?, ghost ms: seq<Node>)
    requires Chain(h, ns)
    modifies ns
    ensures Chain(nh, ms)
    ensures multiset(ms) == multiset(ns)
    ensures multiset(Values(ms)) == multiset(Values(ns))
    ensures Sorted(Values(ms))
    decreases |ns|, 2
  {
    if h == null || h.next == null {
      if h != null {
        ChainNext(h, ns, 0);
      }
      return h, ns;
    }
    var r;
    ghost var front, back;
    r, front, back := Halve(h, ns);
    nh, ms := SortHalves(h, front, r, back);
  }

  /** The recursive part of `mergesort` after the cut: `mergesort(&t)` sorts
      the front half, which leaves the back half untouched. */
  method SortHalves(h: Node, ghost front: seq<Node>, r: Node?, ghost back: seq<Node>) returns (nh: Node?, ghost ms: seq<Node>)
    requires Chain(h, front) && Chain(r, back) && front != [] && back != []
    requires Disjoint(front, back)
    requires forall k :: 0 <= k < |back| ==> back[k] !in front
    modifies front, back
    ensures Chain(nh, ms)
    ensures multiset(ms) == multiset(front + back)
    ensures multiset(Values(ms)) == multiset(Values(front + back))
    ensures Sorted(Values(ms))
    decreases |front| + |back|, 1
  {
    var t;
    ghost var fs;
    t, fs := MergeSort(h, front);
    PermutedWithin(front, fs, front, back);
    DisjointPermuted(front, back, fs, back);
    assert |fs| == |multiset(fs)| == |multiset(front)| == |front|;
    nh, ms := SortBack(t, fs, r, back, front);
  }

  /** `mergesort(&r)` on the back half, which leaves the sorted front run `fs`
      untouched, followed by `merge(t, r, head)`. */
  method SortBack(t: Node, ghost fs: seq<Node>, r: Node?, ghost back: seq<Node>, ghost front: seq<Node>)
    returns (nh: Node?, ghost ms: seq<Node>)
    requires Chain(t, fs) && Chain(r, back) && fs != [] && back != [] && front != []
    requires Disjoint(fs, back)
    requires forall k :: 0 <= k < |fs| ==> fs[k] !in back
    requires multiset(fs) == multiset(front) && multiset(Values(fs)) == multiset(Values(front))
    requires Sorted(Values(fs))
    modifies fs, back
    ensures Chain(nh, ms)
    ensures multiset(ms) == multiset(front + back)
    ensures multiset(Values(ms)) == multiset(Values(front + back))
    ensures Sorted(Values(ms))
    decreases |front| + |back|, 0
  {
    var r';
    ghost var bs;
    r', bs := MergeSort(r, back);
    PermutedWithin(back, bs, back, fs);
    DisjointPermuted(fs, back, fs, bs);
    assert |bs| == |multiset(bs)| == |multiset(back)| == |back|;
    nh, ms := MergeRuns(t, fs, r', bs, front, back);
  }

  /** The walk `while (tmp->next) tmp = tmp->next;` of `q_sort`: from the
      head of a non-empty chain it stops on the chain's last node. */
  method LastNode(h: Node, ghost ns: seq<Node>) returns (t: Node)
    requires Chain(h, ns)
    ensures t == ns[|ns| - 1] && t.next == null
  {
    t := h;
    ghost var k := 0;
    while t.next != null
      invariant 0 <= k < |ns| && t == ns[k]
      decreases |ns| - k
    {
      ChainNext(h, ns, k);
      t := t.next;
      k := k + 1;
    }
    ChainNext(h, ns, k);
  }

  /** The stores of `q_sort` once the chain is sorted: `mergesort(&q->head)`
      leaves the new first node in `head`, and `q->tail = tmp` records the
      last one. */
  method Install(q: Queue, h: Node, t: Node, ghost ms: seq<Node>)
    requires Chain(h, ms) && t == ms[|ms| - 1] && CStrings(ms) && q.size == |ms|
    modifies q
    ensures q.Valid() && q.nodes == ms && q.size == old(q.size)
  {
    q.head, q.tail, q.nodes := h, t, ms;
  }

  /** `q_sort`: no effect on a null or empty queue; otherwise the chain is
      merge-sorted in place and `tail` is found again by walking to its end.
      The queue keeps exactly its nodes and strings, now in ascending order;
      an already sorted queue is left in the same order. */
  method Sort(q: Queue?)
    requires q != null ==> q.Valid()
    modifies q, if q != null then q.nodes else []
    ensures q != null ==> q.Valid() && q.size == old(q.size)
    ensures q != null ==> multiset(q.nodes) == multiset(old(q.nodes))
    ensures q != null ==> Sorted(q.Contents()) && multiset(q.Contents()) == multiset(old(q.Contents()))
    ensures q != null && old(Sorted(q.Contents())) ==> q.Contents() == old(q.Contents())
  {
    if q == null || q.head == null {
      return;
    }
    ghost var before, ns := q.Contents(), q.nodes;
    ghost var ms;
    var h;
    h, ms := MergeSort(q.head, q.nodes);
    CStringsPermuted(ns, ms);
    assert |ms| == |multiset(ms)| == |multiset(ns)| == |ns|;
    if Sorted(before) {
      SortedUnique(before, Values(ms));
    }
    var t := LastNode(h, ms);
    Install(q, h, t, ms);
  }
}
