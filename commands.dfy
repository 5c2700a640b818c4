/** command.c's command list: the same doubly-linked list of heap-allocated text
    buffers as ice.c's line list, under Cmd names. A command's buffer is an array
    whose length is its capacity; the text is the first `len` bytes and a NUL
    follows it. */
module Commands {
  import opened Support
  import opened Text

  class Cmd {
    var cap: nat
    var len: nat
    var buf: array<char>
    var prev: Cmd?
    var next: Cmd?
    /** The text the buffer holds. */
    ghost var Text: seq<char>

    /** The buffer invariant: room for the text and its terminator, the terminator
        in place, and no NUL inside the text. */
    ghost predicate Valid()
      reads this`cap, this`len, this`buf, this`Text, buf
    {
      && cap == buf.Length
      && len < cap
      && buf[len] == Nul
      && |Text| == len
      && (forall i :: 0 <= i < len ==> buf[i] == Text[i])
      && NoNul(Text)
    }

    /** line_create: the text is copied, the capacity is the length plus 16, and
        the node is not linked. */
    constructor (text: Option<seq<char>>)
      ensures Valid() && Text == CString(text)
      ensures cap == len + 16
      ensures prev == null && next == null
      ensures fresh(buf)
    {
      var n := if text.Some? then StrLen(text.value) else 0;
      var b := new char[n + 16];
      if text.Some? {
        forall i | 0 <= i < n {
          b[i] := text.value[i];
        }
      }
      b[n] := Nul;
      len, cap, buf := n, n + 16, b;
      prev, next := null, null;
      Text := CString(text);
    }
  }

  /** The nodes of a sequence as a set, for frames. */
  ghost function NodeSet(ns: seq<Cmd>): set<Cmd> {
    set n | n in ns
  }

  /** The buffers of a sequence as a set, for frames. */
  ghost function BufSet(bs: seq<array<char>>): set<array<char>> {
    set b | b in bs
  }

  /** The nodes of a list, or none for a NULL list. */
  ghost function ListNodes(list: CmdList?): set<Cmd>
    reads list
  {
    if list == null then {} else NodeSet(list.Nodes)
  }

  /** head and tail are the first and the last node, both NULL for no nodes. */
  ghost predicate Ends(ns: seq<Cmd>, head: Cmd?, tail: Cmd?) {
    && head == (if ns == [] then null else ns[0])
    && tail == (if ns == [] then null else ns[|ns| - 1])
  }

  /** Every node's prev and next are its neighbours in `ns`, NULL at both ends. */
  ghost predicate Chained(ns: seq<Cmd>)
    reads NodeSet(ns)`prev, NodeSet(ns)`next
  {
    Backward(ns) && Forward(ns)
  }

  /** Every node's prev is the node before it, NULL for the first. */
  ghost predicate Backward(ns: seq<Cmd>)
    reads NodeSet(ns)`prev
  {
    forall i {:trigger ns[i].prev} :: 0 <= i < |ns| ==> ns[i].prev == (if i == 0 then null else ns[i - 1])
  }

  /** Every node's next is the node after it, NULL for the last. */
  ghost predicate Forward(ns: seq<Cmd>)
    reads NodeSet(ns)`next
  {
    forall i {:trigger ns[i].next} :: 0 <= i < |ns| ==> ns[i].next == (if i == |ns| - 1 then null else ns[i + 1])
  }

  /** Every node owns the buffer at its position in `bs`; the buffer is valid and
      holds the text at that position of `cs`. */
  ghost predicate Holds(ns: seq<Cmd>, bs: seq<array<char>>, cs: seq<seq<char>>)
    reads NodeSet(ns)`cap, NodeSet(ns)`len, NodeSet(ns)`buf, NodeSet(ns)`Text, BufSet(bs)
  {
    && |bs| == |ns| && |cs| == |ns|
    && forall i {:trigger Owns(ns[i], bs[i], cs[i])} :: 0 <= i < |ns| ==> Owns(ns[i], bs[i], cs[i])
  }

  /** The node owns the buffer, which is valid and holds the text. */
  ghost predicate Owns(n: Cmd, b: array<char>, c: seq<char>)
    reads n`cap, n`len, n`buf, n`Text, b
  {
    n.buf == b && n.Valid() && n.Text == c
  }

  /** The buffer fields and the text of a node are as they were. */
  twostate predicate Kept(n: Cmd)
    reads n
  {
    n.cap == old(n.cap) && n.len == old(n.len) && n.buf == old(n.buf) && n.Text == old(n.Text)
  }

  /** Nodes whose buffer fields, texts and buffers are untouched still hold their
      texts, whatever happened to their links. */
  twostate lemma HoldsStill(ns: seq<Cmd>, new bs: seq<array<char>>, new cs: seq<seq<char>>)
    requires old(allocated(bs)) && old(Holds(ns, bs, cs))
    requires forall i :: 0 <= i < |ns| ==> Kept(ns[i])
    requires forall i :: 0 <= i < |bs| ==> unchanged(bs[i])
    ensures Holds(ns, bs, cs)
  {
    forall i | 0 <= i < |ns|
      ensures Owns(ns[i], bs[i], cs[i])
    {
      assert old(Owns(ns[i], bs[i], cs[i]));
    }
  }

  /** A valid node added at the end keeps every node holding its text. */
  lemma HoldsSnoc(ns: seq<Cmd>, bs: seq<array<char>>, cs: seq<seq<char>>, n: Cmd)
    requires Holds(ns, bs, cs) && n.Valid()
    ensures Holds(ns + [n], bs + [n.buf], cs + [n.Text])
  {
    var ns', bs', cs' := ns + [n], bs + [n.buf], cs + [n.Text];
    forall i | 0 <= i < |ns'|
      ensures Owns(ns'[i], bs'[i], cs'[i])
    {
      if i < |ns| {
        assert ns'[i] == ns[i] && bs'[i] == bs[i] && cs'[i] == cs[i];
      }
    }
  }

  /** A valid node put in at position k keeps every node holding its text. */
  lemma HoldsInsert(ns: seq<Cmd>, bs: seq<array<char>>, cs: seq<seq<char>>, k: nat, n: Cmd)
    requires Holds(ns, bs, cs) && k <= |ns| && n.Valid()
    ensures Holds(Within(ns, k, n), Within(bs, k, n.buf), Within(cs, k, n.Text))
  {
    var ns', bs', cs' := ns[..k] + [n] + ns[k..], bs[..k] + [n.buf] + bs[k..], cs[..k] + [n.Text] + cs[k..];
    forall i | 0 <= i < |ns'|
      ensures Owns(ns'[i], bs'[i], cs'[i])
    {
      if i != k {
        var j := if i < k then i else i - 1;
        assert ns'[i] == ns[j] && bs'[i] == bs[j] && cs'[i] == cs[j];
      }
    }
  }

  /** Taking out the node at position k keeps every other node holding its text. */
  lemma HoldsRemove(ns: seq<Cmd>, bs: seq<array<char>>, cs: seq<seq<char>>, k: nat)
    requires Holds(ns, bs, cs) && k < |ns|
    ensures Holds(Without(ns, k), Without(bs, k), Without(cs, k))
  {
    var ns', bs', cs' := ns[..k] + ns[k + 1..], bs[..k] + bs[k + 1..], cs[..k] + cs[k + 1..];
    forall i | 0 <= i < |ns'|
      ensures Owns(ns'[i], bs'[i], cs'[i])
    {
      var j := if i < k then i else i + 1;
      assert ns'[i] == ns[j] && bs'[i] == bs[j] && cs'[i] == cs[j];
    }
  }

  /** cmdlist_append's link update of prev: the new node's prev is the old tail,
      no other prev changes. */
  twostate lemma AppendedBackward(ns: seq<Cmd>, new node: Cmd)
    requires old(Backward(ns))
    requires node.prev == (if ns == [] then null else ns[|ns| - 1])
    requires forall i :: 0 <= i < |ns| ==> ns[i].prev == old(ns[i].prev)
    ensures Backward(ns + [node])
  {
    var ns' := ns + [node];
    forall i | 0 <= i < |ns'|
      ensures ns'[i].prev == (if i == 0 then null else ns'[i - 1])
    {
      if i < |ns| {
        assert ns'[i] == ns[i];
        if 0 < i {
          assert ns'[i - 1] == ns[i - 1];
        }
      }
    }
  }

  /** cmdlist_append's link update of next: the old tail's next is the new node,
      whose next is NULL. */
  twostate lemma AppendedForward(ns: seq<Cmd>, new node: Cmd)
    requires Distinct(ns) && old(Forward(ns)) && node.next == null
    requires forall i :: 0 <= i < |ns| ==>
               ns[i].next == (if ns[i] == ns[|ns| - 1] then node else old(ns[i].next))
    ensures Forward(ns + [node])
  {
    var ns' := ns + [node];
    forall i | 0 <= i < |ns'|
      ensures ns'[i].next == (if i == |ns'| - 1 then null else ns'[i + 1])
    {
      if i + 1 < |ns| {
        assert ns'[i] == ns[i] && ns'[i + 1] == ns[i + 1];
        DistinctAt(ns, i, |ns| - 1);
      } else if i + 1 == |ns| {
        assert ns'[i] == ns[i];
      }
    }
  }

  /** cmdlist_insert_after's link update of prev: the new node's prev is the
      anchor at position k and the anchor's old successor's prev is the new node. */
  twostate lemma InsertedBackward(ns: seq<Cmd>, new k: nat, new node: Cmd)
    requires k < |ns| && Distinct(ns) && old(Backward(ns)) && old(Forward(ns))
    requires node.prev == ns[k]
    requires forall i :: 0 <= i < |ns| ==>
               ns[i].prev == (if ns[i] == old(ns[k].next) then node else old(ns[i].prev))
    ensures Backward(Within(ns, k + 1, node))
  {
    forall i | 0 <= i < |ns| && i != k + 1
      ensures ns[i].prev == (if i == 0 then null else ns[i - 1])
    {
      if k + 1 < |ns| {
        DistinctAt(ns, i, k + 1);
      }
    }
    if k + 1 < |ns| {
      assert old(ns[k].next) == ns[k + 1];
    }
    BackwardInsert(ns, k, node);
  }

  /** Links that are those of `ns` except that a node sits between positions k
      and k + 1 chain `ns` with the node inserted there (prev side). */
  lemma BackwardInsert(ns: seq<Cmd>, k: nat, node: Cmd)
    requires k < |ns| && node.prev == ns[k]
    requires forall i {:trigger ns[i].prev} :: 0 <= i < |ns| && i != k + 1 ==>
               ns[i].prev == (if i == 0 then null else ns[i - 1])
    requires k + 1 < |ns| ==> ns[k + 1].prev == node
    ensures Backward(Within(ns, k + 1, node))
  {
    var ns' := Within(ns, k + 1, node);
    forall i | 0 <= i < |ns'|
      ensures ns'[i].prev == (if i == 0 then null else ns'[i - 1])
    {
      if i <= k {
        assert ns'[i] == ns[i];
        if 0 < i {
          assert ns'[i - 1] == ns[i - 1];
        }
      } else if i == k + 1 {
        assert ns'[i - 1] == ns[k];
      } else if i == k + 2 {
        assert ns'[i] == ns[k + 1] && ns'[i - 1] == node;
      } else {
        assert ns'[i] == ns[i - 1] && ns'[i - 1] == ns[i - 2];
      }
    }
  }

  /** cmdlist_insert_after's link update of next: the anchor's next is the new
      node, whose next is the anchor's old successor. */
  twostate lemma InsertedForward(ns: seq<Cmd>, new k: nat, new node: Cmd)
    requires k < |ns| && Distinct(ns) && old(Forward(ns))
    requires node.next == old(ns[k].next)
    requires forall i :: 0 <= i < |ns| ==>
               ns[i].next == (if ns[i] == ns[k] then node else old(ns[i].next))
    ensures Forward(Within(ns, k + 1, node))
  {
    forall i | 0 <= i < |ns| && i != k
      ensures ns[i].next == (if i == |ns| - 1 then null else ns[i + 1])
    {
      DistinctAt(ns, i, k);
    }
    ForwardInsert(ns, k, node);
  }

  /** Links that are those of `ns` except that a node sits between positions k
      and k + 1 chain `ns` with the node inserted there (next side). */
  lemma ForwardInsert(ns: seq<Cmd>, k: nat, node: Cmd)
    requires k < |ns| && ns[k].next == node
    requires forall i {:trigger ns[i].next} :: 0 <= i < |ns| && i != k ==>
               ns[i].next == (if i == |ns| - 1 then null else ns[i + 1])
    requires node.next == (if k + 1 < |ns| then ns[k + 1] else null)
    ensures Forward(Within(ns, k + 1, node))
  {
    var ns' := Within(ns, k + 1, node);
    forall i | 0 <= i < |ns'|
      ensures ns'[i].next == (if i == |ns'| - 1 then null else ns'[i + 1])
    {
      if i < k {
        assert ns'[i] == ns[i] && ns'[i + 1] == ns[i + 1];
      } else if i == k {
        assert ns'[i] == ns[k] && ns'[i + 1] == node;
      } else if i == k + 1 {
        if k + 1 < |ns| {
          assert ns'[i + 1] == ns[k + 1];
        }
      } else {
        assert ns'[i] == ns[i - 1];
        if i + 1 < |ns'| {
          assert ns'[i + 1] == ns[i];
        }
      }
    }
  }

  /** cmdlist_remove's link update of prev: the successor of the node at
      position k takes over the node's prev. */
  twostate lemma RemovedBackward(ns: seq<Cmd>, new k: nat)
    requires k < |ns| && Distinct(ns) && old(Backward(ns)) && old(Forward(ns))
    requires forall i :: 0 <= i < |ns| ==>
               ns[i].prev == (if ns[i] == old(ns[k].next) then old(ns[k].prev) else old(ns[i].prev))
    ensures Backward(Without(ns, k))
  {
    forall i | 0 <= i < |ns| && i != k + 1 && i != k
      ensures ns[i].prev == (if i == 0 then null else ns[i - 1])
    {
      if k + 1 < |ns| {
        DistinctAt(ns, i, k + 1);
      }
    }
    if k + 1 < |ns| {
      assert old(ns[k].next) == ns[k + 1];
      assert ns[k + 1].prev == (if k == 0 then null else ns[k - 1]);
    }
    BackwardSkip(ns, k);
  }

  /** Links that are those of `ns` except that the node after position k skips
      it chain `ns` without position k (prev side). */
  lemma BackwardSkip(ns: seq<Cmd>, k: nat)
    requires k < |ns|
    requires forall i {:trigger ns[i].prev} :: 0 <= i < |ns| && i != k + 1 && i != k ==>
               ns[i].prev == (if i == 0 then null else ns[i - 1])
    requires k + 1 < |ns| ==> ns[k + 1].prev == (if k == 0 then null else ns[k - 1])
    ensures Backward(Without(ns, k))
  {
    var ns' := Without(ns, k);
    forall i | 0 <= i < |ns'|
      ensures ns'[i].prev == (if i == 0 then null else ns'[i - 1])
    {
      if i < k {
        assert ns'[i] == ns[i];
        if 0 < i {
          assert ns'[i - 1] == ns[i - 1];
        }
      } else if i == k {
        assert ns'[i] == ns[k + 1];
        if 0 < k {
          assert ns'[i - 1] == ns[k - 1];
        }
      } else {
        assert ns'[i] == ns[i + 1] && ns'[i - 1] == ns[i];
      }
    }
  }

  /** cmdlist_remove's link update of next: the predecessor of the node at
      position k takes over the node's next. */
  twostate lemma RemovedForward(ns: seq<Cmd>, new k: nat)
    requires k < |ns| && Distinct(ns) && old(Backward(ns)) && old(Forward(ns))
    requires forall i :: 0 <= i < |ns| ==>
               ns[i].next == (if ns[i] == old(ns[k].prev) then old(ns[k].next) else old(ns[i].next))
    ensures Forward(Without(ns, k))
  {
    forall i | 0 <= i < |ns| && i + 1 != k && i != k
      ensures ns[i].next == (if i == |ns| - 1 then null else ns[i + 1])
    {
      if 0 < k {
        DistinctAt(ns, i, k - 1);
      }
    }
    if 0 < k {
      assert old(ns[k].prev) == ns[k - 1];
      assert ns[k - 1].next == (if k + 1 < |ns| then ns[k + 1] else null);
    }
    ForwardSkip(ns, k);
  }

  /** Links that are those of `ns` except that the node before position k skips
      it chain `ns` without position k. */
  lemma ForwardSkip(ns: seq<Cmd>, k: nat)
    requires k < |ns|
    requires forall i {:trigger ns[i].next} :: 0 <= i < |ns| && i + 1 != k && i != k ==>
               ns[i].next == (if i == |ns| - 1 then null else ns[i + 1])
    requires 0 < k ==> ns[k - 1].next == (if k + 1 < |ns| then ns[k + 1] else null)
    ensures Forward(Without(ns, k))
  {
    var ns' := Without(ns, k);
    forall i | 0 <= i < |ns'|
      ensures ns'[i].next == (if i == |ns'| - 1 then null else ns'[i + 1])
    {
      if i + 1 < k {
        assert ns'[i] == ns[i] && ns'[i + 1] == ns[i + 1];
      } else if i + 1 == k {
        assert ns'[i] == ns[k - 1];
        if k + 1 < |ns| {
          assert ns'[i + 1] == ns[k + 1];
        }
      } else {
        assert ns'[i] == ns[i + 1];
        if i + 1 < |ns'| {
          assert ns'[i + 1] == ns[i + 2];
        }
      }
    }
  }

  /** The state cmdlist_insert_after leaves behind satisfies the list invariant. */
  twostate lemma InsertedValid(list: CmdList, new ns: seq<Cmd>, new bs: seq<array<char>>, new cs: seq<seq<char>>,
                               new k: nat, new node: Cmd)
    requires old(list.Valid()) && ns == old(list.Nodes) && bs == old(list.Bufs) && cs == old(list.Contents)
    requires k < |ns| && fresh(node) && fresh(node.buf) && node.Valid()
    requires node.prev == ns[k] && node.next == old(ns[k].next)
    requires list.Nodes == Within(ns, k + 1, node) && list.Bufs == Within(bs, k + 1, node.buf)
    requires list.Contents == Within(cs, k + 1, node.Text)
    requires list.head == old(list.head)
    requires list.tail == if old(ns[k].next) == null then node else old(list.tail)
    requires forall i :: 0 <= i < |ns| ==>
               ns[i].prev == (if ns[i] == old(ns[k].next) then node else old(ns[i].prev))
    requires forall i :: 0 <= i < |ns| ==>
               ns[i].next == (if ns[i] == ns[k] then node else old(ns[i].next))
    requires forall i :: 0 <= i < |ns| ==> Kept(ns[i])
    requires forall i :: 0 <= i < |bs| ==> unchanged(bs[i])
    ensures list.Valid()
  {
    assert Chained(list.Nodes) by {
      InsertedBackward(ns, k, node);
      InsertedForward(ns, k, node);
    }
    assert Holds(list.Nodes, list.Bufs, list.Contents) by {
      InsertedHolds(ns, bs, cs, k, node);
    }
    assert Distinct(list.Nodes) && Distinct(list.Bufs) by {
      DistinctInsert(ns, k + 1, node);
      DistinctInsert(bs, k + 1, node.buf);
    }
    assert Ends(list.Nodes, list.head, list.tail) by {
      assert old(ns[k].next) == (if k + 1 < |ns| then ns[k + 1] else null);
    }
  }

  /** A new valid node put in after position k leaves every node holding its text. */
  twostate lemma InsertedHolds(ns: seq<Cmd>, new bs: seq<array<char>>, new cs: seq<seq<char>>, new k: nat, new node: Cmd)
    requires old(allocated(bs)) && old(Holds(ns, bs, cs)) && k < |ns| && node.Valid()
    requires forall i :: 0 <= i < |ns| ==> Kept(ns[i])
    requires forall i :: 0 <= i < |bs| ==> unchanged(bs[i])
    ensures Holds(Within(ns, k + 1, node), Within(bs, k + 1, node.buf), Within(cs, k + 1, node.Text))
  {
    HoldsStill(ns, bs, cs);
    HoldsInsert(ns, bs, cs, k + 1, node);
  }

  /** The state cmdlist_remove leaves behind satisfies the list invariant. */
  twostate lemma RemovedValid(list: CmdList, new ns: seq<Cmd>, new bs: seq<array<char>>, new cs: seq<seq<char>>, new k: nat)
    requires old(list.Valid()) && ns == old(list.Nodes) && bs == old(list.Bufs) && cs == old(list.Contents)
    requires k < |ns|
    requires list.Nodes == Without(ns, k) && list.Bufs == Without(bs, k) && list.Contents == Without(cs, k)
    requires list.head == if old(ns[k].prev) == null then old(ns[k].next) else old(list.head)
    requires list.tail == if old(ns[k].next) == null then old(ns[k].prev) else old(list.tail)
    requires forall i :: 0 <= i < |ns| ==>
               ns[i].prev == (if ns[i] == old(ns[k].next) then old(ns[k].prev) else old(ns[i].prev))
    requires forall i :: 0 <= i < |ns| ==>
               ns[i].next == (if ns[i] == old(ns[k].prev) then old(ns[k].next) else old(ns[i].next))
    requires forall i :: 0 <= i < |ns| ==> Kept(ns[i])
    requires forall i :: 0 <= i < |bs| ==> unchanged(bs[i])
    ensures list.Valid()
  {
    assert Chained(list.Nodes) by {
      RemovedBackward(ns, k);
      RemovedForward(ns, k);
    }
    assert Holds(list.Nodes, list.Bufs, list.Contents) by {
      HoldsStill(ns, bs, cs);
      HoldsRemove(ns, bs, cs, k);
    }
    assert Distinct(list.Nodes) && Distinct(list.Bufs) by {
      DistinctRemove(ns, k);
      DistinctRemove(bs, k);
    }
    assert Ends(list.Nodes, list.head, list.tail) by {
      assert old(ns[k].prev) == (if k == 0 then null else ns[k - 1]);
      assert old(ns[k].next) == (if k + 1 == |ns| then null else ns[k + 1]);
    }
  }

  /** The state cmdlist_append leaves behind satisfies the list invariant. */
  twostate lemma AppendedValid(list: CmdList, new ns: seq<Cmd>, new bs: seq<array<char>>, new cs: seq<seq<char>>, new node: Cmd)
    requires old(list.Valid()) && ns == old(list.Nodes) && bs == old(list.Bufs) && cs == old(list.Contents)
    requires fresh(node.buf) && node.Valid()
    requires list.Nodes == ns + [node] && list.Bufs == bs + [node.buf] && list.Contents == cs + [node.Text]
    requires node.prev == (if ns == [] then null else ns[|ns| - 1]) && node.next == null
    requires list.head == (if ns == [] then node else old(list.head)) && list.tail == node
    requires forall i :: 0 <= i < |ns| ==> ns[i].prev == old(ns[i].prev)
    requires forall i :: 0 <= i < |ns| ==>
               ns[i].next == (if ns[i] == ns[|ns| - 1] then node else old(ns[i].next))
    requires forall i :: 0 <= i < |ns| ==> Kept(ns[i])
    requires forall i :: 0 <= i < |bs| ==> unchanged(bs[i])
    ensures list.Valid()
  {
    assert Chained(list.Nodes) by {
      AppendedBackward(ns, node);
      AppendedForward(ns, node);
    }
    assert Holds(list.Nodes, list.Bufs, list.Contents) by {
      HoldsStill(ns, bs, cs);
      HoldsSnoc(ns, bs, cs, node);
    }
    assert Distinct(list.Nodes) && Distinct(list.Bufs) by {
      assert ns + [node] == Within(ns, |ns|, node);
      assert bs + [node.buf] == Within(bs, |bs|, node.buf);
      DistinctInsert(ns, |ns|, node);
      DistinctInsert(bs, |bs|, node.buf);
    }
  }

  class CmdList {
    var head: Cmd?
    var tail: Cmd?
    /** The nodes from head to tail, their buffers and their texts. */
    ghost var Nodes: seq<Cmd>
    ghost var Bufs: seq<array<char>>
    ghost var Contents: seq<seq<char>>

    /** The list invariant: no node or buffer is shared, head and tail are the
        ends, the links chain the nodes in order, and every node's buffer is
        valid and holds the corresponding text. */
    ghost predicate Valid()
      reads this, NodeSet(Nodes), BufSet(Bufs)
    {
      && Distinct(Nodes) && Distinct(Bufs)
      && Ends(Nodes, head, tail)
      && Chained(Nodes)
      && Holds(Nodes, Bufs, Contents)
    }

    /** cmdlist_create: an empty list. */
    constructor ()
      ensures Valid() && Nodes == [] && Contents == []
    {
      head, tail := null, null;
      Nodes, Bufs, Contents := [], [], [];
    }

    /** cmdlist_append: a new line after the tail. */
    method Append(text: Option<seq<char>>)
      requires Valid()
      modifies this, NodeSet(Nodes)`next
      ensures Valid()
      ensures |Nodes| == |old(Nodes)| + 1 && Nodes[..|old(Nodes)|] == old(Nodes)
      ensures |Bufs| == |old(Bufs)| + 1 && Bufs[..|old(Bufs)|] == old(Bufs)
      ensures fresh(Nodes[|old(Nodes)|]) && fresh(Bufs[|old(Bufs)|])
      ensures Contents == old(Contents) + [CString(text)]
    {
      ghost var ns, bs, cs := Nodes, Bufs, Contents;
      var node := Link(this, text, ns, bs, cs);
      AppendedValid(this, ns, bs, cs, node);
    }

    /** The pointer updates of cmdlist_append: the new node becomes the tail, and
        the head too when the list was empty. */
    static method Link(list: CmdList, text: Option<seq<char>>,
                       ghost ns: seq<Cmd>, ghost bs: seq<array<char>>, ghost cs: seq<seq<char>>)
      returns (node: Cmd)
      requires Ends(ns, list.head, list.tail)
      modifies list`head, list`tail, list`Nodes, list`Bufs, list`Contents, {list.tail}`next
      ensures fresh(node) && fresh(node.buf) && node.Valid() && node.Text == CString(text)
      ensures list.Nodes == ns + [node] && list.Bufs == bs + [node.buf] && list.Contents == cs + [node.Text]
      ensures node.prev == (if ns == [] then null else ns[|ns| - 1]) && node.next == null
      ensures list.head == (if ns == [] then node else old(list.head)) && list.tail == node
      ensures forall i :: 0 <= i < |ns| ==> ns[i].prev == old(ns[i].prev)
      ensures forall i :: 0 <= i < |ns| ==>
                ns[i].next == (if ns[i] == ns[|ns| - 1] then node else old(ns[i].next))
      ensures forall i :: 0 <= i < |ns| ==> Kept(ns[i])
      ensures forall i :: 0 <= i < |bs| ==> unchanged(bs[i])
    {
      node := new Cmd(text);
      if list.head == null {
        list.head, list.tail := node, node;
      } else {
        list.tail.next := node;
        node.prev := list.tail;
        list.tail := node;
      }
      list.Nodes, list.Bufs, list.Contents := ns + [node], bs + [node.buf], cs + [node.Text];
    }

    /** cmdlist_insert_after: with a list and an anchor, a new line right after the
        anchor (the tail moves when the anchor was the tail) is returned; with a NULL
        list or anchor, NULL is returned and nothing changes. */
    static method InsertAfter(list: CmdList?, after: Cmd?, text: Option<seq<char>>) returns (r: Cmd?)
      requires list != null ==> list.Valid() && (after != null ==> after in list.Nodes)
      modifies list, ListNodes(list)`prev, ListNodes(list)`next
      ensures list == null || after == null ==> r == null
      ensures list != null ==> list.Valid()
      ensures list != null && after == null ==>
                list.Nodes == old(list.Nodes) && list.Bufs == old(list.Bufs) && list.Contents == old(list.Contents)
      ensures list != null && after != null ==>
                var k := IndexOf(old(list.Nodes), after);
                && r != null && fresh(r) && fresh(r.buf)
                && list.Nodes == Within<Cmd>(old(list.Nodes), k + 1, r)
                && list.Bufs == Within(old(list.Bufs), k + 1, r.buf)
                && list.Contents == Within(old(list.Contents), k + 1, CString(text))
    {
      if list == null || after == null {
        return null;
      }
      ghost var ns, bs, cs := list.Nodes, list.Bufs, list.Contents;
      ghost var k := IndexOf(ns, after);
      var newline := Splice(list, after, text, ns, bs, cs, k);
      InsertedValid(list, ns, bs, cs, k, newline);
      r := newline;
    }

    /** cmdlist_remove: the node is unlinked, its neighbours (or head and tail)
        repaired; a NULL list or node is ignored. */
    static method Remove(list: CmdList?, node: Cmd?)
      requires list != null ==> list.Valid() && (node != null ==> node in list.Nodes)
      modifies list, ListNodes(list)`prev, ListNodes(list)`next
      ensures list != null ==> list.Valid()
      ensures list != null && node == null ==>
                list.Nodes == old(list.Nodes) && list.Bufs == old(list.Bufs) && list.Contents == old(list.Contents)
      ensures list != null && node != null ==>
                var k := IndexOf(old(list.Nodes), node);
                && list.Nodes == Without(old(list.Nodes), k)
                && list.Bufs == Without(old(list.Bufs), k)
                && list.Contents == Without(old(list.Contents), k)
    {
      if list == null || node == null {
        return;
      }
      ghost var ns, bs, cs := list.Nodes, list.Bufs, list.Contents;
      ghost var k := IndexOf(ns, node);
      Unlink(list, node, ns, bs, cs, k);
      RemovedValid(list, ns, bs, cs, k);
    }

    /** The allocation and pointer updates of cmdlist_insert_after: the new node
        goes between the anchor at position k of `ns` and its successor, or becomes
        the tail. */
    static method Splice(list: CmdList, after: Cmd, text: Option<seq<char>>,
                         ghost ns: seq<Cmd>, ghost bs: seq<array<char>>, ghost cs: seq<seq<char>>, ghost k: nat)
      returns (newline: Cmd)
      requires k < |ns| && ns[k] == after && k < |bs| && k < |cs|
      modifies list`tail, list`Nodes, list`Bufs, list`Contents, after`next, {after.next}`prev
      ensures fresh(newline) && fresh(newline.buf) && newline.Valid() && newline.Text == CString(text)
      ensures list.Nodes == Within(ns, k + 1, newline) && list.Bufs == Within(bs, k + 1, newline.buf)
      ensures list.Contents == Within(cs, k + 1, newline.Text)
      ensures newline.prev == ns[k] && newline.next == old(ns[k].next)
      ensures list.head == old(list.head)
      ensures list.tail == if old(ns[k].next) == null then newline else old(list.tail)
      ensures forall i :: 0 <= i < |ns| ==>
                ns[i].prev == (if ns[i] == old(ns[k].next) then newline else old(ns[i].prev))
      ensures forall i :: 0 <= i < |ns| ==>
                ns[i].next == (if ns[i] == ns[k] then newline else old(ns[i].next))
      ensures forall i :: 0 <= i < |ns| ==> Kept(ns[i])
      ensures forall i :: 0 <= i < |bs| ==> unchanged(bs[i])
    {
      newline := new Cmd(text);
      var succ := after.next;
      newline.prev := after;
      newline.next := succ;
      if succ != null {
        succ.prev := newline;
      } else {
        list.tail := newline;
      }
      after.next := newline;
      list.Nodes, list.Bufs, list.Contents := Within(ns, k + 1, newline), Within(bs, k + 1, newline.buf), Within(cs, k + 1, newline.Text);
    }

    /** The pointer updates of cmdlist_remove: the node's neighbours (or head and
        tail) point past it. */
    static method Unlink(list: CmdList, node: Cmd,
                         ghost ns: seq<Cmd>, ghost bs: seq<array<char>>, ghost cs: seq<seq<char>>, ghost k: nat)
      requires k < |ns| && ns[k] == node && k < |bs| && k < |cs|
      modifies list`head, list`tail, list`Nodes, list`Bufs, list`Contents, {node.prev}`next, {node.next}`prev
      ensures list.Nodes == Without(ns, k) && list.Bufs == Without(bs, k) && list.Contents == Without(cs, k)
      ensures forall i :: 0 <= i < |ns| ==>
                ns[i].prev == (if ns[i] == old(ns[k].next) then old(ns[k].prev) else old(ns[i].prev))
      ensures forall i :: 0 <= i < |ns| ==>
                ns[i].next == (if ns[i] == old(ns[k].prev) then old(ns[k].next) else old(ns[i].next))
      ensures forall i :: 0 <= i < |ns| ==> Kept(ns[i])
      ensures forall i :: 0 <= i < |bs| ==> unchanged(bs[i])
      ensures list.head == if old(ns[k].prev) == null then old(ns[k].next) else old(list.head)
      ensures list.tail == if old(ns[k].next) == null then old(ns[k].prev) else old(list.tail)
    {
      if node.prev != null {
        node.prev.next := node.next;
      } else {
        list.head := node.next;
      }
      if node.next != null {
        node.next.prev := node.prev;
      } else {
        list.tail := node.prev;
      }
      list.Nodes, list.Bufs, list.Contents := Without(ns, k), Without(bs, k), Without(cs, k);
    }

    /** cmdlist_traverse: the callback runs on every node once, from head to tail;
        a callback is modelled by the bytes it writes for a line's text. */
    static method Traverse(list: CmdList?, cb: seq<char> -> seq<char>) returns (visited: seq<Cmd>, out: seq<char>)
      requires list != null ==> list.Valid()
      ensures list == null ==> visited == [] && out == []
      ensures list != null ==> visited == list.Nodes && out == ConcatMap(cb, list.Contents)
    {
      visited, out := [], [];
      if list == null {
        return;
      }
      var cur := list.head;
      while cur != null
        invariant |visited| <= |list.Nodes|
        invariant visited == list.Nodes[..|visited|]
        invariant cur == if |visited| == |list.Nodes| then null else list.Nodes[|visited|]
        invariant out == ConcatMap(cb, list.Contents[..|visited|])
        decreases |list.Nodes| - |visited|
      {
        ghost var i := |visited|;
        assert Owns(list.Nodes[i], list.Bufs[i], list.Contents[i]);
        assert cur.buf[..cur.len] == list.Contents[i];
        out := out + cb(cur.buf[..cur.len]);
        visited := visited + [cur];
        ConcatMapSnoc(cb, list.Contents[..i], list.Contents[i]);
        assert list.Contents[..i + 1] == list.Contents[..i] + [list.Contents[i]];
        cur := cur.next;
      }
      assert list.Contents[..|visited|] == list.Contents;
    }

    /** cmdlist_print: every command followed by a newline, in list order; when no
        command holds a newline, splitting the output at newlines gives the
        commands back. */
    static method Print(list: CmdList?) returns (out: seq<char>)
      requires list != null ==> list.Valid()
      ensures list == null ==> out == []
      ensures list != null ==> out == Export(list.Contents)
      ensures list != null && (forall i :: 0 <= i < |list.Contents| ==> NoNewline(list.Contents[i])) ==>
                SplitLines(out) == list.Contents
    {
      var _, o := Traverse(list, PrintLine);
      out := o;
      if list != null && forall i :: 0 <= i < |list.Contents| ==> NoNewline(list.Contents[i]) {
        SplitExport(list.Contents);
      }
    }
  }
}
