/** ice.c's private doubly-linked line list (its Line and LineList structs and the
    functions on them), together with the in-place buffer edits that handle_events
    performs on one line. A line's buffer is an array whose length is the line's
    capacity; the text is the first `len` bytes and a NUL follows it. */
module IceList {
  import opened Support
  import opened Text
  import opened Memory
  import EditModel

  class Line {
    var cap: nat
    var len: nat
    var buf: array<char>
    var prev: Line?
    var next: Line?
    /** The text the buffer holds. */
    ghost var Text: seq<char>

    /** The buffer invariant: room for the text and its terminator, the terminator
        in place, and no NUL inside the text. */
    ghost predicate Valid()
      reads this`cap, this`len, this`buf, this`Text, buf
    {
      && cap == buf.Length
      && len < cap
      && buf[len] == Nul
      && |Text| == len
      && (forall i :: 0 <= i < len ==> buf[i] == Text[i])
      && NoNul(Text)
    }

    /** line_create: the text is copied, the capacity is the length plus 16, and
        the node is not linked. */
    constructor (text: Option<seq<char>>)
      ensures Valid() && Text == CString(text)
      ensures cap == len + 16
      ensures prev == null && next == null
      ensures fresh(buf)
    {
      var n := if text.Some? then StrLen(text.value) else 0;
      var b := new char[n + 16];
      if text.Some? {
        forall i | 0 <= i < n {
          b[i] := text.value[i];
        }
      }
      b[n] := Nul;
      len, cap, buf := n, n + 16, b;
      prev, next := null, null;
      Text := CString(text);
    }

    /** A printable character typed at `at` (the default branch of handle_events):
        the buffer is doubled when it is full, the suffix and terminator move right
        by one, and the character is written. */
    method InsertChar(at: nat, c: char)
      requires Valid() && at <= len && c != Nul
      modifies this`cap, this`len, this`buf, this`Text, buf
      ensures Valid() && Text == old(Text[..at]) + [c] + old(Text[at..])
      ensures cap == if old(len) + 1 == old(cap) then (old(len) + 1) * 2 else old(cap)
      ensures buf == old(buf) || fresh(buf)
    {
      if len + 1 == cap {
        cap := (len + 1) * 2;
        buf := Realloc(buf, cap);
      }
      ghost var t := Text;
      MemMove(buf, at + 1, at, len - at + 1);
      buf[at] := c;
      len := len + 1;
      Text := t[..at] + [c] + t[at..];
      forall i | 0 <= i < len ensures buf[i] == Text[i] {
        if i > at {
          assert Text[i] == t[i - 1];
        }
      }
    }

    /** Tab: the buffer grows when TAB_WIDTH more bytes would not leave room for
        the terminator, the suffix moves right and TAB_WIDTH spaces fill the gap. */
    method InsertTab(at: nat)
      requires Valid() && at <= len
      modifies this`cap, this`len, this`buf, this`Text, buf
      ensures Valid()
      ensures Text == old(Text[..at]) + EditModel.Spaces(EditModel.TAB_WIDTH) + old(Text[at..])
      ensures cap == if old(len) + EditModel.TAB_WIDTH >= old(cap)
                     then (old(len) + EditModel.TAB_WIDTH) * 2 else old(cap)
      ensures buf == old(buf) || fresh(buf)
    {
      var w := EditModel.TAB_WIDTH;
      if len + w >= cap {
        cap := (len + w) * 2;
        buf := Realloc(buf, cap);
      }
      ghost var t := Text;
      MemMove(buf, at + w, at, len - at + 1);
      MemSet(buf, at, ' ', w);
      len := len + w;
      Text := t[..at] + EditModel.Spaces(w) + t[at..];
      forall i | 0 <= i < len ensures buf[i] == Text[i] && Text[i] != Nul {
        if i >= at + w {
          assert Text[i] == t[i - w];
        }
      }
    }

    /** Backspace and Ctrl+W inside a line: one memmove brings the suffix and the
        terminator down from `to` to `from`. */
    method Cut(from: nat, to: nat)
      requires Valid() && from <= to <= len
      modifies this`cap, this`len, this`buf, this`Text, buf
      ensures Valid() && Text == old(Text[..from]) + old(Text[to..])
      ensures cap == old(cap) && buf == old(buf)
    {
      ghost var t := Text;
      MemMove(buf, from, to, len - to + 1);
      len := len - (to - from);
      Text := t[..from] + t[to..];
      forall i | 0 <= i < len ensures buf[i] == Text[i] && Text[i] != Nul {
        if i >= from {
          assert Text[i] == t[i - from + to];
        }
      }
    }

    /** The merge at the start of a line: the previous line (this) grows when the
        joined text and its terminator would not fit, then the other line's text is
        appended as strcat does. */
    method Append(other: Line)
      requires Valid() && other.Valid() && other.buf != buf
      modifies this`cap, this`len, this`buf, this`Text, buf
      ensures Valid() && Text == old(Text) + other.Text
      ensures cap == if old(len) + other.len + 1 >= old(cap)
                     then (old(len) + other.len + 1) * 2 else old(cap)
      ensures buf == old(buf) || fresh(buf)
    {
      var newlen := len + other.len;
      if newlen + 1 >= cap {
        cap := (newlen + 1) * 2;
        buf := Realloc(buf, cap);
      }
      ghost var t := Text;
      forall i | 0 <= i <= other.len {
        buf[len + i] := other.buf[i];
      }
      len := newlen;
      Text := t + other.Text;
      forall i | 0 <= i < len ensures buf[i] == Text[i] && Text[i] != Nul {
        if i >= |t| {
          assert Text[i] == other.Text[i - |t|];
        }
      }
    }

    /** Enter on the current line: the terminator is written at the cursor. */
    method Truncate(at: nat)
      requires Valid() && at <= len
      modifies this`cap, this`len, this`buf, this`Text, buf
      ensures Valid() && Text == old(Text[..at])
      ensures cap == old(cap) && buf == old(buf)
    {
      buf[at] := Nul;
      len := at;
      Text := Text[..at];
    }

    /** One word scan to the left from `from` (Ctrl+W and Ctrl+Left): back over
        spaces, then back over non-spaces. */
    method ScanWordLeft(from: nat) returns (pos: nat)
      requires Valid() && from <= len
      ensures pos == EditModel.WordLeft(Text, from)
    {
      ghost var s := Text;
      pos := from;
      while pos > 0 && buf[pos - 1] == ' '
        invariant pos <= from
        invariant EditModel.SkipSpacesLeft(s, pos) == EditModel.SkipSpacesLeft(s, from)
      {
        pos := pos - 1;
      }
      ghost var mid := pos;
      while pos > 0 && buf[pos - 1] != ' '
        invariant pos <= mid
        invariant EditModel.SkipWordLeft(s, pos) == EditModel.SkipWordLeft(s, mid)
      {
        pos := pos - 1;
      }
    }

    /** One word scan to the right from `from` (Ctrl+Right): over non-spaces, then
        over spaces, never past the text. */
    method ScanWordRight(from: nat) returns (pos: nat)
      requires Valid() && from <= len
      ensures pos == EditModel.WordRight(Text, from)
    {
      ghost var s := Text;
      pos := from;
      while pos < len && buf[pos] != ' '
        invariant from <= pos <= len
        invariant EditModel.SkipWordRight(s, pos) == EditModel.SkipWordRight(s, from)
      {
        pos := pos + 1;
      }
      ghost var mid := pos;
      while pos < len && buf[pos] == ' '
        invariant mid <= pos <= len
        invariant EditModel.SkipSpacesRight(s, pos) == EditModel.SkipSpacesRight(s, mid)
      {
        pos := pos + 1;
      }
    }
  }

  /** The nodes of a sequence as a set, for frames. */
  ghost function NodeSet(ns: seq<Line>): set<Line> {
    set n | n in ns
  }

  /** The buffers of a sequence as a set, for frames. */
  ghost function BufSet(bs: seq<array<char>>): set<array<char>> {
    set b | b in bs
  }

  /** The nodes of a list, or none for a NULL list. */
  ghost function ListNodes(list: LineList?): set<Line>
    reads list
  {
    if list == null then {} else NodeSet(list.Nodes)
  }

  /** head and tail are the first and the last node, both NULL for no nodes. */
  ghost predicate Ends(ns: seq<Line>, head: Line?, tail: Line?) {
    && head == (if ns == [] then null else ns[0])
    && tail == (if ns == [] then null else ns[|ns| - 1])
  }

  /** Every node's prev and next are its neighbours in `ns`, NULL at both ends. */
  ghost predicate Chained(ns: seq<Line>)
    reads NodeSet(ns)`prev, NodeSet(ns)`next
  {
    Backward(ns) && Forward(ns)
  }

  /** Every node's prev is the node before it, NULL for the first. */
  ghost predicate Backward(ns: seq<Line>)
    reads NodeSet(ns)`prev
  {
    forall i {:trigger ns[i].prev} :: 0 <= i < |ns| ==> ns[i].prev == (if i == 0 then null else ns[i - 1])
  }

  /** Every node's next is the node after it, NULL for the last. */
  ghost predicate Forward(ns: seq<Line>)
    reads NodeSet(ns)`next
  {
    forall i {:trigger ns[i].next} :: 0 <= i < |ns| ==> ns[i].next == (if i == |ns| - 1 then null else ns[i + 1])
  }

  /** Every node owns the buffer at its position in `bs`; the buffer is valid and
      holds the text at that position of `cs`. */
  ghost predicate Holds(ns: seq<Line>, bs: seq<array<char>>, cs: seq<seq<char>>)
    reads NodeSet(ns)`cap, NodeSet(ns)`len, NodeSet(ns)`buf, NodeSet(ns)`Text, BufSet(bs)
  {
    && |bs| == |ns| && |cs| == |ns|
    && forall i {:trigger Owns(ns[i], bs[i], cs[i])} :: 0 <= i < |ns| ==> Owns(ns[i], bs[i], cs[i])
  }

  /** The node owns the buffer, which is valid and holds the text. */
  ghost predicate Owns(n: Line, b: array<char>, c: seq<char>)
    reads n`cap, n`len, n`buf, n`Text, b
  {
    n.buf == b && n.Valid() && n.Text == c
  }

  /** The buffer fields and the text of a node are as they were. */
  twostate predicate Kept(n: Line)
    reads n
  {
    n.cap == old(n.cap) && n.len == old(n.len) && n.buf == old(n.buf) && n.Text == old(n.Text)
  }

  /** Nodes whose buffer fields, texts and buffers are untouched still hold their
      texts, whatever happened to their links. */
  twostate lemma HoldsStill(ns: seq<Line>, new bs: seq<array<char>>, new cs: seq<seq<char>>)
    requires old(allocated(bs)) && old(Holds(ns, bs, cs))
    requires forall i :: 0 <= i < |ns| ==> Kept(ns[i])
    requires forall i :: 0 <= i < |bs| ==> unchanged(bs[i])
    ensures Holds(ns, bs, cs)
  {
    forall i | 0 <= i < |ns|
      ensures Owns(ns[i], bs[i], cs[i])
    {
      assert old(Owns(ns[i], bs[i], cs[i]));
    }
  }

  /** A valid node added at the end keeps every node holding its text. */
  lemma HoldsSnoc(ns: seq<Line>, bs: seq<array<char>>, cs: seq<seq<char>>, n: Line)
    requires Holds(ns, bs, cs) && n.Valid()
    ensures Holds(ns + [n], bs + [n.buf], cs + [n.Text])
  {
    var ns', bs', cs' := ns + [n], bs + [n.buf], cs + [n.Text];
    forall i | 0 <= i < |ns'|
      ensures Owns(ns'[i], bs'[i], cs'[i])
    {
      if i < |ns| {
        assert ns'[i] == ns[i] && bs'[i] == bs[i] && cs'[i] == cs[i];
      }
    }
  }

  /** A valid node put in at position k keeps every node holding its text. */
  lemma HoldsInsert(ns: seq<Line>, bs: seq<array<char>>, cs: seq<seq<char>>, k: nat, n: Line)
    requires Holds(ns, bs, cs) && k <= |ns| && n.Valid()
    ensures Holds(Within(ns, k, n), Within(bs, k, n.buf), Within(cs, k, n.Text))
  {
    var ns', bs', cs' := ns[..k] + [n] + ns[k..], bs[..k] + [n.buf] + bs[k..], cs[..k] + [n.Text] + cs[k..];
    forall i | 0 <= i < |ns'|
      ensures Owns(ns'[i], bs'[i], cs'[i])
    {
      if i != k {
        var j := if i < k then i else i - 1;
        assert ns'[i] == ns[j] && bs'[i] == bs[j] && cs'[i] == cs[j];
      }
    }
  }

  /** Taking out the node at position k keeps every other node holding its text. */
  lemma HoldsRemove(ns: seq<Line>, bs: seq<array<char>>, cs: seq<seq<char>>, k: nat)
    requires Holds(ns, bs, cs) && k < |ns|
    ensures Holds(Without(ns, k), Without(bs, k), Without(cs, k))
  {
    var ns', bs', cs' := ns[..k] + ns[k + 1..], bs[..k] + bs[k + 1..], cs[..k] + cs[k + 1..];
    forall i | 0 <= i < |ns'|
      ensures Owns(ns'[i], bs'[i], cs'[i])
    {
      var j := if i < k then i else i + 1;
      assert ns'[i] == ns[j] && bs'[i] == bs[j] && cs'[i] == cs[j];
    }
  }

  /** linelist_append's link update of prev: the new node's prev is the old tail,
      no other prev changes. */
  twostate lemma AppendedBackward(ns: seq<Line>, new node: Line)
    requires old(Backward(ns))
    requires node.prev == (if ns == [] then null else ns[|ns| - 1])
    requires forall i :: 0 <= i < |ns| ==> ns[i].prev == old(ns[i].prev)
    ensures Backward(ns + [node])
  {
    var ns' := ns + [node];
    forall i | 0 <= i < |ns'|
      ensures ns'[i].prev == (if i == 0 then null else ns'[i - 1])
    {
      if i < |ns| {
        assert ns'[i] == ns[i];
        if 0 < i {
          assert ns'[i - 1] == ns[i - 1];
        }
      }
    }
  }

  /** linelist_append's link update of next: the old tail's next is the new node,
      whose next is NULL. */
  twostate lemma AppendedForward(ns: seq<Line>, new node: Line)
    requires Distinct(ns) && old(Forward(ns)) && node.next == null
    requires forall i :: 0 <= i < |ns| ==>
               ns[i].next == (if ns[i] == ns[|ns| - 1] then node else old(ns[i].next))
    ensures Forward(ns + [node])
  {
    var ns' := ns + [node];
    forall i | 0 <= i < |ns'|
      ensures ns'[i].next == (if i == |ns'| - 1 then null else ns'[i + 1])
    {
      if i + 1 < |ns| {
        assert ns'[i] == ns[i] && ns'[i + 1] == ns[i + 1];
        DistinctAt(ns, i, |ns| - 1);
      } else if i + 1 == |ns| {
        assert ns'[i] == ns[i];
      }
    }
  }

  /** linelist_insert_after's link update of prev: the new node's prev is the
      anchor at position k and the anchor's old successor's prev is the new node. */
  twostate lemma InsertedBackward(ns: seq<Line>, new k: nat, new node: Line)
    requires k < |ns| && Distinct(ns) && old(Backward(ns)) && old(Forward(ns))
    requires node.prev == ns[k]
    requires forall i :: 0 <= i < |ns| ==>
               ns[i].prev == (if ns[i] == old(ns[k].next) then node else old(ns[i].prev))
    ensures Backward(Within(ns, k + 1, node))
  {
    forall i | 0 <= i < |ns| && i != k + 1
      ensures ns[i].prev == (if i == 0 then null else ns[i - 1])
    {
      if k + 1 < |ns| {
        DistinctAt(ns, i, k + 1);
      }
    }
    if k + 1 < |ns| {
      assert old(ns[k].next) == ns[k + 1];
    }
    BackwardInsert(ns, k, node);
  }

  /** Links that are those of `ns` except that a node sits between positions k
      and k + 1 chain `ns` with the node inserted there (prev side). */
  lemma BackwardInsert(ns: seq<Line>, k: nat, node: Line)
    requires k < |ns| && node.prev == ns[k]
    requires forall i {:trigger ns[i].prev} :: 0 <= i < |ns| && i != k + 1 ==>
               ns[i].prev == (if i == 0 then null else ns[i - 1])
    requires k + 1 < |ns| ==> ns[k + 1].prev == node
    ensures Backward(Within(ns, k + 1, node))
  {
    var ns' := Within(ns, k + 1, node);
    forall i | 0 <= i < |ns'|
      ensures ns'[i].prev == (if i == 0 then null else ns'[i - 1])
    {
      if i <= k {
        assert ns'[i] == ns[i];
        if 0 < i {
          assert ns'[i - 1] == ns[i - 1];
        }
      } else if i == k + 1 {
        assert ns'[i - 1] == ns[k];
      } else if i == k + 2 {
        assert ns'[i] == ns[k + 1] && ns'[i - 1] == node;
      } else {
        assert ns'[i] == ns[i - 1] && ns'[i - 1] == ns[i - 2];
      }
    }
  }

  /** linelist_insert_after's link update of next: the anchor's next is the new
      node, whose next is the anchor's old successor. */
  twostate lemma InsertedForward(ns: seq<Line>, new k: nat, new node: Line)
    requires k < |ns| && Distinct(ns) && old(Forward(ns))
    requires node.next == old(ns[k].next)
    requires forall i :: 0 <= i < |ns| ==>
               ns[i].next == (if ns[i] == ns[k] then node else old(ns[i].next))
    ensures Forward(Within(ns, k + 1, node))
  {
    forall i | 0 <= i < |ns| && i != k
      ensures ns[i].next == (if i == |ns| - 1 then null else ns[i + 1])
    {
      DistinctAt(ns, i, k);
    }
    ForwardInsert(ns, k, node);
  }

  /** Links that are those of `ns` except that a node sits between positions k
      and k + 1 chain `ns` with the node inserted there (next side). */
  lemma ForwardInsert(ns: seq<Line>, k: nat, node: Line)
    requires k < |ns| && ns[k].next == node
    requires forall i {:trigger ns[i].next} :: 0 <= i < |ns| && i != k ==>
               ns[i].next == (if i == |ns| - 1 then null else ns[i + 1])
    requires node.next == (if k + 1 < |ns| then ns[k + 1] else null)
    ensures Forward(Within(ns, k + 1, node))
  {
    var ns' := Within(ns, k + 1, node);
    forall i | 0 <= i < |ns'|
      ensures ns'[i].next == (if i == |ns'| - 1 then null else ns'[i + 1])
    {
      if i < k {
        assert ns'[i] == ns[i] && ns'[i + 1] == ns[i + 1];
      } else if i == k {
        assert ns'[i] == ns[k] && ns'[i + 1] == node;
      } else if i == k + 1 {
        if k + 1 < |ns| {
          assert ns'[i + 1] == ns[k + 1];
        }
      } else {
        assert ns'[i] == ns[i - 1];
        if i + 1 < |ns'| {
          assert ns'[i + 1] == ns[i];
        }
      }
    }
  }

  /** linelist_remove's link update of prev: the successor of the node at
      position k takes over the node's prev. */
  twostate lemma RemovedBackward(ns: seq<Line>, new k: nat)
    requires k < |ns| && Distinct(ns) && old(Backward(ns)) && old(Forward(ns))
    requires forall i :: 0 <= i < |ns| ==>
               ns[i].prev == (if ns[i] == old(ns[k].next) then old(ns[k].prev) else old(ns[i].prev))
    ensures Backward(Without(ns, k))
  {
    forall i | 0 <= i < |ns| && i != k + 1 && i != k
      ensures ns[i].prev == (if i == 0 then null else ns[i - 1])
    {
      if k + 1 < |ns| {
        DistinctAt(ns, i, k + 1);
      }
    }
    if k + 1 < |ns| {
      assert old(ns[k].next) == ns[k + 1];
      assert ns[k + 1].prev == (if k == 0 then null else ns[k - 1]);
    }
    BackwardSkip(ns, k);
  }

  /** Links that are those of `ns` except that the node after position k skips
      it chain `ns` without position k (prev side). */
  lemma BackwardSkip(ns: seq<Line>, k: nat)
    requires k < |ns|
    requires forall i {:trigger ns[i].prev} :: 0 <= i < |ns| && i != k + 1 && i != k ==>
               ns[i].prev == (if i == 0 then null else ns[i - 1])
    requires k + 1 < |ns| ==> ns[k + 1].prev == (if k == 0 then null else ns[k - 1])
    ensures Backward(Without(ns, k))
  {
    var ns' := Without(ns, k);
    forall i | 0 <= i < |ns'|
      ensures ns'[i].prev == (if i == 0 then null else ns'[i - 1])
    {
      if i < k {
        assert ns'[i] == ns[i];
        if 0 < i {
          assert ns'[i - 1] == ns[i - 1];
        }
      } else if i == k {
        assert ns'[i] == ns[k + 1];
        if 0 < k {
          assert ns'[i - 1] == ns[k - 1];
        }
      } else {
        assert ns'[i] == ns[i + 1] && ns'[i - 1] == ns[i];
      }
    }
  }

  /** linelist_remove's link update of next: the predecessor of the node at
      position k takes over the node's next. */
  twostate lemma RemovedForward(ns: seq<Line>, new k: nat)
    requires k < |ns| && Distinct(ns) && old(Backward(ns)) && old(Forward(ns))
    requires forall i :: 0 <= i < |ns| ==>
               ns[i].next == (if ns[i] == old(ns[k].prev) then old(ns[k].next) else old(ns[i].next))
    ensures Forward(Without(ns, k))
  {
    forall i | 0 <= i < |ns| && i + 1 != k && i != k
      ensures ns[i].next == (if i == |ns| - 1 then null else ns[i + 1])
    {
      if 0 < k {
        DistinctAt(ns, i, k - 1);
      }
    }
    if 0 < k {
      assert old(ns[k].prev) == ns[k - 1];
      assert ns[k - 1].next == (if k + 1 < |ns| then ns[k + 1] else null);
    }
    ForwardSkip(ns, k);
  }

  /** Links that are those of `ns` except that the node before position k skips
      it chain `ns` without position k. */
  lemma ForwardSkip(ns: seq<Line>, k: nat)
    requires k < |ns|
    requires forall i {:trigger ns[i].next} :: 0 <= i < |ns| && i + 1 != k && i != k ==>
               ns[i].next == (if i == |ns| - 1 then null else ns[i + 1])
    requires 0 < k ==> ns[k - 1].next == (if k + 1 < |ns| then ns[k + 1] else null)
    ensures Forward(Without(ns, k))
  {
    var ns' := Without(ns, k);
    forall i | 0 <= i < |ns'|
      ensures ns'[i].next == (if i == |ns'| - 1 then null else ns'[i + 1])
    {
      if i + 1 < k {
        assert ns'[i] == ns[i] && ns'[i + 1] == ns[i + 1];
      } else if i + 1 == k {
        assert ns'[i] == ns[k - 1];
        if k + 1 < |ns| {
          assert ns'[i + 1] == ns[k + 1];
        }
      } else {
        assert ns'[i] == ns[i + 1];
        if i + 1 < |ns'| {
          assert ns'[i + 1] == ns[i + 2];
        }
      }
    }
  }

  /** The state linelist_insert_after leaves behind satisfies the list invariant. */
  twostate lemma InsertedValid(list: LineList, new ns: seq<Line>, new bs: seq<array<char>>, new cs: seq<seq<char>>,
                               new k: nat, new node: Line)
    requires old(list.Valid()) && ns == old(list.Nodes) && bs == old(list.Bufs) && cs == old(list.Contents)
    requires k < |ns| && fresh(node) && fresh(node.buf) && node.Valid()
    requires node.prev == ns[k] && node.next == old(ns[k].next)
    requires list.Nodes == Within(ns, k + 1, node) && list.Bufs == Within(bs, k + 1, node.buf)
    requires list.Contents == Within(cs, k + 1, node.Text)
    requires list.head == old(list.head)
    requires list.tail == if old(ns[k].next) == null then node else old(list.tail)
    requires forall i :: 0 <= i < |ns| ==>
               ns[i].prev == (if ns[i] == old(ns[k].next) then node else old(ns[i].prev))
    requires forall i :: 0 <= i < |ns| ==>
               ns[i].next == (if ns[i] == ns[k] then node else old(ns[i].next))
    requires forall i :: 0 <= i < |ns| ==> Kept(ns[i])
    requires forall i :: 0 <= i < |bs| ==> unchanged(bs[i])
    ensures list.Valid()
  {
    assert Chained(list.Nodes) by {
      InsertedBackward(ns, k, node);
      InsertedForward(ns, k, node);
    }
    assert Holds(list.Nodes, list.Bufs, list.Contents) by {
      InsertedHolds(ns, bs, cs, k, node);
    }
    assert Distinct(list.Nodes) && Distinct(list.Bufs) by {
      DistinctInsert(ns, k + 1, node);
      DistinctInsert(bs, k + 1, node.buf);
    }
    assert Ends(list.Nodes, list.head, list.tail) by {
      assert old(ns[k].next) == (if k + 1 < |ns| then ns[k + 1] else null);
    }
  }

  /** A new valid node put in after position k leaves every node holding its text. */
  twostate lemma InsertedHolds(ns: seq<Line>, new bs: seq<array<char>>, new cs: seq<seq<char>>, new k: nat, new node: Line)
    requires old(allocated(bs)) && old(Holds(ns, bs, cs)) && k < |ns| && node.Valid()
    requires forall i :: 0 <= i < |ns| ==> Kept(ns[i])
    requires forall i :: 0 <= i < |bs| ==> unchanged(bs[i])
    ensures Holds(Within(ns, k + 1, node), Within(bs, k + 1, node.buf), Within(cs, k + 1, node.Text))
  {
    HoldsStill(ns, bs, cs);
    HoldsInsert(ns, bs, cs, k + 1, node);
  }

  /** The state linelist_remove leaves behind satisfies the list invariant. */
  twostate lemma RemovedValid(list: LineList, new ns: seq<Line>, new bs: seq<array<char>>, new cs: seq<seq<char>>, new k: nat)
    requires old(list.Valid()) && ns == old(list.Nodes) && bs == old(list.Bufs) && cs == old(list.Contents)
    requires k < |ns|
    requires list.Nodes == Without(ns, k) && list.Bufs == Without(bs, k) && list.Contents == Without(cs, k)
    requires list.head == if old(ns[k].prev) == null then old(ns[k].next) else old(list.head)
    requires list.tail == if old(ns[k].next) == null then old(ns[k].prev) else old(list.tail)
    requires forall i :: 0 <= i < |ns| ==>
               ns[i].prev == (if ns[i] == old(ns[k].next) then old(ns[k].prev) else old(ns[i].prev))
    requires forall i :: 0 <= i < |ns| ==>
               ns[i].next == (if ns[i] == old(ns[k].prev) then old(ns[k].next) else old(ns[i].next))
    requires forall i :: 0 <= i < |ns| ==> Kept(ns[i])
    requires forall i :: 0 <= i < |bs| ==> unchanged(bs[i])
    ensures list.Valid()
  {
    assert Chained(list.Nodes) by {
      RemovedBackward(ns, k);
      RemovedForward(ns, k);
    }
    assert Holds(list.Nodes, list.Bufs, list.Contents) by {
      HoldsStill(ns, bs, cs);
      HoldsRemove(ns, bs, cs, k);
    }
    assert Distinct(list.Nodes) && Distinct(list.Bufs) by {
      DistinctRemove(ns, k);
      DistinctRemove(bs, k);
    }
    assert Ends(list.Nodes, list.head, list.tail) by {
      assert old(ns[k].prev) == (if k == 0 then null else ns[k - 1]);
      assert old(ns[k].next) == (if k + 1 == |ns| then null else ns[k + 1]);
    }
  }

  /** A node whose buffer was edited in place (and possibly moved to a fresh
      array by realloc) leaves the list invariant intact, with the node's new
      buffer and text recorded at its position. */
  twostate lemma EditedValid(list: LineList, new ns: seq<Line>, new bs: seq<array<char>>, new cs: seq<seq<char>>, new k: nat)
    requires old(list.Valid()) && ns == old(list.Nodes) && bs == old(list.Bufs) && cs == old(list.Contents)
    requires k < |ns| && ns[k].Valid() && (ns[k].buf == bs[k] || fresh(ns[k].buf))
    requires list.Nodes == ns && list.Bufs == bs[k := ns[k].buf] && list.Contents == cs[k := ns[k].Text]
    requires list.head == old(list.head) && list.tail == old(list.tail)
    requires forall i :: 0 <= i < |ns| ==> ns[i].prev == old(ns[i].prev) && ns[i].next == old(ns[i].next)
    requires forall i :: 0 <= i < |ns| && i != k ==> Kept(ns[i])
    requires forall i :: 0 <= i < |bs| && i != k ==> unchanged(bs[i])
    ensures list.Valid()
  {
    assert Chained(list.Nodes) by {
      assert old(Backward(ns)) && old(Forward(ns));
    }
    assert Holds(list.Nodes, list.Bufs, list.Contents) by {
      forall i | 0 <= i < |ns|
        ensures Owns(ns[i], list.Bufs[i], list.Contents[i])
      {
        if i != k {
          assert old(Owns(ns[i], bs[i], cs[i]));
          DistinctAt(ns, i, k);
        }
      }
    }
    assert Distinct(list.Bufs) by {
      if ns[k].buf != bs[k] {
        DistinctUpdate(bs, k, ns[k].buf);
      } else {
        assert bs[k := ns[k].buf] == bs;
      }
    }
  }

  /** The state linelist_append leaves behind satisfies the list invariant. */
  twostate lemma AppendedValid(list: LineList, new ns: seq<Line>, new bs: seq<array<char>>, new cs: seq<seq<char>>, new node: Line)
    requires old(list.Valid()) && ns == old(list.Nodes) && bs == old(list.Bufs) && cs == old(list.Contents)
    requires fresh(node.buf) && node.Valid()
    requires list.Nodes == ns + [node] && list.Bufs == bs + [node.buf] && list.Contents == cs + [node.Text]
    requires node.prev == (if ns == [] then null else ns[|ns| - 1]) && node.next == null
    requires list.head == (if ns == [] then node else old(list.head)) && list.tail == node
    requires forall i :: 0 <= i < |ns| ==> ns[i].prev == old(ns[i].prev)
    requires forall i :: 0 <= i < |ns| ==>
               ns[i].next == (if ns[i] == ns[|ns| - 1] then node else old(ns[i].next))
    requires forall i :: 0 <= i < |ns| ==> Kept(ns[i])
    requires forall i :: 0 <= i < |bs| ==> unchanged(bs[i])
    ensures list.Valid()
  {
    assert Chained(list.Nodes) by {
      AppendedBackward(ns, node);
      AppendedForward(ns, node);
    }
    assert Holds(list.Nodes, list.Bufs, list.Contents) by {
      HoldsStill(ns, bs, cs);
      HoldsSnoc(ns, bs, cs, node);
    }
    assert Distinct(list.Nodes) && Distinct(list.Bufs) by {
      assert ns + [node] == Within(ns, |ns|, node);
      assert bs + [node.buf] == Within(bs, |bs|, node.buf);
      DistinctInsert(ns, |ns|, node);
      DistinctInsert(bs, |bs|, node.buf);
    }
  }

  class LineList {
    var head: Line?
    var tail: Line?
    /** The nodes from head to tail, their buffers and their texts. */
    ghost var Nodes: seq<Line>
    ghost var Bufs: seq<array<char>>
    ghost var Contents: seq<seq<char>>

    /** The list invariant: no node or buffer is shared, head and tail are the
        ends, the links chain the nodes in order, and every node's buffer is
        valid and holds the corresponding text. */
    ghost predicate Valid()
      reads this, NodeSet(Nodes), BufSet(Bufs)
    {
      && Distinct(Nodes) && Distinct(Bufs)
      && Ends(Nodes, head, tail)
      && Chained(Nodes)
      && Holds(Nodes, Bufs, Contents)
    }

    /** linelist_create: an empty list. */
    constructor ()
      ensures Valid() && Nodes == [] && Contents == []
    {
      head, tail := null, null;
      Nodes, Bufs, Contents := [], [], [];
    }

    /** linelist_append: a new line after the tail. */
    method Append(text: Option<seq<char>>)
      requires Valid()
      modifies this, NodeSet(Nodes)`next
      ensures Valid()
      ensures |Nodes| == |old(Nodes)| + 1 && Nodes[..|old(Nodes)|] == old(Nodes)
      ensures |Bufs| == |old(Bufs)| + 1 && Bufs[..|old(Bufs)|] == old(Bufs)
      ensures fresh(Nodes[|old(Nodes)|]) && fresh(Bufs[|old(Bufs)|])
      ensures Contents == old(Contents) + [CString(text)]
    {
      ghost var ns, bs, cs := Nodes, Bufs, Contents;
      var node := Link(this, text, ns, bs, cs);
      AppendedValid(this, ns, bs, cs, node);
    }

    /** The pointer updates of linelist_append: the new node becomes the tail, and
        the head too when the list was empty. */
    static method Link(list: LineList, text: Option<seq<char>>,
                       ghost ns: seq<Line>, ghost bs: seq<array<char>>, ghost cs: seq<seq<char>>)
      returns (node: Line)
      requires Ends(ns, list.head, list.tail)
      modifies list`head, list`tail, list`Nodes, list`Bufs, list`Contents, {list.tail}`next
      ensures fresh(node) && fresh(node.buf) && node.Valid() && node.Text == CString(text)
      ensures list.Nodes == ns + [node] && list.Bufs == bs + [node.buf] && list.Contents == cs + [node.Text]
      ensures node.prev == (if ns == [] then null else ns[|ns| - 1]) && node.next == null
      ensures list.head == (if ns == [] then node else old(list.head)) && list.tail == node
      ensures forall i :: 0 <= i < |ns| ==> ns[i].prev == old(ns[i].prev)
      ensures forall i :: 0 <= i < |ns| ==>
                ns[i].next == (if ns[i] == ns[|ns| - 1] then node else old(ns[i].next))
      ensures forall i :: 0 <= i < |ns| ==> Kept(ns[i])
      ensures forall i :: 0 <= i < |bs| ==> unchanged(bs[i])
    {
      node := new Line(text);
      if list.head == null {
        list.head, list.tail := node, node;
      } else {
        list.tail.next := node;
        node.prev := list.tail;
        list.tail := node;
      }
      list.Nodes, list.Bufs, list.Contents := ns + [node], bs + [node.buf], cs + [node.Text];
    }

    /** linelist_insert_after: with a list and an anchor, a new line right after the
        anchor (the tail moves when the anchor was the tail) is returned; with a NULL
        list or anchor, NULL is returned and nothing changes. */
    static method InsertAfter(list: LineList?, after: Line?, text: Option<seq<char>>) returns (r: Line?)
      requires list != null ==> list.Valid() && (after != null ==> after in list.Nodes)
      modifies list, ListNodes(list)`prev, ListNodes(list)`next
      ensures list == null || after == null ==> r == null
      ensures list != null ==> list.Valid()
      ensures list != null && after == null ==>
                list.Nodes == old(list.Nodes) && list.Bufs == old(list.Bufs) && list.Contents == old(list.Contents)
      ensures list != null && after != null ==>
                var k := IndexOf(old(list.Nodes), after);
                && r != null && fresh(r) && fresh(r.buf)
                && list.Nodes == Within<Line>(old(list.Nodes), k + 1, r)
                && list.Bufs == Within(old(list.Bufs), k + 1, r.buf)
                && list.Contents == Within(old(list.Contents), k + 1, CString(text))
    {
      if list == null || after == null {
        return null;
      }
      ghost var ns, bs, cs := list.Nodes, list.Bufs, list.Contents;
      ghost var k := IndexOf(ns, after);
      var newline := Splice(list, after, text, ns, bs, cs, k);
      InsertedValid(list, ns, bs, cs, k, newline);
      r := newline;
    }

    /** linelist_remove: the node is unlinked, its neighbours (or head and tail)
        repaired; a NULL list or node is ignored. */
    static method Remove(list: LineList?, node: Line?)
      requires list != null ==> list.Valid() && (node != null ==> node in list.Nodes)
      modifies list, ListNodes(list)`prev, ListNodes(list)`next
      ensures list != null ==> list.Valid()
      ensures list != null && node == null ==>
                list.Nodes == old(list.Nodes) && list.Bufs == old(list.Bufs) && list.Contents == old(list.Contents)
      ensures list != null && node != null ==>
                var k := IndexOf(old(list.Nodes), node);
                && list.Nodes == Without(old(list.Nodes), k)
                && list.Bufs == Without(old(list.Bufs), k)
                && list.Contents == Without(old(list.Contents), k)
    {
      if list == null || node == null {
        return;
      }
      ghost var ns, bs, cs := list.Nodes, list.Bufs, list.Contents;
      ghost var k := IndexOf(ns, node);
      Unlink(list, node, ns, bs, cs, k);
      RemovedValid(list, ns, bs, cs, k);
    }

    /** The allocation and pointer updates of linelist_insert_after: the new node
        goes between the anchor at position k of `ns` and its successor, or becomes
        the tail. */
    static method Splice(list: LineList, after: Line, text: Option<seq<char>>,
                         ghost ns: seq<Line>, ghost bs: seq<array<char>>, ghost cs: seq<seq<char>>, ghost k: nat)
      returns (newline: Line)
      requires k < |ns| && ns[k] == after && k < |bs| && k < |cs|
      modifies list`tail, list`Nodes, list`Bufs, list`Contents, after`next, {after.next}`prev
      ensures fresh(newline) && fresh(newline.buf) && newline.Valid() && newline.Text == CString(text)
      ensures list.Nodes == Within(ns, k + 1, newline) && list.Bufs == Within(bs, k + 1, newline.buf)
      ensures list.Contents == Within(cs, k + 1, newline.Text)
      ensures newline.prev == ns[k] && newline.next == old(ns[k].next)
      ensures list.head == old(list.head)
      ensures list.tail == if old(ns[k].next) == null then newline else old(list.tail)
      ensures forall i :: 0 <= i < |ns| ==>
                ns[i].prev == (if ns[i] == old(ns[k].next) then newline else old(ns[i].prev))
      ensures forall i :: 0 <= i < |ns| ==>
                ns[i].next == (if ns[i] == ns[k] then newline else old(ns[i].next))
      ensures forall i :: 0 <= i < |ns| ==> Kept(ns[i])
      ensures forall i :: 0 <= i < |bs| ==> unchanged(bs[i])
    {
      newline := new Line(text);
      var succ := after.next;
      newline.prev := after;
      newline.next := succ;
      if succ != null {
        succ.prev := newline;
      } else {
        list.tail := newline;
      }
      after.next := newline;
      list.Nodes, list.Bufs, list.Contents := Within(ns, k + 1, newline), Within(bs, k + 1, newline.buf), Within(cs, k + 1, newline.Text);
    }

    /** The pointer updates of linelist_remove: the node's neighbours (or head and
        tail) point past it. */
    static method Unlink(list: LineList, node: Line,
                         ghost ns: seq<Line>, ghost bs: seq<array<char>>, ghost cs: seq<seq<char>>, ghost k: nat)
      requires k < |ns| && ns[k] == node && k < |bs| && k < |cs|
      modifies list`head, list`tail, list`Nodes, list`Bufs, list`Contents, {node.prev}`next, {node.next}`prev
      ensures list.Nodes == Without(ns, k) && list.Bufs == Without(bs, k) && list.Contents == Without(cs, k)
      ensures forall i :: 0 <= i < |ns| ==>
                ns[i].prev == (if ns[i] == old(ns[k].next) then old(ns[k].prev) else old(ns[i].prev))
      ensures forall i :: 0 <= i < |ns| ==>
                ns[i].next == (if ns[i] == old(ns[k].prev) then old(ns[k].next) else old(ns[i].next))
      ensures forall i :: 0 <= i < |ns| ==> Kept(ns[i])
      ensures forall i :: 0 <= i < |bs| ==> unchanged(bs[i])
      ensures list.head == if old(ns[k].prev) == null then old(ns[k].next) else old(list.head)
      ensures list.tail == if old(ns[k].next) == null then old(ns[k].prev) else old(list.tail)
    {
      if node.prev != null {
        node.prev.next := node.next;
      } else {
        list.head := node.next;
      }
      if node.next != null {
        node.next.prev := node.prev;
      } else {
        list.tail := node.prev;
      }
      list.Nodes, list.Bufs, list.Contents := Without(ns, k), Without(bs, k), Without(cs, k);
    }

    // The in-place edits handle_events makes to the buffer of the node at
    // position k, with the list's record of buffers and texts brought up to date.

    /** The characters [from, to) of the node's text cut out (Backspace, Ctrl+W). */
    static method CutIn(list: LineList, node: Line, ghost k: nat, from: nat, to: nat)
      requires list.Valid() && k < |list.Nodes| && list.Nodes[k] == node && from <= to <= |list.Contents[k]|
      modifies list`Bufs, list`Contents, node`cap, node`len, node`buf, node`Text, node.buf
      ensures list.Valid() && list.Nodes == old(list.Nodes)
      ensures list.Contents == old(list.Contents[k := list.Contents[k][..from] + list.Contents[k][to..]])
    {
      ghost var ns, bs, cs := list.Nodes, list.Bufs, list.Contents;
      assert Owns(ns[k], bs[k], cs[k]);
      DistinctOthers<Line>(ns, k);
      DistinctOthers<array<char>>(bs, k);
      node.Cut(from, to);
      list.Bufs, list.Contents := bs[k := node.buf], cs[k := node.Text];
      EditedValid(list, ns, bs, cs, k);
    }

    /** The character c put in at `at` of the node's text (a typed character). */
    static method InsertCharIn(list: LineList, node: Line, ghost k: nat, at: nat, c: char)
      requires list.Valid() && k < |list.Nodes| && list.Nodes[k] == node && at <= |list.Contents[k]| && c != Nul
      modifies list`Bufs, list`Contents, node`cap, node`len, node`buf, node`Text, node.buf
      ensures list.Valid() && list.Nodes == old(list.Nodes)
      ensures list.Contents == old(list.Contents[k := list.Contents[k][..at] + [c] + list.Contents[k][at..]])
    {
      ghost var ns, bs, cs := list.Nodes, list.Bufs, list.Contents;
      assert Owns(ns[k], bs[k], cs[k]);
      DistinctOthers<Line>(ns, k);
      DistinctOthers<array<char>>(bs, k);
      node.InsertChar(at, c);
      list.Bufs, list.Contents := bs[k := node.buf], cs[k := node.Text];
      EditedValid(list, ns, bs, cs, k);
    }

    /** TAB_WIDTH spaces put in at `at` of the node's text (Tab). */
    static method InsertTabIn(list: LineList, node: Line, ghost k: nat, at: nat)
      requires list.Valid() && k < |list.Nodes| && list.Nodes[k] == node && at <= |list.Contents[k]|
      modifies list`Bufs, list`Contents, node`cap, node`len, node`buf, node`Text, node.buf
      ensures list.Valid() && list.Nodes == old(list.Nodes)
      ensures list.Contents ==
                old(list.Contents[k := list.Contents[k][..at] + EditModel.Spaces(EditModel.TAB_WIDTH) + list.Contents[k][at..]])
    {
      ghost var ns, bs, cs := list.Nodes, list.Bufs, list.Contents;
      assert Owns(ns[k], bs[k], cs[k]);
      DistinctOthers<Line>(ns, k);
      DistinctOthers<array<char>>(bs, k);
      node.InsertTab(at);
      list.Bufs, list.Contents := bs[k := node.buf], cs[k := node.Text];
      EditedValid(list, ns, bs, cs, k);
    }

    /** The text of the node at j appended to the text of the node at k (strcat
        when lines merge). */
    static method AppendIn(list: LineList, node: Line, ghost k: nat, other: Line, ghost j: nat)
      requires list.Valid() && k < |list.Nodes| && j < |list.Nodes| && k != j
      requires list.Nodes[k] == node && list.Nodes[j] == other
      modifies list`Bufs, list`Contents, node`cap, node`len, node`buf, node`Text, node.buf
      ensures list.Valid() && list.Nodes == old(list.Nodes)
      ensures list.Contents == old(list.Contents[k := list.Contents[k] + list.Contents[j]])
    {
      ghost var ns, bs, cs := list.Nodes, list.Bufs, list.Contents;
      assert Owns(ns[k], bs[k], cs[k]) && Owns(ns[j], bs[j], cs[j]);
      DistinctOthers<Line>(ns, k);
      DistinctOthers<array<char>>(bs, k);
      node.Append(other);
      list.Bufs, list.Contents := bs[k := node.buf], cs[k := node.Text];
      EditedValid(list, ns, bs, cs, k);
    }

    /** The node's text cut short at `at` (Enter, on the line left behind). */
    static method TruncateIn(list: LineList, node: Line, ghost k: nat, at: nat)
      requires list.Valid() && k < |list.Nodes| && list.Nodes[k] == node && at <= |list.Contents[k]|
      modifies list`Bufs, list`Contents, node`cap, node`len, node`buf, node`Text, node.buf
      ensures list.Valid() && list.Nodes == old(list.Nodes)
      ensures list.Contents == old(list.Contents[k := list.Contents[k][..at]])
    {
      ghost var ns, bs, cs := list.Nodes, list.Bufs, list.Contents;
      assert Owns(ns[k], bs[k], cs[k]);
      DistinctOthers<Line>(ns, k);
      DistinctOthers<array<char>>(bs, k);
      node.Truncate(at);
      list.Bufs, list.Contents := bs[k := node.buf], cs[k := node.Text];
      EditedValid(list, ns, bs, cs, k);
    }

    /** Enter on the node at k: a new node holding `text` goes in after it, then
        the node's text is cut short at `at`. */
    static method SplitIn(list: LineList, node: Line, ghost k: nat, at: nat, text: seq<char>) returns (newline: Line)
      requires list.Valid() && k < |list.Nodes| && list.Nodes[k] == node && at <= |list.Contents[k]| && NoNul(text)
      modifies list, NodeSet(list.Nodes), BufSet(list.Bufs)
      ensures list.Valid() && list.Nodes == Within(old(list.Nodes), k + 1, newline)
      ensures list.Contents == old(list.Contents[..k] + [list.Contents[k][..at], text] + list.Contents[k + 1..])
    {
      ghost var ns, cs := list.Nodes, list.Contents;
      assert Owns(ns[k], list.Bufs[k], cs[k]);
      CStringOfText(text);
      IndexOfDistinct(ns, k);
      assert IndexOf(ns, node) == k;
      var r := InsertAfter(list, node, Some(text));
      ghost var cs1 := list.Contents;
      assert list.Nodes == Within<Line>(ns, k + 1, r) && cs1 == Within(cs, k + 1, text);
      assert list.Nodes[k] == node && cs1[k] == cs[k];
      TruncateIn(list, node, k, at);
      assert list.Contents == cs1[k := cs[k][..at]];
      WithinThenUpdate(cs, k, text, cs[k][..at]);
      newline := r;
    }

    /** Backspace at the start of the node at k, which has a previous node: its
        text is appended to the previous node's text and it is removed from the
        list. */
    static method MergeIn(list: LineList, prev: Line, cur: Line, ghost k: nat)
      requires list.Valid() && 0 < k < |list.Nodes| && list.Nodes[k - 1] == prev && list.Nodes[k] == cur
      modifies list, NodeSet(list.Nodes), BufSet(list.Bufs)
      ensures list.Valid() && list.Nodes == Without(old(list.Nodes), k)
      ensures list.Contents == old(list.Contents[..k - 1] + [list.Contents[k - 1] + list.Contents[k]] + list.Contents[k + 1..])
    {
      ghost var ns, cs := list.Nodes, list.Contents;
      assert Owns(ns[k - 1], list.Bufs[k - 1], cs[k - 1]);
      AppendIn(list, prev, k - 1, cur, k);
      IndexOfDistinct(ns, k);
      Remove(list, cur);
      UpdateThenWithout(cs, k, cs[k - 1] + cs[k]);
    }

    /** linelist_traverse: the callback runs on every node once, from head to tail;
        a callback is modelled by the bytes it writes for a line's text. */
    static method Traverse(list: LineList?, cb: seq<char> -> seq<char>) returns (visited: seq<Line>, out: seq<char>)
      requires list != null ==> list.Valid()
      ensures list == null ==> visited == [] && out == []
      ensures list != null ==> visited == list.Nodes && out == ConcatMap(cb, list.Contents)
    {
      visited, out := [], [];
      if list == null {
        return;
      }
      var cur := list.head;
      while cur != null
        invariant |visited| <= |list.Nodes|
        invariant visited == list.Nodes[..|visited|]
        invariant cur == if |visited| == |list.Nodes| then null else list.Nodes[|visited|]
        invariant out == ConcatMap(cb, list.Contents[..|visited|])
        decreases |list.Nodes| - |visited|
      {
        ghost var i := |visited|;
        assert Owns(list.Nodes[i], list.Bufs[i], list.Contents[i]);
        assert cur.buf[..cur.len] == list.Contents[i];
        out := out + cb(cur.buf[..cur.len]);
        visited := visited + [cur];
        ConcatMapSnoc(cb, list.Contents[..i], list.Contents[i]);
        assert list.Contents[..i + 1] == list.Contents[..i] + [list.Contents[i]];
        cur := cur.next;
      }
      assert list.Contents[..|visited|] == list.Contents;
    }

    /** linelist_print: every line followed by a newline, in list order. */
    static method Print(list: LineList?) returns (out: seq<char>)
      requires list != null ==> list.Valid()
      ensures list == null ==> out == []
      ensures list != null ==> out == Export(list.Contents)
    {
      var _, o := Traverse(list, PrintLine);
      out := o;
    }
  }
}
