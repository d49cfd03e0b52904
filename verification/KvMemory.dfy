/** Entries as records in memory: what pointers represent a list of entries, and what keeps it so. */
module KvMemory {
  import opened KvText

  /** A string is a pointer into the parsed text or into the root's own buffer, and a length. */
  datatype Where = NullString | Input | Buffer
  datatype KvString = KvString(place: Where, offset: nat, length: nat)

  datatype Ptr = Null | To(addr: nat)

  /** One KeyValue record. value and children share storage in the original; hasChildren says which is meant. */
  datatype Cell = Cell(key: KvString, value: KvString, children: Ptr, childCount: nat, lastChild: Ptr,
                       hasChildren: bool, next: Ptr)

  datatype Heap = Heap(cells: seq<Cell>, input: string, buffer: string)

  function Text(h: Heap, s: KvString): string
  {
    match s.place
    case NullString => ""
    case Input => if s.offset + s.length <= |h.input| then h.input[s.offset..s.offset + s.length] else ""
    case Buffer => if s.offset + s.length <= |h.buffer| then h.buffer[s.offset..s.offset + s.length] else ""
  }

  // ---- Records in the order the parser creates them: every block is followed by its contents

  function Size(ns: Nodes): nat
    decreases ns, 0
  {
    match ns
    case Nil => 0
    case Cons(h, t) => SizeOne(h) + Size(t)
  }

  function SizeOne(kv: Kv): (n: nat)
    ensures n > 0
    decreases kv, 1
  {
    match kv
    case Pair(_, _) => 1
    case Block(_, cs) => 1 + Size(cs)
  }

  /** The first record of a list starting at i. */
  function First(ns: Nodes, i: nat): Ptr
  {
    if ns == Nil then Null else To(i)
  }

  /** The address of the last top-level record. */
  function Last(ns: Nodes, i: nat): nat
    requires ns != Nil
  {
    match ns
    case Cons(h, t) => if t == Nil then i else Last(t, i + SizeOne(h))
  }

  /** What lastChild is after parsing: the last record, or null for a block without contents. */
  function LastChild(ns: Nodes, i: nat): Ptr
  {
    if ns == Nil then Null else To(Last(ns, i))
  }

  /** The records of ns in creation order from i on; the last one's next is end. */
  ghost predicate Segment(h: Heap, i: nat, ns: Nodes, end: Ptr)
    decreases ns, 0
  {
    match ns
    case Nil => true
    case Cons(kv, t) =>
      && i < |h.cells|
      && h.cells[i].next == (if t == Nil then end else To(i + SizeOne(kv)))
      && CellIs(h, i, kv)
      && Segment(h, i + SizeOne(kv), t, end)
  }

  /** The record at i holds kv, its contents right behind it. */
  ghost predicate CellIs(h: Heap, i: nat, kv: Kv)
    decreases kv, 1
  {
    && i < |h.cells|
    && Text(h, h.cells[i].key) == kv.key
    && match kv
       case Pair(_, v) => !h.cells[i].hasChildren && Text(h, h.cells[i].value) == v
       case Block(_, cs) =>
         && h.cells[i].hasChildren && h.cells[i].childCount == Len(cs)
         && h.cells[i].children == First(cs, i + 1) && h.cells[i].lastChild == LastChild(cs, i + 1)
         && Segment(h, i + 1, cs, Null)
  }

  /** Two heaps with the same text and the same records in a range. */
  ghost predicate Same(h: Heap, h': Heap, lo: nat, hi: nat)
  {
    && h.input == h'.input && h.buffer == h'.buffer
    && hi <= |h.cells| && hi <= |h'.cells|
    && forall a | lo <= a < hi :: h.cells[a] == h'.cells[a]
  }

  lemma {:induction false} SegmentFrame(h: Heap, h': Heap, i: nat, ns: Nodes, end: Ptr)
    requires Segment(h, i, ns, end) && i + Size(ns) <= |h.cells| && Same(h, h', i, i + Size(ns))
    ensures Segment(h', i, ns, end)
    decreases ns, 0
  {
    match ns
    case Nil =>
    case Cons(kv, t) =>
      CellFrame(h, h', i, kv);
      SegmentFrame(h, h', i + SizeOne(kv), t, end);
  }

  lemma {:induction false} CellFrame(h: Heap, h': Heap, i: nat, kv: Kv)
    requires CellIs(h, i, kv) && i + SizeOne(kv) <= |h.cells| && Same(h, h', i, i + SizeOne(kv))
    ensures CellIs(h', i, kv)
    decreases kv, 1
  {
    if kv.Block? {
      SegmentFrame(h, h', i + 1, kv.children, Null);
    }
  }

  lemma {:induction false} SizeAppend(a: Nodes, b: Nodes)
    ensures Size(Append(a, b)) == Size(a) + Size(b)
    ensures Len(Append(a, b)) == Len(a) + Len(b)
    ensures Bytes(Append(a, b)) == Bytes(a) + Bytes(b)
  {
    match a
    case Nil =>
    case Cons(h, t) => SizeAppend(t, b);
  }

  lemma {:induction false} AppendAssoc(a: Nodes, b: Nodes, c: Nodes)
    ensures Append(Append(a, b), c) == Append(a, Append(b, c))
  {
    match a
    case Nil =>
    case Cons(h, t) => AppendAssoc(t, b, c);
  }

  /** Two segments, the first one's end pointing at the second, are one segment. */
  lemma {:induction false} SegmentAppend(h: Heap, i: nat, a: Nodes, b: Nodes, end: Ptr)
    requires b != Nil
    requires Segment(h, i, a, To(i + Size(a))) && Segment(h, i + Size(a), b, end)
    ensures Segment(h, i, Append(a, b), end)
    ensures Last(Append(a, b), i) == Last(b, i + Size(a))
    ensures First(Append(a, b), i) == To(i)
    decreases a
  {
    hide CellIs;
    match a
    case Nil =>
    case Cons(kv, t) =>
      SegmentAppend(h, i + SizeOne(kv), t, b, end);
      if t == Nil {
        assert Append(t, b) == b;
      }
  }

  lemma {:induction false} LastInside(ns: Nodes, i: nat)
    requires ns != Nil
    ensures i <= Last(ns, i) < i + Size(ns)
  {
    if ns.tail != Nil {
      LastInside(ns.tail, i + SizeOne(ns.head));
    }
  }

  /** Setting the next pointer of the last record only moves the end. */
  lemma {:induction false} SetEnd(h: Heap, i: nat, ns: Nodes, end: Ptr, end': Ptr)
    requires ns != Nil && Segment(h, i, ns, end) && i + Size(ns) <= |h.cells|
    ensures i <= Last(ns, i) < i + Size(ns)
    ensures h.cells[Last(ns, i)].next == end
    ensures var l := Last(ns, i);
      Segment(h.(cells := h.cells[l := h.cells[l].(next := end')]), i, ns, end')
    decreases ns
  {
    LastInside(ns, i);
    var l, kv, t := Last(ns, i), ns.head, ns.tail;
    var h' := h.(cells := h.cells[l := h.cells[l].(next := end')]);
    if t == Nil {
      if kv.Block? {
        SegmentFrame(h, h', i + 1, kv.children, Null);
      }
    } else {
      SetEnd(h, i + SizeOne(kv), t, end, end');
      LastInside(t, i + SizeOne(kv));
      CellFrame(h, h', i, kv);
    }
  }

  // ---- Any pointer representation, with the records confined to [lo, hi)

  ghost predicate ListAt(h: Heap, p: Ptr, ns: Nodes, lo: nat, hi: nat)
    decreases ns, 0
  {
    match ns
    case Nil => p == Null
    case Cons(kv, t) =>
      && p.To? && lo <= p.addr < hi && p.addr < |h.cells|
      && NodeAt(h, p.addr, kv, lo, hi)
      && ListAt(h, h.cells[p.addr].next, t, lo, hi)
  }

  ghost predicate NodeAt(h: Heap, a: nat, kv: Kv, lo: nat, hi: nat)
    decreases kv, 1
  {
    && lo <= a < hi && a < |h.cells|
    && Text(h, h.cells[a].key) == kv.key
    && match kv
       case Pair(_, v) => !h.cells[a].hasChildren && Text(h, h.cells[a].value) == v
       case Block(_, cs) =>
         && h.cells[a].hasChildren && h.cells[a].childCount == Len(cs)
         && ListAt(h, h.cells[a].children, cs, lo, hi)
  }

  lemma {:induction false} SegmentIsList(h: Heap, i: nat, ns: Nodes, lo: nat, hi: nat)
    requires Segment(h, i, ns, Null) && lo <= i && i + Size(ns) <= hi
    ensures ListAt(h, First(ns, i), ns, lo, hi)
    decreases ns, 0
  {
    match ns
    case Nil =>
    case Cons(kv, t) =>
      CellIsNode(h, i, kv, lo, hi);
      SegmentIsList(h, i + SizeOne(kv), t, lo, hi);
  }

  lemma {:induction false} CellIsNode(h: Heap, i: nat, kv: Kv, lo: nat, hi: nat)
    requires CellIs(h, i, kv) && lo <= i && i + SizeOne(kv) <= hi
    ensures NodeAt(h, i, kv, lo, hi)
    decreases kv, 1
  {
    if kv.Block? {
      SegmentIsList(h, i + 1, kv.children, lo, hi);
    }
  }

  lemma {:induction false} ListFrame(h: Heap, h': Heap, p: Ptr, ns: Nodes, lo: nat, hi: nat)
    requires ListAt(h, p, ns, lo, hi) && Same(h, h', lo, hi)
    ensures ListAt(h', p, ns, lo, hi)
    decreases ns, 0
  {
    match ns
    case Nil =>
    case Cons(kv, t) =>
      NodeFrame(h, h', p.addr, kv, lo, hi);
      ListFrame(h, h', h.cells[p.addr].next, t, lo, hi);
  }

  lemma {:induction false} NodeFrame(h: Heap, h': Heap, a: nat, kv: Kv, lo: nat, hi: nat)
    requires NodeAt(h, a, kv, lo, hi) && Same(h, h', lo, hi)
    ensures NodeAt(h', a, kv, lo, hi)
    decreases kv, 1
  {
    if kv.Block? {
      ListFrame(h, h', h.cells[a].children, kv.children, lo, hi);
    }
  }

  /** A pointer represents one list of entries only. */
  lemma {:induction false} ListUnique(h: Heap, p: Ptr, ns: Nodes, ms: Nodes, lo: nat, hi: nat)
    requires ListAt(h, p, ns, lo, hi) && ListAt(h, p, ms, lo, hi)
    ensures ns == ms
    decreases ns, 0
  {
    if ns.Cons? && ms.Cons? {
      NodeUnique(h, p.addr, ns.head, ms.head, lo, hi);
      ListUnique(h, h.cells[p.addr].next, ns.tail, ms.tail, lo, hi);
    }
  }

  lemma {:induction false} NodeUnique(h: Heap, a: nat, kv: Kv, lv: Kv, lo: nat, hi: nat)
    requires NodeAt(h, a, kv, lo, hi) && NodeAt(h, a, lv, lo, hi)
    ensures kv == lv
    decreases kv, 1
  {
    if kv.Block? {
      ListUnique(h, h.cells[a].children, kv.children, lv.children, lo, hi);
    }
  }

  // ---- Arrays of records, as solidifying builds them

  /** The first n entries of ns are the records from p on; every block's contents are an array at or above lo. */
  ghost predicate ArrayPrefix(h: Heap, p: nat, ns: Nodes, n: nat, lo: nat)
    decreases ns, 0
  {
    n == 0 ||
    match ns
    case Nil => false
    case Cons(kv, t) =>
      && p < |h.cells|
      && ElementAt(h, p, kv, lo)
      && h.cells[p].next == To(p + 1)
      && ArrayPrefix(h, p + 1, t, n - 1, lo)
  }

  /** All of ns as an array; the last record's next is null. */
  ghost predicate ArrayAt(h: Heap, p: nat, ns: Nodes, lo: nat)
    decreases ns, 0
  {
    match ns
    case Nil => true
    case Cons(kv, t) =>
      && p < |h.cells|
      && ElementAt(h, p, kv, lo)
      && h.cells[p].next == (if t == Nil then Null else To(p + 1))
      && ArrayAt(h, p + 1, t, lo)
  }

  ghost predicate ElementAt(h: Heap, p: nat, kv: Kv, lo: nat)
    decreases kv, 1
  {
    && p < |h.cells|
    && Text(h, h.cells[p].key) == kv.key
    && match kv
       case Pair(_, v) => !h.cells[p].hasChildren && Text(h, h.cells[p].value) == v
       case Block(_, cs) =>
         && h.cells[p].hasChildren && h.cells[p].childCount == Len(cs)
         && if cs == Nil then h.cells[p].children == Null
            else h.cells[p].children.To? && lo <= h.cells[p].children.addr
                 && ArrayAt(h, h.cells[p].children.addr, cs, lo)
  }

  lemma {:induction false} ArrayFrame(h: Heap, h': Heap, p: nat, ns: Nodes, lo: nat)
    requires ArrayAt(h, p, ns, lo) && lo <= p && Same(h, h', lo, |h.cells|)
    ensures ArrayAt(h', p, ns, lo)
    decreases ns, 0
  {
    match ns
    case Nil =>
    case Cons(kv, t) =>
      ElementFrame(h, h', p, kv, lo);
      ArrayFrame(h, h', p + 1, t, lo);
  }

  /** A record survives changes below the arrays of its contents. */
  lemma {:induction false} ElementFrame(h: Heap, h': Heap, p: nat, kv: Kv, lo: nat)
    requires ElementAt(h, p, kv, lo) && Same(h, h', lo, |h.cells|)
    requires p < |h'.cells|
    requires h'.cells[p] == h.cells[p].(next := h'.cells[p].next)
    ensures ElementAt(h', p, kv, lo)
    decreases kv, 1
  {
    if kv.Block? && kv.children != Nil {
      ArrayFrame(h, h', h.cells[p].children.addr, kv.children, lo);
    }
  }

  lemma {:induction false} PrefixFrame(h: Heap, h': Heap, p: nat, ns: Nodes, n: nat, lo: nat)
    requires ArrayPrefix(h, p, ns, n, lo) && Same(h, h', lo, |h.cells|) && Same(h, h', p, p + n)
    ensures ArrayPrefix(h', p, ns, n, lo)
    decreases ns, 0
  {
    if n > 0 {
      ElementFrame(h, h', p, ns.head, lo);
      PrefixFrame(h, h', p + 1, ns.tail, n - 1, lo);
    }
  }

  /** A lower bound may always be lowered. */
  lemma {:induction false} ArrayLower(h: Heap, p: nat, ns: Nodes, lo: nat, lo': nat)
    requires ArrayAt(h, p, ns, lo) && lo' <= lo
    ensures ArrayAt(h, p, ns, lo')
    decreases ns, 0
  {
    match ns
    case Nil =>
    case Cons(kv, t) =>
      ElementLower(h, p, kv, lo, lo');
      ArrayLower(h, p + 1, t, lo, lo');
  }

  lemma {:induction false} ElementLower(h: Heap, p: nat, kv: Kv, lo: nat, lo': nat)
    requires ElementAt(h, p, kv, lo) && lo' <= lo
    ensures ElementAt(h, p, kv, lo')
    decreases kv, 1
  {
    if kv.Block? && kv.children != Nil {
      ArrayLower(h, h.cells[p].children.addr, kv.children, lo, lo');
    }
  }

  /** The n-th entry and what follows it. */
  function Drop(ns: Nodes, n: nat): Nodes
    requires n <= Len(ns)
  {
    if n == 0 then ns else Drop(ns.tail, n - 1)
  }

  lemma {:induction false} DropLen(ns: Nodes, n: nat)
    requires n <= Len(ns)
    ensures Len(Drop(ns, n)) == Len(ns) - n
    ensures n < Len(ns) ==> Drop(ns, n).Cons? && Drop(ns, n + 1) == Drop(ns, n).tail && Drop(ns, n).head < ns
    ensures n == Len(ns) ==> Drop(ns, n) == Nil
  {
    if n > 0 {
      DropLen(ns.tail, n - 1);
    }
  }

  /** One more finished element. */
  lemma {:induction false} PrefixSnoc(h: Heap, p: nat, ns: Nodes, n: nat, lo: nat)
    requires n < Len(ns) && ArrayPrefix(h, p, ns, n, lo)
    requires Drop(ns, n).Cons?
    requires ElementAt(h, p + n, Drop(ns, n).head, lo) && h.cells[p + n].next == To(p + n + 1)
    ensures ArrayPrefix(h, p, ns, n + 1, lo)
    decreases n
  {
    if n > 0 {
      PrefixSnoc(h, p + 1, ns.tail, n - 1, lo);
    } else {
      assert ArrayPrefix(h, p + 1, ns.tail, 0, lo);
    }
  }

  /** Ending a full prefix with a null pointer. */
  lemma {:induction false} PrefixEnds(h: Heap, h': Heap, p: nat, ns: Nodes, lo: nat)
    requires ns != Nil && ArrayPrefix(h, p, ns, Len(ns), lo)
    requires var l := p + Len(ns) - 1;
      && l < |h.cells| && l < lo
      && h' == h.(cells := h.cells[l := h.cells[l].(next := Null)])
    ensures ArrayAt(h', p, ns, lo)
    decreases ns
  {
    hide ElementAt;
    var kv, t := ns.head, ns.tail;
    EndsHere(h, h', p, kv, lo);
    if t != Nil {
      PrefixEnds(h, h', p + 1, t, lo);
    }
  }

  lemma EndsHere(h: Heap, h': Heap, p: nat, kv: Kv, lo: nat)
    requires ElementAt(h, p, kv, lo)
    requires h'.input == h.input && h'.buffer == h.buffer && |h'.cells| == |h.cells|
    requires forall a | lo <= a < |h.cells| :: h'.cells[a] == h.cells[a]
    requires h'.cells[p] == h.cells[p].(next := h'.cells[p].next)
    ensures ElementAt(h', p, kv, lo)
  {
    ElementFrame(h, h', p, kv, lo);
  }

  /** An array is a list whose records all lie in the newly built part. */
  lemma {:induction false} ArrayIsList(h: Heap, p: nat, ns: Nodes, lo: nat)
    requires ArrayAt(h, p, ns, lo) && lo <= p
    ensures ListAt(h, First(ns, p), ns, lo, |h.cells|)
    decreases ns, 0
  {
    match ns
    case Nil =>
    case Cons(kv, t) =>
      ElementIsNode(h, p, kv, lo);
      ArrayIsList(h, p + 1, t, lo);
  }

  lemma {:induction false} ElementIsNode(h: Heap, p: nat, kv: Kv, lo: nat)
    requires ElementAt(h, p, kv, lo) && lo <= p
    ensures NodeAt(h, p, kv, lo, |h.cells|)
    decreases kv, 1
  {
    if kv.Block? && kv.children != Nil {
      ArrayIsList(h, h.cells[p].children.addr, kv.children, lo);
    }
  }
}
