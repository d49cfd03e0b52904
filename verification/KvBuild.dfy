/** What each turn of the parse loop and of the string copy keeps. */
module KvBuild {
  import opened KvText
  import opened KvMemory
  import opened KvStrings
  import opened Texts

  // ---- Parsing

  /** What the whole run gives when some entries are done and rest is what the remaining input gives. */
  function Resume(done: Nodes, bytes: nat, rest: ParseResult): ParseResult
  {
    if rest.error == NoError then ParseResult(NoError, Append(done, rest.nodes), rest.pos, bytes + rest.bytes) else rest
  }

  lemma ResumeStep(done: Nodes, bytes: nat, kv: Kv, more: nat, rest: ParseResult)
    ensures Resume(done, bytes, Prepend(kv, more, rest)) == Resume(Append(done, Cons(kv, Nil)), bytes + more, rest)
  {
    AppendAssoc(done, Cons(kv, Nil), rest.nodes);
  }

  lemma ResumeNothing(rest: ParseResult)
    ensures Resume(Nil, 0, rest) == rest
  {}

  /** Where the list ends, nothing is added; where an error shows, the whole run has it. */
  lemma ResumeStops(done: Nodes, bytes: nat, rest: ParseResult)
    requires rest.error == NoError ==> rest.nodes == Nil
    ensures rest.error != NoError ==> Resume(done, bytes, rest) == rest
    ensures rest.error == NoError ==>
      Resume(done, bytes, rest) == ParseResult(NoError, done, rest.pos, bytes + rest.bytes)
  {
    AppendNil(done);
  }

  /** A string pointing into the parsed text. */
  predicate InInput(str: string, s: KvString)
  {
    s.place == Input && s.offset + s.length <= |str|
  }

  /** Every string of the records in a range still points into the parsed text. */
  ghost predicate AllInput(str: string, cells: seq<Cell>, lo: nat, hi: nat)
  {
    hi <= |cells| &&
    forall a | lo <= a < hi :: InInput(str, cells[a].key) && (cells[a].hasChildren || InInput(str, cells[a].value))
  }

  /**
    The records while a list is being built from base on for the record self: the entries done so far
    are linked, the last one's next is not set yet, and nothing below base but self has changed.
   */
  ghost predicate Building(str: string, old_: seq<Cell>, cells: seq<Cell>, self: nat, done: Nodes, lastKV: Ptr)
  {
    var base := |old_|;
    && self < base && |cells| == base + Size(done)
    && (forall a | 0 <= a < base && a != self :: cells[a] == old_[a])
    && cells[self] == old_[self].(children := First(done, base), childCount := Len(done))
    && (done == Nil ==> lastKV == Null)
    && (done != Nil ==>
        && lastKV == To(Last(done, base))
        && base <= Last(done, base) < |cells|
        && Segment(Heap(cells, str, ""), base, done, cells[Last(done, base)].next))
    && AllInput(str, cells, base, |cells|)
  }

  lemma BuildingStart(str: string, cells: seq<Cell>, self: nat)
    requires self < |cells| && cells[self].childCount == 0 && cells[self].children == Null
    ensures Building(str, cells, cells, self, Nil, Null)
  {}

  /** A finished record behind the last one, before it is linked. */
  ghost predicate Fresh(str: string, before: seq<Cell>, cells: seq<Cell>, kv: Kv)
  {
    && |cells| == |before| + SizeOne(kv)
    && (forall a | 0 <= a < |before| :: cells[a] == before[a])
    && CellIs(Heap(cells, str, ""), |before|, kv)
    && AllInput(str, cells, |before|, |cells|)
  }

  /** The cells after linking the record at j: from the previous one, or from the list's owner. */
  function Linked(cells: seq<Cell>, self: nat, lastKV: Ptr, j: nat): seq<Cell>
    requires self < |cells| && (lastKV.To? ==> lastKV.addr < |cells|)
  {
    var counted := cells[self := cells[self].(childCount := cells[self].childCount + 1)];
    if lastKV.To? then counted[lastKV.addr := counted[lastKV.addr].(next := To(j))]
    else counted[self := counted[self].(children := To(j))]
  }

  lemma LinkStep(str: string, old_: seq<Cell>, before: seq<Cell>, cells: seq<Cell>, self: nat, done: Nodes,
                 lastKV: Ptr, kv: Kv)
    requires Building(str, old_, before, self, done, lastKV) && Fresh(str, before, cells, kv)
    ensures self < |cells| && (lastKV.To? ==> lastKV.addr < |cells|)
    ensures Building(str, old_, Linked(cells, self, lastKV, |before|), self, Append(done, Cons(kv, Nil)), To(|before|))
    ensures |Linked(cells, self, lastKV, |before|)| == |cells|
  {
    hide Segment, CellIs;
    var base, one := |old_|, Cons(kv, Nil);
    SizeAppend(done, one);
    LastOfOne(kv, |before|);
    if done == Nil {
      assert Append(done, one) == one;
      LinkFirst(str, cells, self, |before|, kv);
    } else {
      LinkLater(str, base, before, cells, self, done, kv);
      LastAppend(done, kv, base);
    }
  }

  lemma LastOfOne(kv: Kv, j: nat)
    ensures Last(Cons(kv, Nil), j) == j && First(Cons(kv, Nil), j) == To(j)
    ensures Size(Cons(kv, Nil)) == SizeOne(kv) && Len(Cons(kv, Nil)) == 1
  {}

  lemma {:induction false} LastAppend(done: Nodes, kv: Kv, base: nat)
    ensures Append(done, Cons(kv, Nil)) != Nil
    ensures Last(Append(done, Cons(kv, Nil)), base) == base + Size(done)
  {
    if done != Nil {
      LastAppend(done.tail, kv, base + SizeOne(done.head));
    }
  }

  lemma LinkFirst(str: string, cells: seq<Cell>, self: nat, j: nat, kv: Kv)
    requires self < j && CellIs(Heap(cells, str, ""), j, kv) && |cells| == j + SizeOne(kv)
    ensures var cells' := Linked(cells, self, Null, j);
      Segment(Heap(cells', str, ""), j, Cons(kv, Nil), cells'[j].next)
  {
    CellFrame(Heap(cells, str, ""), Heap(Linked(cells, self, Null, j), str, ""), j, kv);
  }

  lemma LinkLater(str: string, base: nat, before: seq<Cell>, cells: seq<Cell>, self: nat, done: Nodes, kv: Kv)
    requires done != Nil && self < base && |before| == base + Size(done) && |cells| == |before| + SizeOne(kv)
    requires forall a | 0 <= a < |before| :: cells[a] == before[a]
    requires base <= Last(done, base) < |before|
    requires Segment(Heap(before, str, ""), base, done, before[Last(done, base)].next)
    requires CellIs(Heap(cells, str, ""), |before|, kv)
    ensures var cells' := Linked(cells, self, To(Last(done, base)), |before|);
      Segment(Heap(cells', str, ""), base, Append(done, Cons(kv, Nil)), cells'[|before|].next)
  {
    hide Segment, CellIs, Append;
    var j, one, l := |before|, Cons(kv, Nil), Last(done, base);
    var e := before[l].next;
    var cells1 := cells[l := cells[l].(next := To(j))];
    var cells2 := cells1[self := cells1[self].(childCount := cells1[self].childCount + 1)];
    assert cells2 == Linked(cells, self, To(l), j);
    var h, h1, h2 := Heap(cells, str, ""), Heap(cells1, str, ""), Heap(cells2, str, "");
    SegmentFrame(Heap(before, str, ""), h, base, done, e);
    SetEnd(h, base, done, e, To(j));
    assert h.(cells := cells1) == h1;
    SegmentFrame(h1, h2, base, done, To(j));
    CellFrame(h, h2, j, kv);
    SegmentOne(h2, j, kv);
    SegmentAppend(h2, base, done, one, cells2[j].next);
  }

  lemma SegmentOne(h: Heap, j: nat, kv: Kv)
    requires CellIs(h, j, kv)
    ensures Segment(h, j, Cons(kv, Nil), h.cells[j].next)
  {}

  /** The end of the list: the last record's next is cleared and the owner learns its last child. */
  function Finished(cells: seq<Cell>, self: nat, lastKV: Ptr): seq<Cell>
    requires self < |cells| && (lastKV.To? ==> lastKV.addr < |cells|)
  {
    if lastKV.To? then
      var ended := cells[lastKV.addr := cells[lastKV.addr].(next := Null)];
      ended[self := ended[self].(lastChild := lastKV)]
    else cells
  }

  /** A parsed list: its records from base on, its owner pointing at them. */
  ghost predicate Built(str: string, old_: seq<Cell>, cells: seq<Cell>, self: nat, ns: Nodes)
  {
    var base := |old_|;
    && self < base && |cells| == base + Size(ns)
    && (forall a | 0 <= a < base && a != self :: cells[a] == old_[a])
    && cells[self] == old_[self].(children := First(ns, base), childCount := Len(ns),
                                  lastChild := if ns == Nil then old_[self].lastChild else To(Last(ns, base)))
    && Segment(Heap(cells, str, ""), base, ns, Null)
    && AllInput(str, cells, base, |cells|)
  }

  lemma FinishStep(str: string, old_: seq<Cell>, cells: seq<Cell>, self: nat, done: Nodes, lastKV: Ptr)
    requires Building(str, old_, cells, self, done, lastKV)
    ensures self < |cells| && (lastKV.To? ==> lastKV.addr < |cells|)
    ensures Built(str, old_, Finished(cells, self, lastKV), self, done)
  {
    if done != Nil {
      var base, l := |old_|, Last(done, |old_|);
      var h := Heap(cells, str, "");
      SetEnd(h, base, done, cells[l].next, Null);
      SegmentFrame(h.(cells := cells[l := cells[l].(next := Null)]), Heap(Finished(cells, self, lastKV), str, ""),
                   base, done, Null);
    }
  }

  /** A pair's record. */
  lemma PairFresh(str: string, before: seq<Cell>, cell: Cell, key: Token, value: Token)
    requires key.Token? && key.from <= key.to <= |str| && value.Token? && value.from <= value.to <= |str|
    requires cell.key == KvString(Input, key.from, key.to - key.from)
    requires cell.value == KvString(Input, value.from, value.to - value.from) && !cell.hasChildren
    ensures Fresh(str, before, before + [cell], Pair(str[key.from..key.to], str[value.from..value.to]))
  {}

  /** A block's record, completed after its contents have been parsed behind it. */
  lemma BlockFresh(str: string, before: seq<Cell>, garbage: Cell, inner: seq<Cell>, key: Token, ns: Nodes)
    requires key.Token? && key.from <= key.to <= |str|
    requires garbage.children == Null && garbage.childCount == 0 && garbage.lastChild == Null
    requires Built(str, before + [garbage], inner, |before|, ns)
    ensures |before| < |inner|
    ensures var j := |before|;
      Fresh(str, before,
            inner[j := inner[j].(hasChildren := true, key := KvString(Input, key.from, key.to - key.from))],
            Block(str[key.from..key.to], ns))
  {
    var j := |before|;
    var cells := inner[j := inner[j].(hasChildren := true, key := KvString(Input, key.from, key.to - key.from))];
    SegmentFrame(Heap(inner, str, ""), Heap(cells, str, ""), j + 1, ns, Null);
  }

  // ---- Copying the strings out

  lemma WrittenTwice(s: string, at: nat, t: string, u: string)
    requires at + |t| + |u| <= |s|
    ensures Replaced(Replaced(s, at, t), at + |t|, u) == Replaced(s, at, t + u)
  {}

  lemma WrittenStands(s: string, at: nat, t: string)
    requires at + |t| <= |s|
    ensures Stands(Replaced(s, at, t), at, t)
  {}

  /** The records of the entries done so far point into the buffer; nothing else has changed. */
  ghost predicate Copied(old_: seq<Cell>, cells: seq<Cell>, i: nat, done: Nodes, at: nat)
  {
    && |cells| == |old_|
    && (forall a | 0 <= a < |cells| && !(i <= a < i + Size(done)) :: cells[a] == old_[a])
    && SameShape(old_, cells, i, i + Size(done))
    && Placed(cells, i, done, at)
  }

  lemma CopiedStart(cells: seq<Cell>, i: nat, at: nat)
    ensures Copied(cells, cells, i, Nil, at)
  {}

  /** One more entry's records placed. */
  lemma CopyStep(old_: seq<Cell>, before: seq<Cell>, cells: seq<Cell>, i: nat, done: Nodes, kv: Kv, at: nat)
    requires Copied(old_, before, i, done, at)
    requires var a := i + Size(done);
      && |cells| == |before|
      && (forall b | 0 <= b < |cells| && !(a <= b < a + SizeOne(kv)) :: cells[b] == before[b])
      && SameShape(before, cells, a, a + SizeOne(kv))
      && PlacedOne(cells, a, kv, at + Bytes(done))
    ensures Copied(old_, cells, i, Append(done, Cons(kv, Nil)), at)
  {
    hide PlacedOne, Placed, Append, Size, SizeOne, Bytes, Len, Last, First, SameShape;
    var a, one := i + Size(done), Cons(kv, Nil);
    SizeAppend(done, one);
    LastOfOne(kv, a);
    ShapeStep(old_, before, cells, i, a, a + SizeOne(kv));
    PlacedFrame(before, cells, i, done, at);
    PlacedSingle(cells, a, kv, at + Bytes(done));
    PlacedAppend(cells, i, done, one, at);
  }

  /** Changing only strings, first in [i, a) and then in [a, e), changes only strings in [i, e). */
  lemma ShapeStep(old_: seq<Cell>, before: seq<Cell>, cells: seq<Cell>, i: nat, a: nat, e: nat)
    requires i <= a <= e && |old_| == |before| == |cells|
    requires SameShape(old_, before, i, a) && SameShape(before, cells, a, e)
    requires forall b | 0 <= b < |cells| && !(i <= b < a) :: before[b] == old_[b]
    requires forall b | 0 <= b < |cells| && !(a <= b < e) :: cells[b] == before[b]
    ensures SameShape(old_, cells, i, e)
    ensures forall b | 0 <= b < |cells| && !(i <= b < e) :: cells[b] == old_[b]
  {}

  lemma PlacedSingle(cells: seq<Cell>, i: nat, kv: Kv, at: nat)
    requires PlacedOne(cells, i, kv, at)
    ensures Placed(cells, i, Cons(kv, Nil), at)
  {}

  lemma CopyBegins(s: string, at: nat, ns: Nodes)
    requires at + Bytes(ns) <= |s|
    ensures s == Replaced(s, at, Flat(Nil)) && Append(Nil, ns) == ns
  {}

  /** The next entry's records are still as the parser left them. */
  lemma NextUntouched(str: string, old_: seq<Cell>, cells: seq<Cell>, i: nat, n: nat, done: Nodes,
                      kv: Kv, t: Nodes, at: nat)
    requires Copied(old_, cells, i, done, at)
    requires Segment(Heap(old_, str, ""), i + Size(done), Cons(kv, t), Null)
    requires n == Size(done) + SizeOne(kv) + Size(t) && i + n <= |old_| && AllInput(str, old_, i, i + n)
    ensures var a := i + Size(done);
      && |cells| == |old_| && a < |cells|
      && CellIs(Heap(cells, str, ""), a, kv) && AllInput(str, cells, a, a + SizeOne(kv))
      && old_[a].next == First(t, a + SizeOne(kv))
      && Segment(Heap(old_, str, ""), a + SizeOne(kv), t, Null)
  {
    hide Segment, CellIs, Placed, SameShape, InInput, Size, SizeOne;
    var h, h', a := Heap(old_, str, ""), Heap(cells, str, ""), i + Size(done);
    HeadOf(h, a, kv, t);
    assert Same(h, h', a, a + SizeOne(kv));
    CellFrame(h, h', a, kv);
  }

  lemma HeadOf(h: Heap, a: nat, kv: Kv, t: Nodes)
    requires Segment(h, a, Cons(kv, t), Null)
    ensures a < |h.cells| && CellIs(h, a, kv) && h.cells[a].next == First(t, a + SizeOne(kv))
    ensures Segment(h, a + SizeOne(kv), t, Null)
  {}

  /** Moving one entry from the rest to the done ones. */
  lemma MoveOne(done: Nodes, kv: Kv, t: Nodes)
    ensures Append(done, Cons(kv, t)) == Append(Append(done, Cons(kv, Nil)), t)
    ensures Len(Append(done, Cons(kv, Nil))) == Len(done) + 1
    ensures Size(Append(done, Cons(kv, Nil))) == Size(done) + SizeOne(kv)
    ensures Bytes(Append(done, Cons(kv, Nil))) == Bytes(done) + BytesOne(kv)
    ensures Flat(Append(done, Cons(kv, Nil))) == Flat(done) + FlatOne(kv)
  {
    AppendAssoc(done, Cons(kv, Nil), t);
    SizeAppend(done, Cons(kv, Nil));
    FlatAppend(done, Cons(kv, Nil));
    assert Flat(Cons(kv, Nil)) == FlatOne(kv);
  }

  lemma {:induction false} RestSmaller(done: Nodes, rest: Nodes)
    requires rest.Cons?
    ensures rest.head < Append(done, rest)
  {
    if done.Cons? {
      RestSmaller(done.tail, rest);
    }
  }

  /** The sizes of a list that still has entries left. */
  lemma RestSizes(done: Nodes, rest: Nodes)
    ensures Len(Append(done, rest)) == Len(done) + Len(rest)
    ensures Size(Append(done, rest)) == Size(done) + Size(rest)
    ensures Bytes(Append(done, rest)) == Bytes(done) + Bytes(rest)
    ensures Len(rest) == 0 <==> rest == Nil
    ensures Size(Append(done, rest)) >= Size(done) && Bytes(Append(done, rest)) >= Bytes(done)
  {
    SizeAppend(done, rest);
  }

  /** Copying an entry keeps its link to the next one. */
  lemma NextKept(before: seq<Cell>, cells: seq<Cell>, old_: seq<Cell>, i: nat, done: Nodes, kv: Kv, at: nat)
    requires Copied(old_, before, i, done, at)
    requires SameShape(before, cells, i + Size(done), i + Size(done) + SizeOne(kv)) && i + Size(done) < |cells|
    ensures cells[i + Size(done)].next == old_[i + Size(done)].next
  {}

  /** A block without entries has nothing to copy. */
  lemma ChildlessBlock(cells: seq<Cell>, i: nat, cs: Nodes, at: nat, s: string)
    ensures Len(cs) == 0 ==> cs == Nil
    ensures cs == Nil ==> Placed(cells, i + 1, cs, at) && Flat(cs) == "" && Bytes(cs) == 0
    ensures cs == Nil && at <= |s| ==> Replaced(s, at, Flat(cs)) == s
  {}

  lemma CopiedChildren(before: seq<Cell>, cells: seq<Cell>, i: nat, cs: Nodes, at: nat)
    requires Copied(before, cells, i + 1, cs, at) && i < |before|
    ensures |cells| == |before| && cells[i] == before[i] && Placed(cells, i + 1, cs, at)
    ensures SameShape(before, cells, i, i + 1 + Size(cs))
    ensures forall b | 0 <= b < |cells| && !(i <= b < i + 1 + Size(cs)) :: cells[b] == before[b]
  {}

  /** An entry's bytes in two steps. */
  lemma EntryWritten(s: string, at: nat, kv: Kv)
    requires at + BytesOne(kv) <= |s|
    ensures kv.Pair? ==>
      Replaced(Replaced(s, at, kv.key + [NUL]), at + |kv.key| + 1, kv.value + [NUL]) == Replaced(s, at, FlatOne(kv))
    ensures kv.Block? ==>
      Replaced(Replaced(s, at, kv.key + [NUL]), at + |kv.key| + 1, Flat(kv.children)) == Replaced(s, at, FlatOne(kv))
  {
    if kv.Pair? {
      WrittenTwice(s, at, kv.key + [NUL], kv.value + [NUL]);
    } else {
      WrittenTwice(s, at, kv.key + [NUL], Flat(kv.children));
    }
  }
}
