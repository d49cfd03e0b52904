/** What a parsed root holds, and the steps of solidifying, looking up and printing it. */
module KvSolid {
  import opened KvText
  import opened KvMemory
  import opened KvStrings
  import opened KvBuild
  import opened Texts

  // ---- What a root holds

  /** Where the last children lie: among the records, but once solid only among those that are gone. */
  function LastsEnd(h: Heap, solid: bool, floor: nat): nat
  {
    if solid then floor else |h.cells|
  }

  /**
    The record at a has the entries ns below it: reachable over next pointers through records at or
    above floor only, and once solid also standing side by side in an array.
   */
  ghost predicate Contains(h: Heap, solid: bool, floor: nat, a: nat, ns: Nodes)
  {
    && a < |h.cells| && floor <= |h.cells|
    && AllSound(h.cells, h.buffer, LastsEnd(h, solid, floor), floor, |h.cells|)
    && if !h.cells[a].hasChildren then ns == Nil
       else
         && h.cells[a].childCount == Len(ns)
         && ListAt(h, h.cells[a].children, ns, floor, |h.cells|)
         && (solid && ns != Nil ==> h.cells[a].children.To? && ArrayAt(h, h.cells[a].children.addr, ns, floor))
  }

  /** The record at a is the entry kv. */
  ghost predicate IsEntry(h: Heap, solid: bool, floor: nat, a: nat, kv: Kv)
  {
    && floor <= a && AllSound(h.cells, h.buffer, LastsEnd(h, solid, floor), floor, |h.cells|)
    && NodeAt(h, a, kv, floor, |h.cells|)
    && (solid ==> ElementAt(h, a, kv, floor))
  }

  function Below(kv: Kv): Nodes
  {
    match kv
    case Pair(_, _) => Nil
    case Block(_, cs) => cs
  }

  /** So the record of an entry that was found can be searched and printed in turn. */
  lemma EntryContains(h: Heap, solid: bool, floor: nat, a: nat, kv: Kv)
    requires IsEntry(h, solid, floor, a, kv)
    ensures Contains(h, solid, floor, a, Below(kv))
  {
    hide CellSound;
  }

  /** After the strings have been copied out, the records hold the entries without the parsed text. */
  lemma CopiedContains(str: string, old_: seq<Cell>, cells: seq<Cell>, buffer: string, ns: Nodes)
    requires |old_| == 1 + Size(ns) && old_[0].hasChildren && old_[0].childCount == Len(ns)
    requires old_[0].children == First(ns, 1) && Segment(Heap(old_, str, ""), 1, ns, Null)
    requires Copied(old_, cells, 1, ns, 0) && Stands(buffer, 0, Flat(ns)) && NoNuls(ns)
    ensures Contains(Heap(cells, "", buffer), false, 1, 0, ns) && Segment(Heap(cells, "", buffer), 1, ns, Null)
  {
    hide Segment, Placed, Flat, NoNuls, CellSound;
    var h := Heap(cells, "", buffer);
    PlacedIsSegment(Heap(old_, str, ""), h, 1, ns, Null, 0);
    PlacedSound(h, 1, ns, Null, 0, |cells|);
    SegmentIsList(h, 1, ns, 1, |cells|);
  }

  /** The root right after parsing. */
  lemma ParsedRoot(str: string, old_: seq<Cell>, cells: seq<Cell>, ns: Nodes)
    requires |old_| == 1 && old_[0].hasChildren && Built(str, old_, cells, 0, ns)
    ensures |cells| == 1 + Size(ns) && cells[0].hasChildren && cells[0].childCount == Len(ns)
    ensures cells[0].children == First(ns, 1) && Segment(Heap(cells, str, ""), 1, ns, Null)
    ensures AllInput(str, cells, 1, 1 + Size(ns)) && (ns != Nil ==> cells[0].lastChild == LastChild(ns, 1))
  {}

  lemma CopiedRoot(old_: seq<Cell>, cells: seq<Cell>, ns: Nodes, at: nat)
    requires Copied(old_, cells, 1, ns, at) && |old_| > 0
    ensures cells[0] == old_[0] && Placed(cells, 1, ns, at)
  {}

  lemma EmptyRoot(h: Heap, solid: bool)
    requires |h.cells| == 1 && h.cells[0].hasChildren && h.cells[0].childCount == 0 && h.cells[0].children == Null
    ensures Contains(h, solid, 1, 0, Nil) && Flat(Nil) == "" && Bytes(Nil) == 0 && Placed(h.cells, 1, Nil, 0)
    ensures Segment(h, 1, Nil, Null)
  {}

  /** A text whose strings take no bytes has no entries. */
  lemma NoBytes(ns: Nodes)
    requires Bytes(ns) == 0
    ensures ns == Nil
  {}

  // ---- Solidifying

  /** Record i of the new array is done; nothing the earlier records rest on has changed. */
  lemma SolidifyStep(h: Heap, h': Heap, base: nat, ns: Nodes, i: nat, lo: nat)
    requires i < Len(ns) && ArrayPrefix(h, base, ns, i, lo)
    requires Same(h, h', lo, |h.cells|) && Same(h, h', base, base + i)
    requires Drop(ns, i).Cons? && ElementAt(h', base + i, Drop(ns, i).head, lo)
    requires h'.cells[base + i].next == To(base + i + 1)
    ensures ArrayPrefix(h', base, ns, i + 1, lo)
  {
    PrefixFrame(h, h', base, ns, i, lo);
    PrefixSnoc(h', base, ns, i, lo);
  }

  /** The state of the array being built for self: the first i records, and everything that was there before. */
  ghost predicate Solidifying(old_: seq<Cell>, cells: seq<Cell>, buffer: string, last: nat, self: nat, ns: Nodes,
                              i: nat)
  {
    var base, n := |old_|, Len(ns);
    && self < base && base + n <= |cells| && i <= n
    && (forall a | 0 <= a < base && a != self :: cells[a] == old_[a])
    && cells[self] == old_[self].(children := To(base))
    && ArrayPrefix(Heap(cells, "", buffer), base, ns, i, base + n)
    && AllSound(cells, buffer, last, base, base + i)
    && AllSound(cells, buffer, last, base + n, |cells|)
  }

  /** The array self's children have been moved to. */
  ghost predicate Solid(old_: seq<Cell>, cells: seq<Cell>, buffer: string, last: nat, self: nat, ns: Nodes)
  {
    var base := |old_|;
    && self < base && base <= |cells|
    && (forall a | 0 <= a < base && a != self :: cells[a] == old_[a])
    && cells[self] == old_[self].(children := To(base))
    && ArrayAt(Heap(cells, "", buffer), base, ns, base)
    && AllSound(cells, buffer, last, base, |cells|)
  }

  lemma SolidifyStart(old_: seq<Cell>, cells: seq<Cell>, buffer: string, last: nat, self: nat, ns: Nodes)
    requires self < |old_| && |cells| == |old_| + Len(ns)
    requires forall a | 0 <= a < |old_| && a != self :: cells[a] == old_[a]
    requires cells[self] == old_[self].(children := To(|old_|))
    ensures Solidifying(old_, cells, buffer, last, self, ns, 0)
  {}

  /** A pair, or an empty block, is finished by copying its record. */
  lemma CopiedElement(h: Heap, h': Heap, a: nat, p: nat, kv: Kv, lo: nat, hi: nat, floor: nat)
    requires NodeAt(h, a, kv, lo, hi) && h.input == h'.input && h.buffer == h'.buffer
    requires p < |h'.cells| && h'.cells[p] == h.cells[a].(next := h'.cells[p].next)
    requires kv.Block? ==> kv.children == Nil
    ensures ElementAt(h', p, kv, floor)
  {}

  /** A block is finished by copying its record and moving its children to an array. */
  lemma MovedElement(h: Heap, h': Heap, a: nat, p: nat, kv: Kv, lo: nat, hi: nat, q: nat, floor: nat)
    requires NodeAt(h, a, kv, lo, hi) && h.input == h'.input && h.buffer == h'.buffer
    requires p < |h'.cells| && h'.cells[p] == h.cells[a].(children := To(q), next := h'.cells[p].next)
    requires kv.Block? && kv.children != Nil && floor <= q && ArrayAt(h', q, kv.children, q)
    ensures ElementAt(h', p, kv, floor)
  {
    ArrayLower(h', q, kv.children, q, floor);
  }

  /** Changing only the next pointer of a record below its contents keeps its element. */
  lemma NextElement(h: Heap, h': Heap, p: nat, kv: Kv, lo: nat)
    requires ElementAt(h, p, kv, lo) && p < lo && |h'.cells| == |h.cells|
    requires h'.input == h.input && h'.buffer == h.buffer
    requires forall a | 0 <= a < |h.cells| && a != p :: h'.cells[a] == h.cells[a]
    requires h'.cells[p] == h.cells[p].(next := h'.cells[p].next)
    ensures ElementAt(h', p, kv, lo)
  {
    ElementFrame(h, h', p, kv, lo);
  }

  lemma SolidifyTurn(old_: seq<Cell>, cells: seq<Cell>, cells': seq<Cell>, buffer: string, last: nat, self: nat,
                     ns: Nodes, i: nat)
    requires Solidifying(old_, cells, buffer, last, self, ns, i) && i < Len(ns) && |cells| <= |cells'|
    requires var base, n := |old_|, Len(ns);
      && (forall a | 0 <= a < |cells| && a != base + i :: cells'[a] == cells[a])
      && Drop(ns, i).Cons? && ElementAt(Heap(cells', "", buffer), base + i, Drop(ns, i).head, base + n)
      && cells'[base + i].next == To(base + i + 1)
      && CellSound(buffer, last, cells'[base + i])
      && AllSound(cells', buffer, last, |cells|, |cells'|)
    ensures Solidifying(old_, cells', buffer, last, self, ns, i + 1)
  {
    hide ElementAt, ArrayPrefix, CellSound;
    var base, n := |old_|, Len(ns);
    SolidifyStep(Heap(cells, "", buffer), Heap(cells', "", buffer), base, ns, i, base + n);
  }

  lemma SolidifyEnd(old_: seq<Cell>, cells: seq<Cell>, buffer: string, last: nat, self: nat, ns: Nodes)
    requires ns != Nil && Solidifying(old_, cells, buffer, last, self, ns, Len(ns))
    ensures var l := |old_| + Len(ns) - 1;
      l < |cells| && Solid(old_, cells[l := cells[l].(next := Null)], buffer, last, self, ns)
  {
    hide ArrayPrefix, Terminated;
    var base, n := |old_|, Len(ns);
    var l := base + n - 1;
    var h := Heap(cells, "", buffer);
    var cells' := cells[l := cells[l].(next := Null)];
    assert h.(cells := cells') == Heap(cells', "", buffer);
    PrefixEnds(h, Heap(cells', "", buffer), base, ns, base + n);
    ArrayLower(Heap(cells', "", buffer), base, ns, base + n, base);
  }

  lemma DropNone(ns: Nodes)
    ensures Drop(ns, 0) == ns
  {}

  /** The list being copied is not written. */
  lemma SolidifyKeeps(old_: seq<Cell>, cells: seq<Cell>, buffer: string, last: nat, self: nat, ns: Nodes, i: nat,
                      lo: nat, hi: nat, a: nat)
    requires Solidifying(old_, cells, buffer, last, self, ns, i) && !(lo <= self < hi) && hi <= |old_| && lo <= a < hi
    ensures |old_| + Len(ns) <= |cells| && cells[a] == old_[a]
    ensures forall b | lo <= b < hi :: cells[b] == old_[b]
  {}

  lemma NodeParts(h: Heap, a: nat, kv: Kv, lo: nat, hi: nat)
    requires NodeAt(h, a, kv, lo, hi)
    ensures a < |h.cells| && h.cells[a].hasChildren == kv.Block?
    ensures kv.Block? ==>
      && h.cells[a].childCount == Len(kv.children) && (Len(kv.children) == 0 <==> kv.children == Nil)
      && ListAt(h, h.cells[a].children, kv.children, lo, hi)
  {
    hide ListAt;
  }

  lemma SolidParts(old_: seq<Cell>, cells: seq<Cell>, buffer: string, last: nat, self: nat, ns: Nodes)
    requires Solid(old_, cells, buffer, last, self, ns)
    ensures self < |old_| <= |cells| && (forall a | 0 <= a < |old_| && a != self :: cells[a] == old_[a])
    ensures cells[self] == old_[self].(children := To(|old_|))
    ensures ArrayAt(Heap(cells, "", buffer), |old_|, ns, |old_|) && AllSound(cells, buffer, last, |old_|, |cells|)
  {}

  lemma CopySound(buffer: string, last: nat, c: Cell, c': Cell)
    requires CellSound(buffer, last, c) && c'.key == c.key && c'.value == c.value && c'.hasChildren == c.hasChildren
    requires c'.lastChild == c.lastChild
    ensures CellSound(buffer, last, c')
  {}

  /** The root after its children, if any, have been solidified. */
  lemma SolidContains(old_: seq<Cell>, cells: seq<Cell>, buffer: string, ns: Nodes)
    requires |old_| > 0 && old_[0].hasChildren && old_[0].childCount == Len(ns)
    requires if ns == Nil then cells == old_ && cells[0].children == Null else Solid(old_, cells, buffer, |old_|, 0, ns)
    ensures |cells| > 0 && cells[0].hasChildren && Contains(Heap(cells, "", buffer), true, |old_|, 0, ns)
  {
    if ns != Nil {
      ArrayIsList(Heap(cells, "", buffer), |old_|, ns, |old_|);
    }
  }

  // ---- Looking up

  /** Following next n times from the first record of a list. */
  lemma {:induction false} ListStep(h: Heap, p: Ptr, ns: Nodes, lo: nat, hi: nat)
    requires ListAt(h, p, ns, lo, hi) && ns != Nil
    ensures p.To? && lo <= p.addr < hi && p.addr < |h.cells|
    ensures NodeAt(h, p.addr, ns.head, lo, hi)
    ensures ListAt(h, h.cells[p.addr].next, ns.tail, lo, hi)
  {}

  /** The record at index n of an array. */
  lemma {:induction false} ArrayIndex(h: Heap, p: nat, ns: Nodes, lo: nat, n: nat)
    requires ArrayAt(h, p, ns, lo) && n < Len(ns)
    ensures p + n < |h.cells| && ElementAt(h, p + n, Nth(ns, n), lo)
    decreases ns
  {
    if n > 0 {
      ArrayIndex(h, p + 1, ns.tail, lo, n - 1);
    }
  }

  /** The record a list walk stands on. */
  lemma NthOfList(h: Heap, p: Ptr, ns: Nodes, n: nat, lo: nat, hi: nat)
    requires n < Len(ns) && ListAt(h, p, Drop(ns, n), lo, hi)
    ensures p.To? && p.addr < |h.cells| && NodeAt(h, p.addr, Nth(ns, n), lo, hi)
    ensures ListAt(h, h.cells[p.addr].next, Drop(ns, n + 1), lo, hi)
  {
    hide ListAt, NodeAt;
    DropLen(ns, n);
    DropIsNth(ns, n);
    ListStep(h, p, Drop(ns, n), lo, hi);
  }

  /** The record reached by index, and its key as strcasecmp reads it. */
  lemma IndexedEntry(h: Heap, solid: bool, floor: nat, a: nat, ns: Nodes, n: nat, p: Ptr)
    requires Contains(h, solid, floor, a, ns) && n < Len(ns) && p.To?
    requires if solid then
               h.cells[a].hasChildren && h.cells[a].children.To? && p == To(h.cells[a].children.addr + n)
               && ElementAt(h, p.addr, Nth(ns, n), floor)
             else NodeAt(h, p.addr, Nth(ns, n), floor, |h.cells|)
    ensures p.addr < |h.cells| && IsEntry(h, solid, floor, p.addr, Nth(ns, n))
    ensures CString(h.buffer, h.cells[p.addr].key.offset) == Nth(ns, n).key
  {
    hide ArrayAt, Nth, CString;
    if solid {
      ElementIsNode(h, p.addr, Nth(ns, n), floor);
    }
  }

  /** What a client reads of an entry that was looked up: its strings, or its key and what is printed below it. */
  datatype Answer = Missing | FoundPair(key: string, value: string) | FoundBlock(key: string, text: string)

  /** The answer for the n-th of some entries. */
  function AnswerOf(ns: Nodes, n: nat): Answer
  {
    if n >= Len(ns) then Missing
    else
      match Nth(ns, n)
      case Pair(k, v) => FoundPair(k, v)
      case Block(k, cs) => FoundBlock(k, Clip(Print(cs, 0), CountedLength(cs, 0)))
  }

  /** An entry's strings, as C strings. */
  lemma EntryStrings(h: Heap, solid: bool, floor: nat, a: nat, kv: Kv)
    requires IsEntry(h, solid, floor, a, kv)
    ensures a < |h.cells| && h.cells[a].hasChildren == kv.Block?
    ensures CString(h.buffer, h.cells[a].key.offset) == kv.key
    ensures kv.Pair? ==> CString(h.buffer, h.cells[a].value.offset) == kv.value
  {
    hide CString, ListAt, ElementAt;
  }

  // ---- Printing into a bounded buffer

  /** The strings of entries that are held contain no terminator. */
  lemma {:induction false} ListNoNuls(h: Heap, p: Ptr, ns: Nodes, lo: nat, hi: nat, last: nat)
    requires ListAt(h, p, ns, lo, hi) && AllSound(h.cells, h.buffer, last, lo, hi)
    ensures NoNuls(ns)
    decreases ns, 0
  {
    match ns
    case Nil =>
    case Cons(kv, t) =>
      NodeNoNuls(h, p.addr, kv, lo, hi, last);
      ListNoNuls(h, h.cells[p.addr].next, t, lo, hi, last);
  }

  lemma {:induction false} NodeNoNuls(h: Heap, a: nat, kv: Kv, lo: nat, hi: nat, last: nat)
    requires NodeAt(h, a, kv, lo, hi) && AllSound(h.cells, h.buffer, last, lo, hi)
    ensures NoNulsOne(kv)
    decreases kv, 1
  {
    hide CString;
    CStringNoNul(h.buffer, h.cells[a].key.offset);
    match kv
    case Pair(_, _) => CStringNoNul(h.buffer, h.cells[a].value.offset);
    case Block(_, cs) => ListNoNuls(h, h.cells[a].children, cs, lo, hi, last);
  }

  lemma {:induction false} CStringNoNul(b: string, o: nat)
    ensures NoNul(CString(b, o))
    decreases |b| - o
  {
    if o < |b| && b[o] != NUL {
      CStringNoNul(b, o + 1);
    }
  }

  /** Writing two texts one after the other, each clipped, is writing their concatenation clipped. */
  lemma ClipTwice(s: string, at: nat, t: string, u: string, room: nat)
    requires at + room <= |s|
    ensures var c := Clip(t, room);
      Replaced(Replaced(s, at, c), at + |c|, Clip(u, room - |c|)) == Replaced(s, at, Clip(t + u, room))
  {
    var c := Clip(t, room);
    var d := Clip(u, room - |c|);
    WrittenTwice(s, at, c, d);
    assert c + d == Clip(t + u, room);
  }
  /** Where printing began: the destination then, the position, and the room. */
  datatype Output = Output(dest: string, at: nat, room: nat)

  /** Of the text given so far as much as there was room for has been written; what is left is at and room. */
  ghost predicate Printed(o: Output, dest: string, text: string, at: nat, room: nat)
  {
    var c := Clip(text, o.room);
    o.at + o.room <= |o.dest| && dest == Replaced(o.dest, o.at, c) && at == o.at + |c| && room == o.room - |c|
  }

  lemma PrintedStart(o: Output)
    requires o.at + o.room <= |o.dest|
    ensures Printed(o, o.dest, "", o.at, o.room)
  {}

  lemma PrintedFits(o: Output, dest: string, text: string, at: nat, room: nat)
    requires Printed(o, dest, text, at, room)
    ensures at + room <= |dest|
  {}

  lemma PrintedStep(o: Output, dest: string, text: string, at: nat, room: nat, src: string)
    requires Printed(o, dest, text, at, room)
    ensures var c := Clip(src, room);
      at + |c| <= |dest| && Printed(o, Replaced(dest, at, c), text + src, at + |c|, room - |c|)
  {
    ClipTwice(o.dest, o.at, text, src, o.room);
    hide Replaced;
    assert |Clip(text + src, o.room)| == |Clip(text, o.room)| + |Clip(src, room)|;
  }

  lemma PrintedEnds(o: Output, dest: string, text: string, at: nat, room: nat)
    requires Printed(o, dest, text, at, room)
    ensures o.at + o.room <= |o.dest| && (room > 0 <==> |text| < o.room) && at + room <= |dest|
    ensures room > 0 ==> dest[at := NUL] == Replaced(o.dest, o.at, text + [NUL])
    ensures room == 0 ==> dest == Replaced(o.dest, o.at, text[..o.room])
  {
    if room == 0 {
      assert Clip(text, o.room) == text[..o.room];
    }
  }

  lemma {:induction false} TabsStep(text: string, i: nat)
    ensures (text + Tabs(i)) + "    " == text + Tabs(i + 1)
  {
    TabsSnoc(i);
    assert (text + Tabs(i)) + "    " == text + (Tabs(i) + "    ");
  }

  lemma {:induction false} TabsSnoc(i: nat)
    ensures Tabs(i) + "    " == Tabs(i + 1)
  {
    if i > 0 {
      TabsSnoc(i - 1);
      assert Tabs(i) + "    " == "    " + (Tabs(i - 1) + "    ");
    } else {
      assert Tabs(0) + "    " == "    " + Tabs(0);
    }
  }

  lemma AppendToNil(ns: Nodes)
    ensures Append(Nil, ns) == ns
  {}

  lemma NextOfList(h: Heap, p: Ptr, ns: Nodes, lo: nat, hi: nat)
    requires p.To? && ListAt(h, p, ns, lo, hi)
    ensures ns.Cons? && p.addr < |h.cells| && NodeAt(h, p.addr, ns.head, lo, hi)
    ensures ListAt(h, h.cells[p.addr].next, ns.tail, lo, hi)
  {
    hide NodeAt;
  }

  lemma EndOfList(h: Heap, ns: Nodes, lo: nat, hi: nat)
    ensures ListAt(h, Null, ns, lo, hi) ==> ns == Nil
  {
    hide NodeAt;
  }

  /** A record's strings, its children, and their lengths. */
  lemma NodeTexts(h: Heap, a: nat, kv: Kv, lo: nat, hi: nat)
    requires NodeAt(h, a, kv, lo, hi)
    ensures lo <= a < |h.cells| && h.cells[a].hasChildren == kv.Block? && Text(h, h.cells[a].key) == kv.key
    ensures kv.Block? ==> ListAt(h, h.cells[a].children, kv.children, lo, hi)
    ensures kv.Pair? ==> Text(h, h.cells[a].value) == kv.value
    ensures CellTerminated(h.buffer, h.cells[a]) ==> h.cells[a].key.length == |kv.key|
    ensures CellTerminated(h.buffer, h.cells[a]) && kv.Pair? ==> h.cells[a].value.length == |kv.value|
  {
    hide ListAt;
  }

  lemma PrintStep(text: string, done: Nodes, kv: Kv, tabs: nat)
    ensures (text + Print(done, tabs)) + PrintOne(kv, tabs) == text + Print(Append(done, Cons(kv, Nil)), tabs)
  {
    PrintSnoc(done, kv, tabs);
    assert (text + Print(done, tabs)) + PrintOne(kv, tabs) == text + (Print(done, tabs) + PrintOne(kv, tabs));
  }

  lemma {:induction false} PrintSnoc(done: Nodes, kv: Kv, tabs: nat)
    ensures Print(Append(done, Cons(kv, Nil)), tabs) == Print(done, tabs) + PrintOne(kv, tabs)
    decreases done
  {
    hide PrintOne;
    match done
    case Nil => assert Print(Cons(kv, Nil), tabs) == PrintOne(kv, tabs) + Print(Nil, tabs);
    case Cons(h, t) => PrintSnoc(t, kv, tabs);
  }

  lemma PairText(text: string, tabs: string, k: string, v: string)
    ensures ((((((text + tabs) + "\"") + k) + "\" ") + "\"") + v) + "\"\n"
      == text + (tabs + Quoted(k) + " " + (Quoted(v) + "\n"))
  {}

  lemma BlockText(text: string, tabs: string, k: string, inner: string)
    ensures ((((((((((text + tabs) + "\"") + k) + "\" ") + "\n") + tabs) + "{\n") + inner) + "\n") + tabs) + "}\n"
      == text + (tabs + Quoted(k) + " " + ("\n" + tabs + "{\n" + inner + "\n" + tabs + "}\n"))
  {
    var open, close := "\n" + tabs + "{\n", "\n" + tabs + "}\n";
    var head := tabs + Quoted(k) + " ";
    assert (((text + tabs) + "\"") + k) + "\" " == text + head;
    assert (((text + head) + "\n") + tabs) + "{\n" == text + (head + open);
    assert "\n" + tabs + "{\n" + inner + "\n" + tabs + "}\n" == open + inner + close;
    assert (((text + (head + open) + inner) + "\n") + tabs) + "}\n" == text + (head + (open + inner + close));
  }

  lemma CountedNil(tabs: nat)
    ensures CountedLength(Nil, tabs) == 0
  {}

  lemma {:induction false} CountedStep(done: Nodes, kv: Kv, tabs: nat)
    ensures CountedLength(Append(done, Cons(kv, Nil)), tabs) == CountedLength(done, tabs) + CountedOne(kv, tabs)
    decreases done
  {
    match done
    case Nil =>
    case Cons(h, t) => CountedStep(t, kv, tabs);
  }

  /** The C string in a buffer filled with a text, cut at length. */
  lemma ClippedReads(b: string, t: string, length: nat)
    requires |b| == length + 1 && NoNul(t) && b[length] == NUL
    requires if |t| <= length then b[..|t|] == t && b[|t|] == NUL else b[..length] == t[..length]
    ensures CString(b, 0) == Clip(t, length)
  {
    var c := Clip(t, length);
    assert b[0..|c| + 1] == c + [NUL];
    CStringAt(b, 0, c);
  }
}
