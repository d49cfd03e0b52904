/** The key-value root: parsing into records, copying the strings out, solidifying, looking up and printing. */
module KvRoot {
  import opened Arith
  import opened KvText
  import opened KvMemory
  import opened KvStrings
  import opened KvScan
  import opened KvBuild
  import opened KvCut
  import opened KvSolid
  import opened Texts

  /** What one turn of the parse loop came to. */
  datatype Turn = Ends | Fails(error: ErrorCode) | Adds

  /** The turn that started at pos and stopped at p is right about what stands there. */
  predicate TurnGives(turn: Turn, whole: ParseResult, str: string, isRoot: bool, pos: nat, p: nat, bytes: int, kv: Kv)
  {
    match turn
    case Fails(error) => error != NoError && whole == Failed(error, p)
    case Ends => bytes >= 0 && whole == ParseResult(NoError, Nil, p, bytes)
    case Adds => bytes >= 0 && pos < p <= |str| && whole == Prepend(kv, bytes, ParseList(str, p, isRoot))
  }

  class KeyValueRoot {
    /** The records; the root itself is the record at address 0. */
    var cells: seq<Cell>
    var bufferSize: nat
    var stringBuffer: array<char>
    var solidified: bool
    /** The records of the entries are at this address or above; what lies below, but for the root, is gone. */
    ghost var floor: nat

    function Memory(): Heap
      reads this, stringBuffer
    {
      Heap(cells, "", stringBuffer[..])
    }

    /** The record at a has the entries ns below it. */
    ghost predicate Contents(a: nat, ns: Nodes)
      reads this, stringBuffer
    {
      Contains(Memory(), solidified, floor, a, ns)
    }

    /** The record at a is the entry kv. */
    ghost predicate Entry(a: nat, kv: Kv)
      reads this, stringBuffer
    {
      IsEntry(Memory(), solidified, floor, a, kv)
    }

    /** Nothing has been parsed yet. */
    ghost predicate Unused()
      reads this
    {
      && |cells| == 1 && cells[0].hasChildren && cells[0].children == Null && cells[0].childCount == 0
      && bufferSize == 0 && !solidified && floor == 1
    }

    constructor ()
      ensures Unused() && Contents(0, Nil) && fresh(stringBuffer)
    {
      var uninitialised: Cell := *;
      cells := [
        uninitialised.(key := KvString(NullString, 0, 0), hasChildren := true, children := Null, childCount := 0)];
      bufferSize, solidified, floor := 0, false, 1;
      stringBuffer := new char[0];
    }

    // ---- Parsing

    /** Takes the next record of the pool; its contents are whatever was there. */
    method Create() returns (j: nat, ghost garbage: Cell)
      modifies this`cells
      ensures j == old(|cells|) && cells == old(cells) + [garbage]
    {
      var g: Cell := *;
      garbage := g;
      j := |cells|;
      cells := cells + [g];
    }

    method CreateKVPair(key: KvString, value: KvString) returns (j: nat, ghost cell: Cell)
      modifies this`cells
      ensures j == old(|cells|) && cells == old(cells) + [cell]
      ensures cell.key == key && cell.value == value && !cell.hasChildren
    {
      ghost var garbage;
      j, garbage := Create();
      cells := cells[j := cells[j].(key := key, value := value, hasChildren := false)];
      cell := cells[j];
    }

    method ReadToken(str: string, pos: nat) returns (token: Token, p: nat)
      requires pos < |str|
      ensures token == ReadString(str, pos)
      ensures p == if token.Token? then token.next else |str|
    {
      if str[pos] == '"' {
        token, p := ReadQuotedString(str, pos);
      } else {
        token, p := ReadQuotelessString(str, pos);
      }
    }

    /**
      Parses entries into records for the record self, from pos on. It fails, and stops, where the format
      says; without an error the records are exactly what stands there, and bufferSize has grown by the
      bytes of their strings.
     */
    method Parse(str: string, self: nat, pos: nat, isRoot: bool) returns (error: ErrorCode, p: nat)
      requires self < |cells| && pos <= |str|
      requires cells[self].children == Null && cells[self].childCount == 0
      modifies this`cells, this`bufferSize
      ensures error == ParseList(str, pos, isRoot).error && p == ParseList(str, pos, isRoot).pos
      ensures error == NoError ==> var r := ParseList(str, pos, isRoot);
        && bufferSize == old(bufferSize) + r.bytes
        && Built(str, old(cells), cells, self, r.nodes)
      decreases |str| - pos, 2
    {
      hide ParseList, Resume, Building, Built, Fresh, Linked, Finished, Append, ReadItem, Prepend;
      ghost var cells0, bytes0, whole := cells, bufferSize, ParseList(str, pos, isRoot);
      ghost var done: Nodes, bytes: nat := Nil, 0;
      var lastKV := Null;
      p := pos;
      BuildingStart(str, cells, self);
      ResumeNothing(whole);
      while true
        invariant pos <= p <= |str| && bufferSize == bytes0 + bytes && self < |cells|
        invariant Building(str, cells0, cells, self, done, lastKV)
        invariant whole == Resume(done, bytes, ParseList(str, p, isRoot))
        decreases |str| - p
      {
        ghost var rest, before := ParseList(str, p, isRoot), cells;
        if p == |str| {
          ParseEnd(str, isRoot);
          ResumeStops(done, bytes, rest);
          break;
        }
        var turn, j;
        ghost var kv;
        turn, p, j, kv := ParseTurn(str, p, isRoot);
        if turn != Adds {
          ResumeStops(done, bytes, rest);
          if turn.Fails? {
            return turn.error, p;
          }
          break;
        }
        ResumeStep(done, bytes, kv, bufferSize - bytes0 - bytes, ParseList(str, p, isRoot));
        LinkStep(str, cells0, before, cells, self, done, lastKV, kv);
        Link(self, lastKV, j);
        lastKV := To(j);
        done, bytes := Append(done, Cons(kv, Nil)), bufferSize - bytes0;
      }
      FinishStep(str, cells0, cells, self, done, lastKV);
      Finish(self, lastKV);
      error := NoError;
    }

    /** One turn of the loop: the end of the list, an error, or the record of one more entry. */
    method ParseTurn(str: string, pos: nat, isRoot: bool) returns (turn: Turn, p: nat, j: nat, ghost kv: Kv)
      requires pos < |str| && |cells| > 0
      modifies this`cells, this`bufferSize
      ensures TurnGives(turn, ParseList(str, pos, isRoot), str, isRoot, pos, p, bufferSize - old(bufferSize), kv)
      ensures turn == Ends ==> cells == old(cells)
      ensures turn == Adds ==> j == old(|cells|) && Fresh(str, old(cells), cells, kv)
      decreases |str| - pos, 1
    {
      hide ParseList, Fresh, SkipWs, Prepend, ReadValue;
      j := 0;
      kv := Pair("", "");
      ParseStep(str, pos, isRoot);
      p := SkipWhitespace(str, pos);
      if p == |str| {
        return if isRoot then Ends else Fails(IncompleteBlock), p, j, kv;
      }
      if str[p] == '}' {
        p := p + 1;
        return if isRoot then Fails(UnexpectedEndOfBlock) else Ends, p, j, kv;
      }
      if str[p] == '{' {
        return Fails(UnexpectedStartOfBlock), p, j, kv;
      }
      var key;
      key, p := ReadToken(str, p);
      if key.Unclosed? {
        return Fails(IncompleteString), p, j, kv;
      }
      bufferSize := bufferSize + (key.to - key.from) + 1;
      turn, p, j, kv := ParseValue(str, pos, key, isRoot);
    }

    /** The turn goes on behind the key. */
    method ParseValue(str: string, ghost pos: nat, key: Token, isRoot: bool)
      returns (turn: Turn, p: nat, j: nat, ghost kv: Kv)
      requires pos < |str| && |cells| > 0
      requires key.Token? && key.from <= key.to <= |str| && pos < key.next <= |str|
      requires ReadItem(str, pos, isRoot) == ReadValue(str, str[key.from..key.to], key.next, isRoot)
      modifies this`cells, this`bufferSize
      ensures TurnGives(turn, ParseList(str, pos, isRoot), str, isRoot, pos, p,
                        key.to - key.from + 1 + bufferSize - old(bufferSize), kv)
      ensures turn == Ends ==> cells == old(cells)
      ensures turn == Adds ==> j == old(|cells|) && Fresh(str, old(cells), cells, kv)
      decreases |str| - pos, 0
    {
      hide ParseList, Fresh, SkipWs, Prepend, ReadItem;
      j := 0;
      kv := Pair("", "");
      ParseStep(str, pos, isRoot);
      p := SkipWhitespace(str, key.next);
      if p == |str| {
        return if isRoot then Ends else Fails(IncompleteBlock), p, j, kv;
      }
      if str[p] == '}' {
        return Fails(UnexpectedEndOfBlock), p, j, kv;
      }
      if str[p] == '{' {
        var error;
        error, p, j, kv := ParseBlock(str, p + 1, key);
        return if error == NoError then Adds else Fails(error), p, j, kv;
      }
      var value;
      value, p := ReadToken(str, p);
      if value.Unclosed? {
        return Fails(IncompleteString), p, j, kv;
      }
      ghost var cell;
      j, cell := CreateKVPair(KvString(Input, key.from, key.to - key.from),
                              KvString(Input, value.from, value.to - value.from));
      PairFresh(str, old(cells), cell, key, value);
      bufferSize := bufferSize + (value.to - value.from) + 1;
      kv := Pair(str[key.from..key.to], str[value.from..value.to]);
      turn := Adds;
    }

    /** Clears the last record's next and records it as self's last child. */
    method Finish(self: nat, lastKV: Ptr)
      requires self < |cells| && (lastKV.To? ==> lastKV.addr < |cells|)
      modifies this`cells
      ensures cells == Finished(old(cells), self, lastKV)
    {
      if lastKV.To? {
        cells := cells[lastKV.addr := cells[lastKV.addr].(next := Null)];
        cells := cells[self := cells[self].(lastChild := lastKV)];
      }
    }

    /** A block's record, its contents parsed behind it. */
    method ParseBlock(str: string, inside: nat, key: Token) returns (error: ErrorCode, p: nat, j: nat, ghost kv: Kv)
      requires inside <= |str| && |cells| > 0 && key.Token? && key.from <= key.to <= |str|
      modifies this`cells, this`bufferSize
      ensures var inner := ParseList(str, inside, false);
        && error == inner.error && p == inner.pos
        && (error == NoError ==>
            && bufferSize == old(bufferSize) + inner.bytes && j == old(|cells|)
            && kv == Block(str[key.from..key.to], inner.nodes)
            && Fresh(str, old(cells), cells, kv))
      decreases |str| - inside, 3
    {
      hide ParseList, Built, Fresh;
      ghost var before := cells;
      ghost var garbage;
      kv := Block(str[key.from..key.to], ParseList(str, inside, false).nodes);
      j, garbage := Create();
      cells := cells[j := cells[j].(children := Null, lastChild := Null, childCount := 0)];
      ghost var cell := cells[j];
      assert cells == before + [cell];
      error, p := Parse(str, j, inside, false);
      if error != NoError {
        return;
      }
      BlockFresh(str, before, cell, cells, key, kv.children);
      cells := cells[j := cells[j].(hasChildren := true, key := KvString(Input, key.from, key.to - key.from))];
    }

    /** Counts the record at j among self's children and links it behind the last one. */
    method Link(self: nat, lastKV: Ptr, j: nat)
      requires self < |cells| && (lastKV.To? ==> lastKV.addr < |cells|)
      modifies this`cells
      ensures cells == Linked(old(cells), self, lastKV, j)
    {
      cells := cells[self := cells[self].(childCount := cells[self].childCount + 1)];
      if lastKV.To? {
        cells := cells[lastKV.addr := cells[lastKV.addr].(next := To(j))];
      } else {
        cells := cells[self := cells[self].(children := To(j))];
      }
    }

    // ---- Copying every string into the root's buffer

    /** memcpy of a parsed string, and the terminator behind it. */
    method CopyString(str: string, s: KvString, dest: array<char>, at: nat)
      requires s.place == Input && s.offset + s.length <= |str| && at + s.length + 1 <= dest.Length
      modifies dest
      ensures dest[..] == Replaced(old(dest[..]), at, str[s.offset..s.offset + s.length] + [NUL])
    {
      forall k | 0 <= k < s.length {
        dest[at + k] := str[s.offset + k];
      }
      dest[at + s.length] := NUL;
    }

    /**
      Copies the strings of self's entries into dest from at on, in order, and makes the records point
      at the copies. i and ns say which records and entries they are.
     */
    method BuildData(str: string, self: nat, dest: array<char>, at: nat, ghost i: nat, ghost ns: Nodes)
      returns (end: nat)
      requires self < |cells| && cells[self].children == First(ns, i) && cells[self].childCount == Len(ns)
      requires Segment(Heap(cells, str, ""), i, ns, Null) && i + Size(ns) <= |cells|
      requires AllInput(str, cells, i, i + Size(ns)) && at + Bytes(ns) <= dest.Length
      modifies this`cells, dest
      ensures end == at + Bytes(ns)
      ensures Copied(old(cells), cells, i, ns, at)
      ensures dest[..] == Replaced(old(dest[..]), at, Flat(ns))
      decreases ns, 0
    {
      hide Segment, CellIs, Copied, Append, Flat, Replaced, Placed, PlacedOne, SameShape, AllInput;
      ghost var cells0, dest0 := cells, dest[..];
      ghost var done: Nodes, rest: Nodes := Nil, ns;
      ghost var a := i;
      var current := cells[self].children;
      var count := cells[self].childCount;
      end := at;
      CopiedStart(cells, i, at);
      CopyBegins(dest0, at, ns);
      for k := 0 to count
        invariant k == Len(done) && Append(done, rest) == ns && a == i + Size(done)
        invariant current == First(rest, a) && end == at + Bytes(done) && end + Bytes(rest) <= |dest0|
        invariant Segment(Heap(cells0, str, ""), a, rest, Null)
        invariant Copied(cells0, cells, i, done, at)
        invariant dest[..] == Replaced(dest0, at, Flat(done))
      {
        RestSizes(done, rest);
        ghost var kv, t, before := rest.head, rest.tail, cells;
        RestSmaller(done, rest);
        NextUntouched(str, cells0, cells, i, Size(ns), done, kv, t, at);
        end := CopyEntry(str, current.addr, dest, end, kv);
        CopyStep(cells0, before, cells, i, done, kv, at);
        MoveOne(done, kv, t);
        WrittenTwice(dest0, at, Flat(done), FlatOne(kv));
        NextKept(before, cells, cells0, i, done, kv, at);
        current := cells[current.addr].next;
        done, rest, a := Append(done, Cons(kv, Nil)), t, a + SizeOne(kv);
      }
      RestSizes(done, rest);
      AppendNil(done);
    }

    /** Copies the strings of one entry. */
    method CopyEntry(str: string, current: nat, dest: array<char>, at: nat, ghost kv: Kv) returns (end: nat)
      requires CellIs(Heap(cells, str, ""), current, kv) && current + SizeOne(kv) <= |cells|
      requires AllInput(str, cells, current, current + SizeOne(kv)) && at + BytesOne(kv) <= dest.Length
      modifies this`cells, dest
      ensures end == at + BytesOne(kv)
      ensures |cells| == old(|cells|)
      ensures forall b | 0 <= b < |cells| && !(current <= b < current + SizeOne(kv)) :: cells[b] == old(cells)[b]
      ensures SameShape(old(cells), cells, current, current + SizeOne(kv))
      ensures PlacedOne(cells, current, kv, at)
      ensures dest[..] == Replaced(old(dest[..]), at, FlatOne(kv))
      decreases kv, 1
    {
      hide Segment, Copied, Flat, Replaced, Placed, Append;
      ghost var h, dest0 := Heap(cells, str, ""), dest[..];
      var key := cells[current].key;
      CopyString(str, key, dest, at);
      cells := cells[current := cells[current].(key := KvString(Buffer, at, key.length))];
      end := at + key.length + 1;
      if cells[current].hasChildren {
        ghost var cs, before := kv.children, cells;
        SegmentFrame(h, Heap(cells, str, ""), current + 1, cs, Null);
        ChildlessBlock(cells, current, cs, end, dest[..]);
        if cells[current].childCount > 0 {
          end := BuildData(str, current, dest, end, current + 1, cs);
          CopiedChildren(before, cells, current, cs, at + key.length + 1);
        }
      } else {
        var value := cells[current].value;
        CopyString(str, value, dest, end);
        cells := cells[current := cells[current].(value := KvString(Buffer, end, value.length))];
        end := end + value.length + 1;
      }
      EntryWritten(dest0, at, kv);
    }

    /**
      Parses a whole text into an unused root. The entries the text denotes are then held without the
      text: every string lies in its own stretch of one buffer, big enough for all of them.
     */
    method ParseText(str: string) returns (error: ErrorCode, ghost ns: Nodes)
      requires Unused() && NoNul(str)
      modifies this
      ensures error == ParseList(str, 0, true).error && ns == ParseList(str, 0, true).nodes
      ensures error == NoError ==>
        && Contents(0, ns) && cells[0].hasChildren && floor == 1 && !solidified
        && bufferSize == Bytes(ns) + Dropped(str, 0)
        && (bufferSize > 0 ==> fresh(stringBuffer) && stringBuffer.Length == bufferSize)
        && Bytes(ns) <= stringBuffer.Length && stringBuffer[..Bytes(ns)] == Flat(ns) && Placed(cells, 1, ns, 0)
        && Segment(Memory(), 1, ns, Null) && (ns != Nil ==> cells[0].lastChild == LastChild(ns, 1))
    {
      hide ParseList, Built, Segment, Copied, Flat, Placed, NoNuls, AllInput, ListAt, Contains, Bytes, Dropped;
      ghost var cells0 := cells;
      ns := ParseList(str, 0, true).nodes;
      var p;
      error, p := Parse(str, 0, 0, true);
      if error != NoError {
        return;
      }
      ParsedRoot(str, cells0, cells, ns);
      TallyCovers(str, 0, true);
      ParsedNoNuls(str, 0, true);
      ghost var parsed := cells;
      if bufferSize > 0 {
        stringBuffer := new char[bufferSize];
        ghost var garbage := stringBuffer[..];
        p := BuildData(str, 0, stringBuffer, 0, 1, ns);
        WrittenStands(garbage, 0, Flat(ns));
        CopiedContains(str, parsed, cells, stringBuffer[..], ns);
        CopiedRoot(parsed, cells, ns, 0);
      } else {
        NoBytes(ns);
        EmptyRoot(Memory(), false);
      }
    }

    // ---- Solidifying

    /**
      Moves self's children, and theirs, from a list into an array of copies. The list must lie in
      [lo, hi), which nothing here writes.
     */
    method SolidifyNode(self: nat, ghost ns: Nodes, ghost lo: nat, ghost hi: nat, ghost last: nat)
      requires self < |cells| && !(lo <= self < hi) && hi <= |cells|
      requires ns != Nil && cells[self].childCount == Len(ns)
      requires ListAt(Memory(), cells[self].children, ns, lo, hi) && AllSound(cells, stringBuffer[..], last, lo, hi)
      modifies this`cells
      ensures Solid(old(cells), cells, stringBuffer[..], last, self, ns)
      decreases ns, 1
    {
      hide ListAt, NodeAt, Solidifying, Solid, AllSound, Drop;
      ghost var old_, h, base, buffer := cells, Memory(), |cells|, stringBuffer[..];
      var n := cells[self].childCount;
      var newArray := new Cell[n];
      var current := cells[self].children;
      var first := |cells|;
      cells := cells[self := cells[self].(children := To(first))] + newArray[..];
      SolidifyStart(old_, cells, buffer, last, self, ns);
      DropNone(ns);
      for i := 0 to n
        invariant Solidifying(old_, cells, buffer, last, self, ns, i) && stringBuffer[..] == buffer
        invariant ListAt(h, current, Drop(ns, i), lo, hi)
      {
        DropLen(ns, i);
        ListStep(h, current, Drop(ns, i), lo, hi);
        SolidifyKeeps(old_, cells, buffer, last, self, ns, i, lo, hi, current.addr);
        SolidifyElement(self, old_, i, current.addr, first, ns, lo, hi, last);
        current := cells[current.addr].next;
      }
      SolidifyEnd(old_, cells, buffer, last, self, ns);
      cells := cells[first + n - 1 := cells[first + n - 1].(next := Null)];
    }

    /** One turn: copies the record at current to index i of the array, and solidifies its children. */
    method SolidifyElement(ghost self: nat, ghost old_: seq<Cell>, i: nat, current: nat, first: nat,
                           ghost ns: Nodes, ghost lo: nat, ghost hi: nat, ghost last: nat)
      requires first == |old_| && hi <= first && i < Len(ns) && !(lo <= self < hi) && lo <= current < hi
      requires Solidifying(old_, cells, stringBuffer[..], last, self, ns, i) && first + Len(ns) <= |cells|
      requires AllSound(old_, stringBuffer[..], last, lo, hi)
      requires Drop(ns, i).Cons? && Drop(ns, i).head < ns
      requires NodeAt(Heap(old_, "", stringBuffer[..]), current, Drop(ns, i).head, lo, hi)
      requires forall a | lo <= a < hi :: cells[a] == old_[a]
      modifies this`cells
      ensures Solidifying(old_, cells, stringBuffer[..], last, self, ns, i + 1)
      ensures current < |cells| && cells[current] == old_[current]
      decreases ns, 0
    {
      hide ListAt, NodeAt, Solidifying, Solid, ElementAt, CellSound, Drop;
      ghost var h, base, buffer, kv, floor_ := Heap(old_, "", stringBuffer[..]), first + i, stringBuffer[..],
        Drop(ns, i).head, first + Len(ns);
      ghost var before := cells;
      cells := cells[first + i := cells[current]];
      NodeParts(h, current, kv, lo, hi);
      if cells[first + i].hasChildren && cells[first + i].childCount > 0 {
        ghost var copied := cells;
        ListFrame(h, Memory(), h.cells[current].children, kv.children, lo, hi);
        SolidifyNode(first + i, kv.children, lo, hi, last);
        SolidParts(copied, cells, buffer, last, first + i, kv.children);
        MovedElement(h, Memory(), current, first + i, kv, lo, hi, |before|, floor_);
      } else {
        CopiedElement(h, Memory(), current, first + i, kv, lo, hi, floor_);
      }
      ghost var done := Memory();
      cells := cells[first + i := cells[first + i].(next := To(first + i + 1))];
      NextElement(done, Memory(), first + i, kv, floor_);
      CopySound(buffer, last, old_[current], cells[first + i]);
      SolidifyTurn(old_, before, cells, buffer, last, self, ns, i);
    }

    /**
      Solidifies every block. The entries stay what they were at every depth, though no record that
      existed before, but for the root, is needed to reach them any more: the pools can be drained. Only
      lastChild is left alone: in the root and in every copied block it then points at a record that is gone.
     */
    method Solidify(ghost ns: Nodes)
      requires Contents(0, ns) && cells[0].hasChildren && 0 < floor
      modifies this`cells, this`solidified, this`floor
      ensures solidified && Contents(0, ns) && cells[0].hasChildren
      ensures !old(solidified) ==> floor == |old(cells)|
      ensures cells[0].lastChild == old(cells)[0].lastChild
      ensures var last := old(cells)[0].lastChild;
        !old(solidified) && last.To? && last.addr < |old(cells)| ==> last.addr < floor
      ensures forall a | floor <= a < |cells| && cells[a].hasChildren && cells[a].lastChild.To? ::
                cells[a].lastChild.addr < floor
      ensures old(solidified) ==> cells == old(cells) && floor == old(floor)
    {
      if solidified {
        return;
      }
      hide ListAt, Solid, AllSound;
      solidified := true;
      ghost var old_ := cells;
      if cells[0].childCount > 0 {
        SolidifyNode(0, ns, floor, |cells|, |cells|);
      }
      floor := |old_|;
      SolidContains(old_, cells, stringBuffer[..], ns);
    }

    // ---- Looking up

    /**
      The first entry below a whose key differs at most in case, or Null for the invalid entry. On a
      solid root the records are indexed, otherwise the list is followed; the entry found is the same.
     */
    method GetByKey(a: nat, key: string, ghost ns: Nodes) returns (found: Ptr)
      requires Contents(a, ns)
      ensures found == Null <==> FindKey(ns, key) == Len(ns)
      ensures found.To? ==> Entry(found.addr, Nth(ns, FindKey(ns, key)))
    {
      hide ListAt, NodeAt, ArrayAt, ElementAt, Nth, Drop, FindKey, EqualNoCase, CellSound, Terminated;
      FindKeyFirst(ns, key, 0);
      if !cells[a].hasChildren || cells[a].childCount <= 0 {
        return Null;
      }
      var count := cells[a].childCount;
      var current := cells[a].children;
      DropNone(ns);
      for i := 0 to count
        invariant forall m | 0 <= m < i :: !EqualNoCase(Nth(ns, m).key, key)
        invariant !solidified ==> ListAt(Memory(), current, Drop(ns, i), floor, |cells|)
      {
        if solidified {
          ArrayIndex(Memory(), cells[a].children.addr, ns, floor, i);
          found := To(cells[a].children.addr + i);
        } else {
          NthOfList(Memory(), current, ns, i, floor, |cells|);
          found := current;
        }
        IndexedEntry(Memory(), solidified, floor, a, ns, i, found);
        if EqualNoCase(CString(stringBuffer[..], cells[found.addr].key.offset), key) {
          FindKeyFirst(ns, key, i);
          return;
        }
        current := cells[found.addr].next;
      }
      FindKeyFirst(ns, key, count);
      found := Null;
    }

    /** The entry at an index, or Null for the invalid entry. */
    method GetByIndex(a: nat, index: nat, ghost ns: Nodes) returns (found: Ptr)
      requires Contents(a, ns)
      ensures found == Null <==> index >= Len(ns)
      ensures found.To? ==> Entry(found.addr, Nth(ns, index))
    {
      hide ListAt, NodeAt, ArrayAt, ElementAt, Nth, Drop, CellSound;
      if !cells[a].hasChildren || cells[a].childCount <= 0 || index >= cells[a].childCount {
        return Null;
      }
      if solidified {
        ArrayIndex(Memory(), cells[a].children.addr, ns, floor, index);
        found := To(cells[a].children.addr + index);
      } else {
        found := cells[a].children;
        DropNone(ns);
        for i := 0 to index
          invariant ListAt(Memory(), found, Drop(ns, i), floor, |cells|)
        {
          NthOfList(Memory(), found, ns, i, floor, |cells|);
          found := cells[found.addr].next;
        }
        NthOfList(Memory(), found, ns, index, floor, |cells|);
      }
      IndexedEntry(Memory(), solidified, floor, a, ns, index, found);
    }

    // ---- Printing

    /** Copies as much of src as there is room for, and moves on. text is what o has been given before. */
    static method CopyAndShift(dest: array<char>, at: nat, room: nat, src: string, ghost o: Output, ghost text: string)
      returns (at': nat, room': nat)
      requires Printed(o, dest[..], text, at, room)
      modifies dest
      ensures Printed(o, dest[..], text + src, at', room')
    {
      var minLength := Min(room, |src|);
      ghost var before := dest[..];
      PrintedFits(o, before, text, at, room);
      forall k | 0 <= k < minLength {
        dest[at + k] := src[k];
      }
      assert dest[..] == Replaced(before, at, Clip(src, room));
      PrintedStep(o, before, text, at, room, src);
      room' := room - minLength;
      at' := at + minLength;
    }

    static method TabFill(dest: array<char>, at: nat, room: nat, tabCount: nat, ghost o: Output, ghost text: string)
      returns (at': nat, room': nat)
      requires Printed(o, dest[..], text, at, room)
      modifies dest
      ensures Printed(o, dest[..], text + Tabs(tabCount), at', room')
    {
      hide Printed;
      at', room' := at, room;
      assert text + Tabs(0) == text;
      for i := 0 to tabCount
        invariant Printed(o, dest[..], text + Tabs(i), at', room')
      {
        at', room' := CopyAndShift(dest, at', room', "    ", o, text + Tabs(i));
        TabsStep(text, i);
      }
    }

    /** Prints the entries below a, in order, behind what has been printed before. */
    method PrintEntries(a: nat, dest: array<char>, at: nat, room: nat, tabCount: nat,
                        ghost o: Output, ghost text: string, ghost ns: Nodes, ghost lo: nat, ghost hi: nat)
      returns (at': nat, room': nat)
      requires a < |cells| && ListAt(Memory(), cells[a].children, ns, lo, hi) && dest != stringBuffer
      requires Printed(o, dest[..], text, at, room)
      modifies dest
      ensures Printed(o, dest[..], text + Print(ns, tabCount), at', room')
      decreases ns, 1
    {
      hide Printed, ListAt, NodeAt, Print, PrintOne, Append;
      at', room' := at, room;
      var current := cells[a].children;
      ghost var done: Nodes, rest := Nil, ns;
      PrintNil(tabCount);
      assert text + "" == text;
      AppendToNil(ns);
      while current.To?
        invariant Append(done, rest) == ns && ListAt(Memory(), current, rest, lo, hi)
        invariant Printed(o, dest[..], text + Print(done, tabCount), at', room')
        decreases rest
      {
        NextOfList(Memory(), current, rest, lo, hi);
        RestSmaller(done, rest);
        ghost var kv := rest.head;
        at', room' := PrintEntry(current.addr, dest, at', room', tabCount, o, text + Print(done, tabCount), kv, lo, hi);
        PrintStep(text, done, kv, tabCount);
        MoveOne(done, kv, rest.tail);
        current := cells[current.addr].next;
        done, rest := Append(done, Cons(kv, Nil)), rest.tail;
      }
      EndOfList(Memory(), rest, lo, hi);
      AppendNil(done);
    }

    method PrintEntry(a: nat, dest: array<char>, at: nat, room: nat, tabCount: nat,
                      ghost o: Output, ghost text: string, ghost kv: Kv, ghost lo: nat, ghost hi: nat)
      returns (at': nat, room': nat)
      requires a < |cells| && NodeAt(Memory(), a, kv, lo, hi) && dest != stringBuffer
      requires Printed(o, dest[..], text, at, room)
      modifies dest
      ensures Printed(o, dest[..], text + PrintOne(kv, tabCount), at', room')
      decreases kv, 0
    {
      hide Printed, ListAt, NodeAt, Print, Tabs;
      NodeTexts(Memory(), a, kv, lo, hi);
      ghost var t := text;
      at', room' := TabFill(dest, at, room, tabCount, o, t);
      t := t + Tabs(tabCount);
      at', room' := CopyAndShift(dest, at', room', "\"", o, t);
      t := t + "\"";
      at', room' := CopyAndShift(dest, at', room', Text(Memory(), cells[a].key), o, t);
      t := t + kv.key;
      at', room' := CopyAndShift(dest, at', room', "\" ", o, t);
      t := t + "\" ";
      if cells[a].hasChildren {
        at', room' := CopyAndShift(dest, at', room', "\n", o, t);
        t := t + "\n";
        at', room' := TabFill(dest, at', room', tabCount, o, t);
        t := t + Tabs(tabCount);
        at', room' := CopyAndShift(dest, at', room', "{\n", o, t);
        t := t + "{\n";
        at', room' := PrintEntries(a, dest, at', room', tabCount + 1, o, t, kv.children, lo, hi);
        t := t + Print(kv.children, tabCount + 1);
        at', room' := CopyAndShift(dest, at', room', "\n", o, t);
        t := t + "\n";
        at', room' := TabFill(dest, at', room', tabCount, o, t);
        t := t + Tabs(tabCount);
        at', room' := CopyAndShift(dest, at', room', "}\n", o, t);
        BlockText(text, Tabs(tabCount), kv.key, Print(kv.children, tabCount + 1));
      } else {
        at', room' := CopyAndShift(dest, at', room', "\"", o, t);
        t := t + "\"";
        at', room' := CopyAndShift(dest, at', room', Text(Memory(), cells[a].value), o, t);
        t := t + kv.value;
        at', room' := CopyAndShift(dest, at', room', "\"\n", o, t);
        PairText(text, Tabs(tabCount), kv.key, kv.value);
      }
    }

    /** Prints what is below a into the first maxLength characters of dest, with a terminator if there is room. */
    method ToStringInto(a: nat, dest: array<char>, maxLength: nat, ghost ns: Nodes)
      requires Contents(a, ns) && a < |cells| && cells[a].hasChildren
      requires dest != stringBuffer && maxLength <= dest.Length
      modifies dest
      ensures var text := Print(ns, 0);
        dest[..] == Replaced(old(dest[..]), 0, if |text| < maxLength then text + [NUL] else text[..maxLength])
    {
      hide ListAt, Print, Printed, Replaced, AllSound;
      ghost var o, text := Output(dest[..], 0, maxLength), Print(ns, 0);
      PrintedStart(o);
      var at, room := PrintEntries(a, dest, 0, maxLength, 0, o, "", ns, floor, |cells|);
      assert "" + text == text;
      PrintedEnds(o, dest[..], text, at, room);
      if room > 0 {
        dest[at] := NUL;
      }
    }

    /** The length the printer reserves for what is below a. */
    method ToStringLength(a: nat, tabCount: nat, ghost ns: Nodes, ghost lo: nat, ghost hi: nat, ghost last: nat)
      returns (len: nat)
      requires a < |cells| && ListAt(Memory(), cells[a].children, ns, lo, hi)
      requires AllSound(cells, stringBuffer[..], last, lo, |cells|)
      ensures len == CountedLength(ns, tabCount)
      decreases ns
    {
      hide ListAt, NodeAt, CountedLength, Append, CString;
      len := 0;
      var current := cells[a].children;
      ghost var done: Nodes, rest := Nil, ns;
      AppendToNil(ns);
      CountedNil(tabCount);
      while current.To?
        invariant Append(done, rest) == ns && ListAt(Memory(), current, rest, lo, hi)
        invariant len == CountedLength(done, tabCount)
        decreases rest
      {
        NextOfList(Memory(), current, rest, lo, hi);
        RestSmaller(done, rest);
        ghost var kv := rest.head;
        var cell := cells[current.addr];
        NodeTexts(Memory(), current.addr, kv, lo, hi);
        CountedStep(done, kv, tabCount);
        len := len + tabCount * 5;
        len := len + (1 + cell.key.length + 1);
        if cell.hasChildren {
          len := len + (1 + tabCount * 5 + 1 + 1);
          var inner := ToStringLength(current.addr, tabCount + 1, kv.children, lo, hi, last);
          len := len + inner;
          len := len + (1 + tabCount * 5 + 1 + 1);
        } else {
          len := len + (1 + 1 + cell.value.length + 1 + 1);
        }
        MoveOne(done, kv, rest.tail);
        current := cell.next;
        done, rest := Append(done, Cons(kv, Nil)), rest.tail;
      }
      EndOfList(Memory(), rest, lo, hi);
      AppendNil(done);
    }

    /**
      A new C string with what is below a, cut where the reserved length does not suffice. It parses back
      exactly when nothing is missing, or nothing that matters to the last entries.
     */
    method ToString(a: nat, ghost ns: Nodes) returns (str: array<char>)
      requires Contents(a, ns) && a < |cells| && cells[a].hasChildren
      ensures fresh(str) && str.Length == CountedLength(ns, 0) + 1 && str[str.Length - 1] == NUL
      ensures CString(str[..], 0) == Clip(Print(ns, 0), CountedLength(ns, 0))
      ensures Printable(ns) && Slack(ns, 0) >= 0 ==>
        ParseList(CString(str[..], 0), 0, true) == ParseResult(NoError, ns, |Print(ns, 0)|, Bytes(ns))
      ensures Printable(ns) ==>
        (Reads(ParseList(CString(str[..], 0), 0, true), ns) <==> Slack(ns, 0) >= 0 || SafeCut(ns, 0, -Slack(ns, 0)))
      ensures Slack(ns, 0) < 0 ==> |Print(ns, 0)| > CountedLength(ns, 0)
    {
      hide ListAt, Print, Slack, CountedLength, ParseList, Printable, Bytes, CString, SafeCut, Reads;
      var length := ToStringLength(a, 0, ns, floor, |cells|, LastsEnd(Memory(), solidified, floor));
      length := length + 1;
      str := new char[length];
      ToStringInto(a, str, length, ns);
      str[length - 1] := NUL;
      CountedIsPrintedPlusSlack(ns, 0);
      ListNoNuls(Memory(), cells[a].children, ns, floor, |cells|, LastsEnd(Memory(), solidified, floor));
      PrintNoNul(ns, 0);
      ClippedReads(str[..], Print(ns, 0), length - 1);
      if Printable(ns) {
        RoundTrip(ns);
        ReservedReadsBack(ns);
      }
    }

    // ---- Solidifying goes unnoticed

    /** Reads the entry that a lookup found, if any. */
    method Describe(found: Ptr, ghost ns: Nodes, ghost n: nat) returns (answer: Answer)
      requires found == Null <==> n >= Len(ns)
      requires found.To? ==> Entry(found.addr, Nth(ns, n))
      ensures answer == AnswerOf(ns, n)
    {
      hide IsEntry, Contains, CString, Nth, CountedLength, Print;
      if found == Null {
        return Missing;
      }
      ghost var kv := Nth(ns, n);
      EntryStrings(Memory(), solidified, floor, found.addr, kv);
      EntryContains(Memory(), solidified, floor, found.addr, kv);
      var cell := cells[found.addr];
      var key := CString(stringBuffer[..], cell.key.offset);
      if cell.hasChildren {
        var str := ToString(found.addr, kv.children);
        answer := FoundBlock(key, CString(str[..], 0));
      } else {
        answer := FoundPair(key, CString(stringBuffer[..], cell.value.offset));
      }
    }

    /** Looks up the entry with a key and the one at an index, and prints everything. */
    method Ask(key: string, index: nat, ghost ns: Nodes) returns (byKey: Answer, byIndex: Answer, text: string)
      requires Contents(0, ns) && cells[0].hasChildren
      ensures byKey == AnswerOf(ns, FindKey(ns, key)) && byIndex == AnswerOf(ns, index)
      ensures text == Clip(Print(ns, 0), CountedLength(ns, 0))
    {
      hide IsEntry, ListAt, ArrayAt, AllSound, CString, Nth, CountedLength, Print, AnswerOf, FindKey;
      var found := GetByKey(0, key, ns);
      byKey := Describe(found, ns, FindKey(ns, key));
      found := GetByIndex(0, index, ns);
      byIndex := Describe(found, ns, index);
      var str := ToString(0, ns);
      text := CString(str[..], 0);
    }

    /** No lookup and no printing tells whether a root has been solidified. */
    method SolidifyUnnoticed(key: string, index: nat, ghost ns: Nodes) returns (same: bool)
      requires Contents(0, ns) && cells[0].hasChildren && 0 < floor
      modifies this`cells, this`solidified, this`floor
      ensures same && solidified && Contents(0, ns)
    {
      hide Contains, CountedLength, Print, AnswerOf, FindKey;
      var byKey, byIndex, text := Ask(key, index, ns);
      Solidify(ns);
      var byKey', byIndex', text' := Ask(key, index, ns);
      same := byKey == byKey' && byIndex == byIndex' && text == text';
    }
  }
}
