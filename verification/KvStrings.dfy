/** The single buffer that owns every string after parsing: contents, placement, termination. */
module KvStrings {
  import opened KvText
  import opened KvMemory
  import opened Texts

  /** All strings in creation order, each with its terminator. */
  function Flat(ns: Nodes): (s: string)
    ensures |s| == Bytes(ns)
    decreases ns, 0
  {
    match ns
    case Nil => ""
    case Cons(h, t) => FlatOne(h) + Flat(t)
  }

  function FlatOne(kv: Kv): (s: string)
    ensures |s| == BytesOne(kv)
    decreases kv, 1
  {
    kv.key + [NUL] +
    match kv
    case Pair(_, v) => v + [NUL]
    case Block(_, cs) => Flat(cs)
  }

  /** Every record from i on points at its own range of the buffer, the ranges following one another from at. */
  ghost predicate Placed(cells: seq<Cell>, i: nat, ns: Nodes, at: nat)
    decreases ns, 0
  {
    match ns
    case Nil => true
    case Cons(kv, t) =>
      && PlacedOne(cells, i, kv, at)
      && Placed(cells, i + SizeOne(kv), t, at + BytesOne(kv))
  }

  ghost predicate PlacedOne(cells: seq<Cell>, i: nat, kv: Kv, at: nat)
    decreases kv, 1
  {
    && i < |cells|
    && cells[i].key == KvString(Buffer, at, |kv.key|)
    && match kv
       case Pair(_, v) => cells[i].value == KvString(Buffer, at + |kv.key| + 1, |v|)
       case Block(_, cs) => Placed(cells, i + 1, cs, at + |kv.key| + 1)
  }

  lemma {:induction false} FlatAppend(a: Nodes, b: Nodes)
    ensures Flat(Append(a, b)) == Flat(a) + Flat(b)
  {
    match a
    case Nil =>
    case Cons(h, t) => FlatAppend(t, b);
  }

  lemma {:induction false} PlacedFrame(cells: seq<Cell>, cells': seq<Cell>, i: nat, ns: Nodes, at: nat)
    requires Placed(cells, i, ns, at)
    requires |cells| == |cells'| && forall a | i <= a < i + Size(ns) && a < |cells| :: cells'[a] == cells[a]
    ensures Placed(cells', i, ns, at)
    decreases ns, 0
  {
    match ns
    case Nil =>
    case Cons(kv, t) =>
      if kv.Block? {
        PlacedFrame(cells, cells', i + 1, kv.children, at + |kv.key| + 1);
      }
      PlacedFrame(cells, cells', i + SizeOne(kv), t, at + BytesOne(kv));
  }

  lemma {:induction false} PlacedAppend(cells: seq<Cell>, i: nat, a: Nodes, b: Nodes, at: nat)
    requires Placed(cells, i, a, at) && Placed(cells, i + Size(a), b, at + Bytes(a))
    ensures Placed(cells, i, Append(a, b), at)
    decreases a
  {
    match a
    case Nil =>
    case Cons(kv, t) => PlacedAppend(cells, i + SizeOne(kv), t, b, at + BytesOne(kv));
  }

  /** The links and shapes of two heaps' records agree in a range; only their strings may differ. */
  ghost predicate SameShape(cells: seq<Cell>, cells': seq<Cell>, lo: nat, hi: nat)
  {
    && |cells| == |cells'|
    && forall a | lo <= a < hi && a < |cells| ::
         cells'[a] == cells[a].(key := cells'[a].key, value := cells'[a].value)
  }

  /** Records placed in a buffer with the right contents hold the same entries as before. */
  lemma {:induction false} PlacedIsSegment(h: Heap, h': Heap, i: nat, ns: Nodes, end: Ptr, at: nat)
    requires Segment(h, i, ns, end) && SameShape(h.cells, h'.cells, i, i + Size(ns))
    requires Placed(h'.cells, i, ns, at) && Stands(h'.buffer, at, Flat(ns))
    ensures Segment(h', i, ns, end)
    decreases ns, 0
  {
    match ns
    case Nil =>
    case Cons(kv, t) =>
      StandsSplit(h'.buffer, at, FlatOne(kv), Flat(t));
      PlacedIsCell(h, h', i, kv, at);
      PlacedIsSegment(h, h', i + SizeOne(kv), t, end, at + BytesOne(kv));
  }

  lemma {:induction false} PlacedIsCell(h: Heap, h': Heap, i: nat, kv: Kv, at: nat)
    requires CellIs(h, i, kv) && SameShape(h.cells, h'.cells, i, i + SizeOne(kv))
    requires PlacedOne(h'.cells, i, kv, at) && Stands(h'.buffer, at, FlatOne(kv))
    ensures CellIs(h', i, kv)
    decreases kv, 1
  {
    hide Flat;
    var n := at + |kv.key| + 1;
    OneStands(h'.buffer, at, kv);
    if kv.Block? {
      PlacedIsSegment(h, h', i + 1, kv.children, Null, n);
    }
  }

  /** The parts of one entry's strings. */
  lemma OneStands(b: string, at: nat, kv: Kv)
    requires Stands(b, at, FlatOne(kv))
    ensures Stands(b, at, kv.key) && Stands(b, at, kv.key + [NUL])
    ensures kv.Pair? ==>
      Stands(b, at + |kv.key| + 1, kv.value) && Stands(b, at + |kv.key| + 1, kv.value + [NUL])
    ensures kv.Block? ==> Stands(b, at + |kv.key| + 1, Flat(kv.children))
  {
    hide Flat, Stands;
    var k := kv.key;
    var rest := if kv.Pair? then kv.value + [NUL] else Flat(kv.children);
    assert FlatOne(kv) == (k + [NUL]) + rest;
    hide FlatOne;
    StandsSplit(b, at, k + [NUL], rest);
    StandsSplit(b, at, k, [NUL]);
    if kv.Pair? {
      StandsSplit(b, at + |k| + 1, kv.value, [NUL]);
    }
  }

  // ---- Reading a stored string as a C string

  /** The characters from o up to the first terminator. */
  function CString(b: string, o: nat): string
    decreases |b| - o
  {
    if o >= |b| || b[o] == NUL then "" else [b[o]] + CString(b, o + 1)
  }

  lemma {:induction false} CStringAt(b: string, o: nat, s: string)
    requires Stands(b, o, s + [NUL]) && NoNul(s)
    ensures CString(b, o) == s
    decreases |s|
  {
    assert b[o..o + |s| + 1][0] == (s + [NUL])[0];
    if |s| > 0 {
      assert s + [NUL] == [s[0]] + (s[1..] + [NUL]);
      StandsSplit(b, o, [s[0]], s[1..] + [NUL]);
      CStringAt(b, o + 1, s[1..]);
      assert s == [s[0]] + s[1..];
    }
  }

  /** The string lies in the buffer and, read as a C string, is its text. */
  predicate Terminated(b: string, s: KvString)
  {
    s.place == Buffer && s.offset + s.length <= |b| && CString(b, s.offset) == b[s.offset..s.offset + s.length]
  }

  predicate CellTerminated(b: string, c: Cell)
  {
    Terminated(b, c.key) && (c.hasChildren || Terminated(b, c.value))
  }

  /** A record whose strings are terminated, and whose last child, if it has any, is below last. */
  predicate CellSound(b: string, last: nat, c: Cell)
  {
    CellTerminated(b, c) && (c.hasChildren && c.lastChild.To? ==> c.lastChild.addr < last)
  }

  ghost predicate AllSound(cells: seq<Cell>, b: string, last: nat, lo: nat, hi: nat)
  {
    hi <= |cells| && forall a | lo <= a < hi :: CellSound(b, last, cells[a])
  }

  lemma {:induction false} PlacedSound(h: Heap, i: nat, ns: Nodes, end: Ptr, at: nat, last: nat)
    requires Placed(h.cells, i, ns, at) && Stands(h.buffer, at, Flat(ns)) && NoNuls(ns) && i + Size(ns) <= |h.cells|
    requires Segment(h, i, ns, end) && i + Size(ns) <= last
    ensures AllSound(h.cells, h.buffer, last, i, i + Size(ns))
    decreases ns, 0
  {
    hide CellIs, PlacedOne, CellSound, FlatOne, Stands;
    match ns
    case Nil =>
    case Cons(kv, t) =>
      StandsSplit(h.buffer, at, FlatOne(kv), Flat(t));
      PlacedSoundOne(h, i, kv, at, last);
      PlacedSound(h, i + SizeOne(kv), t, end, at + BytesOne(kv), last);
  }

  lemma {:induction false} PlacedSoundOne(h: Heap, i: nat, kv: Kv, at: nat, last: nat)
    requires PlacedOne(h.cells, i, kv, at) && Stands(h.buffer, at, FlatOne(kv)) && NoNulsOne(kv)
    requires CellIs(h, i, kv) && i + SizeOne(kv) <= |h.cells| && i + SizeOne(kv) <= last
    ensures AllSound(h.cells, h.buffer, last, i, i + SizeOne(kv))
    decreases kv, 1
  {
    hide Flat, FlatOne, CString;
    OneStands(h.buffer, at, kv);
    CStringAt(h.buffer, at, kv.key);
    match kv
    case Pair(_, v) => CStringAt(h.buffer, at + |kv.key| + 1, v);
    case Block(_, cs) =>
      PlacedSound(h, i + 1, cs, Null, at + |kv.key| + 1, last);
      if cs != Nil {
        LastInside(cs, i + 1);
      }
  }

  /** Strings cut out of a text without terminators have none. */
  lemma {:induction false} ParsedNoNuls(s: string, i: nat, isRoot: bool)
    requires i <= |s| && NoNul(s)
    ensures NoNuls(ParseList(s, i, isRoot).nodes)
    decreases |s| - i
  {
    if i < |s| {
      ItemNoNuls(s, i, isRoot);
      hide ReadItem;
      match ReadItem(s, i, isRoot)
      case Stop(_) =>
      case PairHere(_, _, next) => ParsedNoNuls(s, next, isRoot);
      case BlockHere(_, inside) =>
        ParsedNoNuls(s, inside, false);
        ParsedNoNuls(s, ParseList(s, inside, false).pos, isRoot);
    }
  }

  lemma ItemNoNuls(s: string, i: nat, isRoot: bool)
    requires i < |s| && NoNul(s)
    ensures var item := ReadItem(s, i, isRoot);
      && (item.Stop? ==> item.result.nodes == Nil)
      && (item.PairHere? ==> NoNulsOne(item.pair))
      && (item.BlockHere? ==> NoNul(item.key))
  {
    hide SkipWs, ReadString, NoNul;
    forall a, b | 0 <= a <= b <= |s|
      ensures NoNul(s[a..b])
    {
      SliceNoNul(s, a, b);
    }
  }

  lemma SliceNoNul(s: string, a: nat, b: nat)
    requires a <= b <= |s| && NoNul(s)
    ensures NoNul(s[a..b])
  {}

  // ---- Looking keys up

  function Lower(c: char): char
  {
    if 'A' <= c <= 'Z' then (c as int + 32) as char else c
  }

  /** strcasecmp finds no difference. */
  predicate EqualNoCase(a: string, b: string)
  {
    |a| == |b| && forall i | 0 <= i < |a| :: Lower(a[i]) == Lower(b[i])
  }

  /** Letter by letter: equal, or the two cases of one letter between A and Z. */
  lemma EqualNoCaseMeans(a: string, b: string)
    ensures EqualNoCase(a, b) <==>
      && |a| == |b|
      && forall i | 0 <= i < |a| ::
           || a[i] == b[i]
           || ('A' <= a[i] <= 'Z' && b[i] as int == a[i] as int + 'a' as int - 'A' as int)
           || ('A' <= b[i] <= 'Z' && a[i] as int == b[i] as int + 'a' as int - 'A' as int)
  {}

  /** The index of the first entry with the key, or the number of entries. */
  function FindKey(ns: Nodes, key: string): (n: nat)
    ensures n <= Len(ns)
  {
    match ns
    case Nil => 0
    case Cons(h, t) => if EqualNoCase(h.key, key) then 0 else 1 + FindKey(t, key)
  }

  function Nth(ns: Nodes, n: nat): Kv
    requires n < Len(ns)
  {
    if n == 0 then ns.head else Nth(ns.tail, n - 1)
  }

  lemma {:induction false} DropIsNth(ns: Nodes, n: nat)
    requires n < Len(ns)
    ensures Drop(ns, n).Cons? && Drop(ns, n).head == Nth(ns, n)
  {
    if n > 0 {
      DropIsNth(ns.tail, n - 1);
    }
  }

  /** The first match is where no earlier entry matches. */
  lemma {:induction false} FindKeyFirst(ns: Nodes, key: string, n: nat)
    requires n <= Len(ns) && forall m | 0 <= m < n :: !EqualNoCase(Nth(ns, m).key, key)
    ensures n <= FindKey(ns, key)
    ensures n < Len(ns) && EqualNoCase(Nth(ns, n).key, key) ==> FindKey(ns, key) == n
    ensures n == Len(ns) ==> FindKey(ns, key) == n
  {
    if n > 0 {
      assert !EqualNoCase(Nth(ns, 0).key, key);
      forall m | 0 <= m < n - 1
        ensures !EqualNoCase(Nth(ns.tail, m).key, key)
      {
        assert Nth(ns, m + 1) == Nth(ns.tail, m);
      }
      FindKeyFirst(ns.tail, key, n - 1);
    }
  }
}
