/** Thousands separators: where they go, counting them in advance, and inserting them. */
module DigitGrouping {
  import opened Arith

  const CHAR_MAX: int := 127

  datatype State = State(group: nat, pos: nat)

  /** The sizes of the groups from the right, the last one repeating, and the separator. */
  datatype Grouping = Grouping(sizes: seq<int>, separator: string)

  predicate HasSeparator(g: Grouping)
  {
    g.separator != ""
  }

  /** What the callers guarantee: sizes are given if there is a separator. */
  predicate Usable(g: Grouping)
  {
    HasSeparator(g) ==> g.sizes != []
  }

  /** A size that ends the grouping. */
  predicate EndsGrouping(size: int)
  {
    size <= 0 || size == CHAR_MAX
  }

  /** All groups passed so far were real ones. */
  predicate Reached(g: Grouping, st: State)
  {
    st.group <= |g.sizes| && forall i | 0 <= i < st.group :: !EndsGrouping(g.sizes[i])
  }

  /** The position of the next separator, counted from the right, and the state behind it. */
  function Next(g: Grouping, st: State): (r: (int, State))
    requires Usable(g) && Reached(g, st)
    ensures Reached(g, r.1) && (r.0 == INT_MAX || r.0 == r.1.pos > st.pos)
    ensures !HasSeparator(g) || (st.group < |g.sizes| && EndsGrouping(g.sizes[st.group])) ==> r.0 == INT_MAX
  {
    if !HasSeparator(g) then (INT_MAX, st)
    else if st.group == |g.sizes| then
      var p := st.pos + g.sizes[|g.sizes| - 1];
      (p, st.(pos := p))
    else if EndsGrouping(g.sizes[st.group]) then (INT_MAX, st)
    else
      var p := st.pos + g.sizes[st.group];
      (p, State(st.group + 1, p))
  }

  /** The positions of the separators among n digits, from st on. */
  function Positions(g: Grouping, st: State, n: nat): (ps: seq<int>)
    requires Usable(g) && Reached(g, st) && n <= INT_MAX
    ensures Ascending(ps, st.pos, n) && (!HasSeparator(g) ==> ps == [])
    decreases n - st.pos
  {
    var (p, st') := Next(g, st);
    if n > p then [p] + Positions(g, st', n) else []
  }

  predicate Ascending(ps: seq<int>, lo: int, hi: int)
  {
    && (forall i | 0 <= i < |ps| :: lo < ps[i] < hi)
    && (forall i, j | 0 <= i < j < |ps| :: ps[i] < ps[j])
  }

  const INITIAL := State(0, 0)

  // ---- The same positions without the state

  /** The i-th group from the right; behind the sizes given, the last one repeats. */
  function SizeAt(g: Grouping, i: nat): int
    requires g.sizes != []
  {
    g.sizes[Min(i, |g.sizes| - 1)]
  }

  /** How many digits the first k groups hold. */
  function Sum(g: Grouping, k: nat): int
    requires g.sizes != []
  {
    if k == 0 then 0 else Sum(g, k - 1) + SizeAt(g, k - 1)
  }

  /** None of the first k groups ends the grouping. */
  ghost predicate RealTo(g: Grouping, k: nat)
    requires g.sizes != []
  {
    forall i: nat | i < k :: !EndsGrouping(SizeAt(g, i))
  }

  /** p is where the k-th group ends, with digits left behind it. */
  ghost predicate EndsGroup(g: Grouping, k: nat, n: nat, p: int)
    requires g.sizes != []
  {
    RealTo(g, k) && p == Sum(g, k) && p < n
  }

  lemma {:induction false} SumMonotonic(g: Grouping, k: nat, m: nat)
    requires g.sizes != [] && k <= m && RealTo(g, m)
    ensures Sum(g, k) <= Sum(g, m) && Sum(g, k) >= 0
    ensures k < m ==> Sum(g, k) < Sum(g, m)
    decreases m
  {
    if k < m {
      SumMonotonic(g, k, m - 1);
      assert !EndsGrouping(SizeAt(g, m - 1));
    } else if k > 0 {
      SumMonotonic(g, k - 1, m - 1);
      assert !EndsGrouping(SizeAt(g, k - 1));
    }
  }

  /** The state after k real groups. */
  ghost predicate StateAfter(g: Grouping, st: State, k: nat)
    requires g.sizes != []
  {
    RealTo(g, k) && st.group == Min(k, |g.sizes|) && st.pos == Sum(g, k)
  }

  /** Separators go exactly where a group ends: behind sums of sizes, up to a size that ends the grouping. */
  lemma PositionsAreSums(g: Grouping, n: nat, p: int)
    requires HasSeparator(g) && Usable(g) && n <= INT_MAX
    ensures p in Positions(g, INITIAL, n) <==> exists k: nat :: k > 0 && EndsGroup(g, k, n, p)
  {
    PositionsFrom(g, INITIAL, 0, n, p);
  }

  lemma {:induction false} PositionsFrom(g: Grouping, st: State, k: nat, n: nat, p: int)
    requires HasSeparator(g) && Usable(g) && Reached(g, st) && n <= INT_MAX && StateAfter(g, st, k)
    ensures p in Positions(g, st, n) <==> exists m: nat :: m > k && EndsGroup(g, m, n, p)
    decreases n - st.pos
  {
    hide Sum;
    var (q, st') := Next(g, st);
    NextIsSum(g, st, k);
    if !EndsGrouping(SizeAt(g, k)) {
      assert RealTo(g, k + 1);
      if n > q {
        PositionsFrom(g, st', k + 1, n, p);
        assert EndsGroup(g, k + 1, n, q);
      }
      forall m: nat | m > k && EndsGroup(g, m, n, p)
        ensures n > q && (m == k + 1 ==> p == q)
      {
        SumMonotonic(g, k + 1, m);
      }
    }
  }

  lemma NextIsSum(g: Grouping, st: State, k: nat)
    requires HasSeparator(g) && Usable(g) && Reached(g, st) && StateAfter(g, st, k)
    ensures var (q, st') := Next(g, st);
      if EndsGrouping(SizeAt(g, k)) then q == INT_MAX
      else q == Sum(g, k + 1) && (RealTo(g, k + 1) ==> StateAfter(g, st', k + 1))
  {
    if st.group == |g.sizes| {
      assert !EndsGrouping(SizeAt(g, k - 1));
    }
  }

  method CountSeparators(g: Grouping, numDigits: nat) returns (count: nat)
    requires Usable(g) && numDigits <= INT_MAX
    ensures count == |Positions(g, INITIAL, numDigits)|
  {
    count := 0;
    var st := INITIAL;
    while true
      invariant Reached(g, st)
      invariant |Positions(g, INITIAL, numDigits)| == count + |Positions(g, st, numDigits)|
      decreases numDigits - st.pos
    {
      var (p, st') := Next(g, st);
      if numDigits <= p {
        return;
      }
      st := st';
      count := count + 1;
    }
  }

  /** The digits from index i on, a separator before each one whose position from the right is in ps. */
  function Grouped(digits: string, i: nat, ps: seq<int>, separator: string): string
    requires i <= |digits|
    decreases |digits| - i
  {
    if i == |digits| then ""
    else (if |digits| - i in ps then separator else "") + [digits[i]] + Grouped(digits, i + 1, ps, separator)
  }

  /** The positions, behind a zero that no digit stands at. */
  method CollectSeparators(g: Grouping, numDigits: nat) returns (separators: seq<int>)
    requires Usable(g) && numDigits <= INT_MAX
    ensures separators == [0] + Positions(g, INITIAL, numDigits)
  {
    separators := [0];
    var st := INITIAL;
    while true
      invariant Reached(g, st)
      invariant [0] + Positions(g, INITIAL, numDigits) == separators + Positions(g, st, numDigits)
      decreases numDigits - st.pos
    {
      var (p, st') := Next(g, st);
      if p >= numDigits {
        return;
      }
      st := st';
      separators := separators + [p];
    }
  }

  /** The last position that is at most p. */
  predicate StandsAt(separators: seq<int>, k: int, p: int)
  {
    0 <= k < |separators| && separators[k] <= p && forall j | k < j < |separators| :: separators[j] > p
  }

  /** Walks the digits with the last position not passed yet. */
  method Apply(g: Grouping, digits: string) returns (out: string)
    requires Usable(g) && |digits| <= INT_MAX
    ensures out == Grouped(digits, 0, Positions(g, INITIAL, |digits|), g.separator)
  {
    hide Positions, Grouped, StandsAt, Ascending;
    var n := |digits|;
    ghost var ps := Positions(g, INITIAL, n);
    var separators := CollectSeparators(g, n);
    out := "";
    var sepIndex := |separators| - 1;
    WalkStarts(ps, n);
    assert "" + Grouped(digits, 0, ps, g.separator) == Grouped(digits, 0, ps, g.separator);
    for i := 0 to n
      invariant StandsAt(separators, sepIndex, n - i)
      invariant out + Grouped(digits, i, ps, g.separator) == Grouped(digits, 0, ps, g.separator)
    {
      PositionHere(ps, separators, sepIndex, n - i, n);
      GroupedStep(out, digits, i, ps, g.separator);
      if n - i == separators[sepIndex] {
        out := out + g.separator;
        sepIndex := sepIndex - 1;
      }
      out := out + [digits[i]];
    }
    GroupedEnd(digits, ps, g.separator);
  }

  lemma WalkStarts(ps: seq<int>, n: nat)
    requires Ascending(ps, 0, n)
    ensures StandsAt([0] + ps, |ps|, n)
  {}

  lemma GroupedEnd(digits: string, ps: seq<int>, separator: string)
    ensures Grouped(digits, |digits|, ps, separator) == ""
  {}

  /** The position p is a separator's exactly when the walk stands on it. */
  lemma PositionHere(ps: seq<int>, separators: seq<int>, k: int, p: int, n: nat)
    requires separators == [0] + ps && Ascending(ps, 0, n) && p > 0 && StandsAt(separators, k, p)
    ensures 0 <= k < |separators|
    ensures p in ps <==> separators[k] == p
    ensures StandsAt(separators, if separators[k] == p then k - 1 else k, p - 1)
  {
    if p in ps {
      var i :| 0 <= i < |ps| && ps[i] == p;
      assert separators[i + 1] == p;
    }
  }

  lemma GroupedStep(out: string, digits: string, i: nat, ps: seq<int>, separator: string)
    requires i < |digits|
    ensures var here := if |digits| - i in ps then out + separator else out;
      out + Grouped(digits, i, ps, separator) == (here + [digits[i]]) + Grouped(digits, i + 1, ps, separator)
  {}

  /** How many positions are at most p. */
  function AtMost(ps: seq<int>, p: int): nat
  {
    if ps == [] then 0 else AtMost(ps[..|ps| - 1], p) + if ps[|ps| - 1] <= p then 1 else 0
  }

  lemma {:induction false} AtMostAll(ps: seq<int>, n: int)
    requires forall i | 0 <= i < |ps| :: ps[i] < n
    ensures AtMost(ps, n) == |ps|
  {
    if ps != [] {
      AtMostAll(ps[..|ps| - 1], n);
    }
  }

  lemma {:induction false} AtMostStep(ps: seq<int>, p: int)
    requires forall i, j | 0 <= i < j < |ps| :: ps[i] < ps[j]
    ensures AtMost(ps, p) == AtMost(ps, p - 1) + if p in ps then 1 else 0
    ensures (forall i | 0 <= i < |ps| :: ps[i] > 0) ==> AtMost(ps, 0) == 0
  {
    if ps != [] {
      var last := |ps| - 1;
      var front := ps[..last];
      AtMostStep(front, p);
      assert ps == front + [ps[last]];
      assert forall i | 0 <= i < |front| :: front[i] < ps[last];
    }
  }

  /** The counted separators are the ones that are written. */
  lemma GroupedLength(g: Grouping, digits: string)
    requires Usable(g) && |digits| <= INT_MAX
    ensures var ps := Positions(g, INITIAL, |digits|);
      |Grouped(digits, 0, ps, g.separator)| == |digits| + |ps| * |g.separator|
  {
    var ps := Positions(g, INITIAL, |digits|);
    GroupedLengthFrom(digits, 0, ps, g.separator);
    AtMostAll(ps, |digits|);
  }

  lemma {:induction false} GroupedLengthFrom(digits: string, i: nat, ps: seq<int>, separator: string)
    requires i <= |digits| && Ascending(ps, 0, |digits|)
    ensures |Grouped(digits, i, ps, separator)| == |digits| - i + AtMost(ps, |digits| - i) * |separator|
    decreases |digits| - i
  {
    AtMostStep(ps, |digits| - i);
    if i < |digits| {
      GroupedLengthFrom(digits, i + 1, ps, separator);
      var rest, here := AtMost(ps, |digits| - i - 1), if |digits| - i in ps then 1 else 0;
      Distribute(|separator|, rest, here);
    }
  }

  /** Without the separator's characters, the digits are left. */
  function Without(t: string, separator: string): string
  {
    if t == "" then "" else (if t[0] in separator then "" else t[..1]) + Without(t[1..], separator)
  }

  lemma {:induction false} GroupedKeepsDigits(digits: string, i: nat, ps: seq<int>, separator: string)
    requires i <= |digits| && forall k | 0 <= k < |digits| :: digits[k] !in separator
    ensures Without(Grouped(digits, i, ps, separator), separator) == digits[i..]
    decreases |digits| - i
  {
    hide Without;
    if i < |digits| {
      GroupedKeepsDigits(digits, i + 1, ps, separator);
      var tail := Grouped(digits, i + 1, ps, separator);
      var head := if |digits| - i in ps then separator else "";
      assert Grouped(digits, i, ps, separator) == head + ([digits[i]] + tail);
      hide Grouped;
      WithoutSeparator(head, [digits[i]] + tail, separator);
      WithoutDigit(digits[i], tail, separator);
    } else {
      WithoutNothing(separator);
    }
  }

  lemma WithoutDigit(c: char, t: string, separator: string)
    requires c !in separator
    ensures Without([c] + t, separator) == [c] + Without(t, separator)
  {
    assert ([c] + t)[1..] == t && ([c] + t)[..1] == [c];
  }

  lemma WithoutNothing(separator: string)
    ensures Without("", separator) == ""
  {}

  lemma {:induction false} WithoutSeparator(head: string, t: string, separator: string)
    requires forall k | 0 <= k < |head| :: head[k] in separator
    ensures Without(head + t, separator) == Without(t, separator)
  {
    if head == "" {
      assert head + t == t;
    } else {
      WithoutSeparator(head[1..], t, separator);
      assert (head + t)[1..] == head[1..] + t;
    }
  }

  /** The separator in front of a digit, if any. */
  function Before(digits: string, i: nat, ps: seq<int>, separator: string): string
  {
    if |digits| - i in ps then separator else ""
  }

  lemma GroupedOne(digits: string, i: nat, ps: seq<int>, separator: string)
    requires i < |digits|
    ensures Grouped(digits, i, ps, separator)
         == Before(digits, i, ps, separator) + ([digits[i]] + Grouped(digits, i + 1, ps, separator))
  {}

  lemma {:induction false} GroupedUpTo(digits: string, i: nat, k: nat, ps: seq<int>, separator: string)
    returns (front: string)
    requires i <= k <= |digits| && forall j | 0 <= j < |digits| :: digits[j] !in separator
    ensures Grouped(digits, i, ps, separator) == front + Grouped(digits, k, ps, separator)
    ensures Without(front, separator) == digits[i..k]
    decreases k - i
  {
    if i == k {
      front := "";
    } else {
      hide Grouped, Without;
      var rest := GroupedUpTo(digits, i + 1, k, ps, separator);
      var head, one, tail := Before(digits, i, ps, separator), [digits[i]], Grouped(digits, k, ps, separator);
      GroupedOne(digits, i, ps, separator);
      front := head + (one + rest);
      WithoutSeparator(head, one + rest, separator);
      WithoutDigit(digits[i], rest, separator);
      assert digits[i..k] == one + digits[i + 1..k];
      Regrouped(head, one, rest, tail);
    }
  }

  lemma Regrouped(a: string, b: string, c: string, d: string)
    ensures a + (b + (c + d)) == (a + (b + c)) + d
  {}

  /** Between two digits stands the separator, or nothing: the first if the digits behind are a group's end. */
  lemma BetweenDigits(digits: string, k: nat, ps: seq<int>, separator: string)
    returns (front: string, back: string)
    requires 0 < k < |digits| && forall j | 0 <= j < |digits| :: digits[j] !in separator
    ensures var here := if |digits| - k in ps then separator else "";
      Grouped(digits, 0, ps, separator) == front + ([digits[k - 1]] + (here + ([digits[k]] + back)))
    ensures Without(front, separator) == digits[..k - 1] && Without(back, separator) == digits[k + 1..]
  {
    hide Grouped, Without;
    var first := GroupedUpTo(digits, 0, k - 1, ps, separator);
    back := Grouped(digits, k + 1, ps, separator);
    GroupedKeepsDigits(digits, k + 1, ps, separator);
    var before, here := Before(digits, k - 1, ps, separator), Before(digits, k, ps, separator);
    front := first + before;
    GroupedOne(digits, k - 1, ps, separator);
    GroupedOne(digits, k, ps, separator);
    var rest := [digits[k - 1]] + (here + ([digits[k]] + back));
    assert first + (before + rest) == (first + before) + rest;
    WithoutEnd(first, before, separator);
    assert digits[0..k - 1] == digits[..k - 1];
  }

  lemma {:induction false} WithoutEnd(t: string, end: string, separator: string)
    requires forall k | 0 <= k < |end| :: end[k] in separator
    ensures Without(t + end, separator) == Without(t, separator)
  {
    if t == "" {
      assert t + end == end && end + "" == end;
      WithoutSeparator(end, "", separator);
    } else {
      assert (t + end)[1..] == t[1..] + end && (t + end)[..1] == t[..1];
      WithoutEnd(t[1..], end, separator);
    }
  }

  /** Without a separator nothing is inserted. */
  lemma {:induction false} Ungrouped(digits: string, i: nat, separator: string)
    requires i <= |digits|
    ensures Grouped(digits, i, [], separator) == digits[i..]
    decreases |digits| - i
  {
    if i < |digits| {
      Ungrouped(digits, i + 1, separator);
    }
  }
}
