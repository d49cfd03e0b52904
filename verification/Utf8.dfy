/** UTF-8: the branchless decoder, visiting every code point of a text, and converting UTF-32 to it. */
module Utf8 {

  /** A byte, kept in a word so that it can be shifted. */
  type uchar = b: bv32 | b < 0x100

  const INVALID_CODE_POINT: bv32 := 0xFFFFFFFF

  // ---- The encoding (sections 3 and 4 of RFC 3629)

  predicate IsScalar(c: bv32)
  {
    c <= 0x10FFFF && !(0xD800 <= c <= 0xDFFF)
  }

  /** The bytes of a scalar value. */
  function Encode(c: bv32): (s: seq<uchar>)
    requires IsScalar(c)
    ensures 1 <= |s| <= 4
  {
    if c < 0x80 then [c]
    else if c < 0x800 then [0xC0 | (c >> 6), 0x80 | (c & 0x3F)]
    else if c < 0x10000 then [0xE0 | (c >> 12), 0x80 | ((c & 0xFFF) >> 6), 0x80 | (c & 0x3F)]
    else [0xF0 | (c >> 18), 0x80 | ((c & 0x3FFFF) >> 12), 0x80 | ((c & 0xFFF) >> 6), 0x80 | (c & 0x3F)]
  }

  predicate AllScalar(cs: seq<bv32>)
  {
    forall i | 0 <= i < |cs| :: IsScalar(cs[i])
  }

  function EncodeAll(cs: seq<bv32>): seq<uchar>
    requires AllScalar(cs)
  {
    if cs == [] then [] else Encode(cs[0]) + EncodeAll(cs[1..])
  }

  // ---- Decoding without branches

  /** The length a first byte announces; 0 for one that starts no sequence. */
  function LengthOf(b: uchar): (n: nat)
    ensures n <= 4
  {
    var k := b >> 3;
    if k < 16 then 1 else if k < 24 then 0 else if k < 28 then 2 else if k < 30 then 3 else if k == 30 then 4 else 0
  }

  function Mask(len: nat): bv32
  {
    if len == 0 then 0 else if len == 1 then 0x7F else if len == 2 then 0x1F else if len == 3 then 0x0F else 0x07
  }

  function MinimumOf(len: nat): bv32
  {
    if len == 0 then 4194304 else if len == 1 then 0 else if len == 2 then 128 else if len == 3 then 2048 else 65536
  }

  function ShiftCode(c: bv32, len: nat): bv32
  {
    if len == 1 then c >> 18 else if len == 2 then c >> 12 else if len == 3 then c >> 6 else c
  }

  function ShiftError(e: bv32, len: nat): bv32
  {
    if len == 1 then e >> 6 else if len == 2 then e >> 4 else if len == 3 then e >> 2 else e
  }

  /** The code point, the accumulated error bits, and how far to go on. */
  datatype Decoded = Decoded(c: bv32, e: bv32, next: nat)

  function CodeOf(s0: uchar, s1: uchar, s2: uchar, s3: uchar, len: nat): bv32
  {
    ShiftCode(((s0 & Mask(len)) << 18) | ((s1 & 0x3F) << 12) | ((s2 & 0x3F) << 6) | (s3 & 0x3F), len)
  }

  function ErrorOf(c: bv32, s1: uchar, s2: uchar, s3: uchar, len: nat): bv32
  {
    var e: bv32 := if c < MinimumOf(len) then 0x40 else 0;
    var e := e | if c >> 11 == 0x1B then 0x80 else 0;
    var e := e | if c > 0x10FFFF then 0x100 else 0;
    var e := e | ((s1 & 0xC0) >> 2) | ((s2 & 0xC0) >> 4) | (s3 >> 6);
    ShiftError(e ^ 0x2A, len)
  }

  function Utf8Decode(s0: uchar, s1: uchar, s2: uchar, s3: uchar): (d: Decoded)
    ensures 1 <= d.next <= 4
  {
    var len := LengthOf(s0);
    var c := CodeOf(s0, s1, s2, s3, len);
    Decoded(c, ErrorOf(c, s1, s2, s3, len), if len == 0 then 1 else len)
  }

  /** No error is reported exactly on the encoding of a scalar value, which is then decoded. */
  lemma DecodesEncoding(s0: uchar, s1: uchar, s2: uchar, s3: uchar)
    ensures var d := Utf8Decode(s0, s1, s2, s3);
      d.e == 0 ==> IsScalar(d.c) && [s0, s1, s2, s3][..d.next] == Encode(d.c)
  {
    var len := LengthOf(s0);
    if Utf8Decode(s0, s1, s2, s3).e != 0 {
    } else if len == 1 {
      DecodesOne(s0, s1, s2, s3);
    } else if len == 2 {
      DecodesTwo(s0, s1, s2, s3);
    } else if len == 3 {
      DecodesThree(s0, s1, s2, s3);
    } else if len == 4 {
      DecodesFour(s0, s1, s2, s3);
    } else {
      DecodesNone(s0, s1, s2, s3);
    }
  }

  lemma DecodesNone(s0: uchar, s1: uchar, s2: uchar, s3: uchar)
    requires LengthOf(s0) == 0
    ensures Utf8Decode(s0, s1, s2, s3).e != 0
  {}

  lemma DecodesOne(s0: uchar, s1: uchar, s2: uchar, s3: uchar)
    requires LengthOf(s0) == 1
    ensures Utf8Decode(s0, s1, s2, s3) == Decoded(s0, 0, 1) && s0 < 0x80
  {}

  lemma DecodesTwo(s0: uchar, s1: uchar, s2: uchar, s3: uchar)
    requires LengthOf(s0) == 2 && Utf8Decode(s0, s1, s2, s3).e == 0
    ensures var c := Utf8Decode(s0, s1, s2, s3).c;
      0x80 <= c < 0x800 && s0 == 0xC0 | (c >> 6) && s1 == 0x80 | (c & 0x3F)
  {}

  lemma DecodesThree(s0: uchar, s1: uchar, s2: uchar, s3: uchar)
    requires LengthOf(s0) == 3 && Utf8Decode(s0, s1, s2, s3).e == 0
    ensures var c := Utf8Decode(s0, s1, s2, s3).c;
      && 0x800 <= c < 0x10000 && IsScalar(c)
      && s0 == 0xE0 | (c >> 12) && s1 == 0x80 | ((c & 0xFFF) >> 6) && s2 == 0x80 | (c & 0x3F)
  {}

  lemma DecodesFour(s0: uchar, s1: uchar, s2: uchar, s3: uchar)
    requires LengthOf(s0) == 4 && Utf8Decode(s0, s1, s2, s3).e == 0
    ensures var c := Utf8Decode(s0, s1, s2, s3).c;
      && 0x10000 <= c <= 0x10FFFF && s0 == 0xF0 | (c >> 18)
      && s1 == 0x80 | ((c & 0x3FFFF) >> 12) && s2 == 0x80 | ((c & 0xFFF) >> 6) && s3 == 0x80 | (c & 0x3F)
  {}

  lemma OneDecodes(c: bv32, s1: uchar, s2: uchar, s3: uchar)
    requires c < 0x80
    ensures Utf8Decode(c, s1, s2, s3) == Decoded(c, 0, 1)
  {}

  lemma TwoDecodes(c: bv32, s2: uchar, s3: uchar)
    requires 0x80 <= c < 0x800
    ensures Utf8Decode(0xC0 | (c >> 6), 0x80 | (c & 0x3F), s2, s3) == Decoded(c, 0, 2)
  {}

  /** A continuation byte. */
  lemma Continuation(x: bv32)
    requires x < 0x40
    ensures (0x80 | x) & 0x3F == x && (0x80 | x) & 0xC0 == 0x80 && (0x80 | x) >> 6 == 2
  {}

  lemma ThreeCode(c: bv32, s3: uchar)
    requires 0x800 <= c < 0x10000
    ensures LengthOf(0xE0 | (c >> 12)) == 3
    ensures CodeOf(0xE0 | (c >> 12), 0x80 | ((c & 0xFFF) >> 6), 0x80 | (c & 0x3F), s3, 3) == c
  {
    Continuation((c & 0xFFF) >> 6);
    Continuation(c & 0x3F);
    assert (0xE0 | (c >> 12)) & 0x0F == c >> 12;
    DropLast(c >> 12, (c & 0xFFF) >> 6, c & 0x3F, s3 & 0x3F);
    assert ((c >> 12) << 12) | (((c & 0xFFF) >> 6) << 6) | (c & 0x3F) == c;
  }

  /** The byte behind a three-byte sequence is shifted out. */
  lemma DropLast(x: bv32, y: bv32, z: bv32, w: bv32)
    requires x < 0x10 && y < 0x40 && z < 0x40 && w < 0x40
    ensures ((x << 18) | (y << 12) | (z << 6) | w) >> 6 == (x << 12) | (y << 6) | z
  {}

  lemma FourCode(c: bv32)
    requires 0x10000 <= c <= 0x10FFFF
    ensures LengthOf(0xF0 | (c >> 18)) == 4
    ensures CodeOf(0xF0 | (c >> 18), 0x80 | ((c & 0x3FFFF) >> 12), 0x80 | ((c & 0xFFF) >> 6), 0x80 | (c & 0x3F), 4) == c
  {
    Continuation((c & 0x3FFFF) >> 12);
    Continuation((c & 0xFFF) >> 6);
    Continuation(c & 0x3F);
    assert (0xF0 | (c >> 18)) & 0x07 == c >> 18;
    assert ((c >> 18) << 18) | (((c & 0x3FFFF) >> 12) << 12) | (((c & 0xFFF) >> 6) << 6) | (c & 0x3F) == c;
  }

  /** No error bit is left when the code point is in range and the bytes behind the first are continuations. */
  lemma NoError(c: bv32, s1: uchar, s2: uchar, s3: uchar, len: nat)
    requires 3 <= len <= 4 && MinimumOf(len) <= c && IsScalar(c)
    requires s1 & 0xC0 == 0x80 && s2 & 0xC0 == 0x80 && (len == 4 ==> s3 >> 6 == 2)
    ensures ErrorOf(c, s1, s2, s3, len) == 0
  {}

  lemma ThreeDecodes(c: bv32, s3: uchar)
    requires 0x800 <= c < 0x10000 && IsScalar(c)
    ensures Utf8Decode(0xE0 | (c >> 12), 0x80 | ((c & 0xFFF) >> 6), 0x80 | (c & 0x3F), s3) == Decoded(c, 0, 3)
  {
    hide ErrorOf, CodeOf, LengthOf;
    Continuation((c & 0xFFF) >> 6);
    Continuation(c & 0x3F);
    ThreeCode(c, s3);
    NoError(c, 0x80 | ((c & 0xFFF) >> 6), 0x80 | (c & 0x3F), s3, 3);
  }

  lemma FourDecodes(c: bv32)
    requires 0x10000 <= c <= 0x10FFFF
    ensures Utf8Decode(0xF0 | (c >> 18), 0x80 | ((c & 0x3FFFF) >> 12), 0x80 | ((c & 0xFFF) >> 6), 0x80 | (c & 0x3F))
         == Decoded(c, 0, 4)
  {
    hide ErrorOf, CodeOf, LengthOf;
    Continuation((c & 0x3FFFF) >> 12);
    Continuation((c & 0xFFF) >> 6);
    Continuation(c & 0x3F);
    FourCode(c);
    NoError(c, 0x80 | ((c & 0x3FFFF) >> 12), 0x80 | ((c & 0xFFF) >> 6), 0x80 | (c & 0x3F), 4);
  }

  lemma EncodingDecodes(c: bv32, s0: uchar, s1: uchar, s2: uchar, s3: uchar)
    requires IsScalar(c) && Encode(c) <= [s0, s1, s2, s3]
    ensures Utf8Decode(s0, s1, s2, s3) == Decoded(c, 0, |Encode(c)|)
  {
    hide Utf8Decode;
    var t, s := Encode(c), [s0, s1, s2, s3];
    assert s[0] == t[0] && (|t| > 1 ==> s[1] == t[1]) && (|t| > 2 ==> s[2] == t[2]) && (|t| > 3 ==> s[3] == t[3]);
    if c < 0x80 {
      OneDecodes(c, s1, s2, s3);
    } else if c < 0x800 {
      TwoDecodes(c, s2, s3);
    } else if c < 0x10000 {
      ThreeDecodes(c, s3);
    } else {
      FourDecodes(c);
    }
  }
  // ---- Visiting every code point of a text

  /** A code point, or INVALID_CODE_POINT, and the bytes it stands for. */
  datatype Visit = Visit(cp: bv32, view: seq<uchar>)

  /** The byte at i; behind the text there are zeros. */
  function At(s: seq<uchar>, i: nat): uchar
  {
    if i < |s| then s[i] else 0
  }

  function DecodeAt(s: seq<uchar>, i: nat): Decoded
  {
    Utf8Decode(At(s, i), At(s, i + 1), At(s, i + 2), At(s, i + 3))
  }

  /** No byte of an encoding behind the first is zero. */
  lemma NoZeroInside(c: bv32)
    requires IsScalar(c)
    ensures forall k | 1 <= k < |Encode(c)| :: Encode(c)[k] != 0
  {
    hide IsScalar;
    if c >= 0x80 {
      Continuation((c & 0x3FFFF) >> 12);
      Continuation((c & 0xFFF) >> 6);
      Continuation(c & 0x3F);
    }
  }

  /** What is decoded without an error ends inside the text, whatever padding was read. */
  lemma EndsInside(s: seq<uchar>, i: nat)
    requires i < |s|
    ensures DecodeAt(s, i).e == 0 ==> i + DecodeAt(s, i).next <= |s|
  {
    hide Utf8Decode, Encode;
    var d := DecodeAt(s, i);
    if d.e == 0 {
      DecodesEncoding(At(s, i), At(s, i + 1), At(s, i + 2), At(s, i + 3));
      NoZeroInside(d.c);
      var t := [At(s, i), At(s, i + 1), At(s, i + 2), At(s, i + 3)];
      if d.next > 1 {
        assert t[d.next - 1] == t[..d.next][d.next - 1];
      }
    }
  }

  /** How far the visit at i goes: one byte on an error. */
  function StepAt(s: seq<uchar>, i: nat): (n: nat)
    requires i < |s|
    ensures 1 <= n <= 4 && i + n <= |s|
  {
    EndsInside(s, i);
    if DecodeAt(s, i).e != 0 then 1 else DecodeAt(s, i).next
  }

  function VisitAt(s: seq<uchar>, i: nat): Visit
    requires i < |s|
  {
    Visit(if DecodeAt(s, i).e != 0 then INVALID_CODE_POINT else DecodeAt(s, i).c, s[i..i + StepAt(s, i)])
  }

  function Visits(s: seq<uchar>, i: nat): seq<Visit>
    requires i <= |s|
    decreases |s| - i
  {
    if i == |s| then [] else [VisitAt(s, i)] + Visits(s, i + StepAt(s, i))
  }

  function Views(vs: seq<Visit>): seq<uchar>
  {
    if vs == [] then [] else vs[0].view + Views(vs[1..])
  }

  /** The views cover the text, without gap or overlap. */
  lemma {:induction false} ViewsCover(s: seq<uchar>, i: nat)
    requires i <= |s|
    ensures Views(Visits(s, i)) == s[i..]
    decreases |s| - i
  {
    hide StepAt, DecodeAt;
    if i < |s| {
      ViewsCover(s, i + StepAt(s, i));
    }
  }

  /** A visit reports a code point exactly when its view is that code point's encoding. */
  lemma VisitExact(s: seq<uchar>, i: nat)
    requires i < |s|
    ensures var v := VisitAt(s, i);
      if IsScalar(v.cp) then v.view == Encode(v.cp)
      else v.cp == INVALID_CODE_POINT && |v.view| == 1 && forall c | IsScalar(c) :: !(Encode(c) <= s[i..])
  {
    hide Utf8Decode, Encode;
    var t := [At(s, i), At(s, i + 1), At(s, i + 2), At(s, i + 3)];
    EndsInside(s, i);
    if DecodeAt(s, i).e == 0 {
      DecodesEncoding(t[0], t[1], t[2], t[3]);
      assert s[i..i + StepAt(s, i)] == t[..StepAt(s, i)];
    } else {
      forall c | IsScalar(c)
        ensures !(Encode(c) <= s[i..])
      {
        if Encode(c) <= s[i..] {
          PrefixOfFour(s, i, Encode(c));
          EncodingDecodes(c, t[0], t[1], t[2], t[3]);
          assert false;
        }
      }
    }
  }

  lemma PrefixOfFour(s: seq<uchar>, i: nat, t: seq<uchar>)
    requires i <= |s| && t <= s[i..] && 1 <= |t| <= 4
    ensures t <= [At(s, i), At(s, i + 1), At(s, i + 2), At(s, i + 3)]
  {
    forall k | 0 <= k < |t|
      ensures t[k] == At(s, i + k)
    {
      assert t[k] == s[i..][k];
    }
  }

  /** The visits made up to p, none of which f ended the run at. */
  ghost predicate Visited(visits: seq<Visit>, s: seq<uchar>, p: nat, f: seq<Visit> -> bool)
  {
    p <= |s| && Visits(s, 0) == visits + Visits(s, p) && forall k | 0 < k <= |visits| :: f(visits[..k])
  }

  /** The visits made: those of the whole text, or those up to the first that f says no to. */
  ghost predicate Finished(visits: seq<Visit>, s: seq<uchar>, f: seq<Visit> -> bool)
  {
    && visits <= Visits(s, 0) && (forall k | 0 < k < |visits| :: f(visits[..k]))
    && (visits == Visits(s, 0) || (visits != [] && !f(visits)))
  }

  lemma VisitStep(visits: seq<Visit>, s: seq<uchar>, p: nat, f: seq<Visit> -> bool)
    requires Visited(visits, s, p, f) && p < |s|
    ensures var visits' := visits + [VisitAt(s, p)];
      if f(visits') then Visited(visits', s, p + StepAt(s, p), f) else Finished(visits', s, f)
  {
    hide VisitAt, StepAt;
    var v := VisitAt(s, p);
    var visits' := visits + [v];
    var rest := Visits(s, p + StepAt(s, p));
    assert visits + ([v] + rest) == visits' + rest;
    forall k | 0 < k <= |visits|
      ensures f(visits'[..k])
    {
      assert visits'[..k] == visits[..k];
    }
    assert visits'[..|visits'|] == visits';
  }

  lemma VisitsEnd(visits: seq<Visit>, s: seq<uchar>, f: seq<Visit> -> bool)
    requires Visited(visits, s, |s|, f)
    ensures Finished(visits, s, f)
  {}

  /** The four bytes at q in buf are those at p in s, or zeros behind it. */
  predicate FourBytes(buf: seq<uchar>, q: nat, s: seq<uchar>, p: nat)
  {
    && q + 4 <= |buf|
    && buf[q] == At(s, p) && buf[q + 1] == At(s, p + 1) && buf[q + 2] == At(s, p + 2) && buf[q + 3] == At(s, p + 3)
  }

  /**
    Calls f with the visits so far, the newest last, until f says no. The last bytes are decoded in a
    copy padded with zeros; every read lies inside the text or that copy.
   */
  method ForEachCodepoint(s: seq<uchar>, f: seq<Visit> -> bool) returns (visits: seq<Visit>)
    ensures visits <= Visits(s, 0)
    ensures forall k | 0 < k < |visits| :: f(visits[..k])
    ensures visits == Visits(s, 0) || (visits != [] && !f(visits))
  {
    hide Utf8Decode, StepAt, Visits, VisitAt, Visited;
    var p := 0;
    visits := [];
    var result := true;
    VisitsBegin(s, f);
    if |s| >= 4 {
      var end := |s| - 4 + 1;
      while p < end
        invariant p <= |s| && Visited(visits, s, p, f)
        decreases |s| - p
      {
        result, p, visits := Decode(s, p, s, p, visits, f);
        if !result {
          return;
        }
      }
    }
    var left := |s| - p;
    if left != 0 {
      var buf := new uchar[7](_ => 0);
      forall k | 0 <= k < left {
        buf[k] := s[p + k];
      }
      var padded, q := buf[..], 0;
      ghost var base := p;
      while true
        invariant q < left <= 3 && p == base + q && base + left == |s| && Visited(visits, s, p, f)
        invariant |padded| == 7 && forall j | 0 <= j < 7 :: padded[j] == At(s, base + j)
        decreases left - q
      {
        var next;
        result, next, visits := Decode(padded, q, s, p, visits, f);
        if !result {
          return;
        }
        p := p + (next - q);
        q := next;
        if q >= left {
          break;
        }
      }
    }
    VisitsEnd(visits, s, f);
  }

  lemma VisitsBegin(s: seq<uchar>, f: seq<Visit> -> bool)
    ensures Visited([], s, 0, f)
  {}

  /** Decodes at q in buf what stands at p in s, and visits it. */
  method Decode(buf: seq<uchar>, q: nat, s: seq<uchar>, p: nat, visits: seq<Visit>, f: seq<Visit> -> bool)
    returns (result: bool, next: nat, visits': seq<Visit>)
    requires p < |s| && FourBytes(buf, q, s, p) && Visited(visits, s, p, f)
    ensures visits' == visits + [VisitAt(s, p)] && next == q + StepAt(s, p) && result == f(visits')
    ensures if result then Visited(visits', s, p + StepAt(s, p), f) else Finished(visits', s, f)
  {
    hide Utf8Decode, Visited, Finished;
    var d := Utf8Decode(buf[q], buf[q + 1], buf[q + 2], buf[q + 3]);
    EndsInside(s, p);
    VisitStep(visits, s, p, f);
    var n := if d.e != 0 then 1 else d.next;
    visits' := visits + [Visit(if d.e != 0 then INVALID_CODE_POINT else d.c, s[p..p + n])];
    result := f(visits');
    next := if d.e != 0 then q + 1 else q + d.next;
  }

  // ---- Converting UTF-32

  /** Appends the encoding of one value, unless it is no scalar value. */
  method AppendCodePoint(buf: seq<uchar>, c: bv32) returns (ok: bool, buf': seq<uchar>)
    ensures ok == IsScalar(c) && buf' == if ok then buf + Encode(c) else buf
  {
    ok, buf' := true, buf;
    if c < 0x80 {
      buf' := buf' + [c];
    } else if c < 0x800 {
      buf' := buf' + [0xC0 | (c >> 6)];
      buf' := buf' + [0x80 | (c & 0x3F)];
    } else if 0x800 <= c <= 0xD7FF || 0xE000 <= c <= 0xFFFF {
      buf' := buf' + [0xE0 | (c >> 12)];
      buf' := buf' + [0x80 | ((c & 0xFFF) >> 6)];
      buf' := buf' + [0x80 | (c & 0x3F)];
    } else if 0x10000 <= c <= 0x10FFFF {
      buf' := buf' + [0xF0 | (c >> 18)];
      buf' := buf' + [0x80 | ((c & 0x3FFFF) >> 12)];
      buf' := buf' + [0x80 | ((c & 0xFFF) >> 6)];
      buf' := buf' + [0x80 | (c & 0x3F)];
    } else {
      ok := false;
    }
  }

  /** Converts every value; stops, with what has been converted, at one that is not a scalar value. */
  method ConvertUtf32(s: seq<bv32>) returns (ok: bool, buf: seq<uchar>)
    ensures ok <==> AllScalar(s)
    ensures ok ==> buf == EncodeAll(s) + [0]
    ensures !ok ==> exists n | 0 <= n < |s| :: !IsScalar(s[n]) && AllScalar(s[..n]) && buf == EncodeAll(s[..n])
  {
    hide Encode, EncodeAll, IsScalar;
    buf := [];
    NothingEncoded();
    for n := 0 to |s|
      invariant AllScalar(s[..n]) && buf == EncodeAll(s[..n])
    {
      ok, buf := AppendCodePoint(buf, s[n]);
      if !ok {
        return;
      }
      assert s[..n + 1] == s[..n] + [s[n]];
      EncodeSnoc(s[..n], s[n]);
    }
    assert s[..|s|] == s;
    buf := buf + [0];
    ok := true;
  }

  lemma NothingEncoded()
    ensures EncodeAll([]) == []
  {}

  lemma {:induction false} EncodeSnoc(cs: seq<bv32>, c: bv32)
    requires IsScalar(c) && AllScalar(cs)
    ensures EncodeAll(cs + [c]) == EncodeAll(cs) + Encode(c)
  {
    hide Encode, IsScalar;
    if cs == [] {
      assert [c][1..] == [] && [] + [c] == [c];
    } else {
      EncodeSnoc(cs[1..], c);
      assert (cs + [c])[1..] == cs[1..] + [c];
    }
  }

  /** Visiting a converted text gives back the values it was converted from, with no error. */
  lemma RoundTrip(cs: seq<bv32>)
    requires AllScalar(cs)
    ensures Visits(EncodeAll(cs), 0) == VisitsOf(cs)
  {
    var s := EncodeAll(cs);
    assert s[0..] == s;
    RoundTripFrom(s, 0, cs);
  }

  function VisitsOf(cs: seq<bv32>): seq<Visit>
    requires AllScalar(cs)
  {
    seq(|cs|, i requires 0 <= i < |cs| => Visit(cs[i], Encode(cs[i])))
  }

  lemma {:induction false} RoundTripFrom(s: seq<uchar>, i: nat, cs: seq<bv32>)
    requires AllScalar(cs) && i <= |s| && s[i..] == EncodeAll(cs)
    ensures Visits(s, i) == VisitsOf(cs)
    decreases |cs|
  {
    hide Encode, Utf8Decode, IsScalar, StepAt, VisitAt;
    if cs != [] {
      var c, t := cs[0], Encode(cs[0]);
      assert t <= s[i..];
      VisitOfEncoding(s, i, c);
      assert s[i + |t|..] == s[i..][|t|..] == EncodeAll(cs[1..]);
      RoundTripFrom(s, i + |t|, cs[1..]);
      assert VisitsOf(cs) == [Visit(c, t)] + VisitsOf(cs[1..]);
    }
  }

  lemma VisitOfEncoding(s: seq<uchar>, i: nat, c: bv32)
    requires IsScalar(c) && i < |s| && Encode(c) <= s[i..]
    ensures VisitAt(s, i) == Visit(c, Encode(c)) && StepAt(s, i) == |Encode(c)|
  {
    hide Encode, Utf8Decode, IsScalar;
    var t := Encode(c);
    PrefixOfFour(s, i, t);
    EncodingDecodes(c, At(s, i), At(s, i + 1), At(s, i + 2), At(s, i + 3));
    assert s[i..i + |t|] == s[i..][..|t|] == t;
  }
}
