/** Output buffers that deliver at most a given number of elements and count all of them. */
module Buffers {
  import opened Arith
  import opened Texts

  const BUFFER_SIZE: nat := 256

  /** Delivering in pieces: of the next piece as much is due as is left of the limit. */
  lemma ClipConcat<T>(s: seq<T>, t: seq<T>, n: nat)
    ensures Clip(s + t, n) == Clip(s, n) + Clip(t, if n > |s| then n - |s| else 0)
  {}

  lemma CopiedDirectly<T>(s: seq<T>, initial: seq<T>, before: seq<T>, piece: seq<T>)
    requires |s| + |piece| <= |initial| && before == s + initial[|s|..]
    ensures before[..|s|] + piece + before[|s| + |piece|..] == (s + piece) + initial[|s| + |piece|..]
  {}

  lemma CopiedAside<T>(s: seq<T>, before: seq<T>, piece: seq<T>)
    requires |s| + |piece| <= |before| && before[..|s|] == s
    ensures (before[..|s|] + piece + before[|s| + |piece|..])[..|s| + |piece|] == s + piece
  {}

  class FixedBufferTraits {
    var count: nat
    const limit: nat

    constructor (limit: nat)
      ensures this.limit == limit && count == 0
    {
      this.limit := limit;
      count := 0;
    }

    /** How many of the next size elements are still due; all of them are counted. */
    method Limit(size: nat) returns (n: nat)
      modifies this
      ensures n == Min(size, if limit > old(count) then limit - old(count) else 0)
      ensures count == old(count) + size
    {
      n := if limit > count then limit - count else 0;
      count := count + size;
      n := if size < n then size else n;
    }
  }

  // ---- Writing to an output iterator

  class IteratorBuffer<T(0)> {
    const traits: FixedBufferTraits
    const data: array<T>
    var size: nat
    /** What the output iterator has been given. */
    var delivered: seq<T>
    /** Everything appended so far. */
    ghost var appended: seq<T>

    ghost predicate Valid()
      reads this, traits, data
    {
      && data.Length == BUFFER_SIZE && size <= BUFFER_SIZE && traits.count + size == |appended|
      && delivered == Clip(appended[..traits.count], traits.limit)
      && data[..size] == appended[traits.count..]
    }

    constructor (n: nat)
      ensures Valid() && fresh(data) && fresh(traits) && traits.limit == n && appended == [] && delivered == []
    {
      traits := new FixedBufferTraits(n);
      data := new T[BUFFER_SIZE];
      size, delivered, appended := 0, [], [];
    }

    method Flush()
      requires Valid()
      modifies this`size, this`delivered, traits
      ensures Valid() && size == 0 && traits.count == |appended|
    {
      var n := size;
      size := 0;
      ghost var before := appended[..traits.count];
      ClipConcat(before, data[..n], traits.limit);
      assert appended == before + data[..n];
      assert appended[..|appended|] == appended;
      var due := traits.Limit(n);
      assert data[..due] == Clip(data[..n], if traits.limit > |before| then traits.limit - |before| else 0);
      delivered := delivered + data[..due];
    }

    method Grow()
      requires Valid()
      modifies this`size, this`delivered, traits
      ensures Valid() && size < BUFFER_SIZE && (old(size) < BUFFER_SIZE ==> size == old(size))
    {
      if size == BUFFER_SIZE {
        Flush();
      }
    }

    method TryReserve(newCapacity: nat)
      requires Valid() && newCapacity > size
      modifies this`size, this`delivered, traits
      ensures Valid() && size < BUFFER_SIZE
    {
      if newCapacity > BUFFER_SIZE {
        Grow();
      }
    }

    method PushBack(value: T)
      requires Valid()
      modifies this, traits, data
      ensures Valid() && appended == old(appended) + [value]
    {
      TryReserve(size + 1);
      data[size] := value;
      size := size + 1;
      appended := appended + [value];
    }

    /** Every turn makes room for at least one element. */
    method Append(s: seq<T>)
      requires Valid()
      modifies this, traits, data
      ensures Valid() && appended == old(appended) + s
    {
      hide Valid;
      var begin := 0;
      while begin != |s|
        invariant begin <= |s| && Valid() && appended == old(appended) + s[..begin]
        decreases |s| - begin
      {
        var count := |s| - begin;
        TryReserve(size + count);
        var freeCap := BUFFER_SIZE - size;
        if freeCap < count {
          count := freeCap;
        }
        Copy(s, begin, count);
        assert s[..begin + count] == s[..begin] + s[begin..begin + count];
        begin := begin + count;
      }
      assert s[..|s|] == s;
    }

    /** Copies part of s behind what is in the buffer. */
    method Copy(s: seq<T>, begin: nat, count: nat)
      requires Valid() && begin + count <= |s| && size + count <= BUFFER_SIZE
      modifies this`size, this`appended, data
      ensures Valid() && appended == old(appended) + s[begin..begin + count]
    {
      ghost var piece := s[begin..begin + count];
      forall k | 0 <= k < count {
        data[size + k] := s[begin + k];
      }
      assert data[..size + count] == old(data[..size]) + piece;
      size := size + count;
      appended := appended + piece;
    }

    /** Exactly the first limit elements have arrived, however they were appended. */
    method Out() returns (out: seq<T>)
      requires Valid()
      modifies this`size, this`delivered, traits
      ensures Valid() && out == delivered == Clip(appended, traits.limit)
    {
      Flush();
      assert appended[..|appended|] == appended;
      out := delivered;
    }

    /** Elements beyond the limit are counted too. */
    method Count() returns (n: nat)
      requires Valid()
      ensures n == |appended|
    {
      n := traits.count + size;
    }
  }

  // ---- Writing to an array

  class PointerBuffer<T(0)> {
    const traits: FixedBufferTraits
    /** The destination, and the position in it that out reports. */
    const dest: array<T>
    var out: nat
    const data: array<T>
    /** Where elements go: to the destination first, to data once that is full or out has been called. */
    var ptr: array<T>
    var size: nat
    var capacity: nat
    ghost var appended: seq<T>
    ghost const initial: seq<T>

    ghost predicate Valid()
      reads this, traits, dest, data
    {
      && data.Length == BUFFER_SIZE && dest != data && |initial| == dest.Length && traits.limit <= dest.Length
      && size <= capacity && traits.count + size == |appended|
      && if ptr == dest then
           && traits.count == 0 && out == 0 && capacity == traits.limit
           && dest[..] == appended + initial[size..]
         else
           && ptr == data && out <= Min(traits.limit, traits.count) && capacity == BUFFER_SIZE
           && dest[..] == appended[..out] + initial[out..]
           && data[..size] == appended[traits.count..]
    }

    /** The destination was not left before it was full. */
    predicate OnTime()
      reads this
    {
      ptr == dest || out == traits.limit
    }

    /** Once left, the destination is out of reach: the position in it stays. */
    twostate predicate Kept()
      reads this
    {
      && (old(OnTime()) ==> OnTime())
      && (old(ptr) != dest ==> ptr == old(ptr) && out == old(out))
    }

    constructor (dest: array<T>, n: nat)
      requires n <= dest.Length
      ensures Valid() && OnTime() && fresh(data) && fresh(traits) && this.dest == dest && traits.limit == n
      ensures appended == [] && initial == dest[..]
    {
      traits := new FixedBufferTraits(n);
      data := new T[BUFFER_SIZE];
      this.dest, ptr := dest, dest;
      out, size, capacity, appended, initial := 0, 0, n, [], dest[..];
    }

    /** The destination, full or not, is left for good; what is in data is thrown away. */
    method Flush()
      requires Valid()
      modifies this, traits
      ensures Valid() && size == 0 && capacity == BUFFER_SIZE && ptr == data && appended == old(appended)
      ensures traits.count == |appended|
      ensures out == if old(ptr) == dest then Min(|appended|, traits.limit) else old(out)
      ensures old(OnTime() && (ptr == dest ==> size == capacity)) ==> OnTime()
    {
      var n := traits.Limit(size);
      if ptr == dest {
        out := out + n;
        ptr, capacity := data, BUFFER_SIZE;
      }
      size := 0;
    }

    method Grow()
      requires Valid()
      modifies this, traits
      ensures Valid() && Kept() && size < capacity && appended == old(appended)
    {
      if size == capacity {
        Flush();
      }
    }

    method TryReserve(newCapacity: nat)
      requires Valid() && newCapacity > size
      modifies this, traits
      ensures Valid() && Kept() && size < capacity && appended == old(appended)
    {
      if newCapacity > capacity {
        Grow();
      }
    }

    method PushBack(value: T)
      requires Valid()
      modifies this, traits, dest, data
      ensures Valid() && Kept() && appended == old(appended) + [value]
    {
      TryReserve(size + 1);
      ptr[size] := value;
      size := size + 1;
      appended := appended + [value];
    }

    method Append(s: seq<T>)
      requires Valid()
      modifies this, traits, dest, data
      ensures Valid() && Kept() && appended == old(appended) + s
    {
      hide Valid;
      var begin := 0;
      while begin != |s|
        invariant begin <= |s| && Valid() && Kept() && appended == old(appended) + s[..begin]
        decreases |s| - begin
      {
        var count := |s| - begin;
        TryReserve(size + count);
        var freeCap := capacity - size;
        if freeCap < count {
          count := freeCap;
        }
        Copy(s, begin, count);
        assert s[..begin + count] == s[..begin] + s[begin..begin + count];
        begin := begin + count;
      }
      assert s[..|s|] == s;
    }

    /** Copies part of s behind what is in the buffer. */
    method Copy(s: seq<T>, begin: nat, count: nat)
      requires Valid() && begin + count <= |s| && size + count <= capacity
      modifies this`size, this`appended, dest, data
      ensures Valid() && appended == old(appended) + s[begin..begin + count]
    {
      ghost var piece := s[begin..begin + count];
      ghost var before := ptr[..];
      forall k | 0 <= k < count {
        ptr[size + k] := s[begin + k];
      }
      assert ptr[..] == before[..size] + piece + before[size + count..];
      if ptr == dest {
        CopiedDirectly(appended, initial, before, piece);
      } else {
        CopiedAside(appended[traits.count..], before, piece);
        assert (appended + piece)[traits.count..] == appended[traits.count..] + piece;
      }
      size := size + count;
      appended := appended + piece;
    }

    /**
      The first limit elements stand in the destination, the rest of which is untouched. Called again,
      it reports the same position, whatever has been appended in between.
     */
    method Out() returns (end: nat)
      requires Valid()
      modifies this, traits
      ensures Valid() && ptr == data && appended == old(appended) && end == out
      ensures if old(OnTime()) then end == Min(|appended|, traits.limit) else end == old(out)
      ensures old(ptr) != dest ==> end == old(out)
      ensures dest[..] == Clip(appended, end) + initial[end..]
      ensures old(OnTime()) ==> dest[..] == Clip(appended, traits.limit) + initial[end..]
    {
      Flush();
      end := out;
    }

    /** Every element is counted, beyond the limit and before or after out alike. */
    method Count() returns (n: nat)
      requires traits.count + size == |appended|
      ensures n == |appended|
    {
      n := traits.count + size;
    }
  }

  // ---- Formatting with a limit

  lemma NothingBefore<T>(s: seq<T>)
    ensures [] + s == s
  {}

  /** At most n elements of the text go to the destination; its whole size is returned. */
  method FormatToN<T(0)>(dest: array<T>, n: nat, text: seq<T>) returns (end: nat, size: nat)
    requires n <= dest.Length
    modifies dest
    ensures end == Min(|text|, n) && size == |text|
    ensures dest[..] == Clip(text, n) + old(dest[..])[end..]
  {
    hide PointerBuffer<T>.Valid, Clip;
    var buf := new PointerBuffer(dest, n);
    buf.Append(text);
    NothingBefore(text);
    end := buf.Out();
    size := buf.Count();
  }

  /** What is appended after out is counted but never arrives, though the limit has not been reached. */
  method LateElement<T(0)>(dest: array<T>, first: T, late: T) returns (end: nat, size: nat)
    requires dest.Length == 2
    modifies dest
    ensures end == 1 && size == 2
    ensures dest[..] == [first, old(dest[1])]
  {
    hide PointerBuffer<T>.Valid;
    var buf := new PointerBuffer(dest, 2);
    buf.PushBack(first);
    end := buf.Out();
    buf.PushBack(late);
    end := buf.Out();
    size := buf.Count();
  }
}
