/** The flushing and truncating output buffers of fmt/base.h: `buffer`, the two `iterator_buffer`s with
    `fixed_buffer_traits`, the one without a limit, and `counting_buffer`. */
module OutputBuffer {

  /** Which buffer it is, that is, which `grow` function it carries. */
  datatype Kind =
    | Iterator // flushes into an output iterator, up to a limit
    | Unlimited // flushes into an output iterator, everything
    | Pointer // writes in place into an array, up to a limit
    | Counting // counts and discards

  const BUFFER_SIZE: nat := 256

  function Min(a: nat, b: nat): nat
  {
    if a < b then a else b
  }

  /** The first n characters of a text, or all of it. */
  function First(n: nat, s: seq<char>): (r: seq<char>)
    ensures |r| == Min(n, |s|)
  {
    s[..Min(n, |s|)]
  }

  class Buffer {
    const kind: Kind
    const limit: nat
    const data: array<char>
    const out: array<char>

    var ptr: array<char>
    var size: nat
    var capacity: nat
    var count: nat

    /** What the output iterator has received, and how far the pointer has moved. */
    var sink: seq<char>
    var outPos: nat

    /** Everything that was ever written into the buffer, and what the caller's array held before. */
    ghost var written: seq<char>
    ghost const original: seq<char>

    /** The elements still in the buffer are the last ones written, and count says how many went before. */
    ghost predicate Stored()
      reads this, data, out
    {
      data != out && data.Length == BUFFER_SIZE && (kind.Pointer? ==> limit <= out.Length) &&
      (ptr == data || ptr == out) && size <= capacity <= ptr.Length && size <= |written| &&
      (!kind.Unlimited? ==> count == |written| - size) &&
      ptr[..size] == written[|written| - size..]
    }

    /** Where the elements before those have gone. */
    ghost predicate Delivered()
      reads this, data, out
      requires Stored()
    {
      match kind
      case Iterator => ptr == data && capacity == BUFFER_SIZE && sink == First(limit, written[..count])
      case Unlimited => ptr == data && capacity == BUFFER_SIZE && sink == written[..|written| - size]
      case Counting => ptr == data && capacity == BUFFER_SIZE
      case Pointer =>
        if ptr == out then capacity == limit && outPos == 0 && count == 0
        else capacity == BUFFER_SIZE && outPos == limit <= count && out[..limit] == written[..limit]
    }

    /** How much of the caller's array has been written. */
    ghost function Touched(): nat
      reads this
    {
      if kind.Pointer? then Min(limit, |written|) else 0
    }

    ghost predicate Untouched()
      reads this, out
    {
      |original| == out.Length && forall j :: Touched() <= j < out.Length ==> out[j] == original[j]
    }

    ghost predicate Valid()
      reads this, data, out
    {
      Stored() && Delivered() && Untouched()
    }

    constructor (kind: Kind, n: nat, out: array<char>)
      requires kind.Pointer? ==> n <= out.Length
      ensures Valid() && written == [] && this.kind == kind && this.out == out && limit == n
      ensures fresh(data) && original == out[..]
    {
      this.kind := kind;
      limit := n;
      this.out := out;
      original := out[..];
      var d := new char[BUFFER_SIZE];
      data := d;
      ptr := if kind.Pointer? then out else d;
      capacity := if kind.Pointer? then n else BUFFER_SIZE;
      size, count, outPos := 0, 0, 0;
      sink, written := [], [];
    }

    /** `fixed_buffer_traits::limit`: how many of size elements may still be delivered. */
    method Limit(n: nat) returns (r: nat)
      modifies this`count
      ensures count == old(count) + n
      ensures r == Min(n, if limit > old(count) then limit - old(count) else 0)
    {
      var left := if limit > count then limit - count else 0;
      count := count + n;
      r := Min(n, left);
    }

    /** `flush` of the buffers on an output iterator: the buffer is emptied into the sink. */
    method FlushIterator()
      requires Valid() && (kind.Iterator? || kind.Unlimited?)
      modifies this
      ensures Valid() && size == 0 && written == old(written) && ptr == old(ptr)
    {
      hide First;
      var n := size;
      FlushedText(limit, written, data[..n]);
      size := 0;
      var end := n;
      if kind.Iterator? { end := Limit(n); }
      assert data[..n][..end] == data[..end];
      CopyOut(end);
      assert written[|written|..] == [] && ptr[..0] == [];
    }

    method CopyOut(end: nat)
      requires end <= data.Length
      modifies this`sink
      ensures sink == old(sink) + data[..end]
    {
      var begin := 0;
      while begin != end
        invariant 0 <= begin <= end && sink == old(sink) + data[..begin]
      {
        sink := sink + [data[begin]];
        begin := begin + 1;
      }
    }

    /** `flush` of the buffer on a pointer. The test whether it still writes in place compares addresses,
        and may also come out true, by accident, when the buffer lies right behind the caller's array. */
    method FlushPointer(adjacent: bool)
      requires Valid() && kind.Pointer?
      modifies this
      ensures written == old(written) && size == 0 && count == |written|
      ensures outPos == Min(limit, |written|) && out[..outPos] == written[..outPos] && Untouched()
      ensures old(size == capacity) ==> Valid() && ptr == data
    {
      var n := Limit(size);
      if ptr == out || (adjacent && outPos == out.Length) {
        outPos := outPos + n;
        ptr, capacity := data, BUFFER_SIZE;
      }
      size := 0;
    }

    /** The `grow` functions: a full buffer is flushed or discarded, a buffer with room is left alone. */
    method Grow(adjacent: bool)
      requires Valid()
      modifies this
      ensures Valid() && written == old(written) && size < capacity
    {
      match kind
      case Counting =>
        if size != BUFFER_SIZE { return; }
        count := count + size;
        size := 0;
      case Pointer =>
        if size == capacity { FlushPointer(adjacent); }
      case Iterator =>
        if size == BUFFER_SIZE { FlushIterator(); }
      case Unlimited =>
        if size == BUFFER_SIZE { FlushIterator(); }
    }

    /** `try_reserve`: whatever is asked for beyond the size, at least one element fits afterwards. */
    method TryReserve(n: nat, adjacent: bool)
      requires Valid()
      modifies this
      ensures Valid() && written == old(written) && (n > old(size) ==> size < capacity)
    {
      if n > capacity { Grow(adjacent); }
    }

    /** One element into free room. */
    method Put(c: char)
      requires Valid() && size < capacity
      modifies this`size, this`written, data, out
      ensures Valid() && written == old(written) + [c] && size == old(size) + 1
    {
      hide First;
      ghost var before, stored := written, ptr[..size];
      ptr[size] := c;
      size := size + 1;
      written := written + [c];
      assert ptr[..size] == stored + [c];
      OneMoreStored(before, stored, c);
      assert forall k :: 0 <= k <= |before| ==> written[..k] == before[..k];
    }

    /** `push_back`. */
    method PushBack(c: char, adjacent: bool)
      requires Valid()
      modifies this, data, out
      ensures Valid() && written == old(written) + [c]
    {
      TryReserve(size + 1, adjacent);
      Put(c);
    }

    /** `append`: as much as fits at a time. */
    method Append(s: seq<char>, adjacent: bool)
      requires Valid()
      modifies this, data, out
      ensures Valid() && written == old(written) + s
    {
      hide Stored, Delivered, Untouched;
      var begin := 0;
      while begin != |s|
        invariant 0 <= begin <= |s| && Valid() && written == old(written) + s[..begin]
        decreases |s| - begin
      {
        var n := |s| - begin;
        TryReserve(size + n, adjacent);
        var free := capacity - size;
        if free < n { n := free; }
        for i := 0 to n
          invariant Valid() && written == old(written) + s[..begin + i]
          invariant size + (n - i) <= capacity
        {
          assert s[..begin + i + 1] == s[..begin + i] + [s[begin + i]];
          Put(s[begin + i]);
        }
        begin := begin + n;
      }
      assert s[..begin] == s;
    }

    /** `out`, the last call on a buffer: everything left is flushed. */
    method Out(adjacent: bool)
      requires Valid() && !kind.Counting?
      modifies this
      ensures written == old(written) && size == 0 && Untouched()
      ensures kind.Iterator? ==> sink == First(limit, written) && count == |written|
      ensures kind.Unlimited? ==> sink == written
      ensures kind.Pointer? ==> outPos == Min(limit, |written|) && count == |written|
      ensures kind.Pointer? ==> out[..outPos] == First(limit, written)
    {
      if kind.Pointer? {
        FlushPointer(adjacent);
      } else {
        FlushIterator();
        assert written[..|written|] == written;
      }
    }

    /** `count`: of everything written, delivered or not. */
    function Count(): (n: nat)
      reads this
    {
      count + size
    }
  }

  lemma OneMoreStored(written: seq<char>, stored: seq<char>, c: char)
    requires |stored| <= |written| && stored == written[|written| - |stored|..]
    ensures stored + [c] == (written + [c])[|written| - |stored|..]
  {
  }

  /** What the sink holds once the stored part of a text has followed the rest, with a limit and without. */
  lemma FlushedText(limit: nat, written: seq<char>, stored: seq<char>)
    requires |stored| <= |written| && stored == written[|written| - |stored|..]
    ensures var gone := written[..|written| - |stored|];
            var left := if limit > |gone| then limit - |gone| else 0;
            && First(limit, written[..|written|]) == First(limit, gone) + stored[..Min(|stored|, left)]
            && written[..|written|] == gone + stored
  {
    var gone := written[..|written| - |stored|];
    assert written[..|written|] == gone + stored;
    FirstGrows(limit, gone, stored);
  }

  lemma FirstGrows(limit: nat, s: seq<char>, t: seq<char>)
    ensures First(limit, s + t) == First(limit, s) + t[..Min(|t|, if limit > |s| then limit - |s| else 0)]
  {
  }

  /** The calls the formatter makes of its output buffer. */
  datatype Call = Push(c: char) | Append(text: seq<char>)

  function Text(calls: seq<Call>): seq<char>
  {
    if calls == [] then []
    else Text(calls[..|calls| - 1]) +
         match calls[|calls| - 1] { case Push(c) => [c] case Append(text) => text }
  }

  method Perform(b: Buffer, calls: seq<Call>, adjacent: bool)
    requires b.Valid() && b.written == []
    modifies b, b.data, b.out
    ensures b.Valid() && b.written == Text(calls)
  {
    for i := 0 to |calls|
      invariant b.Valid() && b.written == Text(calls[..i])
    {
      assert calls[..i + 1][..i] == calls[..i];
      match calls[i]
      case Push(c) => b.PushBack(c, adjacent);
      case Append(text) => b.Append(text, adjacent);
    }
    assert calls[..|calls|] == calls;
  }

  /** `vformat_to_n` on an output iterator. */
  method VformatToN(calls: seq<Call>, n: nat) returns (sink: seq<char>, size: nat)
    ensures sink == First(n, Text(calls)) && size == |Text(calls)|
  {
    var none := new char[0];
    var b := new Buffer(Iterator, n, none);
    Perform(b, calls, false);
    b.Out(false);
    sink, size := b.sink, b.Count();
  }

  /** `vformat_to_n` on a pointer: the array behind the first n elements, or behind the text, is not
      written. */
  method VformatToNInPlace(calls: seq<Call>, out: array<char>, n: nat, adjacent: bool) returns (end: nat, size: nat)
    requires n <= out.Length
    modifies out
    ensures end == Min(n, |Text(calls)|) && size == |Text(calls)|
    ensures out[..] == First(n, Text(calls)) + old(out[end..])
  {
    var b := new Buffer(Pointer, n, out);
    Perform(b, calls, adjacent);
    b.Out(adjacent);
    end, size := b.outPos, b.Count();
    assert out[end..] == old(out[end..]);
  }

  /** The text's size by a `counting_buffer`, as `formatted_size` asks for it. */
  method FormattedSize(calls: seq<Call>) returns (size: nat)
    ensures size == |Text(calls)|
  {
    var none := new char[0];
    var b := new Buffer(Counting, 0, none);
    Perform(b, calls, false);
    size := b.Count();
  }
}
