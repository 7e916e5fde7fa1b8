// Output buffers with a limit: they pass on the first characters and count all.
module Buffers {

  const BUFFER_SIZE := 256

  function Min(x: nat, y: nat): nat
  {
    if x < y then x else y
  }

  // Counts what is flushed and says how much of it is still within the limit.
  class FixedBufferTraits {
    var count: nat
    const limit: nat

    constructor (limit: nat)
      ensures count == 0 && this.limit == limit
    {
      count := 0;
      this.limit := limit;
    }

    method Limit(size: nat) returns (n: nat)
      modifies this
      ensures count == old(count) + size
      ensures Min(limit, old(count)) + n == Min(limit, count)
    {
      n := if limit > count then limit - count else 0;
      count := count + size;
      n := if size < n then size else n;
    }
  }

  // Writes straight into the caller's memory until the limit is reached, and
  // then into a scratch array whose contents are dropped.
  class PointerBuffer {
    const traits: FixedBufferTraits
    const memory: array<char>
    const scratch: array<char>
    var onScratch: bool     // where the buffer pointer points to
    var size: nat
    var capacity: nat
    var out: nat            // offset of the output pointer in the memory
    ghost var pushed: seq<char>
    ghost const before: seq<char>
    ghost var closed: bool

    ghost predicate Valid()
      reads this, traits, memory, scratch
    {
      && memory != scratch && scratch.Length == BUFFER_SIZE
      && traits.limit <= memory.Length == |before|
      && size <= capacity && traits.count + size == |pushed|
      && (if onScratch
          then capacity == BUFFER_SIZE && out == Min(traits.limit, |pushed|) && (closed || traits.limit <= traits.count)
          else capacity == traits.limit && traits.count == 0 && out == 0 && !closed)
      && Holds()
    }

    // The caller's memory holds the first characters and is otherwise as before.
    ghost predicate Holds()
      reads this, traits, memory
      requires traits.limit <= memory.Length == |before|
    {
      var n := Min(traits.limit, |pushed|);
      && (forall i :: 0 <= i < n ==> memory[i] == pushed[i])
      && (forall i :: n <= i < memory.Length ==> memory[i] == before[i])
    }

    constructor (memory: array<char>, n: nat)
      requires n <= memory.Length
      ensures Valid() && fresh(traits) && fresh(scratch) && this.memory == memory
      ensures pushed == [] && before == memory[..] && !closed && traits.limit == n
    {
      traits := new FixedBufferTraits(n);
      this.memory := memory;
      scratch := new char[BUFFER_SIZE](_ => ' ');
      onScratch, size, capacity, out := false, 0, n, 0;
      pushed, before, closed := [], memory[..], false;
    }

    method Flush()
      requires Valid()
      modifies this`onScratch, this`size, this`capacity, this`out, traits
      ensures size == 0 && onScratch && capacity == BUFFER_SIZE
      ensures traits.count == |pushed|
      ensures out == Min(traits.limit, |pushed|)
    {
      var n := traits.Limit(size);
      if !onScratch {
        out := out + n;
        onScratch, capacity := true, BUFFER_SIZE;
      }
      size := 0;
    }

    method PushBack(value: char)
      requires Valid() && !closed
      modifies this, traits, memory, scratch
      ensures Valid() && !closed
      ensures pushed == old(pushed) + [value]
    {
      if size + 1 > capacity {
        if size == capacity { Flush(); }
      }
      if onScratch { scratch[size] := value; } else { memory[size] := value; }
      size := size + 1;
      pushed := pushed + [value];
    }

    method Append(s: seq<char>)
      requires Valid() && !closed
      modifies this, traits, memory, scratch
      ensures Valid() && !closed
      ensures pushed == old(pushed) + s
    {
      var i := 0;
      while i < |s|
        invariant 0 <= i <= |s| && Valid() && !closed
        invariant pushed == old(pushed) + s[..i]
      {
        PushBack(s[i]);
        assert s[..i] + [s[i]] == s[..i + 1];
        i := i + 1;
      }
      assert s[..i] == s;
    }

    // Ends the output: the offset behind the last character within the limit.
    method Out() returns (end: nat)
      requires Valid()
      modifies this, traits
      ensures Valid() && closed && pushed == old(pushed)
      ensures end == Min(traits.limit, |pushed|)
      ensures memory[..] == pushed[..end] + before[end..]
    {
      Flush();
      closed := true;
      end := out;
    }

    method Count() returns (n: nat)
      requires Valid()
      ensures n == |pushed|
    {
      n := traits.count + size;
    }
  }

  // Collects characters in chunks and copies them to an output iterator.
  class IteratorBuffer {
    const traits: FixedBufferTraits
    const data: array<char>
    var size: nat
    var sink: seq<char>     // what the iterator has received
    ghost var pushed: seq<char>

    ghost predicate Valid()
      reads this, traits, data
    {
      && data.Length == BUFFER_SIZE && size <= BUFFER_SIZE
      && traits.count + size == |pushed|
      && (forall i :: 0 <= i < size ==> data[i] == pushed[traits.count + i])
      && sink == pushed[..Min(traits.limit, traits.count)]
    }

    constructor (n: nat)
      ensures Valid() && fresh(traits) && fresh(data)
      ensures pushed == [] && traits.limit == n
    {
      traits := new FixedBufferTraits(n);
      data := new char[BUFFER_SIZE](_ => ' ');
      size, sink, pushed := 0, [], [];
    }

    method Flush()
      requires Valid()
      modifies this`size, this`sink, traits
      ensures Valid() && size == 0
    {
      ghost var passed := Min(traits.limit, traits.count);
      var n := size;
      size := 0;
      var allowed := traits.Limit(n);
      sink := sink + data[..allowed];
      ghost var now := Min(traits.limit, traits.count);
      assert pushed[..now] == pushed[..passed] + pushed[passed..now];
      assert allowed > 0 ==> data[..allowed] == pushed[passed..now];
    }

    method PushBack(value: char)
      requires Valid()
      modifies this, traits, data
      ensures Valid() && pushed == old(pushed) + [value]
    {
      if size + 1 > BUFFER_SIZE {
        if size == BUFFER_SIZE { Flush(); }
      }
      ghost var was := pushed;
      data[size] := value;
      size := size + 1;
      pushed := pushed + [value];
      assert pushed[..Min(traits.limit, traits.count)] == was[..Min(traits.limit, traits.count)];
    }

    method Out() returns (written: seq<char>)
      requires Valid()
      modifies this, traits
      ensures Valid() && pushed == old(pushed)
      ensures written == pushed[..Min(traits.limit, |pushed|)]
    {
      Flush();
      written := sink;
    }

    method Count() returns (n: nat)
      requires Valid()
      ensures n == |pushed|
    {
      n := traits.count + size;
    }
  }

  // Counts only.
  class CountingBuffer {
    const data: array<char>
    var size: nat
    var count: nat
    ghost var pushed: nat

    ghost predicate Valid()
      reads this
    {
      data.Length == BUFFER_SIZE && size <= BUFFER_SIZE && count + size == pushed
    }

    constructor ()
      ensures Valid() && fresh(data) && pushed == 0
    {
      data := new char[BUFFER_SIZE](_ => ' ');
      size, count, pushed := 0, 0, 0;
    }

    method PushBack(value: char)
      requires Valid()
      modifies this, data
      ensures Valid() && pushed == old(pushed) + 1
    {
      if size + 1 > BUFFER_SIZE {
        if size == BUFFER_SIZE {
          count := count + size;
          size := 0;
        }
      }
      data[size] := value;
      size := size + 1;
      pushed := pushed + 1;
    }

    method Count() returns (n: nat)
      requires Valid()
      ensures n == pushed
    {
      n := count + size;
    }
  }

  // format_to_n: whatever is written, the caller's memory receives the first n
  // characters, nothing behind them changes, and the length of all is reported.
  method FormatToN(memory: array<char>, n: nat, chunks: seq<seq<char>>) returns (end: nat, size: nat)
    requires n <= memory.Length
    modifies memory
    ensures var text := Joined(chunks);
      && end == Min(n, |text|) && size == |text|
      && memory[..] == text[..end] + old(memory[..])[end..]
  {
    var buf := new PointerBuffer(memory, n);
    var i := 0;
    while i < |chunks|
      invariant 0 <= i <= |chunks|
      invariant buf.Valid() && !buf.closed && buf.pushed == Joined(chunks[..i])
      invariant fresh(buf) && fresh(buf.traits) && fresh(buf.scratch)
      invariant buf.memory == memory && buf.before == old(memory[..]) && buf.traits.limit == n
    {
      buf.Append(chunks[i]);
      assert chunks[..i + 1][..i] == chunks[..i];
      i := i + 1;
    }
    assert chunks[..i] == chunks;
    end := buf.Out();
    size := buf.Count();
  }

  function Joined(chunks: seq<seq<char>>): seq<char>
  {
    if |chunks| == 0 then [] else Joined(chunks[..|chunks| - 1]) + chunks[|chunks| - 1]
  }
}
