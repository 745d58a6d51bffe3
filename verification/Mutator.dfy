/** The in-place payload mutator: one zero-filled buffer, 64-bit XOR over overlapping views of
    it, and the cache of the views it has handed out. */
module Mutator {
  import opened Bits
  import opened Payload
  import opened Sequences

  /** Whether the views of one buffer have been released. */
  class Lease {
    var released: bool

    constructor ()
      ensures !released
    {
      released := false;
    }
  }

  /** A memoryview: it aliases `len` bytes of `mem`, from `start`, until the lease is released. */
  datatype View = View(mem: array<byte>, start: nat, len: nat, lease: Lease) {
    ghost predicate Fits() {
      start + len <= mem.Length
    }
  }

  datatype DirectBuffer = DirectBuffer(address: int, size: nat, view: View)

  /** Reads eight bytes as one little-endian word. */
  method LoadWord(mem: array<byte>, at: nat) returns (word: nat)
    requires at + 8 <= mem.Length
    ensures word == FromBytes(mem[at..at + 8])
  {
    word := 0;
    for j := 0 to 8
      invariant word == FromBytes(mem[at + 8 - j..at + 8])
    {
      var k := at + 7 - j;
      assert mem[k..at + 8] == [mem[k]] + mem[k + 1..at + 8];
      word := mem[k] + 256 * word;
    }
  }

  method StoreWord(mem: array<byte>, at: nat, word: nat)
    requires at + 8 <= mem.Length
    modifies mem
    ensures forall j :: 0 <= j < 8 ==> mem[at + j] == MaskByte(word, j)
    ensures forall a :: 0 <= a < mem.Length && !(at <= a < at + 8) ==> mem[a] == old(mem[a])
  {
    var rest := word;
    for j := 0 to 8
      invariant forall i :: 0 <= i < j ==> mem[at + i] == MaskByte(word, i)
      invariant forall i :: j <= i < 8 ==> MaskByte(word, i) == ToBytes(rest, 8 - j)[i - j]
      invariant forall a :: 0 <= a < mem.Length && !(at <= a < at + 8) ==> mem[a] == old(mem[a])
    {
      assert MaskByte(word, j) == ToBytes(rest, 8 - j)[0] == rest % 256;
      mem[at + j] := rest % 256;
      rest := rest / 256;
    }
  }

  /** `np_arr ^= mask` on the words of a view: word by word, it is the byte-wise XOR of the span. */
  method XorWords(mem: array<byte>, span: Span)
    requires span.start + 8 * span.words <= mem.Length
    modifies mem
    ensures mem[..] == XorSpan(old(mem[..]), span)
  {
    hide XorByte;
    hide MaskByte;
    hide FromBytes;
    hide Xor;
    for w := 0 to span.words
      invariant forall a :: 0 <= a < mem.Length ==>
        mem[a] == if InSpan(span.(words := w), a)
                  then XorByte(old(mem[a]), MaskByte(span.mask, (a - span.start) % 8)) else old(mem[a])
    {
      var at := span.start + 8 * w;
      var word := LoadWord(mem, at);
      ghost var before := mem[..];
      StoreWord(mem, at, Xor(word, span.mask));
      XoredWord(before[at..at + 8], span.mask);
      forall a | at <= a < at + 8
        ensures mem[a] == XorByte(old(mem[a]), MaskByte(span.mask, (a - span.start) % 8))
      {
        ByteInWord(w, a - at);
        assert mem[at + (a - at)] == MaskByte(Xor(word, span.mask), a - at);
        assert before[at..at + 8][a - at] == before[a] == old(mem[a]);
      }
    }
  }

  lemma ByteInWord(w: nat, j: nat)
    requires j < 8
    ensures (8 * w + j) % 8 == j
  {
  }

  lemma XoredWord(bytes: seq<byte>, mask: nat)
    requires |bytes| == 8
    ensures forall j :: 0 <= j < 8 ==> MaskByte(Xor(FromBytes(bytes), mask), j) == XorByte(bytes[j], MaskByte(mask, j))
  {
    hide Xor;
    hide XorByte;
    forall j | 0 <= j < 8 ensures MaskByte(Xor(FromBytes(bytes), mask), j) == XorByte(bytes[j], MaskByte(mask, j)) {
      FromBytesToBytes(bytes);
      ToBytesXor(FromBytes(bytes), mask, 8, j);
    }
  }

  /** Direct mutation of any buffer, the mutator's own or a pool's. A released view is refused. */
  method MutateDirectBuffer(target: DirectBuffer, seed: int, ratio: real) returns (r: Result<()>)
    requires target.view.Fits()
    modifies target.view.mem
    ensures var view := target.view;
            var call := MutateDirect(view.start, view.len, ratio, seed);
            && view.mem[..] == (if view.lease.released then old(view.mem[..]) else Effect(old(view.mem[..]), call))
            && r == if view.lease.released then Err(Released)
                    else match SpanOf(view.mem.Length, call) case Ok(_) => Ok(()) case Err(e) => Err(e)
  {
    if target.view.lease.released {
      return Err(Released);
    }
    var view := target.view;
    if view.len >= 8 {
      var count := view.len / 8;
      var elements := Portion(count, Clamp(ratio));
      if elements > 0 {
        if !(0 <= seed < WORD_SIZE) {
          return Err(SeedOutOfRange);
        }
        XorWords(view.mem, Span(view.start, elements, Xor(seed, BLOCK_KEY)));
        return Ok(());
      }
    }
    UnmaskedSpan(view.mem[..], view.start);
    return Ok(());
  }

  lemma UnmaskedSpan(data: seq<byte>, start: nat)
    ensures XorSpan(data, Span(start, 0, 0)) == data
  {
  }

  class PayloadMutator {
    const size: nat
    const address: int
    const mem: array<byte>
    const lease: Lease
    var cache: map<(nat, nat), DirectBuffer>
    var closed: bool

    /** What slicing the buffer's own view afresh gives. */
    function FreshSlice(offset: nat, blockSize: nat): DirectBuffer {
      DirectBuffer(address + offset, blockSize, View(mem, offset, blockSize, lease))
    }

    ghost predicate Valid()
      reads this, lease
    {
      && mem.Length == size
      && lease.released == closed
      && (closed ==> cache == map[])
      && forall key :: key in cache ==> key.0 + key.1 <= size && cache[key] == FreshSlice(key.0, key.1)
    }

    constructor (bufferSize: nat, address: int)
      requires bufferSize > 0
      ensures Valid() && !closed && size == bufferSize && this.address == address && fresh(mem) && fresh(lease)
      ensures mem[..] == Zeros(bufferSize)
      ensures cache == map[(0, bufferSize) := FreshSlice(0, bufferSize)]
    {
      size := bufferSize;
      this.address := address;
      mem := new byte[bufferSize](_ => 0);
      lease := new Lease();
      closed := false;
      new;
      cache := map[(0, bufferSize) := DirectBuffer(address, bufferSize, View(mem, 0, bufferSize, lease))];
    }

    /** The cache never shows: before close the answer is a fresh slice or the range error, whatever
        was requested earlier; only a granted request is remembered; after close nothing is granted. */
    method GetOrCreateSliceBuffer(offset: nat, blockSize: nat) returns (r: Result<DirectBuffer>)
      requires Valid()
      modifies this`cache
      ensures Valid()
      ensures offset + blockSize > size ==> r == Err(SliceOutOfRange)
      ensures offset + blockSize <= size ==> r == if closed then Err(Closed) else Ok(FreshSlice(offset, blockSize))
      ensures r.Ok? ==>
                && r.value.address == address + offset && r.value.size == blockSize
                && r.value.view.mem == mem && r.value.view.lease == lease
                && r.value.view.start == offset && r.value.view.len == blockSize
      ensures cache == if r.Ok? then old(cache)[(offset, blockSize) := FreshSlice(offset, blockSize)] else old(cache)
    {
      var key := (offset, blockSize);
      if key in cache {
        assert cache[key := FreshSlice(offset, blockSize)] == cache;
        return Ok(cache[key]);
      }
      if offset + blockSize > size {
        return Err(SliceOutOfRange);
      }
      if closed {
        return Err(Closed);
      }
      var buf := DirectBuffer(address + offset, blockSize, View(mem, offset, blockSize, lease));
      cache := cache[key := buf];
      return Ok(buf);
    }

    method ApplyEntropy(offset: nat, blockSize: nat, seed: int) returns (r: Result<DirectBuffer>)
      requires Valid()
      modifies this`cache, mem
      ensures Valid()
      ensures closed ==> r.Err? && mem[..] == old(mem[..])
      ensures !closed ==> mem[..] == Effect(old(mem[..]), Call.ApplyEntropy(offset, blockSize, seed))
      ensures !closed ==> r == match SpanOf(size, Call.ApplyEntropy(offset, blockSize, seed))
                               case Ok(_) => Ok(FreshSlice(offset, blockSize))
                               case Err(e) => Err(e)
    {
      r := GetOrCreateSliceBuffer(offset, blockSize);
      if r.Err? {
        return;
      }
      var view := r.value.view;
      if view.len >= 8 {
        if !(0 <= seed < WORD_SIZE) {
          return Err(SeedOutOfRange);
        }
        XorWords(view.mem, Span(view.start, view.len / 8, Xor(seed, APPLY_KEY)));
      } else {
        UnmaskedSpan(mem[..], offset);
      }
    }

    method MutateEntropyBlock(offset: nat, length: nat, ratio: real, seed: int) returns (r: Result<DirectBuffer>)
      requires Valid()
      modifies this`cache, mem
      ensures Valid()
      ensures closed ==> r.Err? && mem[..] == old(mem[..])
      ensures !closed ==> mem[..] == Effect(old(mem[..]), MutateBlock(offset, length, ratio, seed))
      ensures !closed ==> r == match SpanOf(size, MutateBlock(offset, length, ratio, seed))
                               case Ok(_) => Ok(FreshSlice(offset, length))
                               case Err(e) => Err(e)
    {
      if !(0.0 <= ratio <= 1.0) {
        return Err(InvalidEntropy);
      }
      r := GetOrCreateSliceBuffer(offset, length);
      if r.Err? {
        return;
      }
      var view := r.value.view;
      if view.len >= 8 {
        var elements := Portion(view.len / 8, ratio);
        if elements > 0 {
          if !(0 <= seed < WORD_SIZE) {
            return Err(SeedOutOfRange);
          }
          XorWords(view.mem, Span(view.start, elements, Xor(seed, BLOCK_KEY)));
          return;
        }
      }
      UnmaskedSpan(mem[..], offset);
    }

    /** Closing releases every view the mutator has handed out, and empties the cache. */
    method Close()
      requires Valid()
      modifies this, lease
      ensures Valid() && closed && cache == map[] && lease.released
    {
      cache := map[];
      lease.released := true;
      closed := true;
    }
  }
}
