/**
 Streaming SHA-256 and SHA-512. The compression function is a parameter: what is modelled
 is buffering and padding, which must agree with padding the whole message and folding it.
 */
module Sha {
  import opened Common

  // ----- the reference: pad, then fold -----

  /** The compression function folded over the whole blocks of `m`. */
  function Fold<S>(compress: (S, seq<byte>) -> S, state: S, m: seq<byte>, block: nat): S
    requires block > 0
  {
    if |m| < block then state else Fold(compress, compress(state, m[..block]), m[block..], block)
  }

  function Zeroes(n: nat): (z: seq<byte>)
    ensures |z| == n && forall i :: 0 <= i < n ==> z[i] == 0
  {
    seq(n, _ => 0)
  }

  /** A number in `n` big-endian bytes, as far as it fits. */
  function BigEndian(v: nat, n: nat): (b: seq<byte>)
    ensures |b| == n
  {
    if n == 0 then [] else BigEndian(v / 256, n - 1) + [v % 256]
  }

  const TWO_64 := 0x1_0000_0000_0000_0000

  /** The two block sizes. */
  predicate IsBlock(block: nat) { block == 64 || block == 128 }

  /** How many zeroes follow the mark so that the length ends a block. */
  function Gap(length: nat, block: nat, field: nat): nat
    requires IsBlock(block)
  {
    var n := length + 1 + field;
    if n % block == 0 then 0 else block - n % block
  }

  /** Section 5.1 of FIPS 180-4: a one bit, zeroes, and the length in bits, to a whole number of blocks. */
  function Padded(m: seq<byte>, block: nat, field: nat): seq<byte>
    requires 8 <= field < block && IsBlock(block)
  {
    m + [0x80] + Zeroes(Gap(|m|, block, field)) + Zeroes(field - 8) + BigEndian(8 * |m| % TWO_64, 8)
  }

  /** The gap is the only one, short of a block, that makes the padded length whole blocks. */
  lemma GapUnique(length: nat, block: nat, field: nat, gap: nat)
    requires IsBlock(block) && gap < block && (length + 1 + gap + field) % block == 0
    ensures gap == Gap(length, block, field)
  {
    var n := length + 1 + field;
    if block == 64 {
      assert (n + gap) % 64 == 0;
    } else {
      assert (n + gap) % 128 == 0;
    }
  }

  lemma Scaled(a: nat, b: nat, m: nat)
    requires a <= b
    ensures a * m <= b * m
  {}

  // ----- folding -----

  /** Whole blocks fold one part after the other. */
  lemma {:induction false} FoldAppend<S>(c: (S, seq<byte>) -> S, s: S, a: seq<byte>, b: seq<byte>, block: nat, k: nat)
    requires block > 0 && |a| == k * block
    ensures Fold(c, s, a + b, block) == Fold(c, Fold(c, s, a, block), b, block)
    decreases k
  {
    if k == 0 {
      assert a + b == b;
    } else {
      assert |a| >= block by { Scaled(1, k, block); }
      assert (a + b)[..block] == a[..block] && (a + b)[block..] == a[block..] + b;
      FoldAppend(c, c(s, a[..block]), a[block..], b, block, k - 1);
    }
  }

  lemma FoldOne<S>(c: (S, seq<byte>) -> S, s: S, b: seq<byte>, block: nat)
    requires block > 0 && |b| == block
    ensures Fold(c, s, b, block) == c(s, b)
  {
    assert b[..block] == b && b[block..] == [];
  }

  /** What a hash holds after a message: the blocks folded so far, and the bytes not yet a block. */
  ghost predicate Holds<S>(c: (S, seq<byte>) -> S, initial: S, state: S, held: seq<byte>, m: seq<byte>, block: nat)
  {
    && IsBlock(block) && |held| <= block && |held| <= |m| && m[|m| - |held|..] == held
    && (|m| - |held|) % block == 0 && state == Fold(c, initial, m[..|m| - |held|], block)
  }

  lemma Blocks(n: nat, block: nat) returns (k: nat)
    requires IsBlock(block) && n % block == 0
    ensures n == k * block
  {
    k := n / block;
  }

  lemma OneMoreBlock(n: nat, block: nat)
    requires IsBlock(block) && n % block == 0
    ensures (n + block) % block == 0
  {
    if block == 64 {
      assert (n + 64) % 64 == 0;
    } else {
      assert (n + 128) % 128 == 0;
    }
  }

  /** More bytes are simply held. */
  lemma HoldMore<S>(c: (S, seq<byte>) -> S, initial: S, state: S, held: seq<byte>, m: seq<byte>, block: nat, more: seq<byte>)
    requires Holds(c, initial, state, held, m, block) && |held| + |more| <= block
    ensures Holds(c, initial, state, held + more, m + more, block)
  {
    assert (m + more)[..|m + more| - |held + more|] == m[..|m| - |held|];
  }

  /** A full buffer folds into the state. */
  lemma FoldHeld<S>(c: (S, seq<byte>) -> S, initial: S, state: S, held: seq<byte>, m: seq<byte>, block: nat)
    requires Holds(c, initial, state, held, m, block) && |held| == block
    ensures Holds(c, initial, c(state, held), [], m, block)
  {
    var done := m[..|m| - block];
    var k := Blocks(|done|, block);
    assert m == done + held;
    FoldAppend(c, initial, done, held, block, k);
    FoldOne(c, state, held, block);
    OneMoreBlock(|done|, block);
    assert m[..|m|] == m;
  }

  /** A finished message that fills its last block has been folded whole. */
  lemma HoldsNothing<S>(c: (S, seq<byte>) -> S, initial: S, state: S, m: seq<byte>, block: nat)
    requires Holds(c, initial, state, [], m, block)
    ensures state == Fold(c, initial, m, block)
  {
    assert m[..|m|] == m;
  }

  lemma BitsAdd(a: nat, b: nat)
    ensures (8 * a % TWO_64 + b * 8 % TWO_64) % TWO_64 == 8 * (a + b) % TWO_64
    ensures 0 <= 8 * (a + b) % TWO_64 <= U64_MAX && TWO_64 != 0
  {}

  lemma BigEndianLength(v: nat)
    ensures |BigEndian(v, 8)| == 8
  {}

  lemma PaddingIs(m: seq<byte>, spill: seq<byte>, gap: seq<byte>, length: seq<byte>)
    requires spill == Zeroes(|spill|) && gap == Zeroes(|gap|) && length == BigEndian(8 * |m| % TWO_64, 8)
    requires |m + [0x80] + spill + gap + length| % 64 == 0 && |spill| + |gap| < 64
    ensures m + [0x80] + spill + gap + length == Padded(m, 64, 8)
  {
    GapUnique(|m|, 64, 8, |spill| + |gap|);
    assert spill + gap == Zeroes(|spill| + |gap|);
    assert m + [0x80] + spill + gap + length == m + [0x80] + (spill + gap) + Zeroes(0) + length;
  }

  lemma LongPaddingIs(m: seq<byte>, gap: nat, length: seq<byte>)
    requires length == BigEndian(8 * |m| % TWO_64, 8) && gap < 128
    requires |m + [0x80] + Zeroes(gap) + Zeroes(8) + length| % 128 == 0
    ensures m + [0x80] + Zeroes(gap) + Zeroes(8) + length == Padded(m, 128, 16)
  {
    GapUnique(|m|, 128, 16, gap);
  }

  // ----- SHA-256 -----

  class Sha256<S(!new)> {
    const compress: (S, seq<byte>) -> S
    const initial: S
    var state: S
    /** Bytes waiting for a whole block; only the first `buffered` of them count. */
    var block: seq<byte>
    var buffered: nat
    var bits: u64
    /** Everything folded in so far. */
    ghost var message: seq<byte>

    /** The state and the buffer between them hold `m`. */
    ghost predicate Holding(m: seq<byte>)
      reads this`state, this`block, this`buffered
    {
      |block| == 64 && buffered <= 64 && Holds(compress, initial, state, block[..buffered], m, 64)
    }

    ghost predicate Valid()
      reads this
    {
      Holding(message) && buffered < 64 && bits == 8 * |message| % TWO_64
    }

    lemma Opened()
      requires Valid()
      ensures Holding(message) && buffered < 64 && bits == 8 * |message| % TWO_64
    {}

    lemma Closed()
      requires Holding(message) && buffered < 64 && bits == 8 * |message| % TWO_64
      ensures Valid()
    {}

    /** With nothing buffered, the message has been folded whole. */
    lemma Spent(m: seq<byte>)
      requires Holding(m) && buffered == 0
      ensures state == Fold(compress, initial, m, 64) && |m| % 64 == 0
    {
      assert block[..0] == [];
      HoldsNothing(compress, initial, state, m, 64);
    }

    constructor (compress: (S, seq<byte>) -> S, initial: S)
      ensures Valid() && message == [] && this.compress == compress && this.initial == initial
    {
      this.compress := compress;
      this.initial := initial;
      state := initial;
      block := Zeroes(64);
      buffered := 0;
      bits := 0;
      message := [];
    }

    /** Copies bytes into the buffer after the live ones. */
    method Put(data: seq<byte>, ghost m: seq<byte>)
      requires Holding(m) && buffered + |data| <= 64
      modifies this`block, this`buffered
      ensures Holding(m + data) && buffered == old(buffered) + |data|
    {
      hide Holds;
      HoldMore(compress, initial, state, block[..buffered], m, 64, data);
      var filled := block[..buffered] + data + block[buffered + |data|..];
      assert filled[..buffered + |data|] == block[..buffered] + data;
      block := filled;
      buffered := buffered + |data|;
    }

    /** Folds a full buffer. */
    method Turn(ghost m: seq<byte>)
      requires Holding(m) && buffered == 64
      modifies this`state, this`buffered
      ensures Holding(m) && buffered == 0
    {
      hide Holds;
      assert block[..64] == block && block[..0] == [];
      FoldHeld(compress, initial, state, block, m, 64);
      state := compress(state, block);
      buffered := 0;
    }

    /** Folds a whole block straight from the input. */
    method TurnWhole(whole: seq<byte>, ghost m: seq<byte>)
      requires Holding(m) && buffered == 0 && |whole| == 64
      modifies this`state
      ensures Holding(m + whole)
    {
      hide Holds;
      assert block[..0] == [] && [] + whole == whole;
      HoldMore(compress, initial, state, [], m, 64, whole);
      FoldHeld(compress, initial, state, whole, m + whole, 64);
      state := compress(state, whole);
    }

    method Update(data: seq<byte>)
      requires Valid()
      modifies this
      ensures Valid() && message == old(message) + data
    {
      hide *;
      Opened();
      BitsAdd(|message|, |data|);
      bits := (bits + |data| * 8 % TWO_64) % TWO_64;
      var rest := data;
      ghost var m, whole := message, message + data;
      if buffered > 0 {
        var want := 64 - buffered;
        var take := if want <= |rest| then want else |rest|;
        Put(rest[..take], m);
        m := m + rest[..take];
        rest := rest[take..];
        assert m + rest == whole;
        if buffered < 64 {
          assert m == whole;
          message := m;
          Closed();
          return;
        }
        Turn(m);
      }
      while |rest| >= 64
        invariant Holding(m) && buffered == 0 && m + rest == whole && bits == 8 * |whole| % TWO_64
      {
        TurnWhole(rest[..64], m);
        assert m + rest[..64] + rest[64..] == m + rest;
        m := m + rest[..64];
        rest := rest[64..];
      }
      Put(rest, m);
      message := m + rest;
      Closed();
    }

    /** Pads, and gives the final state: the padded message folded whole. */
    method Finish() returns (digest: S)
      requires Valid()
      modifies this
      ensures digest == Fold(compress, initial, Padded(old(message), 64, 8), 64)
    {
      hide *;
      Opened();
      BigEndianLength(bits);
      var length := BigEndian(bits, 8);
      ghost var m := message + [0x80];
      Put([0x80], message);
      ghost var spill: seq<byte> := [];
      if buffered > 56 {
        spill := Zeroes(64 - buffered);
        Put(Zeroes(64 - buffered), m);
        Turn(m + spill);
      } else {
        assert m + spill == m;
      }
      ghost var gap := Zeroes(56 - buffered);
      Put(Zeroes(56 - buffered), m + spill);
      Put(length, m + spill + gap);
      Turn(m + spill + gap + length);
      Spent(m + spill + gap + length);
      PaddingIs(message, spill, gap, length);
      digest := state;
    }
  }

  // ----- SHA-512 -----

  class Sha512<S(!new)> {
    const compress: (S, seq<byte>) -> S
    const initial: S
    var state: S
    /** Bytes waiting for a whole block; only the first `buffered` of them count. */
    var block: seq<byte>
    var buffered: nat
    var bits: u64
    /** Everything folded in so far. */
    ghost var message: seq<byte>

    /** The state and the buffer between them hold `m`. */
    ghost predicate Holding(m: seq<byte>)
      reads this`state, this`block, this`buffered
    {
      |block| == 128 && buffered <= 128 && Holds(compress, initial, state, block[..buffered], m, 128)
    }

    ghost predicate Valid()
      reads this
    {
      Holding(message) && buffered < 128 && bits == 8 * |message| % TWO_64
    }

    lemma Opened()
      requires Valid()
      ensures Holding(message) && buffered < 128 && bits == 8 * |message| % TWO_64
    {}

    lemma Closed()
      requires Holding(message) && buffered < 128 && bits == 8 * |message| % TWO_64
      ensures Valid()
    {}

    /** With nothing buffered, the message has been folded whole. */
    lemma Spent(m: seq<byte>)
      requires Holding(m) && buffered == 0
      ensures state == Fold(compress, initial, m, 128) && |m| % 128 == 0
    {
      assert block[..0] == [];
      HoldsNothing(compress, initial, state, m, 128);
    }

    constructor (compress: (S, seq<byte>) -> S, initial: S)
      ensures Valid() && message == [] && this.compress == compress && this.initial == initial
    {
      this.compress := compress;
      this.initial := initial;
      state := initial;
      block := Zeroes(128);
      buffered := 0;
      bits := 0;
      message := [];
    }

    /** Copies bytes into the buffer after the live ones. */
    method Put(data: seq<byte>, ghost m: seq<byte>)
      requires Holding(m) && buffered + |data| <= 128
      modifies this`block, this`buffered
      ensures Holding(m + data) && buffered == old(buffered) + |data|
    {
      hide Holds;
      HoldMore(compress, initial, state, block[..buffered], m, 128, data);
      var filled := block[..buffered] + data + block[buffered + |data|..];
      assert filled[..buffered + |data|] == block[..buffered] + data;
      block := filled;
      buffered := buffered + |data|;
    }

    /** Folds a full buffer. */
    method Turn(ghost m: seq<byte>)
      requires Holding(m) && buffered == 128
      modifies this`state, this`buffered
      ensures Holding(m) && buffered == 0
    {
      hide Holds;
      assert block[..128] == block && block[..0] == [];
      FoldHeld(compress, initial, state, block, m, 128);
      state := compress(state, block);
      buffered := 0;
    }

    /** Folds a whole block straight from the input. */
    method TurnWhole(whole: seq<byte>, ghost m: seq<byte>)
      requires Holding(m) && buffered == 0 && |whole| == 128
      modifies this`state
      ensures Holding(m + whole)
    {
      hide Holds;
      assert block[..0] == [] && [] + whole == whole;
      HoldMore(compress, initial, state, [], m, 128, whole);
      FoldHeld(compress, initial, state, whole, m + whole, 128);
      state := compress(state, whole);
    }

    method Update(data: seq<byte>)
      requires Valid()
      modifies this
      ensures Valid() && message == old(message) + data
    {
      hide *;
      Opened();
      BitsAdd(|message|, |data|);
      bits := (bits + |data| * 8 % TWO_64) % TWO_64;
      var rest := data;
      ghost var m, whole := message, message + data;
      if buffered > 0 {
        var want := 128 - buffered;
        var take := if want <= |rest| then want else |rest|;
        Put(rest[..take], m);
        m := m + rest[..take];
        rest := rest[take..];
        assert m + rest == whole;
        if buffered == 128 {
          Turn(m);
        }
      }
      while |rest| >= 128
        invariant Holding(m) && buffered < 128 && m + rest == whole && bits == 8 * |whole| % TWO_64
        invariant rest != [] ==> buffered == 0
      {
        TurnWhole(rest[..128], m);
        assert m + rest[..128] + rest[128..] == m + rest;
        m := m + rest[..128];
        rest := rest[128..];
      }
      if rest != [] {
        Put(rest, m);
      } else {
        assert m + rest == m;
      }
      message := m + rest;
      Closed();
    }

    /** Padding is absorbed like data, but not counted in the length. */
    method PadByte(b: byte, ghost m: seq<byte>)
      requires Holding(m) && buffered < 128
      modifies this`state, this`block, this`buffered
      ensures Holding(m + [b]) && buffered == if old(buffered) == 127 then 0 else old(buffered) + 1
    {
      hide *;
      Put([b], m);
      if buffered == 128 {
        Turn(m + [b]);
      }
    }

    /** Pads byte by byte until the length ends a block, and gives the final state. */
    method Finish() returns (digest: S)
      requires Valid()
      modifies this
      ensures digest == Fold(compress, initial, Padded(old(message), 128, 16), 128)
    {
      hide *;
      Opened();
      BigEndianLength(bits);
      var length := BigEndian(bits, 8);
      ghost var start := message + [0x80];
      PadByte(0x80, message);
      ghost var gap := PadToLength(start);
      PadAll(Zeroes(8), start + Zeroes(gap));
      PadAll(length, start + Zeroes(gap) + Zeroes(8));
      Spent(start + Zeroes(gap) + Zeroes(8) + length);
      LongPaddingIs(message, gap, length);
      digest := state;
    }

    /** Zeroes up to where the length goes; the loop comes round within a block. */
    method PadToLength(ghost start: seq<byte>) returns (ghost gap: nat)
      requires Holding(start) && buffered < 128
      modifies this`state, this`block, this`buffered
      ensures Holding(start + Zeroes(gap)) && buffered == 112 && gap < 128
    {
      hide *;
      ghost var m, first := start, buffered;
      gap := 0;
      assert start + Zeroes(0) == start;
      while buffered != 112
        invariant Holding(m) && buffered < 128 && m == start + Zeroes(gap)
        invariant first <= 112 ==> buffered == first + gap <= 112
        invariant first > 112 ==> buffered == first + gap || (buffered == first + gap - 128 && buffered <= 112)
        decreases if buffered <= 112 then 112 - buffered else 240 - buffered
      {
        PadByte(0, m);
        m := m + [0];
        assert m == start + Zeroes(gap + 1);
        gap := gap + 1;
      }
    }

    method PadAll(bytes: seq<byte>, ghost m: seq<byte>)
      requires Holding(m) && buffered + |bytes| <= 128 && buffered < 128
      modifies this`state, this`block, this`buffered
      ensures Holding(m + bytes)
      ensures buffered == if old(buffered) + |bytes| == 128 then 0 else old(buffered) + |bytes|
    {
      hide *;
      ghost var first := buffered;
      var i := 0;
      assert m + bytes[..0] == m;
      while i < |bytes|
        invariant 0 <= i <= |bytes| && Holding(m + bytes[..i]) && buffered == if first + i == 128 then 0 else first + i
      {
        PadByte(bytes[i], m + bytes[..i]);
        assert m + bytes[..i] + [bytes[i]] == m + bytes[..i + 1];
        i := i + 1;
      }
      assert bytes[..|bytes|] == bytes;
    }
  }

  // ----- every way of cutting a message -----

  function Joined(chunks: seq<seq<byte>>): seq<byte>
  {
    if chunks == [] then [] else Joined(chunks[..|chunks| - 1]) + chunks[|chunks| - 1]
  }

  /** However a message is cut, the digest is that of the whole message. */
  method Digest256<S(!new)>(compress: (S, seq<byte>) -> S, initial: S, chunks: seq<seq<byte>>) returns (digest: S)
    ensures digest == Fold(compress, initial, Padded(Joined(chunks), 64, 8), 64)
  {
    var hash := new Sha256(compress, initial);
    var i := 0;
    while i < |chunks|
      invariant 0 <= i <= |chunks| && fresh(hash) && hash.Valid() && hash.message == Joined(chunks[..i])
      invariant hash.compress == compress && hash.initial == initial
    {
      hash.Update(chunks[i]);
      assert chunks[..i + 1][..i] == chunks[..i];
      i := i + 1;
    }
    assert chunks[..|chunks|] == chunks;
    digest := hash.Finish();
  }

  method Digest512<S(!new)>(compress: (S, seq<byte>) -> S, initial: S, chunks: seq<seq<byte>>) returns (digest: S)
    ensures digest == Fold(compress, initial, Padded(Joined(chunks), 128, 16), 128)
  {
    var hash := new Sha512(compress, initial);
    var i := 0;
    while i < |chunks|
      invariant 0 <= i <= |chunks| && fresh(hash) && hash.Valid() && hash.message == Joined(chunks[..i])
      invariant hash.compress == compress && hash.initial == initial
    {
      hash.Update(chunks[i]);
      assert chunks[..i + 1][..i] == chunks[..i];
      i := i + 1;
    }
    assert chunks[..|chunks|] == chunks;
    digest := hash.Finish();
  }
}
