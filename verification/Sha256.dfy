/** The hash object: it is fed bytes in pieces of any size. */
module Sha256 {
  import opened Fips180

  /** Expands a block to the 64 words of its schedule. */
  method Expand(block: seq<Octet>) returns (words: seq<Word>)
    requires |block| == 64
    ensures |words| == 64 && forall t :: 0 <= t < 64 ==> words[t] == Schedule(block, t)
  {
    hide Add, And, Xor, Not, Rotr, Shr, WordOf, Schedule;
    words := [];
    for index := 0 to 16
      invariant |words| == index && forall t :: 0 <= t < index ==> words[t] == Schedule(block, t)
    {
      EarlyWord(block, index);
      var offset := 4 * index;
      words := words + [WordOf(block[offset], block[offset + 1], block[offset + 2], block[offset + 3])];
    }
    for index := 16 to 64
      invariant |words| == index && forall t :: 0 <= t < index ==> words[t] == Schedule(block, t)
    {
      LateWord(block, index);
      var s0 := Xor(Xor(Rotr(words[index - 15], 7), Rotr(words[index - 15], 18)), Shr(words[index - 15], 3));
      var s1 := Xor(Xor(Rotr(words[index - 2], 17), Rotr(words[index - 2], 19)), Shr(words[index - 2], 10));
      words := words + [Add(Add(Add(words[index - 16], s0), words[index - 7]), s1)];
    }
  }

  lemma EarlyWord(block: Block, t: nat)
    requires t < 16
    ensures Schedule(block, t) == WordOf(block[4 * t], block[4 * t + 1], block[4 * t + 2], block[4 * t + 3])
  {
    hide WordOf;
  }

  lemma LateWord(block: Block, t: nat)
    requires t >= 16
    ensures Schedule(block, t) ==
      Add(Add(Add(Schedule(block, t - 16), SmallSigma0(Schedule(block, t - 15))), Schedule(block, t - 7)), SmallSigma1(Schedule(block, t - 2)))
  {
    hide Add, SmallSigma0, SmallSigma1;
  }

  lemma NothingHashed()
    ensures HashBlocks([]) == INITIAL
  {
    hide Compress;
  }

  class Hasher {
    var state: Hash
    const buffer: array<Octet>
    var bufferSize: nat
    var bitCount: nat
    /** The bytes fed so far. */
    ghost var Message: seq<Octet>

    ghost predicate Valid()
      reads this, buffer
    {
      && buffer.Length == 64 && bufferSize < 64 && bufferSize <= |Message|
      && (|Message| - bufferSize) % 64 == 0
      && buffer[..bufferSize] == Message[|Message| - bufferSize..]
      && state == HashBlocks(Message[..|Message| - bufferSize])
      && bitCount == 8 * (|Message| - bufferSize) % TWO_64
    }

    constructor ()
      ensures Valid() && Message == [] && fresh(buffer)
    {
      hide HashBlocks, Valid;
      state, bufferSize, bitCount, Message := INITIAL, 0, 0, [];
      buffer := new Octet[64];
      new;
      NothingFed();
    }

    lemma NothingFed()
      requires buffer.Length == 64 && bufferSize == 0 && Message == [] && state == INITIAL && bitCount == 0
      ensures Valid()
    {
      hide HashBlocks;
      NothingHashed();
      assert Message[..0] == [] && buffer[..0] == Message[0..];
    }

    /** Folds the full buffer into the state. */
    method Transform()
      requires buffer.Length == 64
      modifies this`state
      ensures state == Compress(old(state), buffer[..])
    {
      hide Add, And, Xor, Not, Rotr, Shr, WordOf, Schedule;
      ghost var block: Block := buffer[..];
      var words := Expand(buffer[..]);
      var v := state;
      for index := 0 to 64
        invariant v == Rounds(state, block, index)
      {
        var sum1 := Xor(Xor(Rotr(v.e, 6), Rotr(v.e, 11)), Rotr(v.e, 25));
        var choose := Xor(And(v.e, v.f), And(Not(v.e), v.g));
        var temporary1 := Add(Add(Add(Add(v.h, sum1), choose), K[index]), words[index]);
        var sum0 := Xor(Xor(Rotr(v.a, 2), Rotr(v.a, 13)), Rotr(v.a, 22));
        var majority := Xor(Xor(And(v.a, v.b), And(v.a, v.c)), And(v.b, v.c));
        var temporary2 := Add(sum0, majority);
        v := Hash(Add(temporary1, temporary2), v.a, v.b, v.c, Add(v.d, temporary1), v.e, v.f, v.g);
      }
      state := Hash(Add(state.a, v.a), Add(state.b, v.b), Add(state.c, v.c), Add(state.d, v.d),
                    Add(state.e, v.e), Add(state.f, v.f), Add(state.g, v.g), Add(state.h, v.h));
    }

    /** Takes in any number of bytes. */
    method Update(input: seq<Octet>)
      requires Valid()
      modifies this, buffer
      ensures Valid() && Message == old(Message) + input
    {
      hide HashBlocks, Compress;
      for i := 0 to |input|
        invariant Valid() && Message == old(Message) + input[..i]
      {
        ghost var before := Message;
        AddByte(input[i]);
        assert input[..i + 1] == input[..i] + [input[i]];
        assert Message == old(Message) + input[..i + 1];
      }
      assert input[..|input|] == input;
    }

    /** Stores one byte, and folds the buffer into the state when it is full. */
    method AddByte(byte: Octet)
      requires Valid()
      modifies this, buffer
      ensures Valid() && Message == old(Message) + [byte]
    {
      hide HashBlocks, Holding;
      ValidHolds();
      Push(byte, Message);
      Message := Message + [byte];
      if bufferSize == 64 {
        Flush(Message);
        BlockCounted(|Message|, bitCount);
        bitCount := (bitCount + 512) % TWO_64;
      }
      HoldsValid();
    }

    // ---- closing

    /** The state and the buffer stand for the bytes in fed. */
    ghost predicate Holding(fed: seq<Octet>)
      reads `state, `bufferSize, buffer
    {
      && buffer.Length == 64 && bufferSize <= 64 && bufferSize <= |fed|
      && (|fed| - bufferSize) % 64 == 0
      && buffer[..bufferSize] == fed[|fed| - bufferSize..]
      && state == HashBlocks(fed[..|fed| - bufferSize])
    }

    method Push(byte: Octet, ghost fed: seq<Octet>)
      requires Holding(fed) && bufferSize < 64
      modifies this`bufferSize, buffer
      ensures Holding(fed + [byte]) && bufferSize == old(bufferSize) + 1
    {
      hide HashBlocks;
      ghost var done, tail := fed[..|fed| - bufferSize], fed[|fed| - bufferSize..];
      buffer[bufferSize] := byte;
      bufferSize := bufferSize + 1;
      assert (fed + [byte])[..|fed + [byte]| - bufferSize] == done;
      assert (fed + [byte])[|fed + [byte]| - bufferSize..] == tail + [byte];
      assert buffer[..bufferSize] == tail + [byte];
    }

    method FillZeros(limit: nat, ghost fed: seq<Octet>)
      requires Holding(fed) && bufferSize <= limit <= 64
      modifies this`bufferSize, buffer
      ensures Holding(fed + Zeros(limit - old(bufferSize))) && bufferSize == limit
    {
      hide HashBlocks;
      assert fed + Zeros(0) == fed;
      while bufferSize < limit
        invariant old(bufferSize) <= bufferSize <= limit
        invariant Holding(fed + Zeros(bufferSize - old(bufferSize)))
      {
        ghost var now := fed + Zeros(bufferSize - old(bufferSize));
        Push(0, now);
        assert now + [0] == fed + Zeros(bufferSize - old(bufferSize));
      }
    }

    method Flush(ghost fed: seq<Octet>)
      requires Holding(fed) && bufferSize == 64
      modifies this`state, this`bufferSize
      ensures Holding(fed) && bufferSize == 0 && |fed| % 64 == 0 && state == HashBlocks(fed)
    {
      hide HashBlocks, Compress;
      ghost var done := fed[..|fed| - 64];
      assert fed == done + fed[|fed| - 64..] && buffer[..64] == buffer[..];
      Transform();
      BlockHashed(done, buffer[..]);
      bufferSize := 0;
      assert fed[..|fed|] == fed && buffer[..0] == fed[|fed|..];
    }

    lemma HoldingSize(fed: seq<Octet>)
      requires Holding(fed) && bufferSize < 64
      ensures |fed| % 64 == bufferSize
    {
      hide HashBlocks;
    }

    lemma ValidHolds()
      requires Valid()
      ensures Holding(Message)
    {
      hide HashBlocks;
    }

    lemma HoldsValid()
      requires Holding(Message) && bufferSize < 64 && bitCount == 8 * (|Message| - bufferSize) % TWO_64
      ensures Valid()
    {
      hide HashBlocks;
    }

    /** Pads the message up to the eight octets of its length. */
    method PadMessage(ghost m: seq<Octet>)
      requires Holding(m) && bufferSize < 64
      modifies this`state, this`bufferSize, buffer
      ensures bufferSize == 56 && Holding(m + [0x80] + Zeros((55 - |m|) % 64))
    {
      hide HashBlocks, Holding;
      ghost var b := bufferSize;
      HoldingSize(m);
      ZerosNeeded(|m|, b);
      Push(0x80, m);
      ghost var fed := m + [0x80];
      if bufferSize > 56 {
        FillZeros(64, fed);
        Flush(fed + Zeros(63 - b));
        FillZeros(56, fed + Zeros(63 - b));
        ZerosJoin(fed, 63 - b, 56);
      } else {
        FillZeros(56, fed);
      }
    }

    /** Appends the length in bits, most significant octet first. */
    method PushCounter(ghost padded: seq<Octet>)
      requires Holding(padded) && bufferSize == 56
      modifies this`bufferSize, buffer
      ensures bufferSize == 64 && Holding(padded + BigEndian64(bitCount))
    {
      hide HashBlocks, Holding, OctetAt, BigEndian64;
      ghost var octets := Octets(bitCount);
      assert padded + octets[..0] == padded;
      var shift := 7;
      while shift >= 0
        invariant -1 <= shift <= 7 && bufferSize == 63 - shift
        invariant Holding(padded + octets[..7 - shift])
      {
        assert padded + octets[..8 - shift] == padded + octets[..7 - shift] + [OctetAt(bitCount, shift)];
        Push(OctetAt(bitCount, shift), padded + octets[..7 - shift]);
        shift := shift - 1;
      }
      assert octets[..8] == octets;
      CounterOctets(bitCount);
    }

    /** The digest of everything fed. */
    method Finish() returns (digest: string)
      requires Valid()
      modifies this, buffer
      ensures digest == Digest(old(Message))
    {
      hide HashBlocks, Holding, BigEndian64, Hex, Zeros;
      ghost var m := Message;
      CounterTotal(|m|, bufferSize, bitCount);
      assert Holding(m) by { ValidHolds(); }
      bitCount := (bitCount + 8 * bufferSize) % TWO_64;
      PadMessage(m);
      ghost var padded := m + [0x80] + Zeros((55 - |m|) % 64);
      PushCounter(padded);
      Flush(padded + BigEndian64(bitCount));
      digest := Hex(state);
    }
  }

  lemma BlockCounted(n: nat, count: nat)
    requires n >= 64 && count == 8 * (n - 64) % TWO_64
    ensures (count + 512) % TWO_64 == 8 * n % TWO_64
  {
  }

  lemma CounterTotal(n: nat, size: nat, count: nat)
    requires size <= n && count == 8 * (n - size) % TWO_64
    ensures (count + 8 * size) % TWO_64 == 8 * n % TWO_64
  {
  }

  lemma ZerosNeeded(n: nat, b: nat)
    requires b < 64 && n % 64 == b
    ensures (55 - n) % 64 == if b + 1 > 56 then 119 - b else 55 - b
  {
  }

  lemma ZerosJoin(fed: seq<Octet>, i: nat, j: nat)
    ensures fed + Zeros(i) + Zeros(j) == fed + Zeros(i + j)
  {
  }

  lemma CounterOctets(n: nat)
    ensures BigEndian64(n) == Octets(n)
  {
  }

  function Octets(n: nat): seq<Octet> {
    seq(8, i requires 0 <= i < 8 => OctetAt(n, 7 - i))
  }

  function OctetAt(n: nat, i: nat): Octet {
    PowerPositive(i);
    OctetOf(n, i)
  }

  lemma BlockHashed(done: seq<Octet>, block: Block)
    requires |done| % 64 == 0
    ensures HashBlocks(done + block) == Compress(HashBlocks(done), block)
  {
    hide Compress;
    var m := done + block;
    assert m[..|m| - 64] == done && m[|m| - 64..] == block;
  }

  function Joined(chunks: seq<seq<Octet>>): seq<Octet> {
    if chunks == [] then [] else Joined(chunks[..|chunks| - 1]) + chunks[|chunks| - 1]
  }

  /** Hashing a file read in chunks: the digest does not depend on where the chunks end. */
  method HashChunks(chunks: seq<seq<Octet>>) returns (digest: string)
    ensures digest == Digest(Joined(chunks))
  {
    hide HashBlocks, Digest;
    var hasher := new Hasher();
    for i := 0 to |chunks|
      invariant fresh(hasher) && fresh(hasher.buffer) && hasher.Valid() && hasher.Message == Joined(chunks[..i])
    {
      assert chunks[..i + 1][..i] == chunks[..i];
      hasher.Update(chunks[i]);
    }
    assert chunks[..|chunks|] == chunks;
    digest := hasher.Finish();
  }
}
