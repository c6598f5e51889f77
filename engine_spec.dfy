/** The BLAKE2b engine `B2Impl` as values: its state, construction, the
    block-buffering absorb step with its lazy last-block rule, the 128-bit
    byte counter, and finalization (RFC 7693, sections 2.5 and 3.3). The
    class in engine.dfy is proved to compute these functions. */
module EngineSpec {
  import opened Words
  import opened Compression

  /** The block length in bytes. */
  const BLOCK: nat := 128

  const TWO_128: int := 0x1_0000_0000_0000_0000_0000_0000_0000_0000

  /** The engine state: chain value `h`, byte counter `t`, finalization flags
      `f`, the pending input `buf` and the digest length. */
  datatype Engine = Engine(h: seq<Word>, t: seq<U64>, f: seq<Word>, buf: seq<Byte>, hashLen: nat)

  predicate Valid(e: Engine)
  {
    |e.h| == 8 && |e.t| == 2 && |e.f| == 2 && |e.buf| <= BLOCK && e.hashLen <= 64
  }

  /** The fatal assertions at the start of construction. */
  predicate InitArgsOk(outLen: nat, keyLen: nat, saltLen: nat, infoLen: nat)
  {
    outLen <= 64 && keyLen <= 64 && saltLen <= 16 && infoLen <= 16
  }

  /** The 64-byte parameter block: digest length, key length, fan-out 1,
      depth 1, salt at offset 32, personalization at offset 48, zeros elsewhere. */
  function ParamBlock(outLen: nat, keyLen: nat, salt: seq<Byte>, info: seq<Byte>): (p: seq<Byte>)
    requires InitArgsOk(outLen, keyLen, |salt|, |info|)
    ensures |p| == 64
  {
    [outLen as Byte, keyLen as Byte, 1, 1] + Zeros(28) + salt + Zeros(16 - |salt|) + info + Zeros(16 - |info|)
  }

  /** The parameter block byte by byte, as construction writes it. */
  lemma ParamBlockLayout(outLen: nat, keyLen: nat, salt: seq<Byte>, info: seq<Byte>)
    requires InitArgsOk(outLen, keyLen, |salt|, |info|)
    ensures var p := ParamBlock(outLen, keyLen, salt, info);
      && p[0] == outLen as Byte && p[1] == keyLen as Byte && p[2] == 1 && p[3] == 1
      && p[32 .. 32 + |salt|] == salt && p[48 .. 48 + |info|] == info
      && (forall i :: 4 <= i < 32 ==> p[i] == 0)
      && (forall i :: 32 + |salt| <= i < 48 ==> p[i] == 0)
      && (forall i :: 48 + |info| <= i < 64 ==> p[i] == 0)
  {
    var p := ParamBlock(outLen, keyLen, salt, info);
    var head: seq<Byte> := [outLen as Byte, keyLen as Byte, 1, 1];
    assert p == head + Zeros(28) + salt + Zeros(16 - |salt|) + info + Zeros(16 - |info|);
    assert p[32 .. 32 + |salt|] == salt;
    assert p[48 .. 48 + |info|] == info;
  }

  /** Word 0 of the parameter block is 0x0101kknn (RFC 7693, section 3.3). */
  lemma ParamWordZero(outLen: nat, keyLen: nat, salt: seq<Byte>, info: seq<Byte>)
    requires InitArgsOk(outLen, keyLen, |salt|, |info|)
    ensures WordsOf(ParamBlock(outLen, keyLen, salt, info))[0]
         == 0x0101_0000 | ((keyLen as Byte as Word) << 8) | (outLen as Byte as Word)
  {
    var p := ParamBlock(outLen, keyLen, salt, info);
    WordsOfAt(p, 0);
    assert p[0 .. 8] == [outLen as Byte, keyLen as Byte, 1, 1, 0, 0, 0, 0];
  }

  /** The state right after the parameter block is XORed into IV. */
  function Fresh(outLen: nat, keyLen: nat, salt: seq<Byte>, info: seq<Byte>): (e: Engine)
    requires InitArgsOk(outLen, keyLen, |salt|, |info|)
    ensures Valid(e) && e.t == [0, 0] && e.f == [0, 0] && e.buf == [] && e.hashLen == outLen
  {
    var p := WordsOf(ParamBlock(outLen, keyLen, salt, info));
    Engine(seq(8, i requires 0 <= i < 8 => Xor(p[i], IV[i])), [0, 0], [0, 0], [], outLen)
  }

  /** Each chain word is IV XOR the matching little-endian word of the block. */
  lemma FreshChain(outLen: nat, keyLen: nat, salt: seq<Byte>, info: seq<Byte>, i: nat)
    requires InitArgsOk(outLen, keyLen, |salt|, |info|) && i < 8
    ensures Fresh(outLen, keyLen, salt, info).h[i]
         == LoadWord(ParamBlock(outLen, keyLen, salt, info)[8 * i .. 8 * i + 8]) ^ IV[i]
  {
    WordsOfAt(ParamBlock(outLen, keyLen, salt, info), i);
  }

  /** The byte counter t[0] + 2^64 * t[1]. */
  function Counter(t: seq<U64>): nat
    requires |t| == 2
  {
    t[0] as nat + TWO_64 * t[1] as nat
  }

  /** Adds n to the low word and carries into the high word when it wraps. */
  function AddToCounter(t: seq<U64>, n: U64): (t': seq<U64>)
    requires |t| == 2
    ensures |t'| == 2
    ensures t'[0] as int == (t[0] as int + n as int) % TWO_64
    ensures t'[1] == (if t[0] as int + n as int >= TWO_64 then WrappingAdd(t[1], 1) else t[1])
  {
    var lo := WrappingAdd(t[0], n);
    [lo, if lo < n then WrappingAdd(t[1], 1) else t[1]]
  }

  /** The two words together form a 128-bit counter that wraps at 2^128. */
  lemma AddToCounterValue(t: seq<U64>, n: U64)
    requires |t| == 2
    ensures Counter(AddToCounter(t, n)) == (Counter(t) + n as int) % TWO_128
  {
    var t' := AddToCounter(t, n);
    var s := t[0] as int + n as int;
    if s < TWO_64 {
      assert t'[0] as int == s && t'[1] == t[1];
      assert Counter(t') == Counter(t) + n as int;
    } else {
      assert t'[0] as int == s - TWO_64;
      if t[1] as int + 1 < TWO_64 {
        assert t'[1] as int == t[1] as int + 1;
        assert Counter(t') == Counter(t) + n as int;
      } else {
        assert t'[1] as int == 0;
        assert Counter(t') == Counter(t) + n as int - TWO_128;
      }
    }
  }

  /** A full buffer is counted and compressed, and the buffer cleared. */
  function Flush(e: Engine): (r: Engine)
    requires Valid(e) && |e.buf| == BLOCK
    ensures Valid(r) && r.buf == [] && r.f == e.f && r.hashLen == e.hashLen
  {
    var t := AddToCounter(e.t, BLOCK as U64);
    Engine(Compress(e.h, WordsOf(e.buf), t, e.f), t, e.f, [], e.hashLen)
  }

  function Min(a: nat, b: nat): nat
  {
    if a <= b then a else b
  }

  /** `update`: fill the buffer, and compress a full buffer only when more
      input follows (a full block is kept back as a candidate last block). */
  function Feed(e: Engine, data: seq<Byte>): (r: Engine)
    requires Valid(e)
    ensures Valid(r) && r.f == e.f && r.hashLen == e.hashLen
    decreases |data|, |e.buf|
  {
    if data == [] then e
    else
      var k := Min(BLOCK - |e.buf|, |data|);
      var e1 := e.(buf := e.buf + data[..k]);
      if |e1.buf| == BLOCK && data[k..] != [] then Feed(Flush(e1), data[k..])
      else Feed(e1, data[k..])
  }

  /** One byte at a time: a full buffer is flushed only when the next byte arrives. */
  function Push(e: Engine, x: Byte): (r: Engine)
    requires Valid(e)
    ensures Valid(r) && r.f == e.f && r.hashLen == e.hashLen && r.buf != []
  {
    var e := if |e.buf| == BLOCK then Flush(e) else e;
    e.(buf := e.buf + [x])
  }

  /** The reference definition of absorbing: a left fold of Push. */
  function Absorb(e: Engine, data: seq<Byte>): (r: Engine)
    requires Valid(e)
    ensures Valid(r) && r.f == e.f && r.hashLen == e.hashLen
    decreases |data|
  {
    if data == [] then e else Absorb(Push(e, data[0]), data[1..])
  }

  lemma {:induction false} AbsorbAppend(e: Engine, a: seq<Byte>, b: seq<Byte>)
    requires Valid(e)
    ensures Absorb(e, a + b) == Absorb(Absorb(e, a), b)
    decreases |a|
  {
    if a != [] {
      assert (a + b)[0] == a[0] && (a + b)[1..] == a[1..] + b;
      AbsorbAppend(Push(e, a[0]), a[1..], b);
    } else {
      assert a + b == b;
    }
  }

  /** Input that fits in the buffer is only appended to it. */
  lemma {:induction false} AbsorbFits(e: Engine, data: seq<Byte>)
    requires Valid(e) && |e.buf| + |data| <= BLOCK
    ensures Absorb(e, data) == e.(buf := e.buf + data)
    decreases |data|
  {
    if data != [] {
      var e1 := e.(buf := e.buf + [data[0]]);
      assert Push(e, data[0]) == e1;
      AbsorbFits(e1, data[1..]);
      assert e1.buf + data[1..] == e.buf + data;
    }
  }

  /** The chunked loop of `update` absorbs exactly like the byte-wise fold. */
  lemma {:induction false} FeedIsAbsorb(e: Engine, data: seq<Byte>)
    requires Valid(e)
    ensures Feed(e, data) == Absorb(e, data)
    decreases |data|, |e.buf|
  {
    // Proof economy only: the steps below need just these definitions' contracts.
    hide Compress;
    if data != [] {
      var k := Min(BLOCK - |e.buf|, |data|);
      var e1 := e.(buf := e.buf + data[..k]);
      var rest := data[k..];
      assert data == data[..k] + rest;
      AbsorbAppend(e, data[..k], rest);
      AbsorbFits(e, data[..k]);
      if |e1.buf| == BLOCK && rest != [] {
        FeedIsAbsorb(Flush(e1), rest);
        var e2 := Flush(e1);
        assert Push(e1, rest[0]) == Push(e2, rest[0]);
        assert Absorb(e1, rest) == Absorb(Push(e2, rest[0]), rest[1..]);
      } else {
        assert rest == [];
      }
    }
  }

  /** Chunking invariance: two updates equal one update with the concatenation. */
  lemma FeedAppend(e: Engine, a: seq<Byte>, b: seq<Byte>)
    requires Valid(e)
    ensures Feed(Feed(e, a), b) == Feed(e, a + b)
  {
    FeedIsAbsorb(e, a);
    FeedIsAbsorb(Feed(e, a), b);
    FeedIsAbsorb(e, a + b);
    AbsorbAppend(e, a, b);
  }

  /** Absorbing nothing leaves the engine as it is. */
  lemma FeedNothing(e: Engine)
    requires Valid(e)
    ensures Feed(e, []) == e
  {
  }

  /** Input that fits in the buffer is buffered without compressing. */
  lemma FeedFits(e: Engine, data: seq<Byte>)
    requires Valid(e) && |e.buf| + |data| <= BLOCK
    ensures Feed(e, data) == e.(buf := e.buf + data)
  {
    FeedIsAbsorb(e, data);
    AbsorbFits(e, data);
  }

  predicate IsSuffix(a: seq<Byte>, b: seq<Byte>)
  {
    |a| <= |b| && a == b[|b| - |a| ..]
  }

  lemma SuffixAppend(a: seq<Byte>, b: seq<Byte>, c: seq<Byte>)
    requires IsSuffix(a, b)
    ensures IsSuffix(a + c, b + c)
  {
    assert (b + c)[|b + c| - |a + c| ..] == b[|b| - |a| ..] + c;
  }

  lemma SuffixTrans(a: seq<Byte>, b: seq<Byte>, c: seq<Byte>)
    requires IsSuffix(a, b) && IsSuffix(b, c)
    ensures IsSuffix(a, c)
  {
    assert c[|c| - |b| ..][|b| - |a| ..] == c[|c| - |a| ..];
  }

  /** One byte: the buffer length steps through 1..128, and the buffer is
      a suffix of the old buffer plus that byte. */
  lemma PushBuffer(e: Engine, x: Byte)
    requires Valid(e)
    ensures |Push(e, x).buf| == |e.buf| % BLOCK + 1
    ensures IsSuffix(Push(e, x).buf, e.buf + [x])
  {
    // Proof economy only: the steps below need just these definitions' contracts.
    hide Compress;
  }

  lemma {:induction false} AbsorbBufferLength(e: Engine, data: seq<Byte>)
    requires Valid(e) && data != []
    ensures |Absorb(e, data).buf| == (|e.buf| + |data| - 1) % BLOCK + 1
    decreases |data|
  {
    // Proof economy only: the steps below need just these definitions' contracts.
    hide Compress;
    hide Push;
    var x, rest := data[0], data[1..];
    var e1 := Push(e, x);
    assert Absorb(e, data) == Absorb(e1, rest);
    PushBuffer(e, x);
    var k, j := |e.buf|, |data| - 1;
    if rest == [] {
      assert Absorb(e1, rest) == e1;
    } else {
      AbsorbBufferLength(e1, rest);
      if k == 128 {
        assert |e1.buf| == 1;
        assert (k + j) % 128 == j % 128;
      } else {
        assert |e1.buf| == k + 1;
      }
    }
  }

  /** The two suffix facts of one step of the fold combine into one. */
  lemma SuffixStep(b0: seq<Byte>, x: Byte, b1: seq<Byte>, rest: seq<Byte>, r: seq<Byte>)
    requires IsSuffix(b1, b0 + [x]) && IsSuffix(r, b1 + rest)
    ensures IsSuffix(r, b0 + ([x] + rest))
  {
    SuffixAppend(b1, b0 + [x], rest);
    assert b0 + [x] + rest == b0 + ([x] + rest);
    SuffixTrans(r, b1 + rest, b0 + ([x] + rest));
  }

  lemma {:induction false} AbsorbBufferSuffix(e: Engine, data: seq<Byte>)
    requires Valid(e)
    ensures IsSuffix(Absorb(e, data).buf, e.buf + data)
    decreases |data|
  {
    // Proof economy only: the steps below need just these definitions' contracts.
    hide Compress;
    hide Push;
    if data == [] {
      assert e.buf + data == e.buf;
    } else {
      // Proof economy only: the steps below need just these definitions' contracts.
      hide IsSuffix;
      var x, rest := data[0], data[1..];
      assert data == [x] + rest;
      var e1 := Push(e, x);
      var r := Absorb(e1, rest);
      assert Absorb(e, data) == r;
      PushBuffer(e, x);
      AbsorbBufferSuffix(e1, rest);
      SuffixStep(e.buf, x, e1.buf, rest, r.buf);
    }
  }

  /** Buffer bounds of `update`: input, once given, is never entirely compressed. */
  lemma FeedBuffer(e: Engine, data: seq<Byte>)
    requires Valid(e) && data != []
    ensures 1 <= |Feed(e, data).buf| == (|e.buf| + |data| - 1) % BLOCK + 1
    ensures IsSuffix(Feed(e, data).buf, e.buf + data)
  {
    FeedIsAbsorb(e, data);
    AbsorbBufferLength(e, data);
    AbsorbBufferSuffix(e, data);
  }

  /** Counter bookkeeping for one byte: counted bytes plus buffered bytes grow by one. */
  lemma PushCounter(e: Engine, x: Byte)
    requires Valid(e) && Counter(e.t) + |e.buf| < TWO_128
    ensures Counter(Push(e, x).t) + |Push(e, x).buf| == Counter(e.t) + |e.buf| + 1
  {
    if |e.buf| == BLOCK {
      AddToCounterValue(e.t, BLOCK as U64);
      assert Counter(Flush(e).t) == Counter(e.t) + BLOCK;
    }
  }

  lemma {:induction false} AbsorbCounter(e: Engine, data: seq<Byte>)
    requires Valid(e) && Counter(e.t) + |e.buf| + |data| <= TWO_128
    ensures Counter(Absorb(e, data).t) + |Absorb(e, data).buf| == Counter(e.t) + |e.buf| + |data|
    decreases |data|
  {
    if data != [] {
      PushCounter(e, data[0]);
      AbsorbCounter(Push(e, data[0]), data[1..]);
    }
  }

  /** Counter bookkeeping of `update`: `counter + |buf|` grows by exactly
      |data| while the total stays below 2^128. */
  lemma FeedCounter(e: Engine, data: seq<Byte>)
    requires Valid(e) && Counter(e.t) + |e.buf| + |data| <= TWO_128
    ensures Counter(Feed(e, data).t) + |Feed(e, data).buf| == Counter(e.t) + |e.buf| + |data|
  {
    FeedIsAbsorb(e, data);
    AbsorbCounter(e, data);
  }

  /** `init_kdf`: the fresh state, then the key as one zero-padded block. */
  function InitKdf(outLen: nat, key: seq<Byte>, salt: seq<Byte>, info: seq<Byte>): (e: Engine)
    requires InitArgsOk(outLen, |key|, |salt|, |info|)
    ensures Valid(e) && e.hashLen == outLen && e.f == [0, 0]
  {
    var e := Fresh(outLen, |key|, salt, info);
    if |key| == 0 then e else Feed(Feed(e, key), Zeros(BLOCK - |key|))
  }

  /** A key is buffered as a zero-padded block and nothing is compressed yet. */
  lemma InitKdfState(outLen: nat, key: seq<Byte>, salt: seq<Byte>, info: seq<Byte>)
    requires InitArgsOk(outLen, |key|, |salt|, |info|)
    ensures var e := InitKdf(outLen, key, salt, info);
      && e.h == Fresh(outLen, |key|, salt, info).h
      && e.t == [0, 0]
      && e.buf == (if |key| == 0 then [] else key + Zeros(BLOCK - |key|))
  {
    if |key| != 0 {
      var e := Fresh(outLen, |key|, salt, info);
      FeedFits(e, key);
      FeedFits(Feed(e, key), Zeros(BLOCK - |key|));
    }
  }

  /** An engine set up with a key holds the state reached by absorbing the
      zero-padded key block in one update. */
  lemma KeyedInitIsPaddedKey(outLen: nat, key: seq<Byte>, salt: seq<Byte>, info: seq<Byte>)
    requires outLen <= 64 && 1 <= |key| <= 64 && |salt| <= 16 && |info| <= 16
    ensures InitKdf(outLen, key, salt, info) == Feed(Fresh(outLen, |key|, salt, info), key + Zeros(BLOCK - |key|))
  {
    // Proof economy only: the steps below need just these definitions' contracts.
    hide Fresh, Feed;
    FeedAppend(Fresh(outLen, |key|, salt, info), key, Zeros(BLOCK - |key|));
  }

  /** `init`: an unkeyed hash of out_len bytes. */
  function Init(outLen: nat): (e: Engine)
    requires outLen <= 64
    ensures Valid(e) && e.hashLen == outLen && e.t == [0, 0] && e.f == [0, 0] && e.buf == []
    ensures e.h[0] == IV[0] ^ 0x0101_0000 ^ (outLen as Byte as Word)
  {
    ParamWordZero(outLen, 0, [], []);
    InitKdfState(outLen, [], [], []);
    InitKdf(outLen, [], [], [])
  }

  /** `init_mac`: a keyed hash of out_len bytes. */
  function InitMac(outLen: nat, key: seq<Byte>): (e: Engine)
    requires outLen <= 64 && |key| <= 64
    ensures Valid(e) && e.hashLen == outLen && e.t == [0, 0] && e.f == [0, 0]
    ensures e.buf == (if |key| == 0 then [] else key + Zeros(BLOCK - |key|))
    ensures e.h[0] == IV[0] ^ (0x0101_0000 | ((|key| as Byte as Word) << 8) | (outLen as Byte as Word))
  {
    ParamWordZero(outLen, |key|, [], []);
    InitKdfState(outLen, key, [], []);
    InitKdf(outLen, key, [], [])
  }

  /** `finish` on the state: count the buffered bytes, set the last-block
      flag, zero-pad and compress. */
  function Finalize(e: Engine): (r: Engine)
    requires Valid(e) && e.f[0] == 0
    ensures Valid(r) && r.hashLen == e.hashLen
    ensures r.f == [MAX_WORD, e.f[1]] && r.f[0] != 0
    ensures r.t == AddToCounter(e.t, |e.buf| as U64)
    ensures r.buf == e.buf + Zeros(BLOCK - |e.buf|) && |r.buf| == BLOCK
  {
    // Proof economy only: the steps below need just these definitions' contracts.
    hide Compress;
    hide WordsOf;
    var t := AddToCounter(e.t, |e.buf| as U64);
    var f := [MAX_WORD, e.f[1]];
    var buf := e.buf + Zeros(BLOCK - |e.buf|);
    Engine(Compress(e.h, WordsOf(buf), t, f), t, f, buf, e.hashLen)
  }

  /** Finalization counts the buffered bytes into the 128-bit counter. */
  lemma FinalizeCounter(e: Engine)
    requires Valid(e) && e.f[0] == 0
    ensures Counter(Finalize(e).t) == (Counter(e.t) + |e.buf|) % TWO_128
  {
    // Proof economy only: the steps below need just these definitions' contracts.
    hide Compress;
    AddToCounterValue(e.t, |e.buf| as U64);
  }

  /** The digest: the first hash_len bytes of h serialized little-endian. */
  function Digest(e: Engine): (d: seq<Byte>)
    requires Valid(e) && e.f[0] == 0
    ensures |d| == e.hashLen
  {
    Serialize(Finalize(e).h, e.hashLen)
  }

  /** Every whole word that fits in the digest is stored little-endian at offset 8 * i. */
  lemma DigestWord(e: Engine, i: nat)
    requires Valid(e) && e.f[0] == 0 && 8 * i + 8 <= e.hashLen
    ensures Digest(e)[8 * i .. 8 * i + 8] == StoreWord(Finalize(e).h[i])
  {
    // Proof economy only: the steps below need just these definitions' contracts.
    hide Compress;
    SerializeWordAt(Finalize(e).h, e.hashLen, i);
  }

}
