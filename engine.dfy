/** The engine `B2Impl` as an object whose chain value, counter and flags
    are fixed-size arrays updated in place, with the pending input as a
    growing buffer. Each method is proved to compute the matching function
    of EngineSpec on the abstract state `Abs()`. */
module EngineImpl {
  import opened Words
  import opened Compression
  import opened EngineSpec

  /** `g`: the mixing function at positions a, b, c, d with the words of
      step i of round r. The four words are read, mixed and written back. */
  method GStep(r: nat, i: nat, v: array<Word>, m: array<Word>, a: Index16, b: Index16, c: Index16, d: Index16)
    requires r < ROUNDS && i < 8 && v.Length == 16 && m.Length == 16 && v != m
    requires Distinct4(a, b, c, d)
    modifies v
    ensures |SIGMA[r]| == 16 && v[..] == Mix(old(v[..]), a, b, c, d, m[SIGMA[r][2 * i]], m[SIGMA[r][2 * i + 1]])
  {
    SigmaShape();
    var q := G(Quad(v[a], v[b], v[c], v[d]), m[SIGMA[r][2 * i]], m[SIGMA[r][2 * i + 1]]);
    v[a] := q.a;
    v[b] := q.b;
    v[c] := q.c;
    v[d] := q.d;
  }

  /** `round`: the four column steps, then the four diagonal steps. */
  method RoundInPlace(r: nat, v: array<Word>, m: array<Word>)
    requires r < ROUNDS && v.Length == 16 && m.Length == 16 && v != m
    modifies v
    ensures v[..] == Round(old(v[..]), m[..], r)
  {
    // Proof economy only: the steps below need just these definitions' contracts.
    hide Mix;
    hide G;
    GStep(r, 0, v, m, 0, 4,  8, 12);
    GStep(r, 1, v, m, 1, 5,  9, 13);
    GStep(r, 2, v, m, 2, 6, 10, 14);
    GStep(r, 3, v, m, 3, 7, 11, 15);
    GStep(r, 4, v, m, 0, 5, 10, 15);
    GStep(r, 5, v, m, 1, 6, 11, 12);
    GStep(r, 6, v, m, 2, 7,  8, 13);
    GStep(r, 7, v, m, 3, 4,  9, 14);
  }

  /** Little-endian words of a byte string: `from_le_bytes` on each 8-byte piece. */
  method LoadWords(bs: seq<Byte>, n: nat) returns (m: array<Word>)
    requires |bs| == 8 * n
    ensures fresh(m) && m.Length == n && m[..] == WordsOf(bs)
  {
    // Proof economy only: the steps below need just these definitions' contracts.
    hide LoadWord;
    m := new Word[n](_ => 0);
    for i := 0 to n
      invariant forall j :: 0 <= j < i ==> m[j] == WordsOf(bs)[j]
    {
      WordsOfAt(bs, i);
      m[i] := LoadWord(bs[8 * i .. 8 * i + 8]);
    }
  }

  /** Load the parameter block: lengths, fan-out, depth, salt and personalization. */
  method BuildParamBlock(outLen: nat, keyLen: nat, salt: seq<Byte>, info: seq<Byte>) returns (p: array<Byte>)
    requires InitArgsOk(outLen, keyLen, |salt|, |info|)
    ensures fresh(p) && p[..] == ParamBlock(outLen, keyLen, salt, info)
  {
    ghost var pb := ParamBlock(outLen, keyLen, salt, info);
    ParamBlockLayout(outLen, keyLen, salt, info);
    p := new Byte[64](_ => 0);
    p[0] := outLen as Byte;
    p[1] := keyLen as Byte;
    p[2] := 1;
    p[3] := 1;
    for i := 0 to |salt|
      invariant forall j :: 0 <= j < 32 + i ==> p[j] == pb[j]
      invariant forall j :: 32 + i <= j < 64 ==> p[j] == 0
    {
      p[32 + i] := salt[i];
    }
    for i := 0 to |info|
      invariant forall j :: 0 <= j < 48 + i ==> p[j] == pb[j]
      invariant forall j :: 48 + i <= j < 64 ==> p[j] == 0
    {
      p[48 + i] := info[i];
    }
  }

  /** `h[i] ^= IV[i]` for every chain word. */
  method XorIV(h: array<Word>)
    requires h.Length == 8
    modifies h
    ensures forall i :: 0 <= i < 8 ==> h[i] == Xor(old(h[i]), IV[i])
  {
    // Proof economy only: the steps below need just these definitions' contracts.
    hide Xor;
    for i := 0 to 8
      invariant forall j :: 0 <= j < i ==> h[j] == Xor(old(h[j]), IV[j])
      invariant forall j :: i <= j < 8 ==> h[j] == old(h[j])
    {
      h[i] := Xor(h[i], IV[i]);
    }
  }

  /** Load v: the chain value, IV, and IV masked by counter and flags. */
  method LoadWork(h: array<Word>, t: array<U64>, f: array<Word>) returns (v: array<Word>)
    requires h.Length == 8 && t.Length == 2 && f.Length == 2
    ensures fresh(v) && v.Length == 16 && v[..] == InitWork(h[..], t[..], f[..])
  {
    // Proof economy only: the steps below need just these definitions' contracts.
    hide ToWord;
    hide Xor;
    v := new Word[16](_ => 0);
    for i := 0 to 8
      invariant v[..i] == h[..i]
    {
      v[i] := h[i];
    }
    for i := 0 to 4
      invariant v[..8 + i] == h[..] + IV[..i]
    {
      v[8 + i] := IV[i];
    }
    v[12] := Xor(IV[4], ToWord(t[0]));
    v[13] := Xor(IV[5], ToWord(t[1]));
    v[14] := Xor(IV[6], f[0]);
    v[15] := Xor(IV[7], f[1]);
    assert v[..12] == h[..] + IV[..4];
  }

  /** The new chain value h[i] ^ v[i] ^ v[i + 8], written over h. */
  method FeedForwardInPlace(h: array<Word>, v: array<Word>)
    requires h.Length == 8 && v.Length == 16 && h != v
    modifies h
    ensures h[..] == FeedForward(old(h[..]), v[..])
  {
    // Proof economy only: the steps below need just these definitions' contracts.
    hide Xor;
    for i := 0 to 8
      invariant forall j :: 0 <= j < i ==> h[j] == Xor(Xor(old(h[j]), v[j]), v[j + 8])
      invariant forall j :: i <= j < 8 ==> h[j] == old(h[j])
    {
      h[i] := Xor(Xor(h[i], v[i]), v[i + 8]);
    }
  }

  /** Store the chain value little-endian and copy its first bytes out. */
  method StoreHash(h: array<Word>, out: array<Byte>)
    requires h.Length == 8 && out.Length <= 64
    modifies out
    ensures out[..] == Serialize(h[..], out.Length)
  {
    // Proof economy only: the steps below need just these definitions' contracts.
    hide StoreWord;
    var o := new Byte[64](_ => 0);
    for i := 0 to 8
      invariant forall j :: 0 <= j < 8 * i ==> o[j] == BytesOf(h[..])[j]
    {
      var num := StoreWord(h[i]);
      BytesOfAt(h[..], i);
      for j := 0 to 8
        invariant forall k :: 0 <= k < 8 * i + j ==> o[k] == BytesOf(h[..])[k]
      {
        o[8 * i + j] := num[j];
      }
    }
    assert o[..] == BytesOf(h[..]);
    for i := 0 to out.Length
      modifies out
      invariant forall j :: 0 <= j < i ==> out[j] == o[j]
    {
      out[i] := o[i];
    }
    assert out[..] == BytesOf(h[..])[..out.Length];
  }

  class B2Impl {
    const h: array<Word>
    const t: array<U64>
    const f: array<Word>
    var buf: seq<Byte>
    const hashLen: nat

    predicate Valid()
      reads this, h, t, f
    {
      h.Length == 8 && t.Length == 2 && f.Length == 2 && h != f && t as object != f && t as object != h
      && |buf| <= BLOCK && hashLen <= 64
    }

    /** The state as a value. */
    function Abs(): (e: Engine)
      reads this, h, t, f
      requires Valid()
      ensures EngineSpec.Valid(e) && e.hashLen == hashLen && e.buf == buf
    {
      Engine(h[..], t[..], f[..], buf, hashLen)
    }

    /** `init_kdf`: the parameter block XORed into IV, then the key as a
        zero-padded block. */
    constructor InitKdf(outLen: nat, key: seq<Byte>, salt: seq<Byte>, info: seq<Byte>)
      requires InitArgsOk(outLen, |key|, |salt|, |info|)
      ensures Valid() && fresh(h) && fresh(t) && fresh(f)
      ensures Abs() == EngineSpec.InitKdf(outLen, key, salt, info)
    {
      var p := BuildParamBlock(outLen, |key|, salt, info);
      var hw := LoadWords(p[..], 8);
      XorIV(hw);
      h := hw;
      t := new U64[2](_ => 0);
      f := new Word[2](_ => 0);
      buf := [];
      hashLen := outLen;
      new;
      assert Abs() == Fresh(outLen, |key|, salt, info);
      if |key| != 0 {
        Update(key);
        Update(Zeros(BLOCK - |key|));
      }
    }

    /** `init`: an unkeyed hash. */
    static method Init(outLen: nat) returns (e: B2Impl)
      requires outLen <= 64
      ensures e.Valid() && fresh(e) && fresh(e.h) && fresh(e.t) && fresh(e.f)
      ensures e.Abs() == EngineSpec.Init(outLen)
    {
      e := new B2Impl.InitKdf(outLen, [], [], []);
    }

    /** `init_mac`: a keyed hash. */
    static method InitMac(outLen: nat, key: seq<Byte>) returns (e: B2Impl)
      requires outLen <= 64 && |key| <= 64
      ensures e.Valid() && fresh(e) && fresh(e.h) && fresh(e.t) && fresh(e.f)
      ensures e.Abs() == EngineSpec.InitMac(outLen, key)
    {
      e := new B2Impl.InitKdf(outLen, key, [], []);
    }

    /** `compress`: only the chain value changes. */
    method Compress()
      requires Valid() && |buf| == BLOCK
      modifies h
      ensures Valid()
      ensures h[..] == Compression.Compress(old(h[..]), WordsOf(buf), t[..], f[..])
    {
      // Proof economy only: the steps below need just these definitions' contracts.
      hide Round;
      hide Mix;
      hide G;
      hide ToWord;
      hide LoadWord;
      hide Xor;
      hide WordsOf;
      hide InitWork;
      hide FeedForward;
      var m := LoadWords(buf, 16);
      var v := LoadWork(h, t, f);
      ghost var v0 := v[..];
      for r := 0 to ROUNDS
        modifies v
        invariant v[..] == Rounds(v0, m[..], r)
      {
        RoundInPlace(r, v, m);
      }
      assert h[..] == old(h[..]);
      assert v0 == InitWork(old(h[..]), t[..], f[..]);
      assert m[..] == WordsOf(buf);
      assert v[..] == Rounds(InitWork(old(h[..]), t[..], f[..]), WordsOf(buf), ROUNDS);
      FeedForwardInPlace(h, v);
      assert h[..] == FeedForward(old(h[..]), Rounds(InitWork(old(h[..]), t[..], f[..]), WordsOf(buf), ROUNDS));
    }

    /** The block step of `update`: count 128 more bytes, compress, clear the buffer. */
    method FlushBlock()
      requires Valid() && |buf| == BLOCK
      modifies this, h, t
      ensures Valid()
      ensures Abs() == Flush(old(Abs()))
    {
      // Proof economy only: the steps below need just these definitions' contracts.
      hide Compression.Compress;
      ghost var e := Abs();
      t[0] := WrappingAdd(t[0], BLOCK as U64);
      if t[0] < BLOCK as U64 {
        t[1] := WrappingAdd(t[1], 1);
      }
      assert t[..] == AddToCounter(e.t, BLOCK as U64);
      assert h[..] == e.h && f[..] == e.f && buf == e.buf;
      Compress();
      assert h[..] == Compression.Compress(e.h, WordsOf(e.buf), AddToCounter(e.t, BLOCK as U64), e.f);
      buf := [];
      assert t[..] == AddToCounter(e.t, BLOCK as U64);
      assert f[..] == e.f;
    }

    /** `update`: buffer the input, compressing a full buffer only when more
        input follows. */
    method Update(data: seq<Byte>)
      requires Valid()
      modifies this, h, t
      ensures Valid()
      ensures Abs() == Feed(old(Abs()), data)
    {
      // Proof economy only: the steps below need just these definitions' contracts.
      hide Flush;
      var rest := data;
      while rest != []
        invariant Valid()
        invariant Feed(Abs(), rest) == Feed(old(Abs()), data)
        decreases |rest|, |buf|
      {
        var k := Min(BLOCK - |buf|, |rest|);
        buf := buf + rest[..k];
        rest := rest[k..];
        if |buf| == BLOCK && rest != [] {
          FlushBlock();
        }
      }
    }

    /** `finish`: count the buffered bytes, set the last-block flag, pad,
        compress, and write the first hash_len bytes of h little-endian. */
    method Finish(out: array<Byte>)
      requires Valid() && out.Length == hashLen && f[0] == 0
      requires out as object != t
      modifies this, h, t, f, out
      ensures Valid()
      ensures Abs() == Finalize(old(Abs()))
      ensures out[..] == Digest(old(Abs()))
    {
      // Proof economy only: the steps below need just these definitions' contracts.
      hide Compression.Compress;
      ghost var e := Abs();
      t[0] := WrappingAdd(t[0], |buf| as U64);
      if t[0] < |buf| as U64 {
        t[1] := WrappingAdd(t[1], 1);
      }
      f[0] := MAX_WORD;
      buf := buf + Zeros(BLOCK - |buf|);
      assert t[..] == AddToCounter(e.t, |e.buf| as U64);
      assert f[..] == [MAX_WORD, e.f[1]];
      assert h[..] == e.h;
      Compress();
      assert h[..] == Compression.Compress(e.h, WordsOf(buf), t[..], f[..]);
      assert Abs() == Finalize(e);
      StoreHash(h, out);
    }

    /** `hash_len`: the digest length fixed at construction. */
    function HashLen(): (n: nat)
      reads this, h, t, f
      requires Valid()
      ensures n == Abs().hashLen && n <= 64
    {
      hashLen
    }
  }
}
