/** The `Blake2b` adapter: length checks that turn bad arguments into an
    `ApiMisuse` error, the one-shot hash/MAC/KDF pipelines over the engine,
    and the streaming wrapper whose state is an optional engine. */
module Api {
  import opened Words
  import opened EngineSpec
  import opened EngineImpl

  /** The single error kind of the adapter, carrying a fixed message. */
  datatype Error = ApiMisuse(reason: string)

  /** A call that returns a value or fails. */
  datatype Result<T> = Ok(value: T) | Err(error: Error)

  /** A call that returns nothing or fails (`Result<(), _>`). */
  datatype Outcome = Pass | Fail(error: Error)

  datatype Option<T> = None | Some(value: T)

  function TooSmall(expr: string): string { "`" + expr + "` is too small" }
  function TooLarge(expr: string): string { "`" + expr + "` is too large" }
  function Invalid(expr: string): string { "`" + expr + "` is invalid" }

  const HASH_NOT_INITIALIZED: string := "The hash is not initialized"
  const MAC_NOT_INITIALIZED: string := "The MAC is not initialized"

  /** `check_in!(v, lo..=hi)`, where `expr` is the stringified expression:
      the lower bound is tested first. */
  function CheckIn(v: int, lo: int, hi: int, expr: string): (o: Outcome)
    ensures o.Pass? <==> lo <= v <= hi
    ensures v < lo ==> o == Fail(ApiMisuse(TooSmall(expr)))
    ensures lo <= v && hi < v ==> o == Fail(ApiMisuse(TooLarge(expr)))
  {
    if v < lo then Fail(ApiMisuse(TooSmall(expr)))
    else if v > hi then Fail(ApiMisuse(TooLarge(expr)))
    else Pass
  }

  /** `check_eq!(v, e)`. */
  function CheckEq(v: int, e: int, expr: string): (o: Outcome)
    ensures o.Pass? <==> v == e
    ensures v != e ==> o == Fail(ApiMisuse(Invalid(expr)))
  {
    if v != e then Fail(ApiMisuse(Invalid(expr))) else Pass
  }

  /** Both bounds reject, with different messages, and an empty range rejects everything. */
  lemma CheckInMessages(v: int, lo: int, hi: int, expr: string)
    ensures CheckIn(v, lo, hi, expr).Fail? ==>
      CheckIn(v, lo, hi, expr).error.reason in {TooSmall(expr), TooLarge(expr)}
    ensures hi < lo ==> CheckIn(v, lo, hi, expr).Fail?
    ensures TooSmall(expr) != TooLarge(expr) && TooSmall(expr) != Invalid(expr)
  {
    var n := |expr|;
    assert TooSmall(expr)[n + 10] == 's';
    assert TooLarge(expr)[n + 10] == 'l';
    assert Invalid(expr)[n + 6] == 'i';
    assert TooSmall(expr)[n + 6] == 't';
  }

  // ---- One-shot operations. A success carries the bytes written to `buf`. ----

  /** `varlen_hash`: an unkeyed digest of `bufLen` bytes. */
  function VarlenHash(bufLen: nat, data: seq<Byte>): (r: Result<seq<Byte>>)
    ensures r.Ok? <==> 1 <= bufLen <= 64
    ensures r.Err? ==> r.error == CheckIn(bufLen, 1, 64, "buf.len()").error
    ensures r.Ok? ==> |r.value| == bufLen
  {
    var c := CheckIn(bufLen, 1, 64, "buf.len()");
    if c.Fail? then Err(c.error)
    else Ok(Digest(Feed(Init(bufLen), data)))
  }

  /** `hash`: only a 64-byte buffer is accepted, and then it is `varlen_hash`. */
  function Hash(bufLen: nat, data: seq<Byte>): (r: Result<seq<Byte>>)
    ensures r.Ok? <==> bufLen == 64
    ensures bufLen != 64 ==> r == Err(ApiMisuse(Invalid("buf.len()")))
    ensures r.Ok? ==> r == VarlenHash(64, data) && |r.value| == 64
  {
    var c := CheckEq(bufLen, 64, "buf.len()");
    if c.Fail? then Err(c.error) else VarlenHash(bufLen, data)
  }

  /** `varlen_auth`: the buffer length is checked before the key length, and
      an empty key is refused although the engine would take it. */
  function VarlenAuth(bufLen: nat, data: seq<Byte>, key: seq<Byte>): (r: Result<seq<Byte>>)
    ensures r.Ok? <==> 1 <= bufLen <= 64 && 1 <= |key| <= 64
    ensures !(1 <= bufLen <= 64) ==> r == Err(CheckIn(bufLen, 1, 64, "buf.len()").error)
    ensures 1 <= bufLen <= 64 && !(1 <= |key| <= 64) ==> r == Err(CheckIn(|key|, 1, 64, "key.len()").error)
    ensures r.Ok? ==> |r.value| == bufLen
  {
    var c1 := CheckIn(bufLen, 1, 64, "buf.len()");
    if c1.Fail? then Err(c1.error)
    else
      var c2 := CheckIn(|key|, 1, 64, "key.len()");
      if c2.Fail? then Err(c2.error)
      else Ok(Digest(Feed(InitMac(bufLen, key), data)))
  }

  /** `auth`: only a 64-byte buffer is accepted, and then it is `varlen_auth`. */
  function Auth(bufLen: nat, data: seq<Byte>, key: seq<Byte>): (r: Result<seq<Byte>>)
    ensures bufLen != 64 ==> r == Err(ApiMisuse(Invalid("buf.len()")))
    ensures bufLen == 64 ==> r == VarlenAuth(64, data, key)
    ensures r.Ok? <==> bufLen == 64 && 1 <= |key| <= 64
  {
    var c := CheckEq(bufLen, 64, "buf.len()");
    if c.Fail? then Err(c.error) else VarlenAuth(bufLen, data, key)
  }

  /** `derive`: buf, base key, salt, info are checked in this order; the
      output is the engine finished straight after `init_kdf`. */
  function Derive(bufLen: nat, baseKey: seq<Byte>, salt: seq<Byte>, info: seq<Byte>): (r: Result<seq<Byte>>)
    ensures r.Ok? <==> 1 <= bufLen <= 64 && 1 <= |baseKey| <= 64 && |salt| <= 16 && |info| <= 16
    ensures !(1 <= bufLen <= 64) ==> r == Err(CheckIn(bufLen, 1, 64, "buf.len()").error)
    ensures 1 <= bufLen <= 64 && !(1 <= |baseKey| <= 64) ==>
      r == Err(CheckIn(|baseKey|, 1, 64, "base_key.len()").error)
    ensures 1 <= bufLen <= 64 && 1 <= |baseKey| <= 64 && 16 < |salt| ==>
      r == Err(ApiMisuse(TooLarge("salt.len()")))
    ensures 1 <= bufLen <= 64 && 1 <= |baseKey| <= 64 && |salt| <= 16 && 16 < |info| ==>
      r == Err(ApiMisuse(TooLarge("info.len()")))
    ensures r.Ok? ==> |r.value| == bufLen
  {
    var c1 := CheckIn(bufLen, 1, 64, "buf.len()");
    if c1.Fail? then Err(c1.error)
    else
      var c2 := CheckIn(|baseKey|, 1, 64, "base_key.len()");
      if c2.Fail? then Err(c2.error)
      else
        var c3 := CheckIn(|salt|, 0, 16, "salt.len()");
        if c3.Fail? then Err(c3.error)
        else
          var c4 := CheckIn(|info|, 0, 16, "info.len()");
          if c4.Fail? then Err(c4.error)
          else Ok(Digest(InitKdf(bufLen, baseKey, salt, info)))
  }

  // ---- What the one-shot outputs are, in terms of the engine's input stream. ----

  /** Keyed hashing (RFC 7693, section 3.3): the MAC is the unkeyed-style
      digest of the key padded to one block followed by the data, under a
      parameter block that records the key length. */
  lemma MacIsPaddedKeyPrefix(bufLen: nat, data: seq<Byte>, key: seq<Byte>)
    requires 1 <= bufLen <= 64 && 1 <= |key| <= 64
    ensures VarlenAuth(bufLen, data, key)
      == Ok(Digest(Feed(Fresh(bufLen, |key|, [], []), key + Zeros(BLOCK - |key|) + data)))
  {
    // Proof economy only: the steps below need just these definitions' contracts.
    hide Digest, Fresh, Feed;
    var e := Fresh(bufLen, |key|, [], []);
    KeyedInitIsPaddedKey(bufLen, key, [], []);
    assert InitMac(bufLen, key) == InitKdf(bufLen, key, [], []);
    FeedAppend(e, key + Zeros(BLOCK - |key|), data);
  }

  /** Arguments within range give the digest of the engine straight after `init_kdf`. */
  lemma DeriveSucceeds(bufLen: nat, baseKey: seq<Byte>, salt: seq<Byte>, info: seq<Byte>)
    requires 1 <= bufLen <= 64 && 1 <= |baseKey| <= 64 && |salt| <= 16 && |info| <= 16
    ensures Derive(bufLen, baseKey, salt, info) == Ok(Digest(InitKdf(bufLen, baseKey, salt, info)))
  {
    // Proof economy only: the steps below need just these definitions' contracts.
    hide Digest, InitKdf;
  }

  /** The derived key is the digest of the padded base key alone; nothing
      else is absorbed before `finish`. */
  lemma DeriveIsPaddedKeyBlock(bufLen: nat, baseKey: seq<Byte>, salt: seq<Byte>, info: seq<Byte>)
    requires 1 <= bufLen <= 64 && 1 <= |baseKey| <= 64 && |salt| <= 16 && |info| <= 16
    ensures Derive(bufLen, baseKey, salt, info)
      == Ok(Digest(Feed(Fresh(bufLen, |baseKey|, salt, info), baseKey + Zeros(BLOCK - |baseKey|))))
  {
    // Proof economy only: the steps below need just these definitions' contracts.
    hide Derive, Digest, Fresh, Feed, InitKdf;
    DeriveSucceeds(bufLen, baseKey, salt, info);
    KeyedInitIsPaddedKey(bufLen, baseKey, salt, info);
  }

  /** Without salt and personalization, deriving is authenticating the empty
      message (only the name in a key-length error differs). */
  lemma DeriveIsMacOfNothing(bufLen: nat, baseKey: seq<Byte>)
    ensures Derive(bufLen, baseKey, [], []).Ok? <==> VarlenAuth(bufLen, [], baseKey).Ok?
    ensures Derive(bufLen, baseKey, [], []).Ok? ==> Derive(bufLen, baseKey, [], []) == VarlenAuth(bufLen, [], baseKey)
  {
    if 1 <= bufLen <= 64 && 1 <= |baseKey| <= 64 {
      // Proof economy only: the steps below need just these definitions' contracts.
      hide Digest, Fresh;
      assert InitMac(bufLen, baseKey) == InitKdf(bufLen, baseKey, [], []);
      FeedNothing(InitMac(bufLen, baseKey));
    }
  }

  // ---- Streaming equals one-shot. ----

  /** The concatenation of the pieces given to successive updates. */
  function Concat(chunks: seq<seq<Byte>>): seq<Byte>
  {
    if chunks == [] then [] else chunks[0] + Concat(chunks[1..])
  }

  /** Successive updates with the pieces. */
  function FeedAll(e: Engine, chunks: seq<seq<Byte>>): (r: Engine)
    requires EngineSpec.Valid(e)
    ensures EngineSpec.Valid(r) && r.f == e.f && r.hashLen == e.hashLen
    decreases |chunks|
  {
    if chunks == [] then e else FeedAll(Feed(e, chunks[0]), chunks[1..])
  }

  /** Chunking invariance, for any number of pieces. */
  lemma {:induction false} FeedAllConcat(e: Engine, chunks: seq<seq<Byte>>)
    requires EngineSpec.Valid(e)
    ensures FeedAll(e, chunks) == Feed(e, Concat(chunks))
    decreases |chunks|
  {
    if chunks == [] {
      FeedNothing(e);
    } else {
      FeedAllConcat(Feed(e, chunks[0]), chunks[1..]);
      FeedAppend(e, chunks[0], Concat(chunks[1..]));
    }
  }

  /** The input stream of two batches of pieces is the first batch's
      stream followed by the second's. */
  lemma {:induction false} ConcatAppend(a: seq<seq<Byte>>, b: seq<seq<Byte>>)
    ensures Concat(a + b) == Concat(a) + Concat(b)
    decreases |a|
  {
    if a == [] {
      assert a + b == b;
    } else {
      assert (a + b)[0] == a[0];
      assert (a + b)[1..] == a[1..] + b;
      ConcatAppend(a[1..], b);
    }
  }

  /** Two batches of updates in a row are one batch of all the pieces. */
  lemma FeedAllAppend(e: Engine, a: seq<seq<Byte>>, b: seq<seq<Byte>>)
    requires EngineSpec.Valid(e)
    ensures FeedAll(e, a + b) == FeedAll(FeedAll(e, a), b)
  {
    // Proof economy only: the steps below need just these definitions' contracts.
    hide Feed, FeedAll;
    FeedAllConcat(e, a + b);
    ConcatAppend(a, b);
    FeedAllConcat(e, a);
    FeedAllConcat(FeedAll(e, a), b);
    FeedAppend(e, Concat(a), Concat(b));
  }

  /** A streaming hash over pieces gives the one-shot hash of their concatenation. */
  lemma StreamingHashIsOneShot(hashLen: nat, chunks: seq<seq<Byte>>)
    requires 1 <= hashLen <= 64
    ensures VarlenHash(hashLen, Concat(chunks)) == Ok(Digest(FeedAll(Init(hashLen), chunks)))
  {
    FeedAllConcat(Init(hashLen), chunks);
  }

  /** A streaming MAC over pieces gives the one-shot MAC of their concatenation. */
  lemma StreamingMacIsOneShot(macLen: nat, key: seq<Byte>, chunks: seq<seq<Byte>>)
    requires 1 <= macLen <= 64 && 1 <= |key| <= 64
    ensures VarlenAuth(macLen, Concat(chunks), key) == Ok(Digest(FeedAll(InitMac(macLen, key), chunks)))
  {
    FeedAllConcat(InitMac(macLen, key), chunks);
  }

  // ---- The streaming wrapper. ----

  /** `Blake2b(Option<B2Impl>)` used as a streaming hash or MAC: `null` is `None`. */
  class Blake2b {
    var state: B2Impl?
    ghost var Repr: set<object>

    /** An installed engine is owned, valid, not finished, and of length 1..64. */
    ghost predicate Valid()
      reads this, Repr
    {
      this in Repr &&
      (state != null ==>
         state in Repr && state.h in Repr && state.t in Repr && state.f in Repr &&
         state.Valid() && state.f[..] == [0, 0] && 1 <= state.hashLen <= 64)
    }

    /** The wrapper's state as a value. */
    ghost function Model(): (m: Option<Engine>)
      reads this, Repr
      requires Valid()
      ensures m.Some? ==> EngineSpec.Valid(m.value) && m.value.f == [0, 0] && 1 <= m.value.hashLen <= 64
    {
      if state == null then None else Some(state.Abs())
    }

    /** `Self(None)`: a new instance holds no engine. */
    constructor ()
      ensures Valid() && fresh(Repr) && Model() == None
    {
      state := null;
      Repr := {this};
    }

    /** `StreamingHash::init`: always succeeds and installs a 64-byte hash. */
    method HashInit() returns (o: Outcome)
      requires Valid()
      modifies this
      ensures Valid() && fresh(Repr - old(Repr))
      ensures o == Pass && Model() == Some(Init(64))
    {
      // Proof economy only: the steps below need just these definitions' contracts.
      hide Init, InitMac, InitKdf;
      var s := B2Impl.Init(64);
      state := s;
      Repr := {this, s, s.h, s.t, s.f};
      o := Pass;
    }

    /** `StreamingVarlenHash::varlen_init`: installs a hash of the requested
        length, or fails and leaves the instance as it was. */
    method HashVarlenInit(hashLen: nat) returns (o: Outcome)
      requires Valid()
      modifies this
      ensures Valid() && fresh(Repr - old(Repr))
      ensures o == CheckIn(hashLen, 1, 64, "hash_len")
      ensures o.Pass? ==> Model() == Some(Init(hashLen))
      ensures o.Fail? ==> Model() == old(Model())
    {
      // Proof economy only: the steps below need just these definitions' contracts.
      hide Init, InitMac, InitKdf;
      o := CheckIn(hashLen, 1, 64, "hash_len");
      if o.Fail? {
        return;
      }
      var s := B2Impl.Init(hashLen);
      state := s;
      Repr := {this, s, s.h, s.t, s.f};
    }

    /** `StreamingHash::update`. */
    method HashUpdate(input: seq<Byte>) returns (o: Outcome)
      requires Valid()
      modifies Repr
      ensures Valid() && Repr == old(Repr)
      ensures old(Model()).None? ==> o == Fail(ApiMisuse(HASH_NOT_INITIALIZED)) && Model() == None
      ensures old(Model()).Some? ==> o == Pass && Model() == Some(Feed(old(Model()).value, input))
    {
      if state == null {
        return Fail(ApiMisuse(HASH_NOT_INITIALIZED));
      }
      state.Update(input);
      o := Pass;
    }

    /** `StreamingHash::finish`: the engine is taken out before the buffer
        length is checked, so the instance is uninitialized afterwards in
        every case; `buf` is written only on success. */
    method HashFinish(buf: array<Byte>) returns (r: Result<nat>)
      requires Valid() && buf !in Repr
      modifies Repr, buf
      ensures Valid() && Model() == None && fresh(Repr - old(Repr))
      ensures old(Model()).None? ==> r == Err(ApiMisuse(HASH_NOT_INITIALIZED)) && buf[..] == old(buf[..])
      ensures old(Model()).Some? && buf.Length != old(Model()).value.hashLen ==>
        r == Err(ApiMisuse(Invalid("buf.len()"))) && buf[..] == old(buf[..])
      ensures old(Model()).Some? && buf.Length == old(Model()).value.hashLen ==>
        r == Ok(buf.Length) && buf[..] == Digest(old(Model()).value)
    {
      if state == null {
        return Err(ApiMisuse(HASH_NOT_INITIALIZED));
      }
      var s := state;
      state := null;
      Repr := {this};
      var c := CheckEq(buf.Length, s.HashLen(), "buf.len()");
      if c.Fail? {
        return Err(c.error);
      }
      s.Finish(buf);
      r := Ok(buf.Length);
    }

    /** `StreamingMac::init`: a 64-byte MAC, once the key length is in 1..64. */
    method MacInit(key: seq<Byte>) returns (o: Outcome)
      requires Valid()
      modifies this
      ensures Valid() && fresh(Repr - old(Repr))
      ensures o == CheckIn(|key|, 1, 64, "key.len()")
      ensures o.Pass? ==> Model() == Some(InitMac(64, key))
      ensures o.Fail? ==> Model() == old(Model())
    {
      // Proof economy only: the steps below need just these definitions' contracts.
      hide Init, InitMac, InitKdf;
      o := CheckIn(|key|, 1, 64, "key.len()");
      if o.Fail? {
        return;
      }
      var s := B2Impl.InitMac(64, key);
      state := s;
      Repr := {this, s, s.h, s.t, s.f};
    }

    /** `StreamingVarlenMac::varlen_init`: the MAC length is checked before the key length. */
    method MacVarlenInit(macLen: nat, key: seq<Byte>) returns (o: Outcome)
      requires Valid()
      modifies this
      ensures Valid() && fresh(Repr - old(Repr))
      ensures !(1 <= macLen <= 64) ==> o == CheckIn(macLen, 1, 64, "mac_len")
      ensures 1 <= macLen <= 64 ==> o == CheckIn(|key|, 1, 64, "key.len()")
      ensures o.Pass? ==> Model() == Some(InitMac(macLen, key))
      ensures o.Fail? ==> Model() == old(Model())
    {
      // Proof economy only: the steps below need just these definitions' contracts.
      hide Init, InitMac, InitKdf;
      o := CheckIn(macLen, 1, 64, "mac_len");
      if o.Fail? {
        return;
      }
      o := CheckIn(|key|, 1, 64, "key.len()");
      if o.Fail? {
        return;
      }
      var s := B2Impl.InitMac(macLen, key);
      state := s;
      Repr := {this, s, s.h, s.t, s.f};
    }

    /** `StreamingMac::update`. */
    method MacUpdate(data: seq<Byte>) returns (o: Outcome)
      requires Valid()
      modifies Repr
      ensures Valid() && Repr == old(Repr)
      ensures old(Model()).None? ==> o == Fail(ApiMisuse(MAC_NOT_INITIALIZED)) && Model() == None
      ensures old(Model()).Some? ==> o == Pass && Model() == Some(Feed(old(Model()).value, data))
    {
      if state == null {
        return Fail(ApiMisuse(MAC_NOT_INITIALIZED));
      }
      state.Update(data);
      o := Pass;
    }

    /** `StreamingMac::finish`: as for the hash, the engine is always taken. */
    method MacFinish(buf: array<Byte>) returns (r: Result<nat>)
      requires Valid() && buf !in Repr
      modifies Repr, buf
      ensures Valid() && Model() == None && fresh(Repr - old(Repr))
      ensures old(Model()).None? ==> r == Err(ApiMisuse(MAC_NOT_INITIALIZED)) && buf[..] == old(buf[..])
      ensures old(Model()).Some? && buf.Length != old(Model()).value.hashLen ==>
        r == Err(ApiMisuse(Invalid("buf.len()"))) && buf[..] == old(buf[..])
      ensures old(Model()).Some? && buf.Length == old(Model()).value.hashLen ==>
        r == Ok(buf.Length) && buf[..] == Digest(old(Model()).value)
    {
      if state == null {
        return Err(ApiMisuse(MAC_NOT_INITIALIZED));
      }
      var s := state;
      state := null;
      Repr := {this};
      var c := CheckEq(buf.Length, s.HashLen(), "buf.len()");
      if c.Fail? {
        return Err(c.error);
      }
      s.Finish(buf);
      r := Ok(buf.Length);
    }

    /** The length field of the streaming `info` (`hash_len` for a hash,
        `mac_len` for a MAC): the engine's length when one is installed, else 64. */
    function InfoLen(): (n: nat)
      reads this, Repr
      requires Valid()
      ensures Model().None? ==> n == 64
      ensures Model().Some? ==> n == Model().value.hashLen
      ensures 1 <= n <= 64
    {
      if state == null then 64 else state.HashLen()
    }
  }
}
