# BLAKE2b engine and adapter, modelled and verified in Dafny

This project models the BLAKE2b implementation of a Rust crypto-API crate and
proves properties of it. The implementation follows RFC 7693.

The model has two parts.

- **The engine `B2Impl`** (`src/b2b_impl.rs`). It is a state machine over a
  chain value `h` (8 words), a 128-bit byte counter `t` (2 words),
  finalization flags `f` (2 words), a pending-input buffer `buf` of at most
  128 bytes, and a digest length `hash_len`. It goes through three phases:
  - construction: the parameter block is XORed into IV, and an optional key
    is absorbed as one zero-padded block;
  - absorbing: block buffering with a lazy last block and a carrying counter;
  - finalization: count the buffered bytes, set `f[0]`, zero-pad, compress
    once more, and write the digest little-endian.
- **The adapter `Blake2b`** (`src/b2b_api.rs`):
  - the `check_in!` and `check_eq!` range checks, which map bad lengths to
    an `ApiMisuse` error with a fixed message;
  - the one-shot `hash`, `varlen_hash`, `auth`, `varlen_auth` and `derive`;
  - the streaming wrapper, whose state is `Option<B2Impl>`. It becomes
    `Some` on `init` and returns to `None` on `finish`.

The files:

- `words.dfy` (`Words`): bytes and 64-bit words, and `u64` wrapping
  addition. It defines the little-endian load and store of a word and of
  word sequences, with their round trips, and the truncated serialization
  used for digests.
- `compression.dfy` (`Compression`): the pure compression function F. That
  is IV, SIGMA, G, one round, the twelve rounds, the initial working vector
  and the feed-forward. It also proves that every SIGMA row is a
  permutation, that rows 10 and 11 repeat rows 0 and 1, and that the G steps
  of a round on disjoint quadruples commute.
- `engine_spec.dfy` (`EngineSpec`): the engine state as a value `Engine`,
  and each engine operation as a function:
  - `InitKdf`, `Init` and `InitMac`;
  - `Feed` for `update`, `Flush` for the block step, `Finalize` for the
    state after `finish`, and `Digest` for its output.

  It holds the lemmas about these functions: the parameter-block layout,
  chunking invariance (through the byte-wise reference fold `Absorb`),
  buffer bounds, counter bookkeeping, and the finalization flag.
- `engine.dfy` (`EngineImpl`): the imperative engine. The class `B2Impl` has
  arrays `h`, `t` and `f` that are updated in place, and a sequence `buf`.
  Each method is proved to leave the state `Abs()` equal to the matching
  `EngineSpec` function of the old state:
  - `compress` is proved equal to F; the method changes nothing but `h`;
  - `update` uses the same `while` loop as the source;
  - `finish` writes the digest into the caller's array.
- `api.dfy` (`Api`): the adapter.
  - The checks and the one-shot pipelines are functions.
  - The streaming wrapper is a class holding a `B2Impl?`; `null` plays
    `None`. Its methods state the new optional engine through `Model()`.
  - The lemmas tie the pieces together: streaming over pieces equals the
    one-shot result on their concatenation; a MAC is the digest of the
    padded key block followed by the data; a derived key is the digest of
    the padded base key alone.

The model deviates from the source in the following ways.

- The parameter block is built as an explicit 64-byte sequence and decoded
  little-endian into eight words. The source instead writes the bytes
  through a raw-pointer view of `h`, which gives the same words only on
  little-endian hosts.
- `g` is modelled as a method that reads its four words, applies G as a
  function, and writes the four results back. The source updates `v[a]`,
  `v[b]`, `v[c]` and `v[d]` in eight in-place steps. The two agree because
  the four indices are distinct.
- Some loops of `compress` and `init_kdf` are placed in helper methods:
  `LoadWords`, `LoadWork`, `FeedForwardInPlace`, `BuildParamBlock` and
  `XorIV`.
- The block step of `update` is its own method, `FlushBlock`.
- The source's debug-mode overflow checks are not modelled. Counter
  arithmetic wraps, as it does in release builds.

## Model

| member | source | states |
|---|---|---|
| Words.WrappingAdd | src/b2b_impl.rs:5-8 | the sum is `(a + b) mod 2^64`, and it is below `b` exactly when the addition wrapped, which is the carry test the counter uses |
| Words.LoadStore | src/b2b_impl.rs:184-188 | `from_le_bytes` inverts `to_le_bytes` on every word |
| Words.StoreLoad | src/b2b_impl.rs:123-127 | `to_le_bytes` inverts `from_le_bytes` on every 8-byte string |
| Words.WordsOf | src/b2b_impl.rs:122-127 | a byte string of `8k` bytes decodes into `k` words |
| Words.WordsOfAt | src/b2b_impl.rs:123-127 | message word `i` is the little-endian decode of bytes `8i..8i+8` |
| Words.BytesOf | src/b2b_impl.rs:184-188 | `k` words serialize to `8k` bytes |
| Words.BytesOfAppend | src/b2b_impl.rs:184-188 | serialization distributes over concatenation of word sequences |
| Words.BytesOfAt | src/b2b_impl.rs:185-188 | word `i` is stored little-endian at offset `8i` |
| Words.Serialize | src/b2b_impl.rs:189 | the truncated serialization has exactly the requested length |
| Words.SerializeWordAt | src/b2b_impl.rs:185-189 | a word that fits inside the truncated output is stored whole at offset `8i` |
| Words.SerializeDecodes | src/b2b_impl.rs:185-189 | such a word decodes back from the truncated output |
| Words.WordsOfBytesOf | src/b2b_impl.rs:122-127 | decoding a serialized word sequence gives the words back |
| Words.BytesOfWordsOf | src/b2b_impl.rs:184-188 | serializing the decoded words of a byte string gives the bytes back |
| Compression.SigmaShape | src/b2b_impl.rs:11-28 | IV has 8 words; SIGMA has 12 rows of 16 indices |
| Compression.InverseGivesPermutation | src/b2b_impl.rs:15-28 | a row with a two-sided inverse on 0..15 is a permutation of 0..15 |
| Compression.SigmaRow0 | src/b2b_impl.rs:16 | SIGMA row 0 is a permutation of 0..15 |
| Compression.SigmaRow1 | src/b2b_impl.rs:17 | SIGMA row 1 is a permutation of 0..15 |
| Compression.SigmaRow2 | src/b2b_impl.rs:18 | SIGMA row 2 is a permutation of 0..15 |
| Compression.SigmaRow3 | src/b2b_impl.rs:19 | SIGMA row 3 is a permutation of 0..15 |
| Compression.SigmaRow4 | src/b2b_impl.rs:20 | SIGMA row 4 is a permutation of 0..15 |
| Compression.SigmaRow5 | src/b2b_impl.rs:21 | SIGMA row 5 is a permutation of 0..15 |
| Compression.SigmaRow6 | src/b2b_impl.rs:22 | SIGMA row 6 is a permutation of 0..15 |
| Compression.SigmaRow7 | src/b2b_impl.rs:23 | SIGMA row 7 is a permutation of 0..15 |
| Compression.SigmaRow8 | src/b2b_impl.rs:24 | SIGMA row 8 is a permutation of 0..15 |
| Compression.SigmaRow9 | src/b2b_impl.rs:25 | SIGMA row 9 is a permutation of 0..15 |
| Compression.SigmaRowsArePermutations | src/b2b_impl.rs:15-28 | every one of the 12 SIGMA rows is a permutation of 0..15, so each round reads every message word exactly once |
| Compression.SigmaRepeats | src/b2b_impl.rs:16-27 | rows 10 and 11 equal rows 0 and 1 |
| Compression.Put4 | src/b2b_impl.rs:98-108 | writing four distinct positions sets those four words and leaves the other twelve unchanged |
| Compression.Put4Commutes | src/b2b_impl.rs:110-119 | writes to disjoint quadruples commute, and a write does not change a disjoint quadruple |
| Compression.Mix | src/b2b_impl.rs:98-108 | G on positions a, b, c, d keeps the working vector at 16 words |
| Compression.MixCommutes | src/b2b_impl.rs:110-119 | G on two disjoint quadruples commutes, so the four column steps, and likewise the four diagonal steps, are order-independent |
| Compression.Round | src/b2b_impl.rs:110-119 | one round keeps the working vector at 16 words |
| Compression.Rounds | src/b2b_impl.rs:139 | any number of rounds keeps the working vector at 16 words |
| Compression.InitWork | src/b2b_impl.rs:130-136 | the initial working vector has 16 words |
| Compression.FeedForward | src/b2b_impl.rs:140 | the feed-forward yields 8 chain words |
| Compression.Compress | src/b2b_impl.rs:96-141 | F maps 8 chain words to 8 chain words |
| EngineSpec.ParamBlock | src/b2b_impl.rs:64-79 | the parameter block is 64 bytes |
| EngineSpec.ParamBlockLayout | src/b2b_impl.rs:70-78 | byte 0 is out_len, byte 1 the key length, bytes 2 and 3 are 1, the salt is at offset 32, the info at offset 48, and every other byte is 0 |
| EngineSpec.ParamWordZero | src/b2b_impl.rs:70-74 | parameter word 0 is `0x0101kknn` with the key length `kk` and out_len `nn` |
| EngineSpec.Fresh | src/b2b_impl.rs:57-82 | after the IV XOR, `t == f == [0,0]`, the buffer is empty and `hash_len == out_len` |
| EngineSpec.FreshChain | src/b2b_impl.rs:64-82 | `h[i] == LE64(p[8i..8i+8]) ^ IV[i]` for the parameter block `p` |
| EngineSpec.AddToCounter | src/b2b_impl.rs:155-156 | the low word gains `n` modulo 2^64, and the high word gains one exactly when the low word wrapped |
| EngineSpec.AddToCounterValue | src/b2b_impl.rs:155-156 | the two words, read as one 128-bit counter, gain exactly `n` modulo 2^128 |
| EngineSpec.Flush | src/b2b_impl.rs:153-161 | a full block is compressed and the buffer cleared; flags and length unchanged |
| EngineSpec.Feed | src/b2b_impl.rs:144-164 | update keeps the state valid (buffer at most 128 bytes) and never changes `f` or `hash_len` |
| EngineSpec.Push | src/b2b_impl.rs:146-161 | absorbing one byte leaves the buffer non-empty |
| EngineSpec.Absorb | src/b2b_impl.rs:144-164 | the byte-wise reference fold keeps the state valid and `f` and `hash_len` unchanged |
| EngineSpec.AbsorbAppend | src/b2b_impl.rs:144-164 | the byte-wise fold over `a ++ b` is the fold over `a` and then over `b` |
| EngineSpec.AbsorbFits | src/b2b_impl.rs:146-151 | input that fits in the buffer is only appended to it by the fold |
| EngineSpec.FeedIsAbsorb | src/b2b_impl.rs:144-164 | the chunked loop of update computes exactly the byte-wise fold |
| EngineSpec.FeedAppend | src/b2b_impl.rs:144-164 | chunking invariance: `update(a); update(b)` gives the same state as `update(a ++ b)` |
| EngineSpec.FeedFits | src/b2b_impl.rs:146-153 | input that fits in the buffer is buffered and nothing is compressed |
| EngineSpec.FeedNothing | src/b2b_impl.rs:144-146 | an update with empty input changes nothing |
| EngineSpec.SuffixAppend | src/b2b_impl.rs:149 | a buffer that is a suffix of the input so far stays one when bytes are appended to both |
| EngineSpec.SuffixTrans | src/b2b_impl.rs:149-160 | a suffix of a suffix is a suffix |
| EngineSpec.SuffixStep | src/b2b_impl.rs:146-161 | the buffer after one byte, followed by the rest of the input, yields a suffix of the old buffer followed by all the input |
| EngineSpec.PushBuffer | src/b2b_impl.rs:146-161 | after one byte the buffer holds `len(buf) mod 128 + 1` bytes, and it is a suffix of the old buffer plus the byte |
| EngineSpec.AbsorbBufferLength | src/b2b_impl.rs:146-161 | after non-empty input the buffer holds `(len(buf) + len(data) - 1) mod 128 + 1` bytes |
| EngineSpec.AbsorbBufferSuffix | src/b2b_impl.rs:146-161 | the buffer is always a suffix of the old buffer followed by the input |
| EngineSpec.FeedBuffer | src/b2b_impl.rs:146-161 | buffer bounds: after a non-empty update, `1 <= len(buf) <= 128`, with the length as above, and the buffer is the tail of the input |
| EngineSpec.PushCounter | src/b2b_impl.rs:153-161 | counter plus buffered bytes grows by one per byte |
| EngineSpec.AbsorbCounter | src/b2b_impl.rs:153-161 | counter plus buffered bytes grows by exactly the input length |
| EngineSpec.FeedCounter | src/b2b_impl.rs:153-161 | counter bookkeeping of update: `counter + len(buf)` grows by exactly `len(data)` while the total stays below 2^128 |
| EngineSpec.InitKdf | src/b2b_impl.rs:50-93 | construction yields a valid state with `f == [0,0]` and `hash_len == out_len` |
| EngineSpec.InitKdfState | src/b2b_impl.rs:84-90 | with a key, exactly the key plus zeros (128 bytes) is buffered and `t == [0,0]`; without a key, the buffer is empty; `h` is the state after the IV XOR |
| EngineSpec.KeyedInitIsPaddedKey | src/b2b_impl.rs:84-90 | the two key updates of construction equal one update with the padded key block |
| EngineSpec.Init | src/b2b_impl.rs:42-44 | an unkeyed state with empty buffer, zero counter and flags, and `h[0] == IV[0] ^ 0x01010000 ^ out_len` |
| EngineSpec.InitMac | src/b2b_impl.rs:46-48 | a keyed state: the padded key block is buffered, and `h[0] == IV[0] ^ 0x0101kknn` |
| EngineSpec.Finalize | src/b2b_impl.rs:167-182 | after finish, `f[0] == 2^64-1` (so a second finish is refused), `f[1]` is unchanged, `t` gains the buffered length with carry, and the buffer is zero-padded to 128 bytes |
| EngineSpec.FinalizeCounter | src/b2b_impl.rs:172-174 | the 128-bit counter gains exactly the buffered length |
| EngineSpec.Digest | src/b2b_impl.rs:183-189 | the digest has exactly `hash_len` bytes |
| EngineSpec.DigestWord | src/b2b_impl.rs:183-189 | every whole word of the final `h` that fits in the digest is stored little-endian at offset `8i` |
| EngineImpl.GStep | src/b2b_impl.rs:98-108 | the in-place `g` leaves `v` equal to G applied at positions a, b, c, d with message words `SIGMA[r][2i]` and `SIGMA[r][2i+1]` |
| EngineImpl.RoundInPlace | src/b2b_impl.rs:110-119 | the eight in-place steps compute one round |
| EngineImpl.LoadWords | src/b2b_impl.rs:121-127 | the new array holds the little-endian words of the bytes |
| EngineImpl.BuildParamBlock | src/b2b_impl.rs:64-79 | the new array holds exactly the parameter block |
| EngineImpl.XorIV | src/b2b_impl.rs:81-82 | every word is XORed with the matching IV word |
| EngineImpl.LoadWork | src/b2b_impl.rs:129-136 | the new working vector is `h ++ IV[0..4] ++ [IV4^t0, IV5^t1, IV6^f0, IV7^f1]` |
| EngineImpl.FeedForwardInPlace | src/b2b_impl.rs:140 | `h[i]` becomes `h[i] ^ v[i] ^ v[i+8]` |
| EngineImpl.StoreHash | src/b2b_impl.rs:183-189 | the output array receives the first `out.len()` bytes of the little-endian serialization of `h` |
| EngineImpl.B2Impl.Abs | src/b2b_impl.rs:31-39 | the state as a value is valid and carries `buf` and `hash_len` |
| EngineImpl.B2Impl.InitKdf | src/b2b_impl.rs:50-93 | the constructed engine equals `EngineSpec.InitKdf` of the arguments |
| EngineImpl.B2Impl.Init | src/b2b_impl.rs:42-44 | a new engine equal to `EngineSpec.Init(out_len)` |
| EngineImpl.B2Impl.InitMac | src/b2b_impl.rs:46-48 | a new engine equal to `EngineSpec.InitMac(out_len, key)` |
| EngineImpl.B2Impl.Compress | src/b2b_impl.rs:96-141 | only `h` changes, and it becomes F of the old `h`, the decoded buffer, `t` and `f` |
| EngineImpl.B2Impl.FlushBlock | src/b2b_impl.rs:153-161 | the block step leaves the state equal to `Flush` of the old state |
| EngineImpl.B2Impl.Update | src/b2b_impl.rs:144-164 | the loop leaves the state equal to `Feed(old state, data)` |
| EngineImpl.B2Impl.Finish | src/b2b_impl.rs:167-190 | the state becomes `Finalize(old state)` and the caller's array receives `Digest(old state)` |
| EngineImpl.B2Impl.HashLen | src/b2b_impl.rs:192-194 | reports the length fixed at construction, which is at most 64 |
| Api.CheckIn | src/b2b_api.rs:11-20 | passes exactly when `lo <= v <= hi`; below the range the error is "`v` is too small", which takes precedence over "`v` is too large" above it |
| Api.CheckEq | src/b2b_api.rs:22-28 | passes exactly when `v == e`, otherwise the error is "`v` is invalid" |
| Api.CheckInMessages | src/b2b_api.rs:11-28 | a failing range check reports one of its two messages, the messages differ, and an empty range rejects every value |
| Api.VarlenHash | src/b2b_api.rs:110-117 | succeeds exactly when `1 <= buf.len() <= 64`, otherwise fails with the range-check error for `buf.len()`; a success yields `buf.len()` bytes |
| Api.Hash | src/b2b_api.rs:100-109 | succeeds exactly when `buf.len() == 64`, otherwise fails with "`buf.len()` is invalid"; a success is the result of `varlen_hash` with 64 bytes |
| Api.VarlenAuth | src/b2b_api.rs:131-141 | succeeds exactly when both the buffer and the key length are in 1..64; the buffer length is checked first; a success yields `buf.len()` bytes |
| Api.Auth | src/b2b_api.rs:119-130 | fails with "`buf.len()` is invalid" unless the buffer is 64 bytes, and is otherwise `varlen_auth` |
| Api.Derive | src/b2b_api.rs:143-159 | succeeds exactly when buf and base key are in 1..64 and salt and info in 0..16; the checks run in the order buf, base key, salt, info, each with its own error |
| Api.MacIsPaddedKeyPrefix | src/b2b_api.rs:131-140 | a MAC is the digest of the key padded to a block followed by the data, under a parameter block that records the key length |
| Api.DeriveSucceeds | src/b2b_api.rs:148-158 | with arguments in range, the output is the engine finished straight after `init_kdf`, with no update |
| Api.DeriveIsPaddedKeyBlock | src/b2b_api.rs:148-158 | a derived key is the digest of the padded base key alone under the salted and personalized parameter block |
| Api.DeriveIsMacOfNothing | src/b2b_api.rs:131-158 | without salt and info, `derive` succeeds exactly when `varlen_auth` of the empty message does, with the same output |
| Api.FeedAll | src/b2b_api.rs:172-177 | successive updates keep the engine valid and its flags and length unchanged |
| Api.FeedAllConcat | src/b2b_impl.rs:144-164 | any number of successive updates equals one update with the concatenated pieces |
| Api.ConcatAppend | src/b2b_api.rs:172-177 | the input stream of two batches of updates is the first batch's pieces followed by the second's |
| Api.FeedAllAppend | src/b2b_api.rs:172-177 | two batches of streaming updates in a row equal one batch of all their pieces, in order |
| Api.StreamingHashIsOneShot | src/b2b_api.rs:161-194 | a streaming hash fed any pieces equals the one-shot `varlen_hash` of their concatenation |
| Api.StreamingMacIsOneShot | src/b2b_api.rs:196-231 | a streaming MAC fed any pieces equals the one-shot `varlen_auth` of their concatenation |
| Api.Blake2b.Model | src/b2b_api.rs:32 | an installed engine is valid and unfinished, with a length in 1..64 |
| Api.Blake2b.constructor | src/b2b_api.rs:35-37 | a new instance holds no engine |
| Api.Blake2b.HashInit | src/b2b_api.rs:168-171 | always succeeds and installs a fresh 64-byte unkeyed engine, replacing any previous one |
| Api.Blake2b.HashVarlenInit | src/b2b_api.rs:188-193 | the result is the range check of `hash_len`; on success a fresh engine of that length is installed, and on failure the instance is unchanged |
| Api.Blake2b.HashUpdate | src/b2b_api.rs:172-177 | without an engine it fails with "The hash is not initialized" and changes nothing; otherwise the engine absorbs the input |
| Api.Blake2b.HashFinish | src/b2b_api.rs:178-185 | the instance holds no engine afterwards in every case; without an engine it fails with "The hash is not initialized"; with a wrong buffer length it fails with "`buf.len()` is invalid" and leaves the buffer alone; otherwise it writes the digest and returns its length |
| Api.Blake2b.MacInit | src/b2b_api.rs:203-208 | the result is the range check of the key length; on success a fresh 64-byte keyed engine is installed, and on failure the instance is unchanged |
| Api.Blake2b.MacVarlenInit | src/b2b_api.rs:225-230 | `mac_len` is checked before the key length; on success a keyed engine of that length is installed, and on failure the instance is unchanged |
| Api.Blake2b.MacUpdate | src/b2b_api.rs:209-214 | without an engine it fails with "The MAC is not initialized" and changes nothing; otherwise the engine absorbs the data |
| Api.Blake2b.MacFinish | src/b2b_api.rs:215-222 | as for the hash, the engine is always consumed, and the errors say "The MAC is not initialized" or "`buf.len()` is invalid" |
| Api.Blake2b.InfoLen | src/b2b_api.rs:161-166 | the reported length is the installed engine's length, or 64 without one, and always lies in 1..64 |

## Left out

- `SecKeyGen::new_sec_key` calls an injected random number generator, which is a foreign call.
- The `crypto_api` traits, the `Box<dyn …>` constructors except `Self(None)` itself, and the `HashInfo`, `MacInfo` and `KdfInfo` records are foreign types or descriptive data. Of the streaming `info`, only the reported length is modelled (`Api.Blake2b.InfoLen`).
- The `Display` and `Error` impls of the error type in `src/lib.rs` are not modelled. The error is one `ApiMisuse(string)` kind.
- The fatal `assert!`s of `init_kdf` and `finish` are preconditions of the model (`requires`), not error results. They panic in the source.
- EngineSpec.AddToCounter: `t[1] += 1` is modelled as wrapping. In a debug build it panics on overflow at 2^128 bytes, which is unreachable in practice. The counter lemmas require the total to stay below 2^128.
- EngineImpl.B2Impl.Finish: requires that the output array is not the counter array `t`. Rust's borrow rules guarantee this.
- Api.Blake2b.HashFinish, Api.Blake2b.MacFinish: require that the caller's buffer is not part of the engine, which Rust's borrow rules guarantee.
- The in-place `g` is modelled as four reads, G as a function, and four writes, not as eight separate in-place updates of `v`.
- Tree mode, the last-node flag `f[1]`, and constant-time behaviour are not features of the code.
- No known-answer digests are checked. The test vector files are not part of this model.
- Slices: input slices are `seq<Byte>`. The streaming finish writes into the caller's buffer, an `array<Byte>`.
- Api.VarlenHash, Api.Hash, Api.VarlenAuth, Api.Auth, Api.Derive: return the digest inside `Ok` instead of writing it through the caller's slice, whose length is passed as `bufLen`. The success value the source returns, `buf.len()` for hash and auth (src/b2b_api.rs:114-115, 138-139) and `()` for derive (src/b2b_api.rs:156-157), is not part of the result.
