/** Machine words of the BLAKE2b engine: bytes, 64-bit words, and the
    little-endian conversions between them (RFC 7693, section 2.4). */
module Words {

  type Byte = bv8
  type Word = bv64

  const TWO_64: int := 0x1_0000_0000_0000_0000
  const MAX_WORD: Word := 0xFFFF_FFFF_FFFF_FFFF

  /** An unsigned 64-bit integer used as arithmetic (the byte counter words). */
  newtype U64 = x: int | 0 <= x < 0x1_0000_0000_0000_0000

  /** `u64::wrapping_add`. */
  function WrappingAdd(a: U64, b: U64): (r: U64)
    ensures r as int == (a as int + b as int) % TWO_64
    ensures r < b <==> a as int + b as int >= TWO_64
  {
    if a as int + b as int < TWO_64 then a + b else (a as int + b as int - TWO_64) as U64
  }

  /** Bitwise exclusive or of two words, the source's `^`. The name has no
      source counterpart: it lets a proof hide the bit-level definition
      (`hide Xor`) and treat words as opaque values. */
  function Xor(a: Word, b: Word): Word
  {
    a ^ b
  }

  /** The same value as a bit-vector, for XORing into the working vector.
      A named wrapper, with no source counterpart, so that proofs can hide
      the integer-to-bit-vector conversion (`hide ToWord`). */
  function ToWord(x: U64): Word
  {
    x as int as bv64
  }

  function Zeros(n: nat): (z: seq<Byte>)
    ensures |z| == n && forall i :: 0 <= i < n ==> z[i] == 0
  {
    seq(n, _ => 0)
  }

  /** `u64::from_le_bytes`. */
  function LoadWord(s: seq<Byte>): Word
    requires |s| == 8
  {
    (s[0] as bv64) | ((s[1] as bv64) << 8) | ((s[2] as bv64) << 16) | ((s[3] as bv64) << 24) |
    ((s[4] as bv64) << 32) | ((s[5] as bv64) << 40) | ((s[6] as bv64) << 48) | ((s[7] as bv64) << 56)
  }

  /** `u64::to_le_bytes`. */
  function StoreWord(w: Word): (s: seq<Byte>)
    ensures |s| == 8
  {
    [(w & 0xFF) as bv8, ((w >> 8) & 0xFF) as bv8, ((w >> 16) & 0xFF) as bv8, ((w >> 24) & 0xFF) as bv8,
     ((w >> 32) & 0xFF) as bv8, ((w >> 40) & 0xFF) as bv8, ((w >> 48) & 0xFF) as bv8, ((w >> 56) & 0xFF) as bv8]
  }

  lemma LoadStore(w: Word)
    ensures LoadWord(StoreWord(w)) == w
  {
  }

  lemma StoreLoad(s: seq<Byte>)
    requires |s| == 8
    ensures StoreWord(LoadWord(s)) == s
  {
  }

  /** The words of a byte string whose length is a multiple of 8, read little-endian. */
  function WordsOf(bs: seq<Byte>): (ws: seq<Word>)
    requires |bs| % 8 == 0
    ensures |ws| * 8 == |bs|
  {
    if bs == [] then [] else [LoadWord(bs[..8])] + WordsOf(bs[8..])
  }

  /** The little-endian serialization of a word sequence. */
  function BytesOf(ws: seq<Word>): (bs: seq<Byte>)
    ensures |bs| == 8 * |ws|
  {
    if ws == [] then [] else StoreWord(ws[0]) + BytesOf(ws[1..])
  }

  lemma {:induction false} WordsOfAt(bs: seq<Byte>, i: nat)
    requires |bs| % 8 == 0 && i < |bs| / 8
    ensures 8 * i + 8 <= |bs|
    ensures WordsOf(bs)[i] == LoadWord(bs[8 * i .. 8 * i + 8])
  {
    if i > 0 {
      WordsOfAt(bs[8..], i - 1);
      assert bs[8..][8 * (i - 1) .. 8 * (i - 1) + 8] == bs[8 * i .. 8 * i + 8];
    }
  }

  lemma {:induction false} BytesOfAppend(a: seq<Word>, b: seq<Word>)
    ensures BytesOf(a + b) == BytesOf(a) + BytesOf(b)
  {
    if a == [] {
      assert a + b == b;
    } else {
      assert (a + b)[1..] == a[1..] + b;
      BytesOfAppend(a[1..], b);
    }
  }

  lemma {:induction false} BytesOfAt(ws: seq<Word>, i: nat)
    requires i < |ws|
    ensures BytesOf(ws)[8 * i .. 8 * i + 8] == StoreWord(ws[i])
  {
    if i > 0 {
      BytesOfAt(ws[1..], i - 1);
    }
  }

  /** The first n bytes of the serialization (a truncated digest). */
  function Serialize(ws: seq<Word>, n: nat): (bs: seq<Byte>)
    requires n <= 8 * |ws|
    ensures |bs| == n
  {
    BytesOf(ws)[..n]
  }

  /** A word that fits entirely within the first n bytes is stored at offset 8 * i. */
  lemma SerializeWordAt(ws: seq<Word>, n: nat, i: nat)
    requires 8 * i + 8 <= n <= 8 * |ws|
    ensures Serialize(ws, n)[8 * i .. 8 * i + 8] == StoreWord(ws[i])
  {
    BytesOfAt(ws, i);
    assert Serialize(ws, n)[8 * i .. 8 * i + 8] == BytesOf(ws)[8 * i .. 8 * i + 8];
  }

  /** Such a word decodes back from the truncated serialization. */
  lemma SerializeDecodes(ws: seq<Word>, n: nat, i: nat)
    requires 8 * i + 8 <= n <= 8 * |ws|
    ensures LoadWord(Serialize(ws, n)[8 * i .. 8 * i + 8]) == ws[i]
  {
    SerializeWordAt(ws, n, i);
    LoadStore(ws[i]);
  }

  /** Decoding the serialization of a word sequence gives the words back. */
  lemma {:induction false} WordsOfBytesOf(ws: seq<Word>)
    ensures WordsOf(BytesOf(ws)) == ws
  {
    if ws != [] {
      var bs := BytesOf(ws);
      assert bs[..8] == StoreWord(ws[0]);
      assert bs[8..] == BytesOf(ws[1..]);
      LoadStore(ws[0]);
      WordsOfBytesOf(ws[1..]);
    }
  }

  /** Serializing the decoded words of a byte string gives the bytes back. */
  lemma {:induction false} BytesOfWordsOf(bs: seq<Byte>)
    requires |bs| % 8 == 0
    ensures BytesOf(WordsOf(bs)) == bs
  {
    if bs != [] {
      var ws := WordsOf(bs);
      assert ws[0] == LoadWord(bs[..8]);
      assert ws[1..] == WordsOf(bs[8..]);
      StoreLoad(bs[..8]);
      BytesOfWordsOf(bs[8..]);
      assert bs == bs[..8] + bs[8..];
    }
  }
}
