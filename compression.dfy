/** The BLAKE2b compression function F as pure functions (RFC 7693,
    sections 2.6, 2.7, 3.1 and 3.2): the constants IV and SIGMA, the mixing
    function G, one round, the twelve rounds and the feed-forward. */
module Compression {
  import opened Words

  /** An index into the 16-word working vector or message block. */
  type Index16 = i: nat | i < 16

  const ROUNDS: nat := 12

  /** The initialization vector (RFC 7693, section 2.6). */
  const IV: seq<Word> := [
    0x6a09e667f3bcc908, 0xbb67ae8584caa73b, 0x3c6ef372fe94f82b, 0xa54ff53a5f1d36f1,
    0x510e527fade682d1, 0x9b05688c2b3e6c1f, 0x1f83d9abfb41bd6b, 0x5be0cd19137e2179
  ]

  /** The message schedule (RFC 7693, section 2.7). */
  const SIGMA: seq<seq<Index16>> := [
    [ 0,  1,  2,  3,  4,  5,  6,  7,  8,  9, 10, 11, 12, 13, 14, 15],
    [14, 10,  4,  8,  9, 15, 13,  6,  1, 12,  0,  2, 11,  7,  5,  3],
    [11,  8, 12,  0,  5,  2, 15, 13, 10, 14,  3,  6,  7,  1,  9,  4],
    [ 7,  9,  3,  1, 13, 12, 11, 14,  2,  6,  5, 10,  4,  0, 15,  8],
    [ 9,  0,  5,  7,  2,  4, 10, 15, 14,  1, 11, 12,  6,  8,  3, 13],
    [ 2, 12,  6, 10,  0, 11,  8,  3,  4, 13,  7,  5, 15, 14,  1,  9],
    [12,  5,  1, 15, 14, 13,  4, 10,  0,  7,  6,  3,  9,  2,  8, 11],
    [13, 11,  7, 14, 12,  1,  3,  9,  5,  0, 15,  4,  8,  6,  2, 10],
    [ 6, 15, 14,  9, 11,  3,  0,  8, 12,  2, 13,  7,  1,  4, 10,  5],
    [10,  2,  8,  4,  7,  6,  1,  5, 15, 11,  9, 14,  3, 12, 13,  0],
    [ 0,  1,  2,  3,  4,  5,  6,  7,  8,  9, 10, 11, 12, 13, 14, 15],
    [14, 10,  4,  8,  9, 15, 13,  6,  1, 12,  0,  2, 11,  7,  5,  3]
  ]

  lemma SigmaShape()
    ensures |IV| == 8 && |SIGMA| == ROUNDS
    ensures forall r :: 0 <= r < ROUNDS ==> |SIGMA[r]| == 16
  {
  }

  /** `inv` undoes `s` at position i, and `s` undoes `inv` there. */
  predicate InvertsAt(s: seq<Index16>, inv: seq<Index16>, i: Index16)
    requires |s| == 16 && |inv| == 16
  {
    inv[s[i]] == i && s[inv[i]] == i
  }

  /** `inv` undoes `s` on both sides, so `s` is a bijection on 0..15
      (spelled out position by position, so that a literal row is checked
      by evaluation). */
  predicate Inverts(s: seq<Index16>, inv: seq<Index16>)
    requires |s| == 16 && |inv| == 16
  {
    InvertsAt(s, inv, 0) && InvertsAt(s, inv, 1) && InvertsAt(s, inv, 2) && InvertsAt(s, inv, 3) &&
    InvertsAt(s, inv, 4) && InvertsAt(s, inv, 5) && InvertsAt(s, inv, 6) && InvertsAt(s, inv, 7) &&
    InvertsAt(s, inv, 8) && InvertsAt(s, inv, 9) && InvertsAt(s, inv, 10) && InvertsAt(s, inv, 11) &&
    InvertsAt(s, inv, 12) && InvertsAt(s, inv, 13) && InvertsAt(s, inv, 14) && InvertsAt(s, inv, 15)
  }

  /** A row of the schedule selects every message word exactly once. */
  predicate IsPermutation(s: seq<Index16>)
  {
    && |s| == 16
    && (forall i, j :: 0 <= i < j < 16 ==> s[i] != s[j])
    && (forall k: Index16 :: k in s)
  }

  lemma InverseGivesPermutation(s: seq<Index16>, inv: seq<Index16>)
    requires |s| == 16 && |inv| == 16 && Inverts(s, inv)
    ensures IsPermutation(s)
  {
    forall i: Index16 ensures InvertsAt(s, inv, i) {
      assert i == 0 || i == 1 || i == 2 || i == 3 || i == 4 || i == 5 || i == 6 || i == 7 ||
             i == 8 || i == 9 || i == 10 || i == 11 || i == 12 || i == 13 || i == 14 || i == 15;
    }
    forall k: Index16 ensures k in s {
      assert s[inv[k]] == k;
    }
  }

  /** Each of the ten distinct rows, with its inverse as the witness. */
  lemma SigmaRow0()
    ensures IsPermutation(SIGMA[0])
  {
    InverseGivesPermutation(SIGMA[0], [0, 1, 2, 3, 4, 5, 6, 7, 8, 9, 10, 11, 12, 13, 14, 15]);
  }

  lemma SigmaRow1()
    ensures IsPermutation(SIGMA[1])
  {
    InverseGivesPermutation(SIGMA[1], [10, 8, 11, 15, 2, 14, 7, 13, 3, 4, 1, 12, 9, 6, 0, 5]);
  }

  lemma SigmaRow2()
    ensures IsPermutation(SIGMA[2])
  {
    InverseGivesPermutation(SIGMA[2], [3, 13, 5, 10, 15, 4, 11, 12, 1, 14, 8, 0, 2, 7, 9, 6]);
  }

  lemma SigmaRow3()
    ensures IsPermutation(SIGMA[3])
  {
    InverseGivesPermutation(SIGMA[3], [13, 3, 8, 2, 12, 10, 9, 0, 15, 1, 11, 6, 5, 4, 7, 14]);
  }

  lemma SigmaRow4()
    ensures IsPermutation(SIGMA[4])
  {
    InverseGivesPermutation(SIGMA[4], [1, 9, 4, 14, 5, 2, 12, 3, 13, 0, 6, 10, 11, 15, 8, 7]);
  }

  lemma SigmaRow5()
    ensures IsPermutation(SIGMA[5])
  {
    InverseGivesPermutation(SIGMA[5], [4, 14, 0, 7, 8, 11, 2, 10, 6, 15, 3, 5, 1, 9, 13, 12]);
  }

  lemma SigmaRow6()
    ensures IsPermutation(SIGMA[6])
  {
    InverseGivesPermutation(SIGMA[6], [8, 2, 13, 11, 6, 1, 10, 9, 14, 12, 7, 15, 0, 5, 4, 3]);
  }

  lemma SigmaRow7()
    ensures IsPermutation(SIGMA[7])
  {
    InverseGivesPermutation(SIGMA[7], [9, 5, 14, 6, 11, 8, 13, 2, 12, 7, 15, 1, 4, 0, 3, 10]);
  }

  lemma SigmaRow8()
    ensures IsPermutation(SIGMA[8])
  {
    InverseGivesPermutation(SIGMA[8], [6, 12, 9, 5, 13, 15, 0, 11, 7, 3, 14, 4, 8, 10, 2, 1]);
  }

  lemma SigmaRow9()
    ensures IsPermutation(SIGMA[9])
  {
    InverseGivesPermutation(SIGMA[9], [15, 6, 1, 12, 3, 7, 5, 4, 2, 10, 0, 9, 13, 14, 11, 8]);
  }

  /** Every row of SIGMA is a permutation of 0..15. */
  lemma SigmaRowsArePermutations(r: nat)
    requires r < ROUNDS
    ensures IsPermutation(SIGMA[r])
  {
    if r == 0 || r == 10 { SigmaRow0(); }
    else if r == 1 || r == 11 { SigmaRow1(); }
    else if r == 2 { SigmaRow2(); }
    else if r == 3 { SigmaRow3(); }
    else if r == 4 { SigmaRow4(); }
    else if r == 5 { SigmaRow5(); }
    else if r == 6 { SigmaRow6(); }
    else if r == 7 { SigmaRow7(); }
    else if r == 8 { SigmaRow8(); }
    else { SigmaRow9(); }
  }

  /** Rounds 10 and 11 reuse the schedule of rounds 0 and 1. */
  lemma SigmaRepeats()
    ensures SIGMA[10] == SIGMA[0] && SIGMA[11] == SIGMA[1]
  {
  }

  /** Four words of the working vector. */
  datatype Quad = Quad(a: Word, b: Word, c: Word, d: Word)

  /** The mixing function G (RFC 7693, section 3.1) on the words it mixes. */
  function G(q: Quad, x: Word, y: Word): Quad
  {
    var a := q.a + q.b + x;
    var d := (q.d ^ a).RotateRight(32);
    var c := q.c + d;
    var b := (q.b ^ c).RotateRight(24);
    var a := a + b + y;
    var d := (d ^ a).RotateRight(16);
    var c := c + d;
    var b := (b ^ c).RotateRight(63);
    Quad(a, b, c, d)
  }

  predicate Distinct4(a: Index16, b: Index16, c: Index16, d: Index16)
  {
    a != b && a != c && a != d && b != c && b != d && c != d
  }

  /** The four words at positions a, b, c, d. */
  function Get4(v: seq<Word>, a: Index16, b: Index16, c: Index16, d: Index16): Quad
    requires |v| == 16
  {
    Quad(v[a], v[b], v[c], v[d])
  }

  /** v with the four words of q written to positions a, b, c, d. */
  function Put4(v: seq<Word>, a: Index16, b: Index16, c: Index16, d: Index16, q: Quad): (w: seq<Word>)
    requires |v| == 16 && Distinct4(a, b, c, d)
    ensures |w| == 16 && Get4(w, a, b, c, d) == q
    ensures forall k :: 0 <= k < 16 && k != a && k != b && k != c && k != d ==> w[k] == v[k]
  {
    v[a := q.a][b := q.b][c := q.c][d := q.d]
  }

  /** Writes to disjoint positions commute. */
  lemma Put4Commutes(v: seq<Word>, a: Index16, b: Index16, c: Index16, d: Index16, q: Quad,
                     a': Index16, b': Index16, c': Index16, d': Index16, q': Quad)
    requires |v| == 16 && Distinct4(a, b, c, d) && Distinct4(a', b', c', d')
    requires a' !in {a, b, c, d} && b' !in {a, b, c, d} && c' !in {a, b, c, d} && d' !in {a, b, c, d}
    ensures Get4(Put4(v, a, b, c, d, q), a', b', c', d') == Get4(v, a', b', c', d')
    ensures Put4(Put4(v, a, b, c, d, q), a', b', c', d', q') == Put4(Put4(v, a', b', c', d', q'), a, b, c, d, q)
  {
    var l := Put4(Put4(v, a, b, c, d, q), a', b', c', d', q');
    var r := Put4(Put4(v, a', b', c', d', q'), a, b, c, d, q);
    assert forall k :: 0 <= k < 16 ==> l[k] == r[k];
  }

  /** G applied to the words at positions a, b, c, d of the working vector. */
  function Mix(v: seq<Word>, a: Index16, b: Index16, c: Index16, d: Index16, x: Word, y: Word): (w: seq<Word>)
    requires |v| == 16 && Distinct4(a, b, c, d)
    ensures |w| == 16
  {
    Put4(v, a, b, c, d, G(Get4(v, a, b, c, d), x, y))
  }

  /** G on two disjoint quadruples commutes: the four column steps (and the
      four diagonal steps) of a round are independent of each other. */
  lemma MixCommutes(v: seq<Word>, a: Index16, b: Index16, c: Index16, d: Index16, x: Word, y: Word,
                    a': Index16, b': Index16, c': Index16, d': Index16, x': Word, y': Word)
    requires |v| == 16 && Distinct4(a, b, c, d) && Distinct4(a', b', c', d')
    requires a' !in {a, b, c, d} && b' !in {a, b, c, d} && c' !in {a, b, c, d} && d' !in {a, b, c, d}
    ensures Mix(Mix(v, a, b, c, d, x, y), a', b', c', d', x', y')
         == Mix(Mix(v, a', b', c', d', x', y'), a, b, c, d, x, y)
  {
    // Proof economy only: the steps below need just these definitions' contracts.
    hide G;
    var q := G(Get4(v, a, b, c, d), x, y);
    var q' := G(Get4(v, a', b', c', d'), x', y');
    Put4Commutes(v, a, b, c, d, q, a', b', c', d', q');
    Put4Commutes(v, a', b', c', d', q', a, b, c, d, q);
  }

  /** One round (RFC 7693, section 3.2): G on the four columns, then on the four diagonals. */
  function Round(v: seq<Word>, m: seq<Word>, r: nat): (w: seq<Word>)
    requires |v| == 16 && |m| == 16 && r < ROUNDS
    ensures |w| == 16
  {
    SigmaShape();
    // Proof economy only: the steps below need just these definitions' contracts.
    hide Mix;
    var s := SIGMA[r];
    var v := Mix(v, 0, 4,  8, 12, m[s[0]],  m[s[1]]);
    var v := Mix(v, 1, 5,  9, 13, m[s[2]],  m[s[3]]);
    var v := Mix(v, 2, 6, 10, 14, m[s[4]],  m[s[5]]);
    var v := Mix(v, 3, 7, 11, 15, m[s[6]],  m[s[7]]);
    var v := Mix(v, 0, 5, 10, 15, m[s[8]],  m[s[9]]);
    var v := Mix(v, 1, 6, 11, 12, m[s[10]], m[s[11]]);
    var v := Mix(v, 2, 7,  8, 13, m[s[12]], m[s[13]]);
    Mix(v, 3, 4,  9, 14, m[s[14]], m[s[15]])
  }

  /** The first n rounds. */
  function Rounds(v: seq<Word>, m: seq<Word>, n: nat): (w: seq<Word>)
    requires |v| == 16 && |m| == 16 && n <= ROUNDS
    ensures |w| == 16
  {
    if n == 0 then v else Round(Rounds(v, m, n - 1), m, n - 1)
  }

  /** The working vector before the first round: the chain value, the first
      half of IV, and the second half of IV masked by the counter and the flags. */
  function InitWork(h: seq<Word>, t: seq<U64>, f: seq<Word>): (v: seq<Word>)
    requires |h| == 8 && |t| == 2 && |f| == 2
    ensures |v| == 16
  {
    h + IV[..4] + [Xor(IV[4], ToWord(t[0])), Xor(IV[5], ToWord(t[1])), Xor(IV[6], f[0]), Xor(IV[7], f[1])]
  }

  /** The new chain value h[i] ^ v[i] ^ v[i + 8]. */
  function FeedForward(h: seq<Word>, v: seq<Word>): (h': seq<Word>)
    requires |h| == 8 && |v| == 16
    ensures |h'| == 8
  {
    seq(8, i requires 0 <= i < 8 => Xor(Xor(h[i], v[i]), v[i + 8]))
  }

  /** The compression function F. */
  function Compress(h: seq<Word>, m: seq<Word>, t: seq<U64>, f: seq<Word>): (h': seq<Word>)
    requires |h| == 8 && |m| == 16 && |t| == 2 && |f| == 2
    ensures |h'| == 8
  {
    FeedForward(h, Rounds(InitWork(h, t, f), m, ROUNDS))
  }
}
