/**
 The 256-bit stream table of a connection: four 64-bit words, read as the set of
 stream ids whose bit is set.
 */
module Bitmap {
  import opened Packets

  /** One word of the table.  A subset type rather than a synonym, because the verifier tells an
      array of it apart from an array of connections, which it does not for a plain `bv64`. */
  type Word = w: bv64 | true

  const ALL_ONES: bv64 := 0xFFFF_FFFF_FFFF_FFFF

  /** A shift count below 64, as a machine word. */
  function Shift(k: nat): (b: bv64)
    requires k < 64
    ensures b < 64 && b as nat == k
  {
    if k == 0 then 0 else Shift(k - 1) + 1
  }

  /** The word with only bit `k` set. */
  function Mask(k: nat): bv64
    requires k < 64
  {
    1 << Shift(k)
  }

  predicate Hit(w: bv64, m: bv64) {
    w & m != 0
  }

  predicate Bit(w: bv64, k: nat)
    requires k < 64
  {
    Hit(w, Mask(k))
  }

  /** The word with bit `k` set as well. */
  function SetIn(w: bv64, k: nat): bv64
    requires k < 64
  {
    w | Mask(k)
  }

  /** The word with bit `k` cleared. */
  function ClearIn(w: bv64, k: nat): bv64
    requires k < 64
  {
    w & !Mask(k)
  }

  ghost function Ids(words: seq<Word>): (ids: set<byte>)
    requires |words| == 4
  {
    set i: byte | 0 <= i < 256 && Bit(words[i / 64], i % 64)
  }

  // ----- Single bits

  lemma Masks(i: nat, j: nat)
    requires i < 64 && j < 64
    ensures Hit(Mask(i), Mask(j)) <==> i == j
  {
  }

  lemma OrZero(x: bv64, y: bv64)
    ensures x | y != 0 <==> x != 0 || y != 0
  {
  }

  lemma Distribute(w: bv64, m: bv64, n: bv64)
    ensures (w | m) & n == (w & n) | (m & n)
    ensures m & n == 0 ==> (w & !m) & n == w & n
    ensures (w & !m) & m == 0
  {
  }

  lemma HitOr(w: bv64, m: bv64, n: bv64)
    ensures Hit(w | m, n) <==> Hit(w, n) || Hit(m, n)
  {
    Distribute(w, m, n);
    OrZero(w & n, m & n);
  }

  lemma HitAndNot(w: bv64, m: bv64, n: bv64)
    ensures !Hit(m, n) ==> (Hit(w & !m, n) <==> Hit(w, n))
    ensures !Hit(w & !m, m)
  {
    Distribute(w, m, n);
  }

  lemma HitNot(w: bv64, i: bv64)
    requires i < 64
    ensures Hit(!w, 1 << i) <==> !Hit(w, 1 << i)
  {
  }

  lemma BitSet(w: bv64, i: nat, j: nat)
    requires i < 64 && j < 64
    ensures Bit(SetIn(w, i), j) == (i == j || Bit(w, j))
  {
    hide Hit, Mask;
    Masks(i, j);
    HitOr(w, Mask(i), Mask(j));
  }

  lemma BitCleared(w: bv64, i: nat, j: nat)
    requires i < 64 && j < 64
    ensures Bit(ClearIn(w, i), j) == (i != j && Bit(w, j))
  {
    hide Hit, Mask;
    Masks(i, j);
    HitAndNot(w, Mask(i), Mask(j));
  }

  lemma BitFlipped(w: bv64, k: nat)
    requires k < 64
    ensures Bit(!w, k) == !Bit(w, k)
  {
    hide Hit, Shift;
    HitNot(w, Shift(k));
  }

  // ----- The first clear bit

  /** Some bit from `k` on is set. */
  predicate AnyFrom(v: bv64, k: nat)
    requires k < 64
  {
    Shifted(v, Shift(k))
  }

  predicate Shifted(v: bv64, b: bv64)
    requires b < 64
  {
    v >> b != 0
  }

  lemma SkipZero(v: bv64, b: bv64)
    requires b < 64 && Shifted(v, b) && !Hit(v, 1 << b)
    ensures b < 63 && Shifted(v, b + 1)
  {
  }

  lemma SkipBit(v: bv64, k: nat)
    requires k < 64 && AnyFrom(v, k) && !Bit(v, k)
    ensures k < 63 && AnyFrom(v, k + 1)
  {
    hide Hit, Shifted;
    SkipZero(v, Shift(k));
  }

  /** The count of trailing zeros (the compiler builtin), from bit `k` on. */
  function TrailingZeros(v: bv64, k: nat): (z: nat)
    requires k < 64 && AnyFrom(v, k)
    decreases 64 - k
  {
    if Bit(v, k) then k
    else
      SkipBit(v, k);
      TrailingZeros(v, k + 1)
  }

  lemma {:induction false} LeastSet(v: bv64, k: nat)
    requires k < 64 && AnyFrom(v, k)
    ensures var z := TrailingZeros(v, k);
      k <= z < 64 && Bit(v, z) && forall j: nat :: k <= j < z ==> !Bit(v, j)
    decreases 64 - k
  {
    hide Bit, AnyFrom;
    if !Bit(v, k) {
      SkipBit(v, k);
      LeastSet(v, k + 1);
    }
  }

  /** The first clear bit of a word that is not all ones. */
  function FirstClear(w: bv64): (k: nat)
    requires w != ALL_ONES
    ensures k < 64 && !Bit(w, k)
    ensures forall j: nat :: j < k ==> Bit(w, j)
  {
    hide *;
    NotAllOnes(w);
    BitsFlipped(w);
    LeastSet(!w, 0);
    TrailingZeros(!w, 0)
  }

  lemma NotAllOnes(w: bv64)
    requires w != ALL_ONES
    ensures AnyFrom(!w, 0)
  {
  }

  lemma BitsFlipped(w: bv64)
    ensures forall k: nat :: k < 64 ==> Bit(!w, k) == !Bit(w, k)
  {
    forall k: nat | k < 64 ensures Bit(!w, k) == !Bit(w, k) {
      BitFlipped(w, k);
    }
  }

  // ----- The set of ids

  lemma IdsAdd(words: seq<Word>, word: nat, k: nat)
    requires |words| == 4 && word < 4 && k < 64
    ensures Ids(words[word := SetIn(words[word], k)]) == Ids(words) + {64 * word + k}
  {
    hide Bit, SetIn, ClearIn;
    var after := words[word := SetIn(words[word], k)];
    forall i: byte ensures i in Ids(after) <==> i in Ids(words) || i == 64 * word + k {
      BitSet(words[word], k, i % 64);
    }
  }

  lemma IdsRemove(words: seq<Word>, word: nat, k: nat)
    requires |words| == 4 && word < 4 && k < 64
    ensures Ids(words[word := ClearIn(words[word], k)]) == Ids(words) - {64 * word + k}
  {
    hide Bit, SetIn, ClearIn;
    var after := words[word := ClearIn(words[word], k)];
    forall i: byte ensures i in Ids(after) <==> i in Ids(words) && i != 64 * word + k {
      BitCleared(words[word], k, i % 64);
    }
  }

  lemma IdsEmpty()
    ensures Ids([0, 0, 0, 0]) == {}
  {
  }

  /** The first clear bit of the first word that has one is the least id not in the set. */
  lemma FoundLeast(words: seq<Word>, word: nat, k: nat)
    requires |words| == 4 && word < 4 && k < 64
    requires forall i: byte :: i < 64 * word ==> i in Ids(words)
    requires !Bit(words[word], k)
    requires forall j: nat :: j < k ==> Bit(words[word], j)
    ensures 64 * word + k !in Ids(words)
    ensures forall i: byte :: i < 64 * word + k ==> i in Ids(words)
  {
    hide Bit;
    forall i: byte | i < 64 * word + k ensures i in Ids(words) {
      if i >= 64 * word {
        assert Bit(words[word], i - 64 * word);
      }
    }
  }

  lemma FullWord(words: seq<Word>, word: nat)
    requires |words| == 4 && word < 4 && words[word] == ALL_ONES
    ensures forall i: byte :: 64 * word <= i < 64 * word + 64 ==> i in Ids(words)
  {
  }
}
