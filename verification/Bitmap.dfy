/** The slot allocator over a bitmap of 64-bit words. */
module Bitmap {
  import opened Counting
  import opened Powers
  import opened Sizes

  type Word = x: int | 0 <= x < 0x1_0000_0000_0000_0000

  // ----- bits of a word -----

  predicate Bit(v: nat, i: nat) {
    if i == 0 then v % 2 == 1 else Bit(v / 2, i - 1)
  }

  /** v | (1 << j) */
  function SetBit(v: nat, j: nat): nat {
    if j == 0 then v / 2 * 2 + 1 else SetBit(v / 2, j - 1) * 2 + v % 2
  }

  /** v ^ (1 << j) */
  function FlipBit(v: nat, j: nat): nat {
    if j == 0 then v / 2 * 2 + (1 - v % 2) else FlipBit(v / 2, j - 1) * 2 + v % 2
  }

  /** The position of the lowest set bit of a non-zero word: __builtin_ffsl(v) - 1. */
  function LowestSet(v: nat): nat
    requires v > 0
  {
    if v % 2 == 1 then 0 else 1 + LowestSet(v / 2)
  }

  lemma Halves(w: nat, b: nat)
    requires b < 2
    ensures (w * 2 + b) / 2 == w && (w * 2 + b) % 2 == b
  {
  }

  lemma {:induction false} SetBitBits(v: nat, j: nat, i: nat)
    ensures Bit(SetBit(v, j), i) <==> i == j || Bit(v, i)
  {
    if j == 0 {
      Halves(v / 2, 1);
    } else {
      Halves(SetBit(v / 2, j - 1), v % 2);
      if i > 0 {
        SetBitBits(v / 2, j - 1, i - 1);
      }
    }
  }

  lemma {:induction false} FlipBitBits(v: nat, j: nat, i: nat)
    ensures Bit(FlipBit(v, j), i) <==> Bit(v, i) != (i == j)
  {
    if j == 0 {
      Halves(v / 2, 1 - v % 2);
    } else {
      Halves(FlipBit(v / 2, j - 1), v % 2);
      if i > 0 {
        FlipBitBits(v / 2, j - 1, i - 1);
      }
    }
  }

  /** The value of a bit is its power of two. */
  lemma {:induction false} BitValue(v: nat, j: nat)
    ensures SetBit(v, j) == v + if Bit(v, j) then 0 else Pow2(j)
    ensures FlipBit(v, j) == if Bit(v, j) then v - Pow2(j) else v + Pow2(j)
  {
    if j > 0 {
      BitValue(v / 2, j - 1);
    }
  }

  lemma {:induction false} StaysWord(v: nat, j: nat, n: nat)
    requires v < Pow2(n) && j < n
    ensures SetBit(v, j) < Pow2(n) && FlipBit(v, j) < Pow2(n)
  {
    if j > 0 {
      StaysWord(v / 2, j - 1, n - 1);
    }
  }

  /** The lowest set bit of v + 1 is the lowest clear bit of v. */
  lemma {:induction false} LowestClear(v: nat, i: nat)
    ensures i < LowestSet(v + 1) ==> Bit(v, i)
    ensures i == LowestSet(v + 1) ==> !Bit(v, i)
    decreases v
  {
    if v % 2 == 1 {
      assert (v + 1) / 2 == v / 2 + 1;
      if i > 0 {
        LowestClear(v / 2, i - 1);
      }
    }
  }

  /** It is inside the word unless the word is all ones. */
  lemma {:induction false} LowestClearBound(v: nat, n: nat)
    requires v < Pow2(n)
    ensures v != Pow2(n) - 1 ==> LowestSet(v + 1) < n
    ensures v == Pow2(n) - 1 ==> forall i :: 0 <= i < n ==> Bit(v, i)
  {
    if n > 0 {
      if v % 2 == 1 {
        assert (v + 1) / 2 == v / 2 + 1;
      }
      LowestClearBound(v / 2, n - 1);
      if v == Pow2(n) - 1 {
        forall i | 0 <= i < n ensures Bit(v, i) {
          if i > 0 {
            assert Bit(v / 2, i - 1);
          }
        }
      }
    }
  }

  // ----- bits of the whole map -----

  predicate Used(words: seq<Word>, k: nat)
    requires k < 64 * |words|
  {
    Bit(words[k / 64], k % 64)
  }

  lemma UsedAfterSet(words: seq<Word>, i: nat, j: nat, w: Word, k: nat)
    requires i < |words| && j < 64 && w == SetBit(words[i], j) && k < 64 * |words|
    ensures Used(words[i := w], k) <==> k == 64 * i + j || Used(words, k)
  {
    SetBitBits(words[i], j, k % 64);
  }

  lemma UsedAfterFlip(words: seq<Word>, b: nat, w: Word, k: nat)
    requires b < 64 * |words| && w == FlipBit(words[b / 64], b % 64) && k < 64 * |words|
    ensures Used(words[b / 64 := w], k) <==> Used(words, k) != (k == b)
  {
    FlipBitBits(words[b / 64], b % 64, k % 64);
  }

  /** A word of all ones hides no clear bit. */
  lemma FullWord(words: seq<Word>, i: nat, k: nat)
    requires i < |words| && words[i] == TWO64 - 1 && 64 * i <= k < 64 * i + 64
    ensures Used(words, k)
  {
    ClearBound(words[i]);
    Position(i, k - 64 * i);
  }

  /** Where the code finds a clear bit in a word that is not all ones. */
  lemma ClearInWord(words: seq<Word>, i: nat, j: nat)
    requires i < |words| && words[i] != TWO64 - 1 && j == LowestSet(words[i] + 1)
    ensures j < 64 && !Used(words, 64 * i + j)
    ensures forall k :: 64 * i <= k < 64 * i + j ==> Used(words, k)
  {
    ClearBound(words[i]);
    LowestClear(words[i], j);
    Position(i, j);
    forall k | 64 * i <= k < 64 * i + j ensures Used(words, k) {
      Position(i, k - 64 * i);
      LowestClear(words[i], k - 64 * i);
    }
  }

  lemma Position(i: nat, j: nat)
    requires j < 64
    ensures (64 * i + j) / 64 == i && (64 * i + j) % 64 == j
  {
  }

  lemma ClearBound(w: Word)
    ensures w != TWO64 - 1 ==> LowestSet(w + 1) < 64
    ensures w == TWO64 - 1 ==> forall i :: 0 <= i < 64 ==> Bit(w, i)
  {
    Pow2Word();
    LowestClearBound(w, 64);
  }

  /** A set of slots below n is smaller than n exactly when it misses one. */
  lemma MissesOne(held: set<nat>, n: nat)
    requires forall k :: k in held ==> k < n
    ensures |held| <= n && (|held| < n <==> exists k :: 0 <= k < n && k !in held)
  {
    var all := Between(0, n);
    Fewer(held, all);
    if |held| < n {
      assert held != all;
      assert exists k :: k in all && k !in held;
    } else if k :| 0 <= k < n && k !in held {
      Fewer(held + {k}, all);
      assert false;
    }
  }

  class Map {
    const cnt: nat
    const siz: nat
    var freeCnt: nat
    const data: array<Word>

    /** The set bits of the whole map. */
    ghost function Taken(): set<nat>
      requires siz == 64 * data.Length
      reads data
    {
      set k: nat | k < siz && Used(data[..], k)
    }

    /** The slots that are given out. */
    ghost function Held(): set<nat>
      requires siz == 64 * data.Length
      reads data
    {
      set k | k in Taken() && k < cnt
    }

    /** The free count is the number of clear bits. */
    ghost predicate Counted()
      reads this, data
    {
      && cnt <= siz == 64 * data.Length && siz < cnt + 64 && cnt <= INT_MAX
      && freeCnt + |Taken()| == siz
    }

    /** The padding behind the last slot is not clear. */
    ghost predicate Valid()
      reads this, data
    {
      Counted() && forall k :: cnt <= k < siz ==> k in Taken()
    }

    /** The free count is then the number of slots that are not given out. */
    lemma FreeSlots()
      requires Valid()
      ensures freeCnt + |Held()| == cnt
    {
      var padding := Between(cnt, siz);
      assert Taken() == Held() + padding && Held() !! padding;
    }

    constructor (cnt: nat)
      requires cnt <= INT_MAX
      ensures Valid() && this.cnt == cnt && Held() == {} && fresh(data)
    {
      this.cnt, freeCnt := cnt, cnt;
      siz := (cnt + 63) / 64 * 64;
      data := new Word[(cnt + 63) / 64](_ => 0);
      new;
      ZeroBits();
      var i := cnt;
      while i < siz
        invariant cnt <= i <= siz == 64 * data.Length && freeCnt == cnt
        invariant forall k :: 0 <= k < siz ==> (Used(data[..], k) <==> cnt <= k < i)
      {
        MarkUsed(i / 64, i % 64);
        i := i + 1;
      }
      var padding := Between(cnt, siz);
      assert Taken() == padding && Held() == {};
    }

    lemma ZeroBits()
      requires forall i :: 0 <= i < data.Length ==> data[i] == 0
      ensures forall k :: 0 <= k < 64 * data.Length ==> !Used(data[..], k)
    {
      forall k | 0 <= k < 64 * data.Length ensures !Used(data[..], k) {
        ZeroBit(k % 64);
      }
    }

    /** data[i] |= 1UL << j */
    method MarkUsed(i: nat, j: nat)
      requires i < data.Length && j < 64
      modifies data
      ensures forall k :: 0 <= k < 64 * data.Length ==>
        (Used(data[..], k) <==> k == 64 * i + j || Used(old(data[..]), k))
    {
      Pow2Word();
      StaysWord(data[i], j, 64);
      var w: Word := SetBit(data[i], j);
      forall k | 0 <= k < 64 * data.Length
        ensures Used(data[..][i := w], k) <==> k == 64 * i + j || Used(data[..], k)
      {
        UsedAfterSet(data[..], i, j, w, k);
      }
      ghost var words := data[..];
      data[i] := w;
      assert data[..] == words[i := w];
    }

    /** The lowest clear bit, or -1 exactly when there is none. The assertion behind the loop is unreachable. While
        the padding is set, that is the lowest slot that is not given out. */
    method GetFree() returns (r: int)
      requires Counted()
      modifies `freeCnt, data
      ensures Counted()
      ensures r == -1 <==> forall k: nat :: k < siz ==> k in old(Taken())
      ensures r == -1 ==> Taken() == old(Taken())
      ensures r != -1 ==>
        && 0 <= r < siz && r !in old(Taken()) && Taken() == old(Taken()) + {r}
        && forall k: nat :: k < r ==> k in old(Taken())
      ensures old(Valid()) ==>
        Valid() && r < cnt && (r == -1 <==> forall k: nat :: k < cnt ==> k in old(Taken()))
    {
      MissesOne(Taken(), siz);
      if freeCnt == 0 {
        return -1;
      }
      freeCnt := freeCnt - 1;
      assert Taken() == old(Taken());
      var i, j := Search();
      r := Take(i, j);
    }

    /** The loop over the words: where the lowest clear bit is. */
    method Search() returns (i: nat, j: nat)
      requires siz == 64 * data.Length && exists k: nat :: k < siz && k !in Taken()
      ensures i < data.Length && j < 64 && 64 * i + j !in Taken()
      ensures forall k: nat :: k < 64 * i + j ==> k in Taken()
    {
      var tot := siz / 64;
      i, j := 0, 0;
      while i < tot
        invariant i <= tot && forall k: nat :: k < 64 * i ==> k in Taken()
      {
        if data[i] != TWO64 - 1 {
          j := LowestSet(data[i] + 1);
          ClearInWord(data[..], i, j);
          return;
        }
        forall k: nat | 64 * i <= k < 64 * i + 64 ensures k in Taken() {
          FullWord(data[..], i, k);
        }
        i := i + 1;
      }
      assert false;
    }

    method Take(i: nat, j: nat) returns (r: int)
      requires cnt <= siz == 64 * data.Length && siz < cnt + 64 && cnt <= INT_MAX
      requires freeCnt + 1 + |Taken()| == siz
      requires i < data.Length && j < 64 && 64 * i + j !in Taken()
      modifies data
      ensures Counted() && r == 64 * i + j && Taken() == old(Taken()) + {r}
    {
      r := 64 * i + j;
      MarkUsed(i, j);
      assert Taken() == old(Taken()) + {r};
    }

    /** Clears a set bit; the process stops when it was clear. The padding stays set exactly unless it was a bit of
        the padding, which the code does not refuse. */
    method PutBack(bk: nat) returns (ok: bool)
      requires Counted() && bk < siz
      modifies `freeCnt, data
      ensures Counted() && (ok <==> bk in old(Taken())) && Taken() == old(Taken()) - {bk}
      ensures Valid() <==> old(Valid()) && bk < cnt
    {
      ok := Bit(data[bk / 64], bk % 64);
      if !ok {
        assert bk !in Taken();
        return;
      }
      Unmark(bk);
      freeCnt := freeCnt + 1;
      assert bk !in Taken() && old(Taken()) == Taken() + {bk};
      assert |old(Taken())| == |Taken()| + 1;
    }

    /** data[bk >> 6] ^= 1UL << (bk & 63) */
    method Unmark(bk: nat)
      requires bk < 64 * data.Length
      modifies data
      ensures forall k :: 0 <= k < 64 * data.Length ==> (Used(data[..], k) <==> Used(old(data[..]), k) != (k == bk))
    {
      Pow2Word();
      StaysWord(data[bk / 64], bk % 64, 64);
      ghost var words := data[..];
      var w: Word := FlipBit(data[bk / 64], bk % 64);
      forall k | 0 <= k < 64 * data.Length ensures Used(words[bk / 64 := w], k) <==> Used(words, k) != (k == bk) {
        UsedAfterFlip(words, bk, w, k);
      }
      data[bk / 64] := w;
      assert data[..] == words[bk / 64 := w];
    }
  }

  /** Giving back a bit of the padding makes it a slot: the calls that follow hand out every slot that is not given
      out, and then that bit, which is no slot of the map. */
  method GetPadding(m: Map, bk: nat) returns (r: int)
    requires m.Valid() && m.cnt <= bk < m.siz
    modifies m`freeCnt, m.data
    ensures m.Counted() && r == bk >= m.cnt && forall k: nat :: k < m.cnt ==> k in m.Held()
  {
    var ok := m.PutBack(bk);
    assert ok && bk !in m.Taken();
    r := m.GetFree();
    while r != bk
      invariant m.Counted() && 0 <= r <= bk && r in m.Taken()
      invariant r == bk ==> forall k: nat :: k < bk ==> k in m.Taken()
      invariant r != bk ==> bk !in m.Taken() && forall k :: m.cnt <= k < m.siz && k != bk ==> k in m.Taken()
      decreases m.freeCnt, r != bk
    {
      ghost var before := m.Taken();
      r := m.GetFree();
    }
  }

  lemma {:induction false} ZeroBit(i: nat)
    ensures !Bit(0, i)
  {
    if i > 0 {
      ZeroBit(i - 1);
    }
  }
}
