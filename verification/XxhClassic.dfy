/** XXH32 and XXH64: one-shot hash and streaming state. As for XXH3, the arithmetic is a value, so the
results hold for every round function; module `XxhLanes` supplies the two real instances. */
module XxhClassic {
  import opened HashBytes
  import opened Sizes

  /** `V` is the four lanes, `H` the hash. */
  datatype Kernel<!V, !H> = Kernel(
    stripe: nat,
    init: nat -> V,
    round: (V, seq<Byte>) -> V,
    converge: V -> H,
    small: nat -> H,
    smallOfLanes: V -> H,
    addLen: (H, nat) -> H,
    finalize: (H, seq<Byte>) -> H)
  {
    /** The third lane starts as the seed, which is how a digest of a short input recovers it. */
    ghost predicate WellFormed() {
      stripe > 0 && forall seed :: smallOfLanes(init(seed)) == small(seed)
    }
  }

  /** Whole stripes from the front; what is left is shorter than a stripe. */
  function Absorb<V, H>(k: Kernel<V, H>, v: V, s: seq<Byte>): (V, seq<Byte>)
    requires k.stripe > 0
  {
    if |s| < k.stripe then (v, s) else Absorb(k, k.round(v, s[..k.stripe]), s[k.stripe..])
  }

  /** XXH32_endian_align and XXH64_endian_align; `len` is the length as the hash counts it. */
  function OneShot<V, H>(k: Kernel<V, H>, seed: nat, data: seq<Byte>, len: nat): H
    requires k.stripe > 0
  {
    var (v, rest) := Absorb(k, k.init(seed), data);
    var h := if |data| >= k.stripe then k.converge(v) else k.small(seed);
    k.finalize(k.addLen(h, len), rest)
  }

  function OneShot32<V, H>(k: Kernel<V, H>, seed: nat, data: seq<Byte>): H
    requires k.stripe > 0
  {
    OneShot(k, seed, data, |data| % TWO32)
  }

  function OneShot64<V, H>(k: Kernel<V, H>, seed: nat, data: seq<Byte>): H
    requires k.stripe > 0
  {
    OneShot(k, seed, data, |data|)
  }

  /** Absorbing in two parts: the rest of the first part goes before the second. */
  lemma {:induction false} AbsorbAppend<V, H>(k: Kernel<V, H>, v: V, a: seq<Byte>, b: seq<Byte>)
    requires k.stripe > 0
    ensures var (w, rest) := Absorb(k, v, a); Absorb(k, v, a + b) == Absorb(k, w, rest + b)
    decreases |a|
  {
    if |a| >= k.stripe {
      assert (a + b)[..k.stripe] == a[..k.stripe];
      assert (a + b)[k.stripe..] == a[k.stripe..] + b;
      AbsorbAppend(k, k.round(v, a[..k.stripe]), a[k.stripe..], b);
    }
  }

  /** The rest is the input's last `|s| % stripe` bytes. */
  lemma {:induction false} AbsorbRest<V, H>(k: Kernel<V, H>, v: V, s: seq<Byte>)
    requires k.stripe == 16 || k.stripe == 32
    ensures |Absorb(k, v, s).1| == |s| % k.stripe
    ensures |s| < k.stripe ==> Absorb(k, v, s) == (v, s)
    decreases |s|
  {
    if |s| >= k.stripe {
      AbsorbRest(k, k.round(v, s[..k.stripe]), s[k.stripe..]);
      OneStripeLess(|s|, k.stripe);
    }
  }

  lemma OneStripeLess(n: nat, stripe: nat)
    requires (stripe == 16 || stripe == 32) && stripe <= n
    ensures (n - stripe) % stripe == n % stripe
  {
  }

  /** The one-shot loop with a moving pointer. */
  method Hash<V, H>(k: Kernel<V, H>, seed: nat, input: seq<Byte>, len: nat) returns (h: H)
    requires k.WellFormed()
    ensures h == OneShot(k, seed, input, len)
  {
    var p := 0;
    if |input| >= k.stripe {
      var v := k.init(seed);
      while |input| - p >= k.stripe
        invariant p <= |input|
        invariant Absorb(k, v, input[p..]) == Absorb(k, k.init(seed), input)
      {
        assert input[p..][..k.stripe] == input[p..p + k.stripe];
        assert input[p..][k.stripe..] == input[p + k.stripe..];
        v := k.round(v, input[p..p + k.stripe]);
        p := p + k.stripe;
      }
      h := k.converge(v);
    } else {
      h := k.small(seed);
    }
    h := k.finalize(k.addLen(h, len), input[p..]);
  }

  /** The lanes and the buffered bytes are what absorbing everything fed so far leaves. */
  ghost predicate Streams<V, H>(k: Kernel<V, H>, seed: nat, fed: seq<Byte>, v: V, mem: seq<Byte>, memsize: nat) {
    && k.WellFormed()
    && |mem| == k.stripe && memsize < k.stripe
    && Absorb(k, k.init(seed), fed) == (v, mem[..memsize])
  }

  /** `mem` with `input[from..from + len]` written at `at`. */
  method CopyInto(mem: array<Byte>, at: nat, input: seq<Byte>, from: nat, len: nat)
    requires at + len <= mem.Length && from + len <= |input|
    modifies mem
    ensures mem[..at + len] == old(mem[..at]) + input[from..from + len]
  {
    for i := 0 to len
      invariant mem[..at + i] == old(mem[..at]) + input[from..from + i]
    {
      mem[at + i] := input[from + i];
      assert mem[..at + i + 1] == mem[..at + i] + [input[from + i]];
    }
  }

  /** Completes the buffered stripe from the input. */
  method CompleteStripe<V, H>(k: Kernel<V, H>, mem: array<Byte>, v: V, memsize: nat, input: seq<Byte>) returns (w: V)
    requires k.WellFormed() && mem.Length == k.stripe && memsize < k.stripe <= memsize + |input|
    modifies mem
    ensures Absorb(k, w, input[k.stripe - memsize..]) == Absorb(k, v, old(mem[..memsize]) + input)
  {
    var load := k.stripe - memsize;
    ghost var joined := mem[..memsize] + input;
    CopyInto(mem, memsize, input, 0, load);
    assert joined[..k.stripe] == mem[..memsize + load] == mem[..];
    assert joined[k.stripe..] == input[load..];
    w := k.round(v, mem[..]);
  }

  /** The loop over whole stripes of the input. */
  method AbsorbStripes<V, H>(k: Kernel<V, H>, v: V, input: seq<Byte>, from: nat) returns (w: V, p: nat)
    requires k.WellFormed() && from <= |input|
    ensures p <= |input| < p + k.stripe
    ensures Absorb(k, v, input[from..]) == (w, input[p..])
  {
    w, p := v, from;
    ghost var goal := Absorb(k, v, input[from..]);
    while |input| - p >= k.stripe
      invariant p <= |input|
      invariant Absorb(k, w, input[p..]) == goal
    {
      assert input[p..][..k.stripe] == input[p..p + k.stripe];
      assert input[p..][k.stripe..] == input[p + k.stripe..];
      w := k.round(w, input[p..p + k.stripe]);
      p := p + k.stripe;
    }
  }

  /** Keeps what is left of the input, from position p on, behind `memsize` buffered bytes. */
  method Keep(mem: array<Byte>, memsize: nat, input: seq<Byte>, p: nat) returns (memsize': nat)
    requires p <= |input| && memsize + |input| - p < mem.Length
    modifies mem
    ensures memsize' == memsize + |input| - p && mem[..][..memsize'] == old(mem[..memsize]) + input[p..]
  {
    CopyInto(mem, memsize, input, p, |input| - p);
    memsize' := memsize + |input| - p;
    assert input[p..p + (|input| - p)] == input[p..];
    assert mem[..][..memsize'] == mem[..memsize'];
  }

  /** XXH32_update and XXH64_update, apart from the length counters. */
  method Feed<V, H>(k: Kernel<V, H>, mem: array<Byte>, v: V, memsize: nat, input: seq<Byte>,
                       ghost seed: nat, ghost fed: seq<Byte>)
    returns (w: V, memsize': nat)
    requires Streams(k, seed, fed, v, mem[..], memsize)
    modifies mem
    ensures Streams(k, seed, fed + input, w, mem[..], memsize')
  {
    AbsorbAppend(k, k.init(seed), fed, input);
    ghost var goal := Absorb(k, k.init(seed), fed + input);
    ghost var joined := mem[..memsize] + input;
    assert mem[..][..memsize] == mem[..memsize];
    if memsize + |input| < k.stripe {
      w := v;
      memsize' := Keep(mem, memsize, input, 0);
      assert input[0..] == input;
      return;
    }
    var u, p := v, 0;
    if memsize != 0 {
      u := CompleteStripe(k, mem, v, memsize, input);
      p := k.stripe - memsize;
    } else {
      assert joined == input == input[0..];
    }
    assert Absorb(k, u, input[p..]) == goal;
    w, p := AbsorbStripes(k, u, input, p);
    memsize' := Keep(mem, 0, input, p);
    assert [] + input[p..] == input[p..];
  }

  /** XXH32_state_t: the total length wraps, so `largeLen` remembers that it once reached a stripe. */
  class State32<V, H> {
    const k: Kernel<V, H>
    var totalLen32: nat
    var largeLen: bool
    var v: V
    const mem: array<Byte>
    var memsize: nat
    ghost var seed: nat
    ghost var fed: seq<Byte>

    ghost predicate Valid()
      reads this, mem
    {
      && k.stripe == 16
      && Streams(k, seed, fed, v, mem[..], memsize)
      && totalLen32 == |fed| % TWO32
      && (largeLen <==> |fed| >= 16)
    }

    /** XXH32_createState and XXH32_reset. */
    constructor (k: Kernel<V, H>, seed: nat)
      requires k.WellFormed() && k.stripe == 16
      ensures Valid() && this.k == k && this.seed == seed && fed == [] && fresh(mem)
    {
      this.k := k;
      totalLen32, largeLen := 0, false;
      v := k.init(seed);
      mem := new Byte[16];
      memsize := 0;
      this.seed := seed;
      fed := [];
    }

    /** XXH32_update. */
    method Update(input: seq<Byte>)
      requires Valid()
      modifies `totalLen32, `largeLen, `v, `memsize, `fed, mem
      ensures Valid() && fed == old(fed) + input
    {
      ghost var data := fed + input;
      var total := (totalLen32 + |input|) % TWO32;
      assert total == |data| % TWO32;
      var large := largeLen || |input| >= 16 || total >= 16;
      assert large <==> |data| >= 16;
      var w, size := Feed(k, mem, v, memsize, input, seed, fed);
      totalLen32, largeLen, v, memsize := total, large, w, size;
      fed := data;
    }

    /** XXH32_digest. */
    method Digest() returns (h: H)
      requires Valid()
      ensures h == OneShot32(k, seed, fed)
    {
      AbsorbRest(k, k.init(seed), fed);
      h := if largeLen then k.converge(v) else k.smallOfLanes(v);
      assert mem[..][..memsize] == mem[..memsize];
      h := k.finalize(k.addLen(h, totalLen32), mem[..memsize]);
    }
  }

  /** XXH64_state_t. */
  class State64<V, H> {
    const k: Kernel<V, H>
    var totalLen: nat
    var v: V
    const mem: array<Byte>
    var memsize: nat
    ghost var seed: nat
    ghost var fed: seq<Byte>

    ghost predicate Valid()
      reads this, mem
    {
      && k.stripe == 32
      && Streams(k, seed, fed, v, mem[..], memsize)
      && totalLen == |fed| % TWO64
    }

    /** XXH64_createState and XXH64_reset. */
    constructor (k: Kernel<V, H>, seed: nat)
      requires k.WellFormed() && k.stripe == 32
      ensures Valid() && this.k == k && this.seed == seed && fed == [] && fresh(mem)
    {
      this.k := k;
      totalLen := 0;
      v := k.init(seed);
      mem := new Byte[32];
      memsize := 0;
      this.seed := seed;
      fed := [];
    }

    /** XXH64_update. */
    method Update(input: seq<Byte>)
      requires Valid()
      modifies `totalLen, `v, `memsize, `fed, mem
      ensures Valid() && fed == old(fed) + input
    {
      ghost var data := fed + input;
      var total := (totalLen + |input|) % TWO64;
      assert total == |data| % TWO64;
      var w, size := Feed(k, mem, v, memsize, input, seed, fed);
      totalLen, v, memsize := total, w, size;
      fed := data;
    }

    /** XXH64_digest: the buffered size is taken from the total length. */
    method Digest() returns (h: H)
      requires Valid() && |fed| < TWO64
      ensures h == OneShot64(k, seed, fed)
    {
      AbsorbRest(k, k.init(seed), fed);
      h := if totalLen >= 32 then k.converge(v) else k.smallOfLanes(v);
      assert mem[..][..memsize] == mem[..memsize];
      h := k.finalize(k.addLen(h, totalLen), mem[..totalLen % 32]);
    }
  }

  /** XXH32 streaming equals one-shot for every chunking, also past 2^32 bytes. */
  method HashChunks32<V, H>(k: Kernel<V, H>, seed: nat, chunks: seq<seq<Byte>>) returns (h: H)
    requires k.WellFormed() && k.stripe == 16
    ensures h == OneShot32(k, seed, Flatten(chunks))
  {
    var st := new State32(k, seed);
    for i := 0 to |chunks|
      invariant fresh(st) && fresh(st.mem) && st.Valid() && st.k == k && st.seed == seed
      invariant st.fed == Flatten(chunks[..i])
    {
      assert chunks[..i + 1][..i] == chunks[..i];
      st.Update(chunks[i]);
    }
    assert chunks[..|chunks|] == chunks;
    h := st.Digest();
  }

  /** XXH64 streaming equals one-shot for every chunking. */
  method HashChunks64<V, H>(k: Kernel<V, H>, seed: nat, chunks: seq<seq<Byte>>) returns (h: H)
    requires k.WellFormed() && k.stripe == 32
    requires |Flatten(chunks)| < TWO64
    ensures h == OneShot64(k, seed, Flatten(chunks))
  {
    var st := new State64(k, seed);
    for i := 0 to |chunks|
      invariant fresh(st) && fresh(st.mem) && st.Valid() && st.k == k && st.seed == seed
      invariant st.fed == Flatten(chunks[..i])
    {
      assert chunks[..i + 1][..i] == chunks[..i];
      st.Update(chunks[i]);
    }
    assert chunks[..|chunks|] == chunks;
    h := st.Digest();
  }
}
