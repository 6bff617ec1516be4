/** The XXH3 one-shot loop and the reset / update / digest state machine, both against the
stripe fold of `Xxh3Spec`. */
module Xxh3Stream {
  import opened HashBytes
  import opened Options
  import opened Sizes
  import opened Xxh3Spec

  const BUFFER_SIZE: nat := 256
  const BUFFER_STRIPES: nat := 4

  /** XXH3_accumulate: `nb` stripes that stay inside the block, which are stripes `n`, `n + 1`, ...
      of `data`. */
  method Accumulate(k: Kernel, acc: Acc, input: seq<Byte>, at: nat, secret: seq<Byte>, inBlock: nat, nb: nat,
                    ghost data: seq<Byte>, ghost n: nat)
    returns (r: Acc)
    requires Holds(k, secret, data, n, acc, inBlock)
    requires inBlock < StripesPerBlock(secret) && inBlock + nb <= StripesPerBlock(secret)
    requires STRIPE_LEN * (n + nb) <= |data| && at + STRIPE_LEN * nb <= |input|
    requires input[at..at + STRIPE_LEN * nb] == data[STRIPE_LEN * n..STRIPE_LEN * (n + nb)]
    ensures Holds(k, secret, data, n + nb, r, inBlock + nb)
  {
    r := acc;
    for i := 0 to nb
      invariant Holds(k, secret, data, n + i, r, inBlock + i)
    {
      WindowStripe(input, at, data, n, nb, i);
      r := k.accumulate512(r, Stripe(input, at + i * STRIPE_LEN), Stripe(secret, CONSUME_RATE * (inBlock + i)));
    }
  }

  lemma WindowStripe(input: seq<Byte>, at: nat, data: seq<Byte>, n: nat, nb: nat, i: nat)
    requires i < nb
    requires STRIPE_LEN * (n + nb) <= |data| && at + STRIPE_LEN * nb <= |input|
    requires input[at..at + STRIPE_LEN * nb] == data[STRIPE_LEN * n..STRIPE_LEN * (n + nb)]
    ensures Stripe(input, at + i * STRIPE_LEN) == Stripe(data, STRIPE_LEN * (n + i))
  {
    CutWindow(input, at, data, STRIPE_LEN * n, STRIPE_LEN * nb, STRIPE_LEN * i);
    CutWindow(input, at + STRIPE_LEN * i, data, STRIPE_LEN * n + STRIPE_LEN * i, STRIPE_LEN * (nb - i), STRIPE_LEN);
  }

  /** XXH3_hashLong_internal_loop: whole blocks, a partial block, the last stripe. */
  method HashLongLoop(k: Kernel, input: seq<Byte>, secret: seq<Byte>) returns (acc: Acc)
    requires |secret| >= SECRET_SIZE_MIN
    requires |input| > STRIPE_LEN
    ensures acc == LongAcc(k, secret, input)
  {
    var perBlock := (|secret| - STRIPE_LEN) / CONSUME_RATE;
    var blockLen := STRIPE_LEN * perBlock;
    var nbBlocks := (|input| - 1) / blockLen;
    DivBounds(|input| - 1, blockLen);
    ghost var done;
    acc, done := HashBlocks(k, input, secret, perBlock, blockLen, nbBlocks);
    var rest := (|input| - 1 - blockLen * nbBlocks) / STRIPE_LEN;
    acc := Accumulate(k, acc, input, nbBlocks * blockLen, secret, 0, rest, input, done);
    assert done + rest == (|input| - 1) / STRIPE_LEN;
    acc := k.accumulate512(acc, Stripe(input, |input| - STRIPE_LEN),
                           Stripe(secret, |secret| - STRIPE_LEN - LASTACC_START));
  }

  /** The whole blocks. */
  method HashBlocks(k: Kernel, input: seq<Byte>, secret: seq<Byte>, perBlock: nat, blockLen: nat, nbBlocks: nat)
    returns (acc: Acc, ghost done: nat)
    requires |secret| >= SECRET_SIZE_MIN && perBlock == StripesPerBlock(secret) && blockLen == STRIPE_LEN * perBlock
    requires nbBlocks * blockLen <= |input|
    ensures STRIPE_LEN * done == nbBlocks * blockLen && Holds(k, secret, input, done, acc, 0)
  {
    acc, done := k.initAcc, 0;
    for n := 0 to nbBlocks
      invariant STRIPE_LEN * done == n * blockLen <= |input|
      invariant Holds(k, secret, input, done, acc, 0)
    {
      MulMonotone(n + 1, nbBlocks, blockLen);
      assert (n + 1) * blockLen == n * blockLen + blockLen;
      acc := Accumulate(k, acc, input, n * blockLen, secret, 0, perBlock, input, done);
      acc := k.scramble(acc, Stripe(secret, |secret| - STRIPE_LEN));
      done := done + perBlock;
    }
  }

  lemma DivBounds(a: nat, b: nat)
    requires b > 0
    ensures (a / b) * b <= a < (a / b) * b + b
  {
  }

  lemma ModAdd(a: nat, b: nat)
    ensures (a % TWO64 + b) % TWO64 == (a + b) % TWO64
  {
  }

  /** XXH3_64bits and its variants, as computed. */
  method Hash64(k: Kernel, mode: Mode, input: seq<Byte>) returns (h: bv64)
    requires mode.Usable() && k.WellFormed() && |input| < TWO64
    ensures h == OneShot64(k, mode, input)
  {
    if |input| <= MIDSIZE_MAX {
      var (secret, seed) := ShortKey(k, mode);
      h := k.short64(input, secret, seed);
    } else {
      var acc := HashLongLoop(k, input, LongSecret(k, mode));
      h := Merge64(k, LongSecret(k, mode), acc, |input|);
    }
  }

  /** XXH3_128bits and its variants, as computed. */
  method Hash128Of(k: Kernel, mode: Mode, input: seq<Byte>) returns (h: Hash128)
    requires mode.Usable() && k.WellFormed() && |input| < TWO64
    ensures h == OneShot128(k, mode, input)
  {
    if |input| <= MIDSIZE_MAX {
      var (secret, seed) := ShortKey(k, mode);
      h := k.short128(input, secret, seed);
    } else {
      var acc := HashLongLoop(k, input, LongSecret(k, mode));
      h := Merge128(k, LongSecret(k, mode), acc, |input|);
    }
  }

  /** XXH3_consumeStripes: at most one block boundary per call. */
  method ConsumeStripes(k: Kernel, acc: Acc, soFar: nat, perBlock: nat, input: seq<Byte>, at: nat, nb: nat,
                        secret: seq<Byte>, secretLimit: nat, ghost data: seq<Byte>, ghost n: nat)
    returns (r: Acc, soFar': nat)
    requires Holds(k, secret, data, n, acc, soFar)
    requires soFar < perBlock == StripesPerBlock(secret) && nb <= perBlock
    requires secretLimit == |secret| - STRIPE_LEN
    requires STRIPE_LEN * (n + nb) <= |data| && at + STRIPE_LEN * nb <= |input|
    requires input[at..at + STRIPE_LEN * nb] == data[STRIPE_LEN * n..STRIPE_LEN * (n + nb)]
    ensures soFar' < perBlock && Holds(k, secret, data, n + nb, r, soFar')
  {
    if perBlock - soFar <= nb {
      var toEnd := perBlock - soFar;
      var after := nb - toEnd;
      CutWindow(input, at, data, STRIPE_LEN * n, STRIPE_LEN * nb, STRIPE_LEN * toEnd);
      r := Accumulate(k, acc, input, at, secret, soFar, toEnd, data, n);
      r := k.scramble(r, Stripe(secret, secretLimit));
      r := Accumulate(k, r, input, at + toEnd * STRIPE_LEN, secret, 0, after, data, n + toEnd);
      soFar' := after;
    } else {
      r := Accumulate(k, acc, input, at, secret, soFar, nb, data, n);
      soFar' := soFar + nb;
    }
  }

  /** `s` with `t` written over it at offset `at`. */
  function Splice(s: seq<Byte>, at: nat, t: seq<Byte>): seq<Byte>
    requires at + |t| <= |s|
  {
    s[..at] + t + s[at + |t|..]
  }

  /** memcpy of `input[from..from + len]` to `dst[at..]`. */
  method CopyInto(dst: array<Byte>, at: nat, input: seq<Byte>, from: nat, len: nat)
    requires at + len <= dst.Length && from + len <= |input|
    modifies dst
    ensures dst[..] == Splice(old(dst[..]), at, input[from..from + len])
  {
    ghost var was := dst[..];
    for i := 0 to len
      invariant forall j :: 0 <= j < dst.Length ==> dst[j] == if at <= j < at + i then input[from + j - at] else was[j]
    {
      dst[at + i] := input[from + i];
    }
    assert |input[from..from + len]| == len;
    assert dst[..] == Splice(was, at, input[from..from + len]);
  }

  /** Where the buffer's last 64 bytes begin, or the rest that is not overwritten by `size` buffered bytes. */
  function TailStart(size: nat): nat {
    if size <= BUFFER_SIZE - STRIPE_LEN then BUFFER_SIZE - STRIPE_LEN else size
  }

  /** What the fields of a streaming state say about the bytes fed so far: `n` stripes are absorbed,
      the rest (never empty, once anything was fed) is at the front of the buffer, and the part of
      the buffer's last 64 bytes not overwritten by it is the end of the last absorbed stripe. */
  ghost predicate Streams(k: Kernel, secret: seq<Byte>, data: seq<Byte>, n: nat,
                          acc: Acc, soFar: nat, buffer: seq<Byte>, size: nat)
  {
    && |secret| >= SECRET_SIZE_MIN
    && |buffer| == BUFFER_SIZE
    && size <= BUFFER_SIZE
    && STRIPE_LEN * n + size == |data|
    && (data != [] ==> size > 0)
    && soFar < StripesPerBlock(secret)
    && Holds(k, secret, data, n, acc, soFar)
    && buffer[..size] == data[STRIPE_LEN * n..]
    && (n > 0 ==> |data| > BUFFER_SIZE)
    && (n > 0 ==> buffer[TailStart(size)..] == data[STRIPE_LEN * n - BUFFER_SIZE + TailStart(size)..STRIPE_LEN * n])
  }

  /** The bytes of `input` from `p` on are the bytes of `data` after its first `n` stripes. */
  ghost predicate Reading(k: Kernel, secret: seq<Byte>, data: seq<Byte>, input: seq<Byte>, n: nat, p: nat,
                          acc: Acc, soFar: nat)
  {
    && |secret| >= SECRET_SIZE_MIN
    && |input| <= |data| && data[|data| - |input|..] == input
    && p < |input|
    && STRIPE_LEN * n == |data| - |input| + p
    && soFar < StripesPerBlock(secret)
    && Holds(k, secret, data, n, acc, soFar)
  }

  /** The large-input branch of XXH3_update: join the current block, whole blocks, a partial block. */
  method IngestBlocks(k: Kernel, acc: Acc, soFar: nat, perBlock: nat, input: seq<Byte>, at: nat,
                      secret: seq<Byte>, secretLimit: nat, ghost data: seq<Byte>, ghost n: nat)
    returns (r: Acc, soFar': nat, p: nat, ghost m: nat)
    requires Reading(k, secret, data, input, n, at, acc, soFar)
    requires secretLimit == |secret| - STRIPE_LEN && perBlock == StripesPerBlock(secret)
    requires |input| - at > perBlock * STRIPE_LEN
    ensures Reading(k, secret, data, input, m, p, r, soFar')
    ensures p >= STRIPE_LEN && |input| - p <= STRIPE_LEN
  {
    var nbStripes := (|input| - 1 - at) / STRIPE_LEN;
    var toEnd := perBlock - soFar;
    r := FinishBlock(k, acc, soFar, toEnd, input, at, secret, secretLimit, data, n);
    p, m := at + toEnd * STRIPE_LEN, n + toEnd;
    nbStripes := nbStripes - toEnd;
    while nbStripes >= perBlock
      invariant p >= STRIPE_LEN
      invariant Reading(k, secret, data, input, m, p, r, 0)
      invariant nbStripes == (|input| - 1 - p) / STRIPE_LEN
    {
      r := FinishBlock(k, r, 0, perBlock, input, p, secret, secretLimit, data, m);
      p, m := p + perBlock * STRIPE_LEN, m + perBlock;
      nbStripes := nbStripes - perBlock;
    }
    InputStripes(data, input, m, p, nbStripes);
    r := Accumulate(k, r, input, p, secret, 0, nbStripes, data, m);
    p := p + nbStripes * STRIPE_LEN;
    m := m + nbStripes;
    soFar' := nbStripes;
  }

  /** The stripes up to the end of a block, and the scramble behind them. */
  method FinishBlock(k: Kernel, acc: Acc, soFar: nat, toEnd: nat, input: seq<Byte>, at: nat,
                     secret: seq<Byte>, secretLimit: nat, ghost data: seq<Byte>, ghost n: nat) returns (r: Acc)
    requires Reading(k, secret, data, input, n, at, acc, soFar)
    requires secretLimit == |secret| - STRIPE_LEN && soFar + toEnd == StripesPerBlock(secret)
    requires at + toEnd * STRIPE_LEN < |input|
    ensures Reading(k, secret, data, input, n + toEnd, at + toEnd * STRIPE_LEN, r, 0)
  {
    InputStripes(data, input, n, at, toEnd);
    r := Accumulate(k, acc, input, at, secret, soFar, toEnd, data, n);
    r := k.scramble(r, Stripe(secret, secretLimit));
  }

  lemma InputStripes(data: seq<Byte>, input: seq<Byte>, n: nat, p: nat, nb: nat)
    requires |input| <= |data| && data[|data| - |input|..] == input
    requires STRIPE_LEN * n == |data| - |input| + p
    requires p + STRIPE_LEN * nb <= |input|
    ensures input[p..p + STRIPE_LEN * nb] == data[STRIPE_LEN * n..STRIPE_LEN * (n + nb)]
  {
  }

  /** The medium-input branch of XXH3_update: whole buffer sizes, always leaving some input. */
  method IngestBuffers(k: Kernel, acc: Acc, soFar: nat, perBlock: nat, input: seq<Byte>, at: nat,
                       secret: seq<Byte>, secretLimit: nat, ghost data: seq<Byte>, ghost n: nat)
    returns (r: Acc, soFar': nat, p: nat, ghost m: nat)
    requires Reading(k, secret, data, input, n, at, acc, soFar)
    requires secretLimit == |secret| - STRIPE_LEN && perBlock == StripesPerBlock(secret)
    requires |input| - at > BUFFER_SIZE
    ensures Reading(k, secret, data, input, m, p, r, soFar')
    ensures p >= STRIPE_LEN && |input| - p <= BUFFER_SIZE
  {
    r, soFar', p, m := acc, soFar, at, n;
    while |input| - p > BUFFER_SIZE
      invariant p >= STRIPE_LEN || p == at
      invariant Reading(k, secret, data, input, m, p, r, soFar')
    {
      InputStripes(data, input, m, p, BUFFER_STRIPES);
      r, soFar' := ConsumeStripes(k, r, soFar', perBlock, input, p, BUFFER_STRIPES, secret, secretLimit, data, m);
      p := p + BUFFER_SIZE;
      m := m + BUFFER_STRIPES;
    }
  }

  lemma StreamsNothing(k: Kernel, secret: seq<Byte>, buffer: seq<Byte>)
    requires |secret| >= SECRET_SIZE_MIN && |buffer| == BUFFER_SIZE
    ensures Streams(k, secret, [], 0, k.initAcc, 0, buffer, 0)
  {
  }

  /** Appending to a buffer with room keeps `Streams`. */
  lemma StreamsAppend(k: Kernel, secret: seq<Byte>, data: seq<Byte>, n: nat, acc: Acc, soFar: nat,
                      before: seq<Byte>, size: nat, input: seq<Byte>, after: seq<Byte>)
    requires Streams(k, secret, data, n, acc, soFar, before, size)
    requires size + |input| <= BUFFER_SIZE
    requires after == Splice(before, size, input[0..0 + |input|])
    ensures Streams(k, secret, data + input, n, acc, soFar, after, size + |input|)
  {
    AbsorbPrefix(k, secret, data, input, n);
    assert input[0..0 + |input|] == input;
    BufferAppend(data, input, STRIPE_LEN * n, before, size, after);
    if n > 0 {
      TailAppend(data, input, STRIPE_LEN * n, before, after, TailStart(size), TailStart(size + |input|));
    }
  }

  lemma BufferAppend(data: seq<Byte>, input: seq<Byte>, absorbed: nat, before: seq<Byte>, size: nat, after: seq<Byte>)
    requires size + |input| <= |before| && after == Splice(before, size, input)
    requires absorbed <= |data| && before[..size] == data[absorbed..]
    ensures after[..size + |input|] == (data + input)[absorbed..]
  {
    assert after[..size + |input|] == before[..size] + input;
  }

  lemma TailAppend(data: seq<Byte>, input: seq<Byte>, absorbed: nat, before: seq<Byte>, after: seq<Byte>, t: nat,
                   t': nat)
    requires |before| == |after| == BUFFER_SIZE && absorbed <= |data| && t <= t' <= BUFFER_SIZE <= absorbed + t
    requires after[t'..] == before[t'..]
    requires before[t..] == data[absorbed - BUFFER_SIZE + t..absorbed]
    ensures after[t'..] == (data + input)[absorbed - BUFFER_SIZE + t'..absorbed]
  {
    assert before[t'..] == before[t..][t' - t..];
  }

  /** The last 64 bytes of the buffer are the last absorbed stripe. */
  ghost predicate TailKept(data: seq<Byte>, n: nat, buffer: seq<Byte>) {
    && |buffer| == BUFFER_SIZE
    && 0 < n && STRIPE_LEN * n <= |data|
    && buffer[BUFFER_SIZE - STRIPE_LEN..] == data[STRIPE_LEN * (n - 1)..STRIPE_LEN * n]
  }

  /** Moving what is left of the input to the front of the buffer restores `Streams`. */
  lemma StreamsSettle(k: Kernel, secret: seq<Byte>, data: seq<Byte>, input: seq<Byte>, n: nat, p: nat,
                      acc: Acc, soFar: nat, before: seq<Byte>, after: seq<Byte>)
    requires Reading(k, secret, data, input, n, p, acc, soFar)
    requires |data| > BUFFER_SIZE && |input| - p <= BUFFER_SIZE
    requires TailKept(data, n, before)
    requires after == Splice(before, 0, input[p..p + (|input| - p)])
    ensures Streams(k, secret, data, n, acc, soFar, after, |input| - p)
  {
    var size := |input| - p;
    assert input[p..p + size] == input[p..];
    assert after[..size] == input[p..] == data[STRIPE_LEN * n..];
    var t := TailStart(size);
    assert after[t..] == before[BUFFER_SIZE - STRIPE_LEN..][t - (BUFFER_SIZE - STRIPE_LEN)..];
  }

  /** Complete the partly filled buffer from the input and consume it. */
  method FlushBuffer(k: Kernel, buffer: array<Byte>, acc: Acc, soFar: nat, size: nat, perBlock: nat, input: seq<Byte>,
                     secret: seq<Byte>, secretLimit: nat, ghost fed: seq<Byte>, ghost n: nat)
    returns (r: Acc, soFar': nat)
    requires Streams(k, secret, fed, n, acc, soFar, buffer[..], size)
    requires secretLimit == |secret| - STRIPE_LEN && perBlock == StripesPerBlock(secret)
    requires 0 < size && size + |input| > BUFFER_SIZE
    modifies buffer
    ensures Reading(k, secret, fed + input, input, n + BUFFER_STRIPES, BUFFER_SIZE - size, r, soFar')
    ensures TailKept(fed + input, n + BUFFER_STRIPES, buffer[..])
  {
    ghost var data := fed + input;
    AbsorbPrefix(k, secret, fed, input, n);
    var load := BUFFER_SIZE - size;
    ghost var before := buffer[..];
    CopyInto(buffer, size, input, 0, load);
    FlushedWindow(fed, input, n, before, size, buffer[..]);
    r, soFar' := ConsumeStripes(k, acc, soFar, perBlock, buffer[..], 0, BUFFER_STRIPES, secret, secretLimit, data, n);
    CutWindow(buffer[..], 0, data, STRIPE_LEN * n, BUFFER_SIZE, BUFFER_SIZE - STRIPE_LEN);
  }

  lemma FlushedWindow(fed: seq<Byte>, input: seq<Byte>, n: nat, before: seq<Byte>, size: nat, after: seq<Byte>)
    requires |before| == BUFFER_SIZE && size <= BUFFER_SIZE < size + |input|
    requires STRIPE_LEN * n + size == |fed| && before[..size] == fed[STRIPE_LEN * n..]
    requires after == Splice(before, size, input[0..0 + (BUFFER_SIZE - size)])
    ensures |after| == BUFFER_SIZE
    ensures after[0..0 + STRIPE_LEN * BUFFER_STRIPES] ==
            (fed + input)[STRIPE_LEN * n..STRIPE_LEN * (n + BUFFER_STRIPES)]
  {
    assert after == fed[STRIPE_LEN * n..] + input[..BUFFER_SIZE - size];
  }

  /** XXH3_update from the point where the input no longer fits the buffer. */
  method Ingest(k: Kernel, buffer: array<Byte>, acc: Acc, soFar: nat, size: nat, perBlock: nat, input: seq<Byte>,
                secret: seq<Byte>, secretLimit: nat, ghost fed: seq<Byte>, ghost n: nat)
    returns (r: Acc, soFar': nat, size': nat, ghost m: nat)
    requires Streams(k, secret, fed, n, acc, soFar, buffer[..], size)
    requires secretLimit == |secret| - STRIPE_LEN && perBlock == StripesPerBlock(secret)
    requires size + |input| > BUFFER_SIZE
    modifies buffer
    ensures Streams(k, secret, fed + input, m, r, soFar', buffer[..], size')
  {
    ghost var data := fed + input;
    var p := 0;
    r, soFar', m := acc, soFar, n;
    if size != 0 {
      r, soFar' := FlushBuffer(k, buffer, acc, soFar, size, perBlock, input, secret, secretLimit, fed, n);
      p := BUFFER_SIZE - size;
      m := n + BUFFER_STRIPES;
    } else {
      assert fed == [] && data == input;
    }
    if |input| - p > perBlock * STRIPE_LEN {
      r, soFar', p, m := IngestBlocks(k, r, soFar', perBlock, input, p, secret, secretLimit, data, m);
      KeepPredecessor(buffer, input, p, data, m);
    } else if |input| - p > BUFFER_SIZE {
      r, soFar', p, m := IngestBuffers(k, r, soFar', perBlock, input, p, secret, secretLimit, data, m);
      KeepPredecessor(buffer, input, p, data, m);
    }
    size' := Settle(k, buffer, input, p, secret, r, soFar', data, m);
  }

  /** Some input always remains: buffer it. */
  method Settle(k: Kernel, buffer: array<Byte>, input: seq<Byte>, p: nat, ghost secret: seq<Byte>, ghost acc: Acc,
                ghost soFar: nat, ghost data: seq<Byte>, ghost n: nat)
    returns (size: nat)
    requires Reading(k, secret, data, input, n, p, acc, soFar)
    requires TailKept(data, n, buffer[..])
    requires |data| > BUFFER_SIZE && |input| - p <= BUFFER_SIZE
    modifies buffer
    ensures Streams(k, secret, data, n, acc, soFar, buffer[..], size)
  {
    ghost var before := buffer[..];
    CopyInto(buffer, 0, input, p, |input| - p);
    StreamsSettle(k, secret, data, input, n, p, acc, soFar, before, buffer[..]);
    size := |input| - p;
  }

  /** XXH3_update, apart from the length counter. */
  method Feed(k: Kernel, buffer: array<Byte>, acc: Acc, soFar: nat, size: nat, perBlock: nat, input: seq<Byte>,
              secret: seq<Byte>, secretLimit: nat, ghost fed: seq<Byte>, ghost n: nat)
    returns (r: Acc, soFar': nat, size': nat, ghost m: nat)
    requires Streams(k, secret, fed, n, acc, soFar, buffer[..], size)
    requires secretLimit == |secret| - STRIPE_LEN && perBlock == StripesPerBlock(secret)
    modifies buffer
    ensures Streams(k, secret, fed + input, m, r, soFar', buffer[..], size')
  {
    if size + |input| <= BUFFER_SIZE {
      ghost var before := buffer[..];
      CopyInto(buffer, size, input, 0, |input|);
      StreamsAppend(k, secret, fed, n, acc, soFar, before, size, input, buffer[..]);
      r, soFar', size', m := acc, soFar, size + |input|, n;
    } else {
      r, soFar', size', m := Ingest(k, buffer, acc, soFar, size, perBlock, input, secret, secretLimit, fed, n);
    }
  }

  /** Buffer the predecessor of the last partial stripe. */
  method KeepPredecessor(buffer: array<Byte>, input: seq<Byte>, p: nat, ghost data: seq<Byte>, ghost n: nat)
    requires buffer.Length == BUFFER_SIZE
    requires STRIPE_LEN <= p <= |input| <= |data| && data[|data| - |input|..] == input
    requires STRIPE_LEN * n == |data| - |input| + p
    modifies buffer
    ensures TailKept(data, n, buffer[..])
  {
    CopyInto(buffer, BUFFER_SIZE - STRIPE_LEN, input, p - STRIPE_LEN, STRIPE_LEN);
    assert buffer[..][BUFFER_SIZE - STRIPE_LEN..] == input[p - STRIPE_LEN..p];
  }

  /** With less than a stripe buffered, the last stripe is the end of the kept one and the buffer. */
  lemma StraddlingStripe(data: seq<Byte>, n: nat, buffer: seq<Byte>, size: nat)
    requires TailKept(data, n, buffer)
    requires 0 < size < STRIPE_LEN && STRIPE_LEN * n + size == |data| && buffer[..size] == data[STRIPE_LEN * n..]
    ensures n == (|data| - 1) / STRIPE_LEN
    ensures buffer[BUFFER_SIZE - (STRIPE_LEN - size)..] + buffer[..size] == Stripe(data, |data| - STRIPE_LEN)
  {
    assert buffer[BUFFER_SIZE - (STRIPE_LEN - size)..] == buffer[BUFFER_SIZE - STRIPE_LEN..][size..];
  }

  /** The whole stripes that are still buffered, all but the last byte. */
  method DigestBuffered(k: Kernel, acc: Acc, soFar: nat, perBlock: nat, buffer: seq<Byte>, size: nat,
                        secret: seq<Byte>, secretLimit: nat, ghost data: seq<Byte>, ghost n: nat)
    returns (r: Acc)
    requires Streams(k, secret, data, n, acc, soFar, buffer, size) && size >= STRIPE_LEN
    requires secretLimit == |secret| - STRIPE_LEN && perBlock == StripesPerBlock(secret)
    ensures r == Absorb(k, secret, data, (|data| - 1) / STRIPE_LEN).acc
  {
    var nb := (size - 1) / STRIPE_LEN;
    ghost var soFar';
    CutWindow(buffer, 0, data, STRIPE_LEN * n, size, STRIPE_LEN * nb);
    r, soFar' := ConsumeStripes(k, acc, soFar, perBlock, buffer, 0, nb, secret, secretLimit, data, n);
    assert n + nb == (|data| - 1) / STRIPE_LEN;
  }

  /** XXH3_digest_long, on a copy of the accumulators. */
  method DigestLong(k: Kernel, acc: Acc, soFar: nat, perBlock: nat, buffer: seq<Byte>, size: nat,
                    secret: seq<Byte>, secretLimit: nat, ghost data: seq<Byte>, ghost n: nat)
    returns (r: Acc)
    requires Streams(k, secret, data, n, acc, soFar, buffer, size)
    requires secretLimit == |secret| - STRIPE_LEN && perBlock == StripesPerBlock(secret)
    requires |data| > MIDSIZE_MAX
    ensures r == LongAcc(k, secret, data)
  {
    if size >= STRIPE_LEN {
      r := DigestBuffered(k, acc, soFar, perBlock, buffer, size, secret, secretLimit, data, n);
      CutWindow(buffer, 0, data, STRIPE_LEN * n, size, size - STRIPE_LEN);
      r := k.accumulate512(r, Stripe(buffer, size - STRIPE_LEN), Stripe(secret, secretLimit - LASTACC_START));
    } else {
      var catchup := STRIPE_LEN - size;
      var last := buffer[BUFFER_SIZE - catchup..] + buffer[..size];
      StraddlingStripe(data, n, buffer, size);
      r := k.accumulate512(acc, last, Stripe(secret, secretLimit - LASTACC_START));
    }
  }

  lemma LongOneShots(k: Kernel, mode: Mode, data: seq<Byte>, a: Acc)
    requires k.WellFormed() && mode.Usable() && |data| > MIDSIZE_MAX && a == LongAcc(k, LongSecret(k, mode), data)
    ensures OneShot64(k, mode, data) == Merge64(k, LongSecret(k, mode), a, |data|)
    ensures OneShot128(k, mode, data) == Merge128(k, LongSecret(k, mode), a, |data|)
  {
  }

  /** What a successful reset in each mode leaves in `seed`, `useSeed` and `extSecret`. */
  function SeedOf(mode: Mode): bv64 {
    if mode.WithSeed? || mode.WithSecretAndSeed? then mode.seed else 0
  }

  predicate UsesSeed(mode: Mode) {
    mode.WithSecretAndSeed? || (mode.WithSeed? && mode.seed != 0)
  }

  function ExtSecretOf(k: Kernel, mode: Mode): Option<seq<Byte>> {
    if mode.WithSecret? || mode.WithSecretAndSeed? then Some(mode.secret)
    else if mode.WithSeed? && mode.seed != 0 then None
    else Some(k.defaultSecret)
  }

  /** XXH3_state_t. `session` is the mode of the last successful reset, if the state is usable;
      `fed` is what was fed since. */
  class State {
    const k: Kernel
    var acc: Acc
    var customSecret: seq<Byte>
    const buffer: array<Byte>
    var bufferedSize: nat
    var useSeed: bool
    var nbStripesSoFar: nat
    var totalLen: nat
    var nbStripesPerBlock: nat
    var secretLimit: nat
    var seed: bv64
    var extSecret: Option<seq<Byte>>
    ghost var session: Option<Mode>
    ghost var fed: seq<Byte>
    ghost var stripes: nat

    /** The cached custom secret is the one the recorded seed derives. */
    ghost predicate Coherent()
      reads `extSecret, `customSecret, `seed
    {
      extSecret.None? && seed != 0 ==> customSecret == k.deriveSecret(seed)
    }

    ghost predicate Configured(mode: Mode)
      reads `extSecret, `useSeed, `seed
    {
      seed == SeedOf(mode) && useSeed == UsesSeed(mode) && extSecret == ExtSecretOf(k, mode)
    }

    ghost predicate Valid()
      reads this, buffer
    {
      && k.WellFormed()
      && buffer.Length == BUFFER_SIZE
      && Coherent()
      && (session.Some? ==>
            && session.value.Usable()
            && Configured(session.value)
            && secretLimit == |Secret()| - STRIPE_LEN
            && nbStripesPerBlock == secretLimit / CONSUME_RATE
            && totalLen == |fed| % TWO64
            && Streams(k, Secret(), fed, stripes, acc, nbStripesSoFar, buffer[..], bufferedSize))
    }

    function Secret(): seq<Byte>
      reads `extSecret, `customSecret
    {
      if extSecret.None? then customSecret else extSecret.value
    }

    /** XXH3_createState: only the seed is initialised. */
    constructor (k: Kernel)
      requires k.WellFormed()
      ensures Valid() && this.k == k && session == None && fresh(buffer)
    {
      this.k := k;
      buffer := new Byte[BUFFER_SIZE];
      acc, customSecret, extSecret := [], [], None;
      seed := 0;
      session := None;
    }

    /** XXH3_reset_internal. The buffer keeps its bytes. */
    method ResetInternal(newSeed: bv64, secret: Option<seq<Byte>>, secretSize: nat)
      modifies this
      ensures acc == k.initAcc && bufferedSize == 0 && nbStripesSoFar == 0 && totalLen == 0
      ensures seed == newSeed && useSeed == (newSeed != 0) && extSecret == secret
      ensures secretLimit ==
              if secretSize >= STRIPE_LEN then secretSize - STRIPE_LEN else TWO64 + secretSize - STRIPE_LEN
      ensures nbStripesPerBlock == secretLimit / CONSUME_RATE
      ensures customSecret == old(customSecret)
      ensures fed == [] && stripes == 0 && session == None
    {
      bufferedSize, nbStripesSoFar, totalLen := 0, 0, 0;
      acc := k.initAcc;
      seed := newSeed;
      useSeed := newSeed != 0;
      extSecret := secret;
      secretLimit := if secretSize >= STRIPE_LEN then secretSize - STRIPE_LEN else TWO64 + secretSize - STRIPE_LEN;
      nbStripesPerBlock := secretLimit / CONSUME_RATE;
      fed, stripes, session := [], 0, None;
    }

    /** XXH3_64bits_reset. */
    method Reset()
      requires Valid()
      modifies this
      ensures Valid() && session == Some(Default) && fed == []
    {
      ResetInternal(0, Some(k.defaultSecret), SECRET_DEFAULT_SIZE);
      session := Some(Default);
      StreamsNothing(k, Secret(), buffer[..]);
    }

    /** XXH3_64bits_reset_withSecret: a missing or short secret is reported after the state was
        already overwritten. */
    method ResetWithSecret(secret: Option<seq<Byte>>) returns (ok: bool)
      requires Valid()
      requires secret.Some? ==> |secret.value| < TWO64
      modifies this
      ensures Valid() && fed == []
      ensures ok <==> secret.Some? && |secret.value| >= SECRET_SIZE_MIN
      ensures session == if ok then Some(WithSecret(secret.value)) else None
    {
      var size := if secret.Some? then |secret.value| else 0;
      ResetInternal(0, secret, size);
      if secret.None? || size < SECRET_SIZE_MIN {
        return false;
      }
      session := Some(WithSecret(secret.value));
      StreamsNothing(k, Secret(), buffer[..]);
      return true;
    }

    /** XXH3_64bits_reset_withSeed: the derived secret is kept when the seed did not change. */
    method ResetWithSeed(newSeed: bv64)
      requires Valid()
      modifies this
      ensures Valid() && fed == []
      ensures session == Some(WithSeed(newSeed))
    {
      if newSeed == 0 {
        Reset();
        session := Some(WithSeed(0));
        return;
      }
      if newSeed != seed || extSecret.Some? {
        customSecret := k.deriveSecret(newSeed);
      }
      ResetInternal(newSeed, None, SECRET_DEFAULT_SIZE);
      session := Some(WithSeed(newSeed));
      StreamsNothing(k, Secret(), buffer[..]);
    }

    /** XXH3_64bits_reset_withSecretandSeed: a missing or short secret leaves the state alone. */
    method ResetWithSecretAndSeed(secret: Option<seq<Byte>>, newSeed: bv64) returns (ok: bool)
      requires Valid()
      requires secret.Some? ==> |secret.value| < TWO64
      modifies this
      ensures Valid()
      ensures ok <==> secret.Some? && |secret.value| >= SECRET_SIZE_MIN
      ensures session == if ok then Some(WithSecretAndSeed(secret.value, newSeed)) else old(session)
      ensures fed == if ok then [] else old(fed)
    {
      if secret.None? || |secret.value| < SECRET_SIZE_MIN {
        return false;
      }
      ResetInternal(newSeed, secret, |secret.value|);
      useSeed := true;
      session := Some(WithSecretAndSeed(secret.value, newSeed));
      StreamsNothing(k, Secret(), buffer[..]);
      return true;
    }

    /** XXH3_update. */
    method Update(input: seq<Byte>)
      requires Valid() && session.Some?
      modifies `totalLen, `acc, `nbStripesSoFar, `bufferedSize, `fed, `stripes, buffer
      ensures Valid() && fed == old(fed) + input
    {
      ghost var data := fed + input;
      assert (totalLen + |input|) % TWO64 == |data| % TWO64 by { ModAdd(|fed|, |input|); }
      Consume(input);
      totalLen := (totalLen + |input|) % TWO64;
      fed := data;
    }

    /** Everything that an update does to the accumulators and the buffer. */
    method Consume(input: seq<Byte>)
      requires Valid() && session.Some?
      modifies `acc, `nbStripesSoFar, `bufferedSize, `stripes, buffer
      ensures Streams(k, Secret(), fed + input, stripes, acc, nbStripesSoFar, buffer[..], bufferedSize)
    {
      var a, soFar, size;
      ghost var n;
      a, soFar, size, n :=
        Feed(k, buffer, acc, nbStripesSoFar, bufferedSize, nbStripesPerBlock, input, Secret(), secretLimit, fed,
             stripes);
      acc, nbStripesSoFar, bufferedSize, stripes := a, soFar, size, n;
    }

    lemma LongSecretKept()
      requires Valid() && session.Some?
      ensures Secret() == LongSecret(k, session.value)
    {
    }

    /** Inputs that are never flushed are still in the buffer. */
    lemma ShortInputKept()
      requires Valid() && session.Some? && |fed| <= MIDSIZE_MAX
      ensures totalLen == |fed| && buffer[..totalLen] == fed
    {
    }

    method FinalAcc() returns (a: Acc)
      requires Valid() && session.Some? && MIDSIZE_MAX < |fed| < TWO64
      ensures totalLen == |fed| && Secret() == LongSecret(k, session.value)
      ensures a == LongAcc(k, LongSecret(k, session.value), fed)
    {
      LongSecretKept();
      a := DigestLong(k, acc, nbStripesSoFar, nbStripesPerBlock, buffer[..], bufferedSize,
                      Secret(), secretLimit, fed, stripes);
    }

    /** XXH3_64bits_digest. */
    method Digest64() returns (h: bv64)
      requires Valid() && session.Some? && |fed| < TWO64
      ensures h == OneShot64(k, session.value, fed)
    {
      if totalLen > MIDSIZE_MAX {
        var a := FinalAcc();
        LongOneShots(k, session.value, fed, a);
        h := Merge64(k, Secret(), a, totalLen);
      } else {
        h := DigestShort64();
      }
    }

    method DigestShort64() returns (h: bv64)
      requires Valid() && session.Some? && |fed| <= MIDSIZE_MAX
      ensures h == OneShot64(k, session.value, fed)
    {
      ShortInputKept();
      if useSeed {
        h := k.short64(buffer[..totalLen], k.defaultSecret, seed);
      } else {
        h := k.short64(buffer[..totalLen], Secret(), 0);
      }
    }

    /** XXH3_128bits_digest. Unlike the 64-bit digest, short inputs look at the seed itself: after a
        reset with a secret and seed 0 they are hashed as if the seed had not been given. */
    method Digest128() returns (h: Hash128)
      requires Valid() && session.Some? && |fed| < TWO64
      ensures
        h == if session.value.WithSecretAndSeed? && session.value.seed == 0 && |fed| <= MIDSIZE_MAX then
               OneShot128(k, WithSecret(session.value.secret), fed)
             else
               OneShot128(k, session.value, fed)
    {
      if totalLen > MIDSIZE_MAX {
        var a := FinalAcc();
        LongOneShots(k, session.value, fed, a);
        h := Merge128(k, Secret(), a, totalLen);
      } else {
        h := DigestShort128();
      }
    }

    method DigestShort128() returns (h: Hash128)
      requires Valid() && session.Some? && |fed| <= MIDSIZE_MAX
      ensures
        h == if session.value.WithSecretAndSeed? && session.value.seed == 0 then
               OneShot128(k, WithSecret(session.value.secret), fed)
             else
               OneShot128(k, session.value, fed)
    {
      ShortInputKept();
      if seed != 0 {
        h := k.short128(buffer[..totalLen], k.defaultSecret, seed);
      } else {
        h := k.short128(buffer[..totalLen], Secret(), 0);
      }
    }
  }
}
