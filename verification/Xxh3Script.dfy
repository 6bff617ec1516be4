/** Whole runs of the XXH3 streaming interface: any sequence of resets, updates and digests on one
state object, against the one-shot functions. */
module Xxh3Script {
  import opened HashBytes
  import opened Options
  import opened Sizes
  import opened Xxh3Spec
  import Xxh3Scalar
  import Xxh3Stream

  datatype Op =
    | Reset
    | ResetWithSeed(seed: bv64)
    | ResetWithSecret(secret: Option<seq<Byte>>)
    | ResetWithSecretAndSeed(secret: Option<seq<Byte>>, seed: bv64)
    | Update(chunk: seq<Byte>)
    | Digest64
    | Digest128

  datatype Output = Out64(h64: bv64) | Out128(h128: Hash128)

  /** A hash in progress: how it was configured, and the concatenation of what was fed. */
  datatype Session = Closed | Open(mode: Mode, data: seq<Byte>)

  predicate UsableSecret(secret: Option<seq<Byte>>) {
    secret.Some? && |secret.value| >= SECRET_SIZE_MIN
  }

  function After(s: Session, op: Op): Session {
    match op
    case Reset => Open(Default, [])
    case ResetWithSeed(seed) => Open(WithSeed(seed), [])
    case ResetWithSecret(secret) => if UsableSecret(secret) then Open(WithSecret(secret.value), []) else Closed
    case ResetWithSecretAndSeed(secret, seed) =>
      if UsableSecret(secret) then Open(WithSecretAndSeed(secret.value, seed), []) else s
    case Update(chunk) => if s.Open? then Open(s.mode, s.data + chunk) else s
    case _ => s
  }

  function SessionAfter(ops: seq<Op>): (s: Session)
    ensures s.Open? ==> s.mode.Usable() && |s.data| <= Fed(ops)
  {
    if ops == [] then Closed else After(SessionAfter(ops[..|ops| - 1]), ops[|ops| - 1])
  }

  /** How many bytes the run feeds in all. */
  function Fed(ops: seq<Op>): nat {
    if ops == [] then 0
    else Fed(ops[..|ops| - 1]) + if ops[|ops| - 1].Update? then |ops[|ops| - 1].chunk| else 0
  }

  /** The 128-bit digest of a session. Short inputs after a reset with a secret and seed 0 come out
      as if no seed had been given. */
  function Digest128Of(k: Kernel, mode: Mode, data: seq<Byte>): Hash128
    requires mode.Usable() && k.WellFormed()
  {
    if mode.WithSecretAndSeed? && mode.seed == 0 && |data| <= MIDSIZE_MAX then
      OneShot128(k, WithSecret(mode.secret), data)
    else
      OneShot128(k, mode, data)
  }

  /** The 128-bit digest is the one-shot hash except in that case, where it is so if and only if the short hash does
      not tell the caller's secret from the default one. */
  lemma Digest128Exactly(k: Kernel, mode: Mode, data: seq<Byte>)
    requires mode.Usable() && k.WellFormed()
    ensures Digest128Of(k, mode, data) == OneShot128(k, mode, data) <==>
      (mode.WithSecretAndSeed? && mode.seed == 0 && |data| <= MIDSIZE_MAX ==>
         k.short128(data, mode.secret, 0) == k.short128(data, k.defaultSecret, 0))
  {
  }

  /** What each digest of the run must return: the one-shot hash of everything fed since the last
      effective reset, whatever happened to the state object before it. */
  function Outputs(k: Kernel, ops: seq<Op>): seq<Output>
    requires k.WellFormed()
  {
    if ops == [] then []
    else
      var before := ops[..|ops| - 1];
      var s := SessionAfter(before);
      Outputs(k, before) +
      if s.Closed? then []
      else if ops[|ops| - 1].Digest64? then [Out64(OneShot64(k, s.mode, s.data))]
      else if ops[|ops| - 1].Digest128? then [Out128(Digest128Of(k, s.mode, s.data))]
      else []
  }

  predicate FitsMemory(op: Op) {
    (op.ResetWithSecret? || op.ResetWithSecretAndSeed?) && op.secret.Some? ==> |op.secret.value| < TWO64
  }

  ghost predicate InSession(st: Xxh3Stream.State, s: Session)
    reads st
  {
    match s
    case Closed => st.session == None
    case Open(mode, data) => st.session == Some(mode) && st.fed == data
  }

  /** One operation of the run. After a failed reset the caller must not go on with that hash, so
      updates and digests are not issued. */
  method Apply(st: Xxh3Stream.State, op: Op, open: bool, ghost s: Session) returns (out: seq<Output>, open': bool)
    requires st.Valid() && InSession(st, s) && FitsMemory(op) && open == s.Open?
    requires s.Open? ==> s.mode.Usable() && |s.data| < TWO64
    modifies st, st.buffer
    ensures st.Valid() && InSession(st, After(s, op)) && open' == After(s, op).Open?
    ensures out == if s.Closed? then []
                   else if op.Digest64? then [Out64(OneShot64(st.k, s.mode, s.data))]
                   else if op.Digest128? then [Out128(Digest128Of(st.k, s.mode, s.data))]
                   else []
  {
    out, open' := [], open;
    match op
    case Reset => st.Reset(); open' := true;
    case ResetWithSeed(seed) => st.ResetWithSeed(seed); open' := true;
    case ResetWithSecret(secret) => open' := st.ResetWithSecret(secret);
    case ResetWithSecretAndSeed(secret, seed) =>
      var ok := st.ResetWithSecretAndSeed(secret, seed);
      open' := open || ok;
    case Update(chunk) => if open { st.Update(chunk); }
    case Digest64 => if open { var h := st.Digest64(); out := [Out64(h)]; }
    case Digest128 => if open { var h := st.Digest128(); out := [Out128(h)]; }
  }

  /** Streaming equals one-shot over every run of the interface, for every kernel. */
  method Run(k: Kernel, ops: seq<Op>) returns (outs: seq<Output>)
    requires k.WellFormed()
    requires Fed(ops) < TWO64
    requires forall op :: op in ops ==> FitsMemory(op)
    ensures outs == Outputs(k, ops)
  {
    var st := new Xxh3Stream.State(k);
    outs := [];
    var open := false;
    for i := 0 to |ops|
      invariant fresh(st) && fresh(st.buffer) && st.k == k && st.Valid()
      invariant InSession(st, SessionAfter(ops[..i])) && open == SessionAfter(ops[..i]).Open?
      invariant outs == Outputs(k, ops[..i])
    {
      assert ops[..i + 1][..i] == ops[..i];
      FedMonotone(ops, i);
      var out;
      out, open := Apply(st, ops[i], open, SessionAfter(ops[..i]));
      outs := outs + out;
    }
    assert ops[..|ops|] == ops;
  }

  lemma {:induction false} FedMonotone(ops: seq<Op>, i: nat)
    requires i <= |ops|
    ensures Fed(ops[..i]) <= Fed(ops)
  {
    if i < |ops| {
      assert ops[..|ops| - 1][..i] == ops[..i];
      FedMonotone(ops[..|ops| - 1], i);
    } else {
      assert ops[..i] == ops;
    }
  }

  /** However the input is cut into chunks, empty ones included, the digests are the one-shot hashes of
      the whole input. */
  method HashChunks(k: Kernel, chunks: seq<seq<Byte>>) returns (h64: bv64, h128: Hash128)
    requires k.WellFormed()
    requires |Flatten(chunks)| < TWO64
    ensures h64 == OneShot64(k, Default, Flatten(chunks))
    ensures h128 == OneShot128(k, Default, Flatten(chunks))
  {
    var st := new Xxh3Stream.State(k);
    st.Reset();
    for i := 0 to |chunks|
      invariant fresh(st) && fresh(st.buffer) && st.Valid() && st.k == k
      invariant st.session == Some(Default) && st.fed == Flatten(chunks[..i])
    {
      assert chunks[..i + 1][..i] == chunks[..i];
      st.Update(chunks[i]);
    }
    assert chunks[..|chunks|] == chunks;
    h64 := st.Digest64();
    h128 := st.Digest128();
  }

  /** The same for the scalar kernel of the library, as XSUM_hashStream uses it. */
  method HashStream(short64: (seq<Byte>, seq<Byte>, bv64) -> bv64,
                    short128: (seq<Byte>, seq<Byte>, bv64) -> Hash128, chunks: seq<seq<Byte>>)
    returns (h64: bv64, h128: Hash128)
    requires |Flatten(chunks)| < TWO64
    ensures h64 == OneShot64(Xxh3Scalar.Scalar(short64, short128), Default, Flatten(chunks))
    ensures h128 == OneShot128(Xxh3Scalar.Scalar(short64, short128), Default, Flatten(chunks))
  {
    h64, h128 := HashChunks(Xxh3Scalar.Scalar(short64, short128), chunks);
  }
}
