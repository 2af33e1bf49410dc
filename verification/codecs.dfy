/** The codec module chain. Each codec module declares which decode-engine
    codec a profile maps to, the list of profiles it supports, and a table of
    buffer handlers indexed by buffer type. Modules register themselves by
    prepending to a process-wide chain, so the chain runs newest first.

    The two lookups over the chain differ: profile-to-codec resolution
    returns the FIRST module that answers, while context creation keeps the
    LAST module that lists the profile, because its `break` only leaves the
    inner loop. */
module Codecs {
  import opened Common

  /** VABufferType, an open C enum. */
  type BufferType = int

  /** Names a handler function of a codec module; what it does is supplied
      from outside, since the handlers are not part of this model. */
  type HandlerId = nat

  /** A codec module. `cudaCodecs` is its profile-to-codec function as a
      table: a profile it does not list maps to `CodecNone`. `handlers`
      holds the non-NULL entries of its handler table. */
  datatype NVCodec = NVCodec(
    cudaCodecs: map<Profile, CudaCodec>,
    supportedProfiles: seq<Profile>,
    handlers: map<BufferType, HandlerId>)

  /** The codec's computeCudaCodec callback. */
  function ComputeCudaCodec(c: NVCodec, p: Profile): CudaCodec {
    if p in c.cudaCodecs then c.cudaCodecs[p] else CodecNone
  }

  /** The handler for a buffer type, None for a NULL table entry. */
  function HandlerFor(c: NVCodec, bt: BufferType): (h: Option<HandlerId>)
    ensures h.Some? <==> bt in c.handlers
    ensures h.Some? ==> h.value == c.handlers[bt]
  {
    if bt in c.handlers then Some(c.handlers[bt]) else None
  }

  /** registerCodec: the new module goes to the head of the chain. */
  function RegisterCodec(chain: seq<NVCodec>, codec: NVCodec): (r: seq<NVCodec>)
    ensures |r| == |chain| + 1 && r[0] == codec && r[1..] == chain
  {
    [codec] + chain
  }

  /** vaToCuCodec: the answer of the first module in the chain that does not
      answer CodecNone, or CodecNone when none does. */
  function VaToCuCodec(chain: seq<NVCodec>, p: Profile): (r: CudaCodec)
    ensures r == CodecNone ==> forall i :: 0 <= i < |chain| ==> ComputeCudaCodec(chain[i], p) == CodecNone
    ensures r != CodecNone ==> exists i :: (0 <= i < |chain| && ComputeCudaCodec(chain[i], p) == r &&
      forall j :: 0 <= j < i ==> ComputeCudaCodec(chain[j], p) == CodecNone)
    decreases |chain|
  {
    if |chain| == 0 then CodecNone
    else
      var cvc := ComputeCudaCodec(chain[0], p);
      if cvc != CodecNone then cvc
      else
        var r := VaToCuCodec(chain[1..], p);
        assert forall i :: 0 < i < |chain| ==> chain[i] == chain[1..][i - 1];
        r
  }

  /** Reference for the context's codec: the index of the last module in
      the chain whose supported-profile list contains the profile. */
  function LastSupporting(chain: seq<NVCodec>, p: Profile): (r: Option<nat>)
    ensures r.Some? ==> r.value < |chain| && p in chain[r.value].supportedProfiles
    ensures r.Some? ==> forall j :: r.value < j < |chain| ==> p !in chain[j].supportedProfiles
    ensures r.None? ==> forall j :: 0 <= j < |chain| ==> p !in chain[j].supportedProfiles
    decreases |chain|
  {
    if |chain| == 0 then None
    else if p in chain[|chain| - 1].supportedProfiles then Some(|chain| - 1)
    else LastSupporting(chain[..|chain| - 1], p)
  }

  /** The scan nvCreateContext runs: every module, every supported profile,
      leaving only the inner loop on a match. */
  method FindContextCodec(chain: seq<NVCodec>, p: Profile) returns (found: Option<nat>)
    ensures found == LastSupporting(chain, p)
  {
    found := None;
    var c := 0;
    while c < |chain|
      invariant 0 <= c <= |chain|
      invariant found == LastSupporting(chain[..c], p)
    {
      var profiles := chain[c].supportedProfiles;
      var i := 0;
      while i < |profiles|
        invariant 0 <= i <= |profiles|
        invariant forall k :: 0 <= k < i ==> profiles[k] != p
        invariant found == LastSupporting(chain[..c], p)
      {
        if profiles[i] == p {
          found := Some(c);
          break;
        }
        i := i + 1;
      }
      assert chain[..c + 1][..c] == chain[..c];
      c := c + 1;
    }
    assert chain[..c] == chain;
  }

  // ---------------------------------------------------------------------
  // Properties
  // ---------------------------------------------------------------------

  /** A module claims a profile in both senses: it maps it to a codec and
      lists it as supported. */
  predicate Claims(c: NVCodec, p: Profile) {
    ComputeCudaCodec(c, p) != CodecNone && p in c.supportedProfiles
  }

  /** When two modules claim one profile, profile-to-codec resolution is
      answered no later than the earlier of them, while the context binds to
      a module no earlier than the later one: the two lookups disagree. */
  lemma ScansPickDifferentModules(chain: seq<NVCodec>, p: Profile, i: nat, j: nat)
    requires i < j < |chain| && Claims(chain[i], p) && Claims(chain[j], p)
    ensures exists k :: 0 <= k <= i && VaToCuCodec(chain, p) == ComputeCudaCodec(chain[k], p)
    ensures LastSupporting(chain, p).Some? && LastSupporting(chain, p).value >= j
  {
    var r := VaToCuCodec(chain, p);
    var k :| 0 <= k < |chain| && ComputeCudaCodec(chain[k], p) == r &&
      forall m :: 0 <= m < k ==> ComputeCudaCodec(chain[m], p) == CodecNone;
    assert k <= i;
  }

  /** Registering a module: for profile resolution the newest module wins. */
  lemma RegisterCodecResolution(chain: seq<NVCodec>, codec: NVCodec, p: Profile)
    ensures VaToCuCodec(RegisterCodec(chain, codec), p) ==
      if ComputeCudaCodec(codec, p) != CodecNone then ComputeCudaCodec(codec, p) else VaToCuCodec(chain, p)
  {
    assert RegisterCodec(chain, codec)[1..] == chain;
  }

  /** Registering a module: for context binding the oldest module that
      lists the profile wins, and the new module is used only when no older
      one lists it. */
  lemma {:induction false} RegisterCodecBinding(chain: seq<NVCodec>, codec: NVCodec, p: Profile)
    ensures LastSupporting(RegisterCodec(chain, codec), p) ==
      match LastSupporting(chain, p)
      case Some(k) => Some(k + 1)
      case None => if p in codec.supportedProfiles then Some(0) else None
    decreases |chain|
  {
    if |chain| > 0 {
      var init := chain[..|chain| - 1];
      RegisterCodecBinding(init, codec, p);
      LastSupportingRegisteredStep(chain, codec, p);
      var before := LastSupporting(init, p);
      var after := LastSupporting(RegisterCodec(init, codec), p);
      if p in chain[|chain| - 1].supportedProfiles {
        assert LastSupporting(chain, p) == Some(|chain| - 1);
        assert LastSupporting(RegisterCodec(chain, codec), p) == Some(|chain|);
      } else {
        assert LastSupporting(chain, p) == before;
        assert LastSupporting(RegisterCodec(chain, codec), p) == after;
      }
    } else {
      RegisterIntoEmpty(codec, p);
    }
  }

  lemma RegisterIntoEmpty(codec: NVCodec, p: Profile)
    ensures LastSupporting(RegisterCodec([], codec), p) == if p in codec.supportedProfiles then Some(0) else None
  {
    assert RegisterCodec([], codec) == [codec] && [codec][..0] == [];
  }

  /** One unfolding of LastSupporting on a chain with a module registered
      in front: the last module decides, as it does without the new one. */
  lemma LastSupportingRegisteredStep(chain: seq<NVCodec>, codec: NVCodec, p: Profile)
    requires |chain| > 0
    ensures var init := chain[..|chain| - 1];
      && LastSupporting(chain, p) ==
         (if p in chain[|chain| - 1].supportedProfiles then Some(|chain| - 1) else LastSupporting(init, p))
      && LastSupporting(RegisterCodec(chain, codec), p) ==
         (if p in chain[|chain| - 1].supportedProfiles then Some(|chain|) else LastSupporting(RegisterCodec(init, codec), p))
  {
    var r := RegisterCodec(chain, codec);
    assert r[..|r| - 1] == RegisterCodec(chain[..|chain| - 1], codec);
    assert r[|r| - 1] == chain[|chain| - 1];
  }
}
