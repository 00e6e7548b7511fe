/** The byte stream hashed into the device cache key. */
module DeviceKey {
  import opened Machine
  import opened Bytes
  import opened WorkgroupPolicy

  const FINGERPRINT_BYTES := 32

  /** The profile fields that the key hashes or the tuner reads. */
  datatype Profile = Profile(backend: seq<u8>, subgroupOps: bool, indirectDispatch: bool, f16: bool, bf16: bool,
                             tensorCores: bool, maxWorkgroup: Dims, maxInvocations: u32, maxSharedMemory: u32,
                             subgroupSize: u32, computeUnits: u32, idealUnroll: u32, idealVectorPack: u32,
                             idealTile: Dims, specialization: bool)

  function AdapterCaps(d: Profile): Caps {
    Caps(d.maxWorkgroup, d.maxInvocations, d.subgroupSize, d.idealTile, d.specialization)
  }

  /** The profile with the fields the key leaves out set to fixed values. */
  function Hashed(d: Profile): Profile {
    d.(idealTile := Dims(0, 0, 0), specialization := false)
  }

  function Ascii(s: string): (b: seq<u8>)
    ensures |b| == |s|
  {
    seq(|s|, i requires 0 <= i < |s| => if s[i] < 128 as char then s[i] as int else 0)
  }

  const DOMAIN: seq<u8> := Ascii("vyre-core-optimize-device-v1") + [0]

  function Flag(b: bool): seq<u8> {
    [if b then 1 else 0]
  }

  function Flags(d: Profile): (b: seq<u8>)
    ensures |b| == 5
  {
    Flag(d.subgroupOps) + Flag(d.indirectDispatch) + Flag(d.f16) + Flag(d.bf16) + Flag(d.tensorCores)
  }

  function Words(d: Profile): seq<u32> {
    [d.maxWorkgroup.x, d.maxWorkgroup.y, d.maxWorkgroup.z, d.maxInvocations, d.maxSharedMemory,
     d.subgroupSize, d.computeUnits, d.idealUnroll, d.idealVectorPack]
  }

  function Encode(fingerprint: seq<u8>, d: Profile): seq<u8> {
    DOMAIN + fingerprint + d.backend + Flags(d) + WordBytes(Words(d))
  }

  /** A hasher, as the bytes it has been fed. */
  class Hasher {
    var fed: seq<u8>

    constructor ()
      ensures fed == []
    {
      fed := [];
    }

    method Update(bytes: seq<u8>)
      modifies this
      ensures fed == old(fed) + bytes
    {
      fed := fed + bytes;
    }
  }

  method DeviceOptimizeKey<K>(digest: seq<u8> -> K, fingerprint: seq<u8>, d: Profile) returns (key: K)
    ensures key == digest(Encode(fingerprint, d))
  {
    hide Le32, Ascii;
    var hasher := new Hasher();
    hasher.Update(DOMAIN);
    hasher.Update(fingerprint);
    hasher.Update(d.backend);
    FeedFlags(hasher, d);
    FeedWords(hasher, d);
    assert hasher.fed == Encode(fingerprint, d);
    key := digest(hasher.fed);
  }

  method FeedFlags(hasher: Hasher, d: Profile)
    modifies hasher
    ensures hasher.fed == old(hasher.fed) + Flags(d)
  {
    hasher.Update(Flag(d.subgroupOps));
    hasher.Update(Flag(d.indirectDispatch));
    hasher.Update(Flag(d.f16));
    hasher.Update(Flag(d.bf16));
    hasher.Update(Flag(d.tensorCores));
  }

  method FeedWords(hasher: Hasher, d: Profile)
    modifies hasher
    ensures hasher.fed == old(hasher.fed) + WordBytes(Words(d))
  {
    hide Words, WordBytes, Le32;
    ghost var start := hasher.fed;
    var w := Words(d);
    assert w[..0] == [] && w[..9] == w && start + WordBytes([]) == start by { NineWords(d); }
    FeedWord(hasher, start, w, 0);
    FeedWord(hasher, start, w, 1);
    FeedWord(hasher, start, w, 2);
    FeedWord(hasher, start, w, 3);
    FeedWord(hasher, start, w, 4);
    FeedWord(hasher, start, w, 5);
    FeedWord(hasher, start, w, 6);
    FeedWord(hasher, start, w, 7);
    FeedWord(hasher, start, w, 8);
  }

  lemma NineWords(d: Profile)
    ensures |Words(d)| == 9 && WordBytes([]) == []
  {
  }

  method FeedWord(hasher: Hasher, ghost start: seq<u8>, w: seq<u32>, k: nat)
    requires k < |w| && hasher.fed == start + WordBytes(w[..k])
    modifies hasher
    ensures hasher.fed == start + WordBytes(w[..k + 1])
  {
    hide Le32;
    hasher.Update(Le32(w[k]));
    OneMoreWord(w, k);
  }

  lemma FlagsInjective(a: Profile, b: Profile)
    requires Flags(a) == Flags(b)
    ensures a.subgroupOps == b.subgroupOps && a.indirectDispatch == b.indirectDispatch && a.f16 == b.f16
    ensures a.bf16 == b.bf16 && a.tensorCores == b.tensorCores
  {
    assert Flags(a)[0] == Flags(b)[0] && Flags(a)[1] == Flags(b)[1] && Flags(a)[2] == Flags(b)[2];
    assert Flags(a)[3] == Flags(b)[3] && Flags(a)[4] == Flags(b)[4];
  }

  /** Cutting the stream back into its parts. */
  lemma EncodeParts(fingerprint: seq<u8>, d: Profile)
    requires |fingerprint| == FINGERPRINT_BYTES
    ensures
      var e, p := Encode(fingerprint, d), |DOMAIN|;
      var end := p + FINGERPRINT_BYTES + |d.backend|;
      && |e| == end + 41
      && e[p..p + FINGERPRINT_BYTES] == fingerprint
      && e[p + FINGERPRINT_BYTES..end] == d.backend
      && e[end..end + 5] == Flags(d)
      && e[end + 5..] == WordBytes(Words(d))
  {
    hide Le32, Flags, WordBytes, Ascii;
  }

  /** Where each hashed field stands: after the tag, the fingerprint and the backend name
      come five flag bytes, then nine words. */
  lemma KeyLayout(fingerprint: seq<u8>, d: Profile)
    requires |fingerprint| == FINGERPRINT_BYTES
    ensures
      var e := Encode(fingerprint, d);
      var flags := 29 + FINGERPRINT_BYTES + |d.backend|;
      var words := flags + 5;
      && |e| == words + 36
      && e[flags] == (if d.subgroupOps then 1 else 0) && e[flags + 1] == (if d.indirectDispatch then 1 else 0)
      && e[flags + 2] == (if d.f16 then 1 else 0) && e[flags + 3] == (if d.bf16 then 1 else 0)
      && e[flags + 4] == (if d.tensorCores then 1 else 0)
      && WordAt(e[words..], 0) == d.maxWorkgroup.x && WordAt(e[words..], 1) == d.maxWorkgroup.y
      && WordAt(e[words..], 2) == d.maxWorkgroup.z && WordAt(e[words..], 3) == d.maxInvocations
      && WordAt(e[words..], 4) == d.maxSharedMemory && WordAt(e[words..], 5) == d.subgroupSize
      && WordAt(e[words..], 6) == d.computeUnits && WordAt(e[words..], 7) == d.idealUnroll
      && WordAt(e[words..], 8) == d.idealVectorPack
  {
    EncodeParts(fingerprint, d);
    var e, flags := Encode(fingerprint, d), |DOMAIN| + FINGERPRINT_BYTES + |d.backend|;
    assert |DOMAIN| == 29;
    FlagBytes(d);
    hide Encode, Flags, WordBytes, WordAt, Words, Ascii;
    assert e[flags..flags + 5][0] == e[flags] && e[flags..flags + 5][1] == e[flags + 1];
    assert e[flags..flags + 5][2] == e[flags + 2] && e[flags..flags + 5][3] == e[flags + 3];
    assert e[flags..flags + 5][4] == e[flags + 4];
    WordsAre(d);
  }

  lemma FlagBytes(d: Profile)
    ensures
      && Flags(d)[0] == (if d.subgroupOps then 1 else 0) && Flags(d)[1] == (if d.indirectDispatch then 1 else 0)
      && Flags(d)[2] == (if d.f16 then 1 else 0) && Flags(d)[3] == (if d.bf16 then 1 else 0)
      && Flags(d)[4] == (if d.tensorCores then 1 else 0)
  {
  }

  lemma WordsAre(d: Profile)
    ensures
      var b := WordBytes(Words(d));
      && |b| == 36
      && WordAt(b, 0) == d.maxWorkgroup.x && WordAt(b, 1) == d.maxWorkgroup.y && WordAt(b, 2) == d.maxWorkgroup.z
      && WordAt(b, 3) == d.maxInvocations && WordAt(b, 4) == d.maxSharedMemory && WordAt(b, 5) == d.subgroupSize
      && WordAt(b, 6) == d.computeUnits && WordAt(b, 7) == d.idealUnroll && WordAt(b, 8) == d.idealVectorPack
  {
    hide WordBytes, WordAt;
    var w := Words(d);
    assert |WordBytes(w)| == 36;
    forall i: nat | i < 9
      ensures WordAt(WordBytes(w), i) == w[i]
    {
      ReadBack(w, i);
    }
  }

  /** The stream determines the fingerprint and every hashed field: only the backend
      name has no fixed width, so the total length gives its length. */
  lemma EncodeInjective(f: seq<u8>, d: Profile, g: seq<u8>, e: Profile)
    requires |f| == FINGERPRINT_BYTES && |g| == FINGERPRINT_BYTES
    ensures Encode(f, d) == Encode(g, e) <==> f == g && Hashed(d) == Hashed(e)
  {
    hide Le32, Ascii, Flags, WordBytes;
    if Encode(f, d) == Encode(g, e) {
      EncodeParts(f, d);
      EncodeParts(g, e);
      FlagsInjective(d, e);
      WordBytesInjective(Words(d), Words(e));
      SameWords(d, e);
    } else if f == g && Hashed(d) == Hashed(e) {
      HashedDecides(d, e);
      assert false;
    }
  }

  lemma SameWords(d: Profile, e: Profile)
    requires Words(d) == Words(e)
    ensures d.maxWorkgroup == e.maxWorkgroup && d.maxInvocations == e.maxInvocations
    ensures d.maxSharedMemory == e.maxSharedMemory && d.subgroupSize == e.subgroupSize
    ensures d.computeUnits == e.computeUnits
    ensures d.idealUnroll == e.idealUnroll && d.idealVectorPack == e.idealVectorPack
  {
  }

  lemma HashedDecides(d: Profile, e: Profile)
    requires Hashed(d) == Hashed(e)
    ensures Flags(d) == Flags(e) && Words(d) == Words(e)
    ensures d.backend == e.backend
  {
  }
}
