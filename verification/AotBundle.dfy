/** Validating a compiled artifact and writing its bundle manifest. */
module AotBundle {
  import opened Machine
  import Names

  const METRIC_RECORD_WORDS := 8
  const DEFAULT_STREAMING_BUFFER_BYTES := 0x100_0000
  const SCHEMA := "vyre-aot-manifest-v1"

  datatype Buffer = Buffer(name: string, binding: u32, elementCount: u32, elementSize: u32)

  /** Three axes. */
  type Axes = s: seq<u32> | |s| == 3 witness [1, 1, 1]

  datatype Dispatch = Dispatch(workgroup: Axes, grid: Axes)

  datatype Target =
    | Ptx
    | SpirV
    | PrimaryText
    | PrimaryBinary
    | SecondaryText
    | NativeModule
    | ReferenceBackend
    | Extension(id: string)

  /** The identifier a target is written as, and that its launcher emitter is
      registered under. */
  function TargetId(target: Target): string {
    match target
    case Ptx => "secondary_text"
    case SecondaryText => "secondary_text"
    case SpirV => "spv"
    case PrimaryText => "primary_text"
    case PrimaryBinary => "primary_binary"
    case NativeModule => "native_module"
    case ReferenceBackend => "reference_backend"
    case Extension(id) => id
  }

  datatype Artifact = Artifact(target: Target, kernel: seq<u8>, entryPoint: string, buffers: seq<Buffer>,
                               dispatch: Dispatch, aotVersion: string, vsaFingerprint: seq<u32>)

  /** A manifest as it stands in the bundle: the target is the written identifier. */
  datatype Manifest = Manifest(schema: string, aotVersion: string, artifactName: string, target: string,
                               entryPoint: string, dispatch: Dispatch, kernelFile: string, weightsFile: string,
                               kernelCompression: string, weightsCompression: string, buffers: seq<Buffer>,
                               kernelSha: string, weightsSha: string, vsaFingerprint: seq<u32>)

  // ----- dispatch geometry -----

  function Product(axes: Axes): nat {
    var x: int, y: int, z: int := axes[0], axes[1], axes[2];
    ProductIsNatural(x, y, z);
    x * y * z
  }

  lemma ProductIsNatural(x: nat, y: nat, z: nat)
    ensures x * y * z >= 0
  {
  }

  predicate GeometryOk(d: Dispatch) {
    && (forall axis | 0 <= axis < 3 :: d.workgroup[axis] != 0 && d.grid[axis] != 0)
    && Product(d.workgroup) <= U64_MAX && Product(d.grid) <= U64_MAX
  }

  /** Two axes always multiply within 64 bits; the third may not. */
  method CheckedAxisProduct(axes: Axes) returns (r: Option<u64>)
    ensures r == if Product(axes) <= U64_MAX then Some(Product(axes)) else None
  {
    WordsMultiply(axes[0], axes[1]);
    var xy := CheckedMul(axes[0], axes[1]);
    r := CheckedMul(xy.value, axes[2]);
  }

  lemma WordsMultiply(a: u32, b: u32)
    ensures 0 <= a * b <= U64_MAX
    ensures a * b == 0 <==> a == 0 || b == 0
  {
    Widens(a, U32_MAX, b);
    Widens(b, U32_MAX, U32_MAX);
  }

  lemma Widens(a: nat, top: nat, b: nat)
    requires a <= top
    ensures 0 <= a * b <= top * b
    ensures a * b == 0 <==> a == 0 || b == 0
  {
  }

  method ValidateDispatchGeometry(d: Dispatch) returns (ok: bool)
    ensures ok <==> GeometryOk(d)
  {
    hide Product;
    for axis := 0 to 3
      invariant forall k | 0 <= k < axis :: d.workgroup[k] != 0 && d.grid[k] != 0
    {
      if d.workgroup[axis] == 0 || d.grid[axis] == 0 {
        return false;
      }
    }
    var workgroup := CheckedAxisProduct(d.workgroup);
    if workgroup.None? {
      return false;
    }
    var grid := CheckedAxisProduct(d.grid);
    ok := grid.Some?;
  }

  // ----- the buffer table -----

  predicate BufferOk(b: Buffer) {
    && b.name != "" && b.elementSize != 0
    && (b.name == "metrics" ==> b.elementSize == 4 && b.elementCount >= METRIC_RECORD_WORDS)
  }

  /** Every buffer is named and sized, the metrics buffer holds a record, and no two
      buffers share a binding or a name. */
  ghost predicate TableOk(buffers: seq<Buffer>) {
    && (forall i | 0 <= i < |buffers| :: BufferOk(buffers[i]))
    && (forall i, j | 0 <= i < j < |buffers| :: buffers[i].binding != buffers[j].binding)
    && (forall i, j | 0 <= i < j < |buffers| :: buffers[i].name != buffers[j].name)
  }

  function BufferBytes(b: Buffer): (r: u64)
    ensures r == 0 <==> b.elementCount == 0 || b.elementSize == 0
  {
    WordsMultiply(b.elementCount, b.elementSize);
    b.elementCount * b.elementSize
  }

  /** A product of two 32-bit words never leaves 64 bits. */
  method CheckedBufferBytes(b: Buffer) returns (r: Option<u64>)
    ensures r == Some(BufferBytes(b))
  {
    WordsMultiply(b.elementCount, b.elementSize);
    r := CheckedMul(b.elementCount, b.elementSize);
  }

  function MetricsCount(buffers: seq<Buffer>, n: nat): nat
    requires n <= |buffers|
  {
    if n == 0 then 0 else MetricsCount(buffers, n - 1) + if buffers[n - 1].name == "metrics" then 1 else 0
  }

  /** With distinct names there is at most one metrics buffer. */
  lemma {:induction false} OneMetricsBuffer(buffers: seq<Buffer>, n: nat)
    requires n <= |buffers|
    requires forall i, j | 0 <= i < j < |buffers| :: buffers[i].name != buffers[j].name
    ensures MetricsCount(buffers, n) <= 1
    ensures MetricsCount(buffers, n) == 1 ==> exists i :: 0 <= i < n && buffers[i].name == "metrics"
    ensures MetricsCount(buffers, n) == 0 ==> forall i | 0 <= i < n :: buffers[i].name != "metrics"
  {
    if n > 0 {
      OneMetricsBuffer(buffers, n - 1);
    }
  }

  method ValidateBufferTable(buffers: seq<Buffer>) returns (ok: bool)
    ensures ok <==> TableOk(buffers)
  {
    var bindings: seq<(u32, nat)> := [];
    var names: seq<(string, nat)> := [];
    var metricsBuffers := 0;
    for index := 0 to |buffers|
      invariant forall i | 0 <= i < index :: BufferOk(buffers[i])
      invariant |bindings| == index && |names| == index
      invariant forall i | 0 <= i < index :: bindings[i] == (buffers[i].binding, i) && names[i] == (buffers[i].name, i)
      invariant metricsBuffers == MetricsCount(buffers, index)
    {
      var buffer := buffers[index];
      if buffer.name == "" {
        return false;
      }
      if buffer.elementSize == 0 {
        return false;
      }
      var bytes := CheckedBufferBytes(buffer);
      if bytes.None? {
        assert false;
      }
      if buffer.name == "metrics" {
        metricsBuffers := metricsBuffers + 1;
        if buffer.elementSize != 4 {
          return false;
        }
        if buffer.elementCount < METRIC_RECORD_WORDS {
          return false;
        }
      }
      bindings := bindings + [(buffer.binding, index)];
      names := names + [(buffer.name, index)];
    }
    ok := KeysAreDistinct(buffers, bindings, names, metricsBuffers);
  }

  /** The repeated-binding and repeated-name checks; after them the count of metrics
      buffers cannot exceed one. */
  method KeysAreDistinct(buffers: seq<Buffer>, bindings: seq<(u32, nat)>, names: seq<(string, nat)>,
                         metricsBuffers: nat)
    returns (ok: bool)
    requires |bindings| == |buffers| && |names| == |buffers|
    requires forall i | 0 <= i < |buffers| :: bindings[i] == (buffers[i].binding, i) && names[i] == (buffers[i].name, i)
    requires metricsBuffers == MetricsCount(buffers, |buffers|)
    ensures ok <==>
            && (forall i, j | 0 <= i < j < |buffers| :: buffers[i].binding != buffers[j].binding)
            && (forall i, j | 0 <= i < j < |buffers| :: buffers[i].name != buffers[j].name)
  {
    assert Names.DistinctKeys(bindings) <==> forall i, j | 0 <= i < j < |buffers| ::
        buffers[i].binding != buffers[j].binding by {
      SameKeys(bindings, seq(|buffers|, i requires 0 <= i < |buffers| => buffers[i].binding));
    }
    assert Names.DistinctKeys(names) <==> forall i, j | 0 <= i < j < |buffers| ::
        buffers[i].name != buffers[j].name by {
      SameKeys(names, seq(|buffers|, i requires 0 <= i < |buffers| => buffers[i].name));
    }
    var repeatedBinding := Names.HasRepeatedKey((a: u32, b: u32) => a <= b, bindings);
    if repeatedBinding {
      return false;
    }
    Names.NamesOrder();
    var repeatedName := Names.HasRepeatedKey(Names.NotAfter, names);
    if repeatedName {
      return false;
    }
    if metricsBuffers > 1 {
      OneMetricsBuffer(buffers, |buffers|);
      assert false;
    }
    ok := true;
  }

  lemma SameKeys<K>(items: seq<(K, nat)>, keys: seq<K>)
    requires |items| == |keys| && forall i | 0 <= i < |items| :: items[i].0 == keys[i]
    ensures Names.DistinctKeys(items) <==> forall i, j | 0 <= i < j < |keys| :: keys[i] != keys[j]
  {
  }

  // ----- the bundler -----

  /** A finite first buffer must hold the weights. */
  predicate WeightsFitFirstFinite(buffers: seq<Buffer>, weights: nat)
    requires buffers != []
  {
    buffers[0].elementCount == 0 || weights <= BufferBytes(buffers[0])
  }

  /** What the bundler demands of an artifact before it emits or writes anything. */
  ghost predicate Bundles(a: Artifact, weights: seq<u8>) {
    && a.kernel != [] && a.entryPoint != "" && a.buffers != []
    && GeometryOk(a.dispatch) && TableOk(a.buffers)
    && WeightsFitFirstFinite(a.buffers, |weights|)
  }

  method ValidateArtifactForBundle(a: Artifact, weights: seq<u8>) returns (ok: bool)
    ensures ok <==> Bundles(a, weights)
  {
    hide GeometryOk, TableOk;
    if a.kernel == [] || a.entryPoint == "" || a.buffers == [] {
      return false;
    }
    var geometry := ValidateDispatchGeometry(a.dispatch);
    if !geometry {
      return false;
    }
    var table := ValidateBufferTable(a.buffers);
    if !table {
      return false;
    }
    ok := ValidateWeightsFitFirstFinite(a.buffers[0], |weights|);
  }

  method ValidateWeightsFitFirstFinite(first: Buffer, weights: nat) returns (ok: bool)
    ensures ok <==> first.elementCount == 0 || weights <= first.elementCount * first.elementSize
  {
    if first.elementCount == 0 {
      return true;
    }
    var capacity := CheckedBufferBytes(first);
    if capacity.None? {
      assert false;
    }
    ok := weights <= U64_MAX && weights <= capacity.value;
  }

  /** The launcher emitters registered in this repository. */
  const REGISTERED: set<string> := {"secondary_text"}

  /** A bundle is written when the artifact is valid and an emitter is registered for
      its target, provided that compression and the file system succeed. */
  ghost predicate Writes(a: Artifact, weights: seq<u8>, emitters: set<string>) {
    Bundles(a, weights) && TargetId(a.target) in emitters
  }

  /** The manifest the bundler writes. `hex` is the SHA-256 hex digest. */
  function ManifestOf(a: Artifact, name: string, weights: seq<u8>, hex: seq<u8> -> string): Manifest {
    Manifest(SCHEMA, a.aotVersion, name, TargetId(a.target), a.entryPoint, a.dispatch,
             KernelFile(TargetId(a.target)), "weights.brotli", "lzma", "brotli-11", a.buffers,
             hex(a.kernel), hex(weights), a.vsaFingerprint)
  }

  function KernelFile(extension: string): string {
    "kernel." + extension + ".lzma"
  }

  /** The artifact as a manifest describes it, once its target and kernel are known. */
  function Recover(m: Manifest, target: Target, kernel: seq<u8>): Artifact {
    Artifact(target, kernel, m.entryPoint, m.buffers, m.dispatch, m.aotVersion, m.vsaFingerprint)
  }

  /** A manifest gives the whole artifact back, workgroup and grid in their places. With a
      digest that keeps byte strings apart, equal manifests mean the same artifact up to
      the target's namesake, the same name and the same weights. */
  lemma ManifestRecovers(a: Artifact, name: string, weights: seq<u8>, b: Artifact, otherName: string,
                         otherWeights: seq<u8>, hex: seq<u8> -> string)
    ensures
      var m := ManifestOf(a, name, weights, hex);
      && Recover(m, a.target, a.kernel) == a && m.artifactName == name && m.target == TargetId(a.target)
      && m.dispatch.workgroup == a.dispatch.workgroup && m.dispatch.grid == a.dispatch.grid
      && m.kernelSha == hex(a.kernel) && m.weightsSha == hex(weights)
    ensures
      && (forall x, y | hex(x) == hex(y) :: x == y)
      && ManifestOf(a, name, weights, hex) == ManifestOf(b, otherName, otherWeights, hex) ==>
        && TargetId(a.target) == TargetId(b.target) && a == b.(target := a.target)
        && name == otherName && weights == otherWeights
  {
    var m := ManifestOf(a, name, weights, hex);
    if (forall x, y | hex(x) == hex(y) :: x == y) && m == ManifestOf(b, otherName, otherWeights, hex) {
      assert hex(a.kernel) == hex(b.kernel) && hex(weights) == hex(otherWeights);
      assert Recover(m, a.target, a.kernel) == a && Recover(m, b.target, b.kernel) == b;
    }
  }
}
