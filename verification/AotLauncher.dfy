/** The checks an emitted launcher makes on a bundle, and which bundles pass them. */
module AotLauncher {
  import opened Machine
  import opened AotBundle

  // ----- the loader's contract -----

  /** The parts of a path between slashes. */
  function Components(path: string): (parts: seq<string>)
    ensures parts != []
  {
    if path == "" then [""]
    else
      var rest := Components(path[1..]);
      if path[0] == '/' then [""] + rest else [[path[0]] + rest[0]] + rest[1..]
  }

  /** Components put back together. */
  function Joined(parts: seq<string>): string
    requires parts != []
  {
    if |parts| == 1 then parts[0] else parts[0] + "/" + Joined(parts[1..])
  }

  ghost predicate NoSlashes(parts: seq<string>) {
    forall i | 0 <= i < |parts| :: '/' !in parts[i]
  }

  /** Splitting loses nothing and leaves no slash inside a component. */
  lemma {:induction false} SplitThenJoin(path: string)
    ensures Joined(Components(path)) == path && NoSlashes(Components(path))
  {
    if path != "" {
      var rest := Components(path[1..]);
      SplitThenJoin(path[1..]);
      assert path == [path[0]] + path[1..];
      if path[0] == '/' {
        assert ([""] + rest)[1..] == rest;
      } else {
        var parts := [[path[0]] + rest[0]] + rest[1..];
        assert parts[1..] == rest[1..];
        assert |rest| > 1 ==> Joined(parts) == [path[0]] + (rest[0] + "/" + Joined(rest[1..]));
      }
    }
  }

  /** No other list of components does that. */
  lemma {:induction false} JoinThenSplit(parts: seq<string>)
    requires parts != [] && NoSlashes(parts)
    ensures Components(Joined(parts)) == parts
    decreases |parts|, |parts[0]|
  {
    var path, first := Joined(parts), parts[0];
    if first == "" {
      if |parts| > 1 {
        JoinThenSplit(parts[1..]);
        assert path[1..] == Joined(parts[1..]);
        assert parts == [""] + parts[1..];
      }
    } else {
      var shorter := [first[1..]] + parts[1..];
      assert shorter[1..] == parts[1..] && first == [first[0]] + first[1..];
      assert NoSlashes(shorter) by { assert forall i | 1 <= i < |shorter| :: shorter[i] == parts[i]; }
      JoinThenSplit(shorter);
      assert path == [first[0]] + Joined(shorter);
      assert path[0] == first[0] && path[1..] == Joined(shorter);
      assert first[0] in first && '/' !in parts[0];
    }
  }

  predicate IsNaming(part: string) {
    part != "" && part != "."
  }

  /** The components that name a file or directory, in order. */
  function Naming(parts: seq<string>): seq<string> {
    if parts == [] then [] else (if IsNaming(parts[0]) then [parts[0]] else []) + Naming(parts[1..])
  }

  lemma {:induction false} NamingAppends(parts: seq<string>, part: string)
    ensures Naming(parts + [part]) == Naming(parts) + if IsNaming(part) then [part] else []
  {
    if parts == [] {
      assert [] + [part] == [part];
    } else {
      NamingAppends(parts[1..], part);
      assert (parts + [part])[1..] == parts[1..] + [part];
    }
  }

  lemma {:induction false} NamingMeans(parts: seq<string>, part: string)
    ensures part in Naming(parts) <==> part in parts && IsNaming(part)
  {
    if parts != [] {
      NamingMeans(parts[1..], part);
      assert parts == [parts[0]] + parts[1..];
    }
  }

  /** `part` is a component of the path that names a file or directory. */
  predicate Keeps(path: string, part: string) {
    part in Components(path) && part != "" && part != "."
  }

  /** Relative, without parent steps, and naming something. */
  ghost predicate BundleRelative(path: string) {
    && path != "" && path[0] != '/'
    && ".." !in Components(path)
    && exists part :: Keeps(path, part)
  }

  lemma {:induction false} OnePart(path: string)
    requires '/' !in path
    ensures Components(path) == [path]
  {
    if path != "" {
      OnePart(path[1..]);
      assert path == [path[0]] + path[1..];
    }
  }

  /** A file name longer than two characters is bundle-relative. */
  lemma FileNameIsRelative(path: string)
    requires '/' !in path && |path| > 2
    ensures BundleRelative(path)
  {
    OnePart(path);
    assert Keeps(path, path) && path != "..";
  }

  predicate IsHexDigit(c: char) {
    '0' <= c <= '9' || 'a' <= c <= 'f' || 'A' <= c <= 'F'
  }

  predicate IsDigest(s: string) {
    |s| == 64 && forall i | 0 <= i < |s| :: IsHexDigit(s[i])
  }

  /** Walk the components: a parent step is refused, an empty or current one skipped,
      and something must remain. */
  method ValidateBundleRelativePath(path: string) returns (clean: Option<seq<string>>)
    ensures clean.Some? <==> BundleRelative(path)
    ensures clean.Some? ==> clean.value == Naming(Components(path)) != []
  {
    hide Components, Naming;
    if path == "" || path[0] == '/' {
      return None;
    }
    var kept := KeptComponents(Components(path));
    forall part
      ensures part in Naming(Components(path)) <==> Keeps(path, part)
    {
      NamingMeans(Components(path), part);
    }
    if kept.None? || kept.value == [] {
      return None;
    }
    assert kept.value[0] in kept.value;
    clean := kept;
  }

  /** The naming components in order, or nothing at a parent step. */
  method KeptComponents(parts: seq<string>) returns (kept: Option<seq<string>>)
    ensures kept.Some? <==> ".." !in parts
    ensures kept.Some? ==> kept.value == Naming(parts)
  {
    var clean: seq<string> := [];
    for i := 0 to |parts|
      invariant ".." !in parts[..i]
      invariant clean == Naming(parts[..i])
    {
      assert parts[..i + 1] == parts[..i] + [parts[i]];
      NamingAppends(parts[..i], parts[i]);
      if parts[i] == ".." {
        return None;
      }
      if parts[i] != "" && parts[i] != "." {
        clean := clean + [parts[i]];
      }
    }
    assert parts[..|parts|] == parts;
    kept := Some(clean);
  }

  method ValidateDigest(s: string) returns (ok: bool)
    ensures ok <==> IsDigest(s)
  {
    if |s| != 64 {
      return false;
    }
    for i := 0 to |s|
      invariant forall k | 0 <= k < i :: IsHexDigit(s[k])
    {
      if !IsHexDigit(s[i]) {
        return false;
      }
    }
    ok := true;
  }

  /** The loader reads a target by the name of one of its own two variants. */
  predicate ReadsTarget(written: string) {
    written == "Ptx" || written == "SpirV"
  }

  /** What the loader demands of a manifest once it is parsed. */
  ghost predicate ContractOk(m: Manifest) {
    && m.schema == SCHEMA && m.aotVersion != "" && m.artifactName != "" && m.entryPoint != ""
    && GeometryOk(m.dispatch)
    && (m.kernelCompression == "lzma" || m.kernelCompression == "none")
    && (m.weightsCompression == "none" || "brotli" <= m.weightsCompression)
    && BundleRelative(m.kernelFile) && BundleRelative(m.weightsFile)
    && IsDigest(m.kernelSha) && IsDigest(m.weightsSha)
    && m.buffers != [] && TableOk(m.buffers)
    && (|m.vsaFingerprint| == 0 || |m.vsaFingerprint| == 8)
  }

  method ValidateManifestContract(m: Manifest) returns (ok: bool)
    ensures ok <==> ContractOk(m)
  {
    hide GeometryOk, TableOk, BundleRelative, Keeps, IsDigest;
    if m.schema != SCHEMA || m.aotVersion == "" || m.artifactName == "" || m.entryPoint == "" {
      return false;
    }
    var geometry := ValidateDispatchGeometry(m.dispatch);
    if !geometry {
      return false;
    }
    if m.kernelCompression != "lzma" && m.kernelCompression != "none" {
      return false;
    }
    if m.weightsCompression != "none" && !("brotli" <= m.weightsCompression) {
      return false;
    }
    var kernelPath := ValidateBundleRelativePath(m.kernelFile);
    if kernelPath.None? {
      return false;
    }
    var weightsPath := ValidateBundleRelativePath(m.weightsFile);
    if weightsPath.None? {
      return false;
    }
    var kernelDigest := ValidateDigest(m.kernelSha);
    if !kernelDigest {
      return false;
    }
    var weightsDigest := ValidateDigest(m.weightsSha);
    if !weightsDigest {
      return false;
    }
    if m.buffers == [] {
      return false;
    }
    var table := ValidateBufferTable(m.buffers);
    if !table {
      return false;
    }
    ok := |m.vsaFingerprint| == 0 || |m.vsaFingerprint| == 8;
  }

  // ----- the launch checks -----

  /** What the launcher allocates for a buffer; an unbounded buffer gets the default. */
  function AllocationBytes(b: Buffer): (r: u64)
    ensures b.elementCount != 0 && b.elementSize != 0 ==> r == BufferBytes(b)
    ensures r > 0
  {
    if BufferBytes(b) == 0 then DEFAULT_STREAMING_BUFFER_BYTES else BufferBytes(b)
  }

  method ManifestBufferAllocationBytes(b: Buffer) returns (r: u64)
    ensures r == AllocationBytes(b)
  {
    var bytes := CheckedBufferBytes(b);
    if bytes.None? {
      assert false;
    }
    r := if bytes.value == 0 then DEFAULT_STREAMING_BUFFER_BYTES else bytes.value;
  }

  function TotalBytes(buffers: seq<Buffer>, n: nat): nat
    requires n <= |buffers|
  {
    if n == 0 then 0 else TotalBytes(buffers, n - 1) + AllocationBytes(buffers[n - 1])
  }

  lemma {:induction false} TotalGrows(buffers: seq<Buffer>, m: nat, n: nat)
    requires m <= n <= |buffers|
    ensures TotalBytes(buffers, m) <= TotalBytes(buffers, n)
    ensures m < n ==> TotalBytes(buffers, m) < TotalBytes(buffers, n)
  {
    if m < n {
      TotalGrows(buffers, m, n - 1);
    }
  }

  predicate MetricsOk(b: Buffer) {
    b.name == "metrics" ==> b.elementSize == 4 && b.elementCount >= METRIC_RECORD_WORDS
  }

  ghost predicate LaunchOk(m: Manifest) {
    && m.entryPoint != "" && m.buffers != []
    && GeometryOk(m.dispatch)
    && (forall i | 0 <= i < |m.buffers| :: MetricsOk(m.buffers[i]))
    && TotalBytes(m.buffers, |m.buffers|) <= U64_MAX
    && MetricsCount(m.buffers, |m.buffers|) <= 1
  }

  /** The launcher's own geometry check, which also looks for empty products. */
  method ValidateManifestDispatchStatic(m: Manifest) returns (ok: bool)
    ensures ok <==> GeometryOk(m.dispatch)
  {
    hide Product;
    var d := m.dispatch;
    for axis := 0 to 3
      invariant forall k | 0 <= k < axis :: d.workgroup[k] != 0 && d.grid[k] != 0
    {
      if d.workgroup[axis] == 0 || d.grid[axis] == 0 {
        return false;
      }
    }
    var threads := CheckedAxisProduct(d.workgroup);
    if threads.None? {
      return false;
    }
    PositiveProduct(d.workgroup);
    if threads.value == 0 {
      assert false;
    }
    var blocks := CheckedAxisProduct(d.grid);
    if blocks.None? {
      return false;
    }
    PositiveProduct(d.grid);
    if blocks.value == 0 {
      assert false;
    }
    ok := true;
  }

  lemma PositiveProduct(axes: Axes)
    requires axes[0] != 0 && axes[1] != 0 && axes[2] != 0
    ensures Product(axes) > 0
  {
  }

  method ValidateManifestForLaunch(m: Manifest) returns (ok: bool)
    ensures ok <==> LaunchOk(m)
  {
    hide GeometryOk;
    if m.entryPoint == "" || m.buffers == [] {
      return false;
    }
    var dispatch := ValidateManifestDispatchStatic(m);
    if !dispatch {
      return false;
    }
    var totalBytes: u64 := 0;
    var metricsBuffers := 0;
    for index := 0 to |m.buffers|
      invariant totalBytes == TotalBytes(m.buffers, index)
      invariant metricsBuffers == MetricsCount(m.buffers, index)
      invariant forall i | 0 <= i < index :: MetricsOk(m.buffers[i])
    {
      var buf := m.buffers[index];
      if buf.name == "metrics" {
        metricsBuffers := metricsBuffers + 1;
        if buf.elementSize != 4 {
          return false;
        }
        if buf.elementCount < METRIC_RECORD_WORDS {
          return false;
        }
      }
      var bytes := ManifestBufferAllocationBytes(buf);
      var total := CheckedAdd(totalBytes, bytes);
      if total.None? {
        TotalGrows(m.buffers, index + 1, |m.buffers|);
        return false;
      }
      totalBytes := total.value;
    }
    TotalGrows(m.buffers, 0, |m.buffers|);
    if totalBytes == 0 {
      assert false;
    }
    ok := metricsBuffers <= 1;
  }

  /** The weights are uploaded into the first allocation. */
  predicate UploadFits(m: Manifest, weights: nat)
    requires m.buffers != []
  {
    weights <= U64_MAX && weights <= AllocationBytes(m.buffers[0])
  }

  function Lower(c: char): char {
    if 'A' <= c <= 'Z' then (c as int + 32) as char else c
  }

  predicate SameIgnoringCase(a: string, b: string) {
    |a| == |b| && forall i | 0 <= i < |a| :: Lower(a[i]) == Lower(b[i])
  }

  /** Everything the launcher checks before it launches, parsing included. */
  ghost predicate LauncherAccepts(m: Manifest, kernel: seq<u8>, weights: seq<u8>, hex: seq<u8> -> string) {
    && ReadsTarget(m.target)
    && ContractOk(m)
    && SameIgnoringCase(hex(kernel), m.kernelSha) && SameIgnoringCase(hex(weights), m.weightsSha)
    && LaunchOk(m) && UploadFits(m, |weights|)
  }

  method CheckLoadedBundle(m: Manifest, kernel: seq<u8>, weights: seq<u8>, hex: seq<u8> -> string) returns (ok: bool)
    ensures ok <==> LauncherAccepts(m, kernel, weights, hex)
  {
    hide LaunchOk, ContractOk, AllocationBytes;
    if !ReadsTarget(m.target) {
      return false;
    }
    var contract := ValidateManifestContract(m);
    if !contract {
      return false;
    }
    if !SameIgnoringCase(hex(kernel), m.kernelSha) || !SameIgnoringCase(hex(weights), m.weightsSha) {
      return false;
    }
    var launch := ValidateManifestForLaunch(m);
    if !launch {
      return false;
    }
    assert m.buffers != [] by { LaunchHasBuffers(m); }
    var first := ManifestBufferAllocationBytes(m.buffers[0]);
    ok := |weights| <= U64_MAX && |weights| <= first;
  }

  lemma LaunchHasBuffers(m: Manifest)
    requires LaunchOk(m)
    ensures m.buffers != []
  {
  }

  // ----- bundler against launcher -----

  /** Once parsed, a valid artifact's manifest passes the launch and upload checks
      exactly when the allocations fit 64 bits together and the weights fit an
      unbounded first buffer's default. */
  lemma BundleLaunchesIff(a: Artifact, name: string, weights: seq<u8>, hex: seq<u8> -> string)
    requires Bundles(a, weights)
    ensures
      var m := ManifestOf(a, name, weights, hex);
      LaunchOk(m) && UploadFits(m, |weights|) <==>
        && TotalBytes(a.buffers, |a.buffers|) <= U64_MAX
        && (a.buffers[0].elementCount != 0 || |weights| <= DEFAULT_STREAMING_BUFFER_BYTES)
  {
    hide GeometryOk;
    OneMetricsBuffer(a.buffers, |a.buffers|);
    assert forall i | 0 <= i < |a.buffers| :: BufferOk(a.buffers[i]) ==> MetricsOk(a.buffers[i]);
  }

  ghost predicate HexDigests(hex: seq<u8> -> string) {
    forall bytes :: IsDigest(hex(bytes))
  }

  /** Once parsed, it meets the loader's contract exactly when the version and the name
      are not empty, the fingerprint is absent or has eight lanes, and the kernel file
      name stays in the bundle. */
  lemma BundleLoadsIff(a: Artifact, name: string, weights: seq<u8>, hex: seq<u8> -> string)
    requires Bundles(a, weights) && HexDigests(hex)
    ensures ContractOk(ManifestOf(a, name, weights, hex)) <==>
              && a.aotVersion != "" && name != ""
              && (|a.vsaFingerprint| == 0 || |a.vsaFingerprint| == 8)
              && BundleRelative(KernelFile(TargetId(a.target)))
  {
    hide GeometryOk, TableOk, BundleRelative;
    FileNameIsRelative("weights.brotli");
    assert "brotli" <= "brotli-11";
    assert IsDigest(hex(a.kernel)) && IsDigest(hex(weights));
  }

  /** Writer and loader spell targets differently: only an extension that happens to
      carry a loader variant's name is read. */
  lemma OnlyNamesakesAreRead(target: Target)
    ensures ReadsTarget(TargetId(target)) <==> target == Extension("Ptx") || target == Extension("SpirV")
  {
  }

  /** A bundle whose files arrive intact is accepted by its launcher exactly when its
      target is such an extension and it meets the other conditions of the two lemmas
      above; the kernel file name is then one that stays in the bundle. */
  lemma BundleIsAcceptedIff(a: Artifact, name: string, weights: seq<u8>, hex: seq<u8> -> string)
    requires Bundles(a, weights) && HexDigests(hex)
    ensures LauncherAccepts(ManifestOf(a, name, weights, hex), a.kernel, weights, hex) <==>
              && (a.target == Extension("Ptx") || a.target == Extension("SpirV"))
              && TotalBytes(a.buffers, |a.buffers|) <= U64_MAX
              && (a.buffers[0].elementCount != 0 || |weights| <= DEFAULT_STREAMING_BUFFER_BYTES)
              && a.aotVersion != "" && name != ""
              && (|a.vsaFingerprint| == 0 || |a.vsaFingerprint| == 8)
  {
    BundleLaunchesIff(a, name, weights, hex);
    BundleLoadsIff(a, name, weights, hex);
    OnlyNamesakesAreRead(a.target);
    if ReadsTarget(TargetId(a.target)) {
      PlainExtensionIsRelative(TargetId(a.target));
    }
    hide ContractOk, LaunchOk, BundleRelative, TableOk, GeometryOk;
    assert SameIgnoringCase(hex(a.kernel), hex(a.kernel)) && SameIgnoringCase(hex(weights), hex(weights));
  }

  /** A target identifier without a slash gives a file name that stays in the bundle. */
  lemma PlainExtensionIsRelative(extension: string)
    requires '/' !in extension
    ensures BundleRelative(KernelFile(extension))
  {
    var path := KernelFile(extension);
    forall i | 0 <= i < |path|
      ensures path[i] != '/'
    {
      if 7 <= i < 7 + |extension| { assert path[i] == extension[i - 7]; }
    }
    FileNameIsRelative(path);
  }

  /** No bundle that this repository's emitters let the bundler write is accepted by the
      launcher written into it. */
  lemma WrittenBundleIsRefused(a: Artifact, name: string, weights: seq<u8>, hex: seq<u8> -> string)
    requires Writes(a, weights, REGISTERED)
    ensures !LauncherAccepts(ManifestOf(a, name, weights, hex), a.kernel, weights, hex)
  {
  }

  /** The spelling of the target alone does it: a built-in target is refused even when
      every other condition holds. */
  lemma RefusedAtParsing(a: Artifact, name: string, weights: seq<u8>, hex: seq<u8> -> string)
    requires Bundles(a, weights) && HexDigests(hex) && !a.target.Extension?
    requires TotalBytes(a.buffers, |a.buffers|) <= U64_MAX
    requires a.buffers[0].elementCount != 0 || |weights| <= DEFAULT_STREAMING_BUFFER_BYTES
    requires a.aotVersion != "" && name != "" && (|a.vsaFingerprint| == 0 || |a.vsaFingerprint| == 8)
    ensures
      var m := ManifestOf(a, name, weights, hex);
      && ContractOk(m) && LaunchOk(m) && UploadFits(m, |weights|)
      && !LauncherAccepts(m, a.kernel, weights, hex)
  {
    BuiltInIdIsPlain(a.target);
    OnlyNamesakesAreRead(a.target);
    hide TargetId, ReadsTarget, KernelFile, BundleRelative, ContractOk, LaunchOk, GeometryOk, TableOk, IsDigest;
    hide TotalBytes;
    PlainExtensionIsRelative(TargetId(a.target));
    BundleLaunchesIff(a, name, weights, hex);
    BundleLoadsIff(a, name, weights, hex);
  }

  lemma BuiltInIdIsPlain(target: Target)
    requires !target.Extension?
    ensures '/' !in TargetId(target)
  {
  }

  /** A small artifact that this repository's emitters let the bundler write. */
  const SAMPLE := Artifact(Ptx, [0], "main", [Buffer("params", 0, 1, 4)], Dispatch([1, 1, 1], [1, 1, 1]), "1.0.0", [])

  /** The loader's other demands are also more than the bundler's: under an empty name
      the sample is written, and does not meet the loader's contract. */
  lemma BundledButRefused(hex: seq<u8> -> string)
    requires HexDigests(hex)
    ensures Writes(SAMPLE, [], REGISTERED)
    ensures !ContractOk(ManifestOf(SAMPLE, "", [], hex))
  {
    SampleIsValid();
    hide Bundles, BundleRelative, ContractOk;
    BundleLoadsIff(SAMPLE, "", [], hex);
  }

  lemma SampleIsValid()
    ensures Bundles(SAMPLE, [])
  {
  }
}
