/** The host configuration: which ones are accepted, and the settings that a launch string carries for them. */
module HostConfig {

  datatype Config = Config(
    helperPath: string, socketPath: string, libraryPath: string, syncMode: string, logPath: string, shadowMode: string,
    shadowTrace: string, presentMode: string, shadowMergeRanges: string, descriptorUpdateSerialize: string,
    gpuUploadWait: string)

  /** The fields in the order of the source's table. */
  function Fields(c: Config): (fields: seq<string>)
    ensures |fields| == 11
  {
    [c.helperPath, c.socketPath, c.libraryPath, c.syncMode, c.logPath, c.shadowMode, c.shadowTrace, c.presentMode,
     c.shadowMergeRanges, c.descriptorUpdateSerialize, c.gpuUploadWait]
  }

  predicate IsBinaryFlag(value: string) {
    value == "0" || value == "1"
  }

  predicate IsSafeField(value: string) {
    '|' !in value && '\n' !in value && '\r' !in value
  }

  /** The error messages, each for one of the tests. */
  datatype Verdict = Accepted | UnsafeField | RelativePath | BadSyncMode | BadPresentMode | BadFlag

  predicate IsSyncMode(value: string) {
    value == "egl-thread" || value == "egl-main" || value == "native-fd"
  }

  predicate IsPresentMode(value: string) {
    value == "fifo" || value == "mailbox" || value == "fifo-async" || value == "fifo-poll"
  }

  predicate IsAbsolute(path: string) {
    path != "" && path[0] == '/'
  }

  ghost predicate FieldsAreSafe(c: Config) {
    forall f | f in Fields(c) :: f != "" && IsSafeField(f)
  }

  ghost predicate PathsAreAbsolute(c: Config) {
    IsAbsolute(c.helperPath) && IsAbsolute(c.socketPath) && IsAbsolute(c.libraryPath) && IsAbsolute(c.logPath)
  }

  ghost predicate FlagsAreBinary(c: Config) {
    IsBinaryFlag(c.shadowMergeRanges) && IsBinaryFlag(c.descriptorUpdateSerialize) && IsBinaryFlag(c.gpuUploadWait)
  }

  /** What an accepted configuration is. */
  ghost predicate Acceptable(c: Config) {
    FieldsAreSafe(c) && PathsAreAbsolute(c) && IsSyncMode(c.syncMode) && IsPresentMode(c.presentMode)
    && FlagsAreBinary(c)
  }

  /** The chain of tests, which reports the first one that fails. */
  method ValidateVirglHostConfig(c: Config) returns (verdict: Verdict)
    ensures verdict == Accepted <==> Acceptable(c)
    ensures verdict == UnsafeField <==> !FieldsAreSafe(c)
    ensures verdict == RelativePath <==> FieldsAreSafe(c) && !PathsAreAbsolute(c)
    ensures verdict == BadSyncMode <==> FieldsAreSafe(c) && PathsAreAbsolute(c) && !IsSyncMode(c.syncMode)
    ensures verdict == BadPresentMode ==> IsSyncMode(c.syncMode) && !IsPresentMode(c.presentMode)
    ensures verdict == BadFlag ==> IsSyncMode(c.syncMode) && IsPresentMode(c.presentMode) && !FlagsAreBinary(c)
  {
    var fields := Fields(c);
    var i := 0;
    while i < |fields|
      invariant 0 <= i <= |fields|
      invariant forall k | 0 <= k < i :: fields[k] != "" && IsSafeField(fields[k])
    {
      if fields[i] == "" || !IsSafeField(fields[i]) {
        return UnsafeField;
      }
      i := i + 1;
    }
    assert fields[0] == c.helperPath && fields[1] == c.socketPath && fields[2] == c.libraryPath &&
           fields[4] == c.logPath;
    if c.helperPath[0] != '/' || c.socketPath[0] != '/' || c.libraryPath[0] != '/' || c.logPath[0] != '/' {
      return RelativePath;
    }
    if !IsSyncMode(c.syncMode) {
      return BadSyncMode;
    }
    if !IsPresentMode(c.presentMode) {
      return BadPresentMode;
    }
    if !IsBinaryFlag(c.shadowMergeRanges) || !IsBinaryFlag(c.descriptorUpdateSerialize) ||
       !IsBinaryFlag(c.gpuUploadWait) {
      return BadFlag;
    }
    return Accepted;
  }

  // ---- The settings ----

  /** The environment variables that the launched process lets through; three of them are never set here. */
  datatype Key =
    | LD_LIBRARY_PATH | VTEST_USE_GLES | VTEST_USE_EGL_SURFACELESS | VTEST_SYNC_GL_FINISH
    | VIRGL_DISABLE_NATIVE_FENCE_FD | WINEHUA_VIRGL_SYNC_MODE | WINEHUA_VIRGL_LOG_PATH | VKR_WINEHUA_SHADOW_TO_HOST
    | WINEHUA_VKR_TRACE_SAMPLED | WINEHUA_VKR_TRACE_PIPELINE | WINEHUA_VKR_TRACE_CAPTURE
    | WINEHUA_VKR_TRACE_CAPTURE_LIMIT | WINEHUA_RESOURCE_TRACE | WINEHUA_VKR_TRACE_UBO_IDENTITY
    | WINEHUA_VKR_TRACE_PRESENT_IMAGE | VKR_WINEHUA_SHADOW_FROM_HOST | VKR_WINEHUA_SHADOW_TRACE
    | WINEHUA_VKR_PRESENT_STAGE_TRACE | WINEHUA_VENUS_GPU_FRAME_PROFILE | WINEHUA_VTEST_PRESENT_PERF_SUMMARY
    | VKR_WINEHUA_PERF_SUMMARY | VKR_WINEHUA_PERF_SAMPLE_INTERVAL | VKR_WINEHUA_FRAME_TIMELINE_INTERVAL
    | VKR_WINEHUA_GPU_UPLOAD | VKR_WINEHUA_GPU_UPLOAD_WAIT | VKR_WINEHUA_GPU_UPLOAD_INLINE
    | VKR_WINEHUA_COVERAGE_SORT | VKR_WINEHUA_GPU_UPLOAD_SERIALIZE | VKR_WINEHUA_SHADOW_GENERATION_SERIALIZE
    | VKR_WINEHUA_DESCRIPTOR_UPDATE_SERIALIZE | VKR_WINEHUA_SHADOW_DIRTY_LIST | VKR_WINEHUA_BOUND_BUFFER_LIST
    | VKR_WINEHUA_BATCH_FLUSH | VKR_WINEHUA_SHADOW_MSYNC | VKR_WINEHUA_SHADOW_SUBMIT_UNMAP_LARGE
    | VKR_WINEHUA_SHADOW_MERGE_RANGES | VKR_WINEHUA_SHADOW_COVER_UPLOAD | WINEHUA_VENUS_PRESENT_MODE
    | WINEHUA_VKR_FREEZE_BOOL_SPEC | EGL_PLATFORM

  datatype Setting = Setting(key: Key, value: string)

  /** What the modes stand for: the flags that the source derives first. */
  datatype Traits = Traits(
    explicitToHost: bool, preciseDirty: bool, precise: bool, frameAssocTrace: bool, presentImageTrace: bool,
    gpuFrameProfile: bool, frameTimeline: bool, sampledPerf: bool, captureTrace: bool, noGpuUploadFast: bool,
    noGpuUpload: bool, serializedGpuUpload: bool, aliasCover: bool, coverageSort: bool, descriptorSerialized: bool,
    inlineGpuUpload: bool, perfSummary: bool, boundBufferList: bool, cpuShadowUpload: bool, legacyHostSync: bool)

  function TraitsOf(c: Config): Traits {
    var preciseDirty := c.shadowMode == "precise-dirty";
    var frameAssocTrace := c.shadowTrace == "inline-gpu-upload-frame-assoc-trace";
    var gpuFrameProfile := c.shadowTrace == "gpu-frame-profile";
    var frameTimeline := c.shadowTrace == "frame-timeline";
    var sampledPerf := c.shadowTrace == "inline-gpu-upload-coverage-sort-sampled";
    var noGpuUploadFast := c.shadowTrace == "no-gpu-upload-fast";
    var serializedGpuUpload := c.shadowTrace == "inline-gpu-upload-serialized";
    var aliasCover := c.shadowTrace == "inline-gpu-upload-alias-cover";
    var coverageSort :=
      c.shadowTrace == "inline-gpu-upload-coverage-sort" || aliasCover || gpuFrameProfile ||
      frameTimeline || sampledPerf;
    var descriptorSerialized :=
      c.descriptorUpdateSerialize == "1" || c.shadowTrace == "inline-gpu-upload-descriptor-serialized";
    Traits(
      c.shadowMode == "to-host-explicit", preciseDirty, c.shadowMode == "precise" || preciseDirty, frameAssocTrace,
      c.shadowTrace == "present-image-trace", gpuFrameProfile, frameTimeline, sampledPerf,
      c.shadowTrace == "1" || frameAssocTrace, noGpuUploadFast,
      c.shadowTrace == "no-gpu-upload" || noGpuUploadFast, serializedGpuUpload, aliasCover, coverageSort,
      descriptorSerialized,
      c.shadowTrace == "inline-gpu-upload" || serializedGpuUpload || coverageSort ||
      descriptorSerialized || frameAssocTrace,
      c.shadowTrace == "perf" || c.shadowTrace == "no-gpu-upload" || descriptorSerialized,
      c.shadowTrace == "perf", c.shadowTrace == "cpu-upload", c.shadowTrace == "legacy-host-sync")
  }

  function Choose(on: bool, yes: string, no: string): (value: string)
    ensures value == yes || value == no
  {
    if on then yes else no
  }

  function Flag(on: bool): string {
    Choose(on, "1", "0")
  }

  function FromHostMode(t: Traits, shadowMode: string): string {
    Choose(t.explicitToHost, "full", Choose(t.precise, "precise", shadowMode))
  }

  function GpuUpload(t: Traits): string {
    Choose(t.noGpuUpload || t.cpuShadowUpload || t.legacyHostSync, "0", Choose(t.captureTrace, "1", "auto"))
  }

  function Basics(c: Config): seq<Setting> {
    [ Setting(LD_LIBRARY_PATH, c.libraryPath),
      Setting(VTEST_USE_GLES, "1"),
      Setting(VTEST_USE_EGL_SURFACELESS, "1"),
      Setting(VTEST_SYNC_GL_FINISH, "1"),
      Setting(WINEHUA_VIRGL_SYNC_MODE, c.syncMode),
      Setting(WINEHUA_VIRGL_LOG_PATH, c.logPath) ]
  }

  function Tracing(t: Traits): seq<Setting> {
    [ Setting(WINEHUA_VKR_TRACE_SAMPLED, Flag(!(t.precise && !t.frameAssocTrace))),
      Setting(WINEHUA_VKR_TRACE_CAPTURE, Flag(t.captureTrace)),
      Setting(WINEHUA_VKR_TRACE_CAPTURE_LIMIT, Choose(t.captureTrace, "20000", "512")),
      Setting(WINEHUA_RESOURCE_TRACE, Flag(t.captureTrace)),
      Setting(WINEHUA_VKR_TRACE_UBO_IDENTITY, Choose(t.frameAssocTrace, "focused", "0")),
      Setting(WINEHUA_VKR_TRACE_PRESENT_IMAGE, Flag(t.presentImageTrace)),
      Setting(WINEHUA_VKR_TRACE_PIPELINE, Flag(t.captureTrace)) ]
  }

  function Shadowing(t: Traits, shadowMode: string): seq<Setting> {
    [ Setting(VKR_WINEHUA_SHADOW_FROM_HOST, FromHostMode(t, shadowMode)),
      Setting(VKR_WINEHUA_SHADOW_TO_HOST,
              Choose(t.explicitToHost || (t.precise && !t.preciseDirty), "explicit", "full")),
      Setting(VKR_WINEHUA_SHADOW_TRACE, Flag(t.captureTrace)) ]
  }

  function Profiling(t: Traits): seq<Setting> {
    [ Setting(VKR_WINEHUA_PERF_SUMMARY, Flag(t.perfSummary)),
      Setting(VKR_WINEHUA_PERF_SAMPLE_INTERVAL, Choose(t.sampledPerf, "120", "0")),
      Setting(VKR_WINEHUA_FRAME_TIMELINE_INTERVAL, Choose(t.frameTimeline, "120", "0")),
      Setting(WINEHUA_VENUS_GPU_FRAME_PROFILE, Flag(t.gpuFrameProfile || t.frameTimeline)),
      Setting(WINEHUA_VTEST_PRESENT_PERF_SUMMARY,
              Flag(t.perfSummary || t.gpuFrameProfile || t.frameTimeline || t.sampledPerf || t.captureTrace)) ]
  }

  function Uploading(t: Traits, gpuUploadWait: string): seq<Setting> {
    [ Setting(VKR_WINEHUA_GPU_UPLOAD, GpuUpload(t)),
      Setting(VKR_WINEHUA_GPU_UPLOAD_WAIT, gpuUploadWait),
      Setting(VKR_WINEHUA_GPU_UPLOAD_INLINE, Flag(t.inlineGpuUpload)),
      Setting(VKR_WINEHUA_COVERAGE_SORT, Flag(t.coverageSort)),
      Setting(VKR_WINEHUA_GPU_UPLOAD_SERIALIZE, Flag(t.serializedGpuUpload)),
      Setting(VKR_WINEHUA_SHADOW_GENERATION_SERIALIZE, Flag(t.frameAssocTrace)),
      Setting(VKR_WINEHUA_DESCRIPTOR_UPDATE_SERIALIZE, Flag(t.descriptorSerialized)) ]
  }

  function Batching(t: Traits, shadowMergeRanges: string): seq<Setting> {
    [ Setting(VKR_WINEHUA_SHADOW_DIRTY_LIST, Flag(!t.legacyHostSync)),
      Setting(VKR_WINEHUA_BOUND_BUFFER_LIST, Flag(t.boundBufferList)),
      Setting(VKR_WINEHUA_BATCH_FLUSH, Flag(!(t.legacyHostSync || t.noGpuUploadFast))),
      Setting(VKR_WINEHUA_SHADOW_MERGE_RANGES, shadowMergeRanges),
      Setting(VKR_WINEHUA_SHADOW_COVER_UPLOAD, Flag(t.aliasCover)) ]
  }

  function Presenting(t: Traits, presentMode: string, eglThread: bool): seq<Setting> {
    [ Setting(WINEHUA_VKR_PRESENT_STAGE_TRACE, Flag(t.captureTrace)),
      Setting(WINEHUA_VENUS_PRESENT_MODE, presentMode),
      Setting(EGL_PLATFORM, "surfaceless") ]
    + if eglThread then [Setting(VIRGL_DISABLE_NATIVE_FENCE_FD, "1")] else []
  }

  /** Everything that the launch string sets, in its order. */
  function Settings(c: Config): seq<Setting> {
    var t := TraitsOf(c);
    Basics(c) + Tracing(t) + Shadowing(t, c.shadowMode) + Profiling(t) + Uploading(t, c.gpuUploadWait)
    + Batching(t, c.shadowMergeRanges) + Presenting(t, c.presentMode, c.syncMode == "egl-thread")
  }

  // ---- Values and the characters that matter to the other side ----

  /** The separator, and the character that ends a C string. */
  predicate Special(ch: char) {
    ch == '|' || ch == '\0'
  }

  predicate Free(settings: seq<Setting>, ch: char) {
    forall s | s in settings :: ch !in s.value
  }

  lemma FlagIsFree(on: bool, ch: char)
    requires Special(ch)
    ensures ch !in Flag(on)
  {
  }

  lemma GpuUploadIsFree(t: Traits, ch: char)
    requires Special(ch)
    ensures ch !in GpuUpload(t)
  {
  }

  lemma BasicsAreFree(c: Config, ch: char)
    requires Special(ch) && ch !in c.libraryPath && ch !in c.syncMode && ch !in c.logPath
    ensures Free(Basics(c), ch)
  {
  }

  lemma TracingIsFree(t: Traits, ch: char)
    requires Special(ch)
    ensures Free(Tracing(t), ch)
  {
  }

  lemma ProfilingIsFree(t: Traits, ch: char)
    requires Special(ch)
    ensures Free(Profiling(t), ch)
  {
  }

  lemma ShadowingIsFree(t: Traits, shadowMode: string, ch: char)
    requires Special(ch) && ch !in shadowMode
    ensures Free(Shadowing(t, shadowMode), ch)
  {
  }

  lemma UploadingIsFree(t: Traits, gpuUploadWait: string, ch: char)
    requires Special(ch) && ch !in gpuUploadWait
    ensures Free(Uploading(t, gpuUploadWait), ch)
  {
    GpuUploadIsFree(t, ch);
    forall on: bool ensures ch !in Flag(on) {
      FlagIsFree(on, ch);
    }
    var list := Uploading(t, gpuUploadWait);
    assert list[0].value == GpuUpload(t) && list[1].value == gpuUploadWait;
    forall k | 2 <= k < |list| ensures exists on: bool :: list[k].value == Flag(on) {
      assert list[k].value == Flag(if k == 2 then t.inlineGpuUpload else if k == 3 then t.coverageSort
                                   else if k == 4 then t.serializedGpuUpload else if k == 5 then t.frameAssocTrace
                                   else t.descriptorSerialized);
    }
  }

  lemma PresentingIsFree(t: Traits, shadowMergeRanges: string, presentMode: string, eglThread: bool, ch: char)
    requires Special(ch) && ch !in shadowMergeRanges && ch !in presentMode
    ensures Free(Batching(t, shadowMergeRanges), ch) && Free(Presenting(t, presentMode, eglThread), ch)
  {
  }

  lemma FreeInAll(a: seq<Setting>, b: seq<Setting>, c: seq<Setting>, d: seq<Setting>, e: seq<Setting>, f: seq<Setting>,
                  g: seq<Setting>, ch: char)
    requires Free(a, ch) && Free(b, ch) && Free(c, ch) && Free(d, ch) && Free(e, ch) && Free(f, ch) && Free(g, ch)
    ensures Free(a + b + c + d + e + f + g, ch)
  {
  }

  lemma GroupsAreFree(c: Config, t: Traits, ch: char)
    requires Special(ch)
    requires ch !in c.libraryPath && ch !in c.syncMode && ch !in c.logPath && ch !in c.shadowMode
    requires ch !in c.gpuUploadWait && ch !in c.shadowMergeRanges && ch !in c.presentMode
    ensures Free(Basics(c) + Tracing(t) + Shadowing(t, c.shadowMode) + Profiling(t) + Uploading(t, c.gpuUploadWait)
                 + Batching(t, c.shadowMergeRanges) + Presenting(t, c.presentMode, c.syncMode == "egl-thread"), ch)
  {
    BasicsAreFree(c, ch);
    TracingIsFree(t, ch);
    ProfilingIsFree(t, ch);
    ShadowingIsFree(t, c.shadowMode, ch);
    UploadingIsFree(t, c.gpuUploadWait, ch);
    PresentingIsFree(t, c.shadowMergeRanges, c.presentMode, c.syncMode == "egl-thread", ch);
    FreeInAll(Basics(c), Tracing(t), Shadowing(t, c.shadowMode), Profiling(t), Uploading(t, c.gpuUploadWait),
              Batching(t, c.shadowMergeRanges), Presenting(t, c.presentMode, c.syncMode == "egl-thread"), ch);
  }

  /** The modes and flags of an accepted configuration are plain words. */
  lemma ModesAreFree(c: Config, ch: char)
    requires Special(ch) && IsSyncMode(c.syncMode) && IsPresentMode(c.presentMode) && FlagsAreBinary(c)
    ensures ch !in c.syncMode && ch !in c.presentMode && ch !in c.shadowMergeRanges && ch !in c.gpuUploadWait
  {
    WordsAreFree(c.syncMode, c.presentMode, ch);
    assert IsBinaryFlag(c.shadowMergeRanges) && IsBinaryFlag(c.gpuUploadWait);
  }

  lemma WordsAreFree(syncMode: string, presentMode: string, ch: char)
    requires Special(ch) && IsSyncMode(syncMode) && IsPresentMode(presentMode)
    ensures ch !in syncMode && ch !in presentMode
  {
  }

  /** The five fields that are embedded as they are and may hold anything but the separator. */
  predicate FreeFields(c: Config, ch: char) {
    ch !in c.helperPath && ch !in c.socketPath && ch !in c.libraryPath && ch !in c.logPath && ch !in c.shadowMode
  }

  lemma EveryFieldIsSafe(c: Config)
    requires Acceptable(c)
    ensures FreeFields(c, '|')
  {
    var f := Fields(c);
    forall i | 0 <= i < |f| ensures '|' !in f[i] {
      assert f[i] in Fields(c);
    }
    assert f[0] == c.helperPath && f[1] == c.socketPath && f[2] == c.libraryPath;
    assert f[4] == c.logPath && f[5] == c.shadowMode;
  }

  /** No value of an accepted configuration contains the separator. */
  lemma ValuesAreSafe(c: Config)
    requires Acceptable(c)
    ensures Free(Settings(c), '|') && FreeFields(c, '|')
  {
    EveryFieldIsSafe(c);
    ModesAreFree(c, '|');
    GroupsAreFree(c, TraitsOf(c), '|');
  }

  /** No value contains the end of a C string if no free field does. */
  lemma ValuesHaveNoNul(c: Config)
    requires Acceptable(c) && FreeFields(c, '\0')
    ensures Free(Settings(c), '\0')
  {
    ModesAreFree(c, '\0');
    GroupsAreFree(c, TraitsOf(c), '\0');
  }
}
