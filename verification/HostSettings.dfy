/** What the modes of a configuration mean, variable by variable: the launch string sets these variables, in this order,
    to these values. */
module HostSettings {
  import opened HostConfig

  /** The shadow traces with a meaning; any other one means nothing. */
  datatype Trace =
    | Capture | FrameAssoc | PresentImage | GpuProfile | Timeline | Sampled | NoUpload | NoUploadFast | Inline
    | Serialized | AliasCover | CoverageSort | DescriptorSerialized | Perf | CpuUpload | LegacySync | NoTrace

  function TraceOf(shadowTrace: string): Trace {
    if shadowTrace == "1" then Capture
    else if shadowTrace == "inline-gpu-upload-frame-assoc-trace" then FrameAssoc
    else if shadowTrace == "present-image-trace" then PresentImage
    else if shadowTrace == "gpu-frame-profile" then GpuProfile
    else if shadowTrace == "frame-timeline" then Timeline
    else if shadowTrace == "inline-gpu-upload-coverage-sort-sampled" then Sampled
    else if shadowTrace == "no-gpu-upload" then NoUpload
    else if shadowTrace == "no-gpu-upload-fast" then NoUploadFast
    else if shadowTrace == "inline-gpu-upload" then Inline
    else if shadowTrace == "inline-gpu-upload-serialized" then Serialized
    else if shadowTrace == "inline-gpu-upload-alias-cover" then AliasCover
    else if shadowTrace == "inline-gpu-upload-coverage-sort" then CoverageSort
    else if shadowTrace == "inline-gpu-upload-descriptor-serialized" then DescriptorSerialized
    else if shadowTrace == "perf" then Perf
    else if shadowTrace == "cpu-upload" then CpuUpload
    else if shadowTrace == "legacy-host-sync" then LegacySync
    else NoTrace
  }

  /** The shadow modes with a meaning. */
  datatype Mode = ToHostExplicit | Precise | PreciseDirty | OtherMode

  function ModeOf(shadowMode: string): Mode {
    if shadowMode == "to-host-explicit" then ToHostExplicit
    else if shadowMode == "precise" then Precise
    else if shadowMode == "precise-dirty" then PreciseDirty
    else OtherMode
  }

  predicate Captures(trace: Trace) {
    trace == Capture || trace == FrameAssoc
  }

  predicate Sorts(trace: Trace) {
    trace == CoverageSort || trace == AliasCover || trace == GpuProfile || trace == Timeline || trace == Sampled
  }

  predicate Summarises(trace: Trace) {
    trace == Perf || trace == NoUpload || trace == DescriptorSerialized
  }

  predicate Inlines(trace: Trace) {
    trace == Inline || trace == Serialized || trace == DescriptorSerialized || trace == FrameAssoc || Sorts(trace)
  }

  predicate NeverUploads(trace: Trace) {
    trace == NoUpload || trace == NoUploadFast || trace == CpuUpload || trace == LegacySync
  }

  // ---- What every variable is set to ----

  function BasicMeaning(c: Config): seq<Setting> {
    [ Setting(LD_LIBRARY_PATH, c.libraryPath),
      Setting(VTEST_USE_GLES, "1"),
      Setting(VTEST_USE_EGL_SURFACELESS, "1"),
      Setting(VTEST_SYNC_GL_FINISH, "1"),
      Setting(WINEHUA_VIRGL_SYNC_MODE, c.syncMode),
      Setting(WINEHUA_VIRGL_LOG_PATH, c.logPath) ]
  }

  function TracingMeaning(trace: Trace, mode: Mode): seq<Setting> {
    [ Setting(WINEHUA_VKR_TRACE_SAMPLED, Flag(trace == FrameAssoc || mode == ToHostExplicit || mode == OtherMode)),
      Setting(WINEHUA_VKR_TRACE_CAPTURE, Flag(Captures(trace))),
      Setting(WINEHUA_VKR_TRACE_CAPTURE_LIMIT, if Captures(trace) then "20000" else "512"),
      Setting(WINEHUA_RESOURCE_TRACE, Flag(Captures(trace))),
      Setting(WINEHUA_VKR_TRACE_UBO_IDENTITY, if trace == FrameAssoc then "focused" else "0"),
      Setting(WINEHUA_VKR_TRACE_PRESENT_IMAGE, Flag(trace == PresentImage)),
      Setting(WINEHUA_VKR_TRACE_PIPELINE, Flag(Captures(trace))) ]
  }

  function ShadowingMeaning(trace: Trace, mode: Mode, shadowMode: string): seq<Setting> {
    [ Setting(VKR_WINEHUA_SHADOW_FROM_HOST,
              match mode case ToHostExplicit => "full" case OtherMode => shadowMode case _ => "precise"),
      Setting(VKR_WINEHUA_SHADOW_TO_HOST, if mode == ToHostExplicit || mode == Precise then "explicit" else "full"),
      Setting(VKR_WINEHUA_SHADOW_TRACE, Flag(Captures(trace))) ]
  }

  function ProfilingMeaning(trace: Trace, serialize: bool): seq<Setting> {
    var timeline := trace == Timeline;
    [ Setting(VKR_WINEHUA_PERF_SUMMARY, Flag(serialize || Summarises(trace))),
      Setting(VKR_WINEHUA_PERF_SAMPLE_INTERVAL, if trace == Sampled then "120" else "0"),
      Setting(VKR_WINEHUA_FRAME_TIMELINE_INTERVAL, if timeline then "120" else "0"),
      Setting(WINEHUA_VENUS_GPU_FRAME_PROFILE, Flag(trace == GpuProfile || timeline)),
      Setting(WINEHUA_VTEST_PRESENT_PERF_SUMMARY,
              Flag(serialize || Summarises(trace) || Captures(trace) || trace == GpuProfile || timeline ||
                   trace == Sampled)) ]
  }

  function UploadingMeaning(trace: Trace, serialize: bool, gpuUploadWait: string): seq<Setting> {
    [ Setting(VKR_WINEHUA_GPU_UPLOAD, if NeverUploads(trace) then "0" else if Captures(trace) then "1" else "auto"),
      Setting(VKR_WINEHUA_GPU_UPLOAD_WAIT, gpuUploadWait),
      Setting(VKR_WINEHUA_GPU_UPLOAD_INLINE, Flag(serialize || Inlines(trace))),
      Setting(VKR_WINEHUA_COVERAGE_SORT, Flag(Sorts(trace))),
      Setting(VKR_WINEHUA_GPU_UPLOAD_SERIALIZE, Flag(trace == Serialized)),
      Setting(VKR_WINEHUA_SHADOW_GENERATION_SERIALIZE, Flag(trace == FrameAssoc)),
      Setting(VKR_WINEHUA_DESCRIPTOR_UPDATE_SERIALIZE, Flag(serialize || trace == DescriptorSerialized)) ]
  }

  function BatchingMeaning(trace: Trace, shadowMergeRanges: string): seq<Setting> {
    [ Setting(VKR_WINEHUA_SHADOW_DIRTY_LIST, Flag(trace != LegacySync)),
      Setting(VKR_WINEHUA_BOUND_BUFFER_LIST, Flag(trace == Perf)),
      Setting(VKR_WINEHUA_BATCH_FLUSH, Flag(trace != LegacySync && trace != NoUploadFast)),
      Setting(VKR_WINEHUA_SHADOW_MERGE_RANGES, shadowMergeRanges),
      Setting(VKR_WINEHUA_SHADOW_COVER_UPLOAD, Flag(trace == AliasCover)) ]
  }

  function PresentingMeaning(trace: Trace, presentMode: string, eglThread: bool): seq<Setting> {
    [ Setting(WINEHUA_VKR_PRESENT_STAGE_TRACE, Flag(Captures(trace))),
      Setting(WINEHUA_VENUS_PRESENT_MODE, presentMode),
      Setting(EGL_PLATFORM, "surfaceless") ]
    + if eglThread then [Setting(VIRGL_DISABLE_NATIVE_FENCE_FD, "1")] else []
  }

  /** Everything that is set, for a trace and with or without serialised descriptor updates. */
  function Meaning(c: Config, trace: Trace, serialize: bool): seq<Setting> {
    BasicMeaning(c) + TracingMeaning(trace, ModeOf(c.shadowMode))
    + ShadowingMeaning(trace, ModeOf(c.shadowMode), c.shadowMode) + ProfilingMeaning(trace, serialize)
    + UploadingMeaning(trace, serialize, c.gpuUploadWait) + BatchingMeaning(trace, c.shadowMergeRanges)
    + PresentingMeaning(trace, c.presentMode, c.syncMode == "egl-thread")
  }

  // ---- What the flags that the source derives first stand for ----

  lemma TracesDiffer(s: string)
    ensures (s == "1" <==> TraceOf(s) == Capture) && (s == "perf" <==> TraceOf(s) == Perf)
    ensures s == "inline-gpu-upload-frame-assoc-trace" <==> TraceOf(s) == FrameAssoc
    ensures s == "present-image-trace" <==> TraceOf(s) == PresentImage
    ensures s == "cpu-upload" <==> TraceOf(s) == CpuUpload
    ensures s == "legacy-host-sync" <==> TraceOf(s) == LegacySync
  {
    assert "gpu-frame-profile"[0] != "inline-gpu-upload"[0];
    assert "inline-gpu-upload-coverage-sort-sampled"[18] != "inline-gpu-upload-descriptor-serialized"[18];
  }

  lemma SortsDiffer(s: string)
    ensures s == "gpu-frame-profile" <==> TraceOf(s) == GpuProfile
    ensures s == "frame-timeline" <==> TraceOf(s) == Timeline
    ensures s == "inline-gpu-upload-coverage-sort-sampled" <==> TraceOf(s) == Sampled
    ensures s == "inline-gpu-upload-alias-cover" <==> TraceOf(s) == AliasCover
    ensures s == "inline-gpu-upload-coverage-sort" <==> TraceOf(s) == CoverageSort
  {
    assert "gpu-frame-profile"[0] != "inline-gpu-upload"[0];
    assert "inline-gpu-upload-coverage-sort-sampled"[18] != "inline-gpu-upload-descriptor-serialized"[18];
  }

  lemma UploadsDiffer(s: string)
    ensures s == "no-gpu-upload" <==> TraceOf(s) == NoUpload
    ensures s == "no-gpu-upload-fast" <==> TraceOf(s) == NoUploadFast
    ensures s == "inline-gpu-upload" <==> TraceOf(s) == Inline
    ensures s == "inline-gpu-upload-serialized" <==> TraceOf(s) == Serialized
    ensures s == "inline-gpu-upload-descriptor-serialized" <==> TraceOf(s) == DescriptorSerialized
  {
    assert "gpu-frame-profile"[0] != "inline-gpu-upload"[0];
    assert "inline-gpu-upload-coverage-sort-sampled"[18] != "inline-gpu-upload-descriptor-serialized"[18];
  }

  lemma ModesDiffer(s: string)
    ensures s == "to-host-explicit" <==> ModeOf(s) == ToHostExplicit
    ensures s == "precise" <==> ModeOf(s) == Precise
    ensures s == "precise-dirty" <==> ModeOf(s) == PreciseDirty
  {
  }

  /** The flags in terms of what the modes mean. */
  function TraitsFor(trace: Trace, mode: Mode, serialize: bool): Traits {
    Traits(
      mode == ToHostExplicit, mode == PreciseDirty, mode == Precise || mode == PreciseDirty, trace == FrameAssoc,
      trace == PresentImage, trace == GpuProfile, trace == Timeline, trace == Sampled, Captures(trace),
      trace == NoUploadFast, trace == NoUpload || trace == NoUploadFast, trace == Serialized, trace == AliasCover,
      Sorts(trace), serialize || trace == DescriptorSerialized, serialize || Inlines(trace),
      serialize || Summarises(trace), trace == Perf, trace == CpuUpload, trace == LegacySync)
  }

  lemma TraitsAre(c: Config)
    ensures TraitsOf(c) == TraitsFor(TraceOf(c.shadowTrace), ModeOf(c.shadowMode), c.descriptorUpdateSerialize == "1")
  {
    TracesDiffer(c.shadowTrace);
    UploadsDiffer(c.shadowTrace);
    SortsDiffer(c.shadowTrace);
    ModesDiffer(c.shadowMode);
  }

  // ---- The groups ----

  lemma TracingMeans(trace: Trace, mode: Mode, serialize: bool)
    ensures Tracing(TraitsFor(trace, mode, serialize)) == TracingMeaning(trace, mode)
  {
  }

  lemma ShadowingMeans(trace: Trace, mode: Mode, serialize: bool, shadowMode: string)
    ensures Shadowing(TraitsFor(trace, mode, serialize), shadowMode) == ShadowingMeaning(trace, mode, shadowMode)
  {
  }

  lemma ProfilingMeans(trace: Trace, mode: Mode, serialize: bool)
    ensures Profiling(TraitsFor(trace, mode, serialize)) == ProfilingMeaning(trace, serialize)
  {
  }

  lemma UploadingMeans(trace: Trace, mode: Mode, serialize: bool, wait: string)
    ensures Uploading(TraitsFor(trace, mode, serialize), wait) == UploadingMeaning(trace, serialize, wait)
  {
  }

  lemma BatchingMeans(trace: Trace, mode: Mode, serialize: bool, ranges: string)
    ensures Batching(TraitsFor(trace, mode, serialize), ranges) == BatchingMeaning(trace, ranges)
  {
  }

  lemma PresentingMeans(trace: Trace, mode: Mode, serialize: bool, present: string, thread: bool)
    ensures Presenting(TraitsFor(trace, mode, serialize), present, thread) == PresentingMeaning(trace, present, thread)
  {
  }

  /** The launch string sets every variable to what the modes mean for it. */
  lemma SettingsMean(c: Config)
    ensures Settings(c) == Meaning(c, TraceOf(c.shadowTrace), c.descriptorUpdateSerialize == "1")
  {
    var trace, mode, serialize := TraceOf(c.shadowTrace), ModeOf(c.shadowMode), c.descriptorUpdateSerialize == "1";
    TraitsAre(c);
    assert Basics(c) == BasicMeaning(c);
    TracingMeans(trace, mode, serialize);
    ShadowingMeans(trace, mode, serialize, c.shadowMode);
    ProfilingMeans(trace, mode, serialize);
    UploadingMeans(trace, mode, serialize, c.gpuUploadWait);
    BatchingMeans(trace, mode, serialize, c.shadowMergeRanges);
    PresentingMeans(trace, mode, serialize, c.presentMode, c.syncMode == "egl-thread");
  }

  // ---- Which configurations mean the same ----

  /** What is left of the trace and the flag for descriptor updates: serialised updates are inline anyway and summarise
      their performance, so they hide what else only did that. */
  datatype Effect = Effect(trace: Trace, serialize: bool)

  function EffectFor(trace: Trace, serialize: bool): Effect {
    if !serialize && trace != DescriptorSerialized then Effect(trace, false)
    else if trace == DescriptorSerialized || trace == Inline then Effect(NoTrace, true)
    else if trace == CpuUpload then Effect(NoUpload, true)
    else Effect(trace, true)
  }

  function EffectOf(c: Config): Effect {
    EffectFor(TraceOf(c.shadowTrace), c.descriptorUpdateSerialize == "1")
  }

  lemma EffectSuffices(c: Config, trace: Trace, serialize: bool)
    ensures var e := EffectFor(trace, serialize); Meaning(c, trace, serialize) == Meaning(c, e.trace, e.serialize)
  {
    EffectTraces(trace, serialize, ModeOf(c.shadowMode), c.shadowMode);
    EffectUploads(trace, serialize, c.gpuUploadWait);
    EffectBatches(trace, serialize, c.shadowMergeRanges, c.presentMode, c.syncMode == "egl-thread");
  }

  lemma EffectTraces(trace: Trace, serialize: bool, mode: Mode, shadowMode: string)
    ensures var e := EffectFor(trace, serialize);
            && TracingMeaning(trace, mode) == TracingMeaning(e.trace, mode)
            && ShadowingMeaning(trace, mode, shadowMode) == ShadowingMeaning(e.trace, mode, shadowMode)
  {
    var e := EffectFor(trace, serialize);
    assert Captures(trace) == Captures(e.trace) && (trace == FrameAssoc <==> e.trace == FrameAssoc);
  }

  lemma EffectUploads(trace: Trace, serialize: bool, wait: string)
    ensures var e := EffectFor(trace, serialize);
            && UploadingMeaning(trace, serialize, wait) == UploadingMeaning(e.trace, e.serialize, wait)
            && ProfilingMeaning(trace, serialize) == ProfilingMeaning(e.trace, e.serialize)
  {
    var e := EffectFor(trace, serialize);
    assert serialize || Inlines(trace) <==> e.serialize || Inlines(e.trace);
    assert serialize || Summarises(trace) <==> e.serialize || Summarises(e.trace);
    assert NeverUploads(trace) == NeverUploads(e.trace) && Sorts(trace) == Sorts(e.trace);
    assert Captures(trace) == Captures(e.trace);
  }

  lemma EffectBatches(trace: Trace, serialize: bool, ranges: string, present: string, thread: bool)
    ensures var e := EffectFor(trace, serialize);
            && BatchingMeaning(trace, ranges) == BatchingMeaning(e.trace, ranges)
            && PresentingMeaning(trace, present, thread) == PresentingMeaning(e.trace, present, thread)
  {
  }

  ghost predicate SameValues(a: seq<Setting>, b: seq<Setting>) {
    && |a| == |b|
    && forall i | 0 <= i < |a| :: a[i].value == b[i].value
  }

  lemma SplitValues(a: seq<Setting>, b: seq<Setting>, c: seq<Setting>, d: seq<Setting>)
    requires SameValues(a + b, c + d) && |a| == |c|
    ensures SameValues(a, c) && SameValues(b, d)
  {
    assert |b| == |d|;
    forall i | 0 <= i < |a| ensures a[i].value == c[i].value {
      assert (a + b)[i].value == (c + d)[i].value;
    }
    forall i | 0 <= i < |b| ensures b[i].value == d[i].value {
      assert (a + b)[|a| + i].value == (c + d)[|a| + i].value;
    }
  }

  lemma FlagsDiffer(on: bool, other: bool)
    ensures Flag(on) == Flag(other) <==> on == other
  {
  }

  lemma TracingTells(t: Trace, u: Trace, m: Mode, n: Mode)
    requires SameValues(TracingMeaning(t, m), TracingMeaning(u, n))
    ensures Captures(t) == Captures(u) && (t == FrameAssoc <==> u == FrameAssoc)
    ensures t == PresentImage <==> u == PresentImage
  {
    var a, b := TracingMeaning(t, m), TracingMeaning(u, n);
    assert a[1].value == b[1].value && a[4].value == b[4].value && a[5].value == b[5].value;
    FlagsDiffer(Captures(t), Captures(u));
    FlagsDiffer(t == PresentImage, u == PresentImage);
  }

  lemma ProfilingTells(t: Trace, u: Trace, s: bool, r: bool)
    requires SameValues(ProfilingMeaning(t, s), ProfilingMeaning(u, r))
    ensures s || Summarises(t) <==> r || Summarises(u)
    ensures (t == Sampled <==> u == Sampled) && (t == Timeline <==> u == Timeline)
    ensures t == GpuProfile || t == Timeline <==> u == GpuProfile || u == Timeline
  {
    var a, b := ProfilingMeaning(t, s), ProfilingMeaning(u, r);
    assert a[0].value == b[0].value && a[1].value == b[1].value && a[2].value == b[2].value && a[3].value == b[3].value;
    FlagsDiffer(s || Summarises(t), r || Summarises(u));
    FlagsDiffer(t == GpuProfile || t == Timeline, u == GpuProfile || u == Timeline);
  }

  lemma UploadingTells(t: Trace, u: Trace, s: bool, r: bool, wait: string, other: string)
    requires SameValues(UploadingMeaning(t, s, wait), UploadingMeaning(u, r, other))
    ensures NeverUploads(t) == NeverUploads(u) && Sorts(t) == Sorts(u) && wait == other
    ensures s || Inlines(t) <==> r || Inlines(u)
    ensures t == Serialized <==> u == Serialized
    ensures s || t == DescriptorSerialized <==> r || u == DescriptorSerialized
  {
    var a, b := UploadingMeaning(t, s, wait), UploadingMeaning(u, r, other);
    assert a[0].value == b[0].value && a[1].value == b[1].value && a[2].value == b[2].value && a[3].value == b[3].value;
    assert a[4].value == b[4].value && a[6].value == b[6].value;
    FlagsDiffer(s || Inlines(t), r || Inlines(u));
    FlagsDiffer(Sorts(t), Sorts(u));
    FlagsDiffer(t == Serialized, u == Serialized);
    FlagsDiffer(s || t == DescriptorSerialized, r || u == DescriptorSerialized);
  }

  lemma BatchingTells(t: Trace, u: Trace, ranges: string, other: string)
    requires SameValues(BatchingMeaning(t, ranges), BatchingMeaning(u, other))
    ensures (t == LegacySync <==> u == LegacySync) && (t == Perf <==> u == Perf) && ranges == other
    ensures t == LegacySync || t == NoUploadFast <==> u == LegacySync || u == NoUploadFast
    ensures t == AliasCover <==> u == AliasCover
  {
    var a, b := BatchingMeaning(t, ranges), BatchingMeaning(u, other);
    assert a[0].value == b[0].value && a[1].value == b[1].value && a[2].value == b[2].value && a[3].value == b[3].value;
    assert a[4].value == b[4].value;
    FlagsDiffer(t != LegacySync, u != LegacySync);
    FlagsDiffer(t == Perf, u == Perf);
    FlagsDiffer(t != LegacySync && t != NoUploadFast, u != LegacySync && u != NoUploadFast);
    FlagsDiffer(t == AliasCover, u == AliasCover);
  }

  lemma ShadowingTells(t: Trace, u: Trace, mode: string, other: string)
    requires SameValues(ShadowingMeaning(t, ModeOf(mode), mode), ShadowingMeaning(u, ModeOf(other), other))
    ensures mode == other
  {
    var a, b := ShadowingMeaning(t, ModeOf(mode), mode), ShadowingMeaning(u, ModeOf(other), other);
    assert a[0].value == b[0].value && a[1].value == b[1].value;
    ModesDiffer(mode);
    ModesDiffer(other);
  }

  /** The six fields that are set as they are, and the shadow mode. */
  predicate SameFields(c: Config, d: Config) {
    && c.libraryPath == d.libraryPath && c.syncMode == d.syncMode && c.logPath == d.logPath
    && c.shadowMode == d.shadowMode && c.presentMode == d.presentMode
    && c.shadowMergeRanges == d.shadowMergeRanges && c.gpuUploadWait == d.gpuUploadWait
  }

  lemma GroupsTell(c: Config, d: Config, t: Trace, u: Trace, s: bool, r: bool)
    requires SameValues(Meaning(c, t, s), Meaning(d, u, r))
    ensures SameValues(BasicMeaning(c), BasicMeaning(d))
    ensures SameValues(TracingMeaning(t, ModeOf(c.shadowMode)), TracingMeaning(u, ModeOf(d.shadowMode)))
    ensures SameValues(ShadowingMeaning(t, ModeOf(c.shadowMode), c.shadowMode),
                       ShadowingMeaning(u, ModeOf(d.shadowMode), d.shadowMode))
    ensures SameValues(ProfilingMeaning(t, s), ProfilingMeaning(u, r))
    ensures SameValues(UploadingMeaning(t, s, c.gpuUploadWait), UploadingMeaning(u, r, d.gpuUploadWait))
    ensures SameValues(BatchingMeaning(t, c.shadowMergeRanges), BatchingMeaning(u, d.shadowMergeRanges))
    ensures SameValues(PresentingMeaning(t, c.presentMode, c.syncMode == "egl-thread"),
                       PresentingMeaning(u, d.presentMode, d.syncMode == "egl-thread"))
  {
    var m, n := ModeOf(c.shadowMode), ModeOf(d.shadowMode);
    var a1, b1 := BasicMeaning(c), BasicMeaning(d);
    var a2, b2 := a1 + TracingMeaning(t, m), b1 + TracingMeaning(u, n);
    var a3, b3 := a2 + ShadowingMeaning(t, m, c.shadowMode), b2 + ShadowingMeaning(u, n, d.shadowMode);
    var a4, b4 := a3 + ProfilingMeaning(t, s), b3 + ProfilingMeaning(u, r);
    var a5, b5 := a4 + UploadingMeaning(t, s, c.gpuUploadWait), b4 + UploadingMeaning(u, r, d.gpuUploadWait);
    var a6, b6 := a5 + BatchingMeaning(t, c.shadowMergeRanges), b5 + BatchingMeaning(u, d.shadowMergeRanges);
    SplitValues(a6, PresentingMeaning(t, c.presentMode, c.syncMode == "egl-thread"),
                b6, PresentingMeaning(u, d.presentMode, d.syncMode == "egl-thread"));
    SplitValues(a5, BatchingMeaning(t, c.shadowMergeRanges), b5, BatchingMeaning(u, d.shadowMergeRanges));
    SplitValues(a4, UploadingMeaning(t, s, c.gpuUploadWait), b4, UploadingMeaning(u, r, d.gpuUploadWait));
    SplitValues(a3, ProfilingMeaning(t, s), b3, ProfilingMeaning(u, r));
    SplitValues(a2, ShadowingMeaning(t, m, c.shadowMode), b2, ShadowingMeaning(u, n, d.shadowMode));
    SplitValues(a1, TracingMeaning(t, m), b1, TracingMeaning(u, n));
  }

  lemma ValuesTell(c: Config, d: Config, t: Trace, u: Trace, s: bool, r: bool)
    requires SameValues(Meaning(c, t, s), Meaning(d, u, r))
    ensures SameFields(c, d) && EffectFor(t, s) == EffectFor(u, r)
  {
    GroupsTell(c, d, t, u, s, r);
    BasicsTell(c, d);
    PresentingTells(t, u, c.presentMode, d.presentMode, c.syncMode == "egl-thread", d.syncMode == "egl-thread");
    ShadowingTells(t, u, c.shadowMode, d.shadowMode);
    BatchingTells(t, u, c.shadowMergeRanges, d.shadowMergeRanges);
    UploadingTells(t, u, s, r, c.gpuUploadWait, d.gpuUploadWait);
    TracingTells(t, u, ModeOf(c.shadowMode), ModeOf(d.shadowMode));
    ProfilingTells(t, u, s, r);
    FlagsTell(t, u, s, r);
  }

  lemma BasicsTell(c: Config, d: Config)
    requires SameValues(BasicMeaning(c), BasicMeaning(d))
    ensures c.libraryPath == d.libraryPath && c.syncMode == d.syncMode && c.logPath == d.logPath
  {
    assert BasicMeaning(c)[0].value == BasicMeaning(d)[0].value;
    assert BasicMeaning(c)[4].value == BasicMeaning(d)[4].value;
    assert BasicMeaning(c)[5].value == BasicMeaning(d)[5].value;
  }

  lemma PresentingTells(t: Trace, u: Trace, present: string, other: string, thread: bool, otherThread: bool)
    requires SameValues(PresentingMeaning(t, present, thread), PresentingMeaning(u, other, otherThread))
    ensures present == other
  {
    assert PresentingMeaning(t, present, thread)[1].value == PresentingMeaning(u, other, otherThread)[1].value;
  }

  /** No two effects give the same flags. */
  lemma FlagsTell(t: Trace, u: Trace, s: bool, r: bool)
    requires Captures(t) == Captures(u) && (t == FrameAssoc <==> u == FrameAssoc)
    requires t == PresentImage <==> u == PresentImage
    requires s || Summarises(t) <==> r || Summarises(u)
    requires (t == Sampled <==> u == Sampled) && (t == Timeline <==> u == Timeline)
    requires t == GpuProfile || t == Timeline <==> u == GpuProfile || u == Timeline
    requires NeverUploads(t) == NeverUploads(u) && Sorts(t) == Sorts(u)
    requires s || Inlines(t) <==> r || Inlines(u)
    requires t == Serialized <==> u == Serialized
    requires s || t == DescriptorSerialized <==> r || u == DescriptorSerialized
    requires (t == LegacySync <==> u == LegacySync) && (t == Perf <==> u == Perf)
    requires t == LegacySync || t == NoUploadFast <==> u == LegacySync || u == NoUploadFast
    requires t == AliasCover <==> u == AliasCover
    ensures EffectFor(t, s) == EffectFor(u, r)
  {
  }

  /** Two configurations set the same values if and only if they agree on the fields that are passed on, the shadow mode
      among them, and have the same effect. */
  lemma SameValuesIff(c: Config, d: Config)
    ensures SameValues(Settings(c), Settings(d)) <==> SameFields(c, d) && EffectOf(c) == EffectOf(d)
    ensures SameValues(Settings(c), Settings(d)) ==> Settings(c) == Settings(d)
  {
    var t, u := TraceOf(c.shadowTrace), TraceOf(d.shadowTrace);
    var s, r := c.descriptorUpdateSerialize == "1", d.descriptorUpdateSerialize == "1";
    SettingsMean(c);
    SettingsMean(d);
    if SameValues(Settings(c), Settings(d)) {
      ValuesTell(c, d, t, u, s, r);
    }
    if SameFields(c, d) && EffectOf(c) == EffectOf(d) {
      EffectSuffices(c, t, s);
      EffectSuffices(d, u, r);
    }
  }
}
