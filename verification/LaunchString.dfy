/** The launch string of an accepted configuration, and the process that takes it apart again. The names of the
    environment variables are a parameter; all that matters is that they do not contain the separators. */
module LaunchString {
  import opened Wrappers
  import opened MachineInts
  import opened HostConfig
  import opened HostSettings
  import opened HostFingerprint

  const PREFIX := "__env="

  ghost predicate CleanNames(names: Key -> string) {
    forall key :: names(key) != "" && '=' !in names(key) && '|' !in names(key) && '\0' !in names(key)
  }

  function Item(names: Key -> string, s: Setting): string {
    PREFIX + names(s.key) + "=" + s.value
  }

  function Items(names: Key -> string, settings: seq<Setting>): (items: seq<string>)
    ensures |items| == |settings|
    ensures forall i | 0 <= i < |settings| :: items[i] == Item(names, settings[i])
  {
    seq(|settings|, i requires 0 <= i < |settings| => Item(names, settings[i]))
  }

  function WithSettings(names: Key -> string, params: string, settings: seq<Setting>): string {
    if settings == [] then params
    else WithSettings(names, params, settings[..|settings| - 1]) + "|" + Item(names, settings[|settings| - 1])
  }

  function Rendered(names: Key -> string, c: Config): string {
    WithSettings(names, c.helperPath + "|" + c.socketPath, Settings(c))
  }

  /** `AppendEnv`. */
  method AppendEnv(names: Key -> string, params: string, s: Setting) returns (r: string)
    ensures r == params + "|" + Item(names, s)
  {
    r := params + "|__env=";
    r := r + names(s.key);
    r := r + "=";
    r := r + s.value;
    assert r == params + "|" + Item(names, s);
  }

  /** `BuildVirglHostLaunchConfig`, for an accepted configuration only: the string with one setting after another, the
      fingerprint, and whether the performance summaries of the host are passed on. */
  method BuildLaunch(names: Key -> string, c: Config)
    returns (verdict: Verdict, params: string, fingerprint: u64, forward: bool)
    ensures verdict == Accepted <==> Acceptable(c)
    ensures verdict == Accepted ==> params == Rendered(names, c) && fingerprint == Hash64(Framing(FieldBytes(c)))
    ensures verdict == Accepted ==>
              (forward <==> c.descriptorUpdateSerialize == "1" || ForwardsSummaries(TraceOf(c.shadowTrace)))
  {
    params, fingerprint, forward := "", 0, false;
    verdict := ValidateVirglHostConfig(c);
    if verdict != Accepted {
      return;
    }
    params := AppendAll(names, c.helperPath + "|" + c.socketPath, Settings(c));
    fingerprint := Fingerprint(FieldBytes(c));
    var t := TraitsOf(c);
    forward := t.perfSummary || t.frameTimeline || t.sampledPerf;
    TraitsAre(c);
  }

  /** The traces whose performance summaries are of interest to the app. */
  predicate ForwardsSummaries(trace: Trace) {
    trace == Perf || trace == NoUpload || trace == DescriptorSerialized || trace == Timeline || trace == Sampled
  }

  /** One setting after another. */
  method AppendAll(names: Key -> string, start: string, settings: seq<Setting>) returns (params: string)
    ensures params == WithSettings(names, start, settings)
  {
    params := start;
    var i := 0;
    while i < |settings|
      invariant 0 <= i <= |settings|
      invariant params == WithSettings(names, start, settings[..i])
    {
      params := AppendEnv(names, params, settings[i]);
      assert settings[..i + 1][..i] == settings[..i];
      i := i + 1;
    }
    assert settings[..i] == settings;
  }

  // ---- Taking it apart ----

  /** Where `c` first occurs; the length if it does not. */
  function IndexOf(s: string, c: char): (i: nat)
    ensures i <= |s| && c !in s[..i] && (i < |s| ==> s[i] == c)
    decreases |s|
  {
    if s == "" || s[0] == c then 0
    else
      var i := 1 + IndexOf(s[1..], c);
      assert s[..i] == [s[0]] + s[1..][..i - 1];
      i
  }

  /** `strtok_r` with the separator: the non-empty pieces. */
  function Tokens(s: string): seq<string>
    decreases |s|
  {
    if s == "" then []
    else if s[0] == '|' then Tokens(s[1..])
    else
      var i := IndexOf(s, '|');
      assert i > 0;
      [s[..i]] + Tokens(s[i..])
  }

  /** A string as a C function sees it. */
  function CString(s: string): (r: string)
    ensures '\0' !in r
  {
    s[..IndexOf(s, '\0')]
  }

  ghost predicate IsAllowed(names: Key -> string, text: string) {
    exists key :: names(key) == text
  }

  datatype Assignment = Assignment(name: string, value: string)

  /** `ApplyHostEnv`: what one token sets. */
  ghost function ParseItem(names: Key -> string, token: string): Option<Assignment> {
    if !("__env=" <= token) then None
    else
      var assignment := token[6..];
      var equals := IndexOf(assignment, '=');
      if equals == |assignment| || equals == 0 || !IsAllowed(names, assignment[..equals]) then None
      else Some(Assignment(assignment[..equals], assignment[equals + 1..]))
  }

  ghost function Parsed(names: Key -> string, tokens: seq<string>): seq<Assignment> {
    if tokens == [] then []
    else
      var init, last := Parsed(names, tokens[..|tokens| - 1]), ParseItem(names, tokens[|tokens| - 1]);
      if last.None? then init else init + [last.value]
  }

  datatype Launch = Launch(helperPath: string, socketPath: string, environment: seq<Assignment>)

  /** What the launched process makes of its parameters. */
  ghost function Received(names: Key -> string, params: string): Option<Launch> {
    var tokens := Tokens(CString(params));
    if |tokens| < 2 then None else Some(Launch(tokens[0], tokens[1], Parsed(names, tokens[2..])))
  }

  ghost function Assignments(names: Key -> string, settings: seq<Setting>): (r: seq<Assignment>)
    ensures |r| == |settings|
    ensures forall i | 0 <= i < |settings| :: r[i] == Assignment(names(settings[i].key), settings[i].value)
  {
    seq(|settings|, i requires 0 <= i < |settings| => Assignment(names(settings[i].key), settings[i].value))
  }

  lemma {:induction false} IndexOfIs(s: string, c: char, i: nat)
    requires i <= |s| && c !in s[..i] && (i < |s| ==> s[i] == c)
    ensures IndexOf(s, c) == i
    decreases i
  {
    if i > 0 {
      assert s[0] == s[..i][0];
      assert s[1..][..i - 1] == s[..i][1..];
      IndexOfIs(s[1..], c, i - 1);
    }
  }

  /** The first separator of two strings joined by one. */
  lemma FirstSeparator(a: string, b: string)
    ensures IndexOf(a + "|" + b, '|') == IndexOf(a, '|')
    ensures var i := IndexOf(a, '|');
            (a + "|" + b)[..i] == a[..i] && (a + "|" + b)[i..] == a[i..] + "|" + b
  {
    var i := IndexOf(a, '|');
    assert (a + "|" + b)[..i] == a[..i];
    IndexOfIs(a + "|" + b, '|', i);
  }

  lemma {:induction false} TokensOfTwo(a: string, b: string)
    ensures Tokens(a + "|" + b) == Tokens(a) + Tokens(b)
    decreases |a|
  {
    var s := a + "|" + b;
    if a == "" {
      assert s[1..] == b;
    } else if a[0] == '|' {
      assert s[1..] == a[1..] + "|" + b;
      TokensOfTwo(a[1..], b);
    } else {
      var i := IndexOf(a, '|');
      FirstSeparator(a, b);
      TokensOfTwo(a[i..], b);
      assert Tokens(s) == [a[..i]] + Tokens(s[i..]);
    }
  }

  lemma OneToken(t: string)
    requires t != "" && '|' !in t
    ensures Tokens(t) == [t]
  {
    IndexOfIs(t, '|', |t|);
    assert t[..|t|] == t && t[|t|..] == "";
  }

  lemma ItemIsOneToken(names: Key -> string, s: Setting)
    requires CleanNames(names) && '|' !in s.value
    ensures Tokens(Item(names, s)) == [Item(names, s)]
  {
    OneToken(Item(names, s));
  }

  lemma {:induction false} TokensOfRendered(names: Key -> string, params: string, settings: seq<Setting>)
    requires CleanNames(names) && Free(settings, '|')
    ensures Tokens(WithSettings(names, params, settings)) == Tokens(params) + Items(names, settings)
    decreases |settings|
  {
    if settings == [] {
      assert Items(names, settings) == [];
    } else {
      var init, last := settings[..|settings| - 1], settings[|settings| - 1];
      assert forall s | s in init :: s in settings;
      TokensOfRendered(names, params, init);
      ItemIsOneToken(names, last);
      TokensOfTwo(WithSettings(names, params, init), Item(names, last));
      assert Items(names, settings) == Items(names, init) + [Item(names, last)];
    }
  }

  lemma ParseOfItem(names: Key -> string, s: Setting)
    requires CleanNames(names)
    ensures ParseItem(names, Item(names, s)) == Some(Assignment(names(s.key), s.value))
  {
    var assignment := Item(names, s)[|PREFIX|..];
    assert assignment == names(s.key) + "=" + s.value;
    assert assignment[..|names(s.key)|] == names(s.key);
    IndexOfIs(assignment, '=', |names(s.key)|);
    assert assignment[|names(s.key)| + 1..] == s.value;
  }

  lemma {:induction false} ParsedItems(names: Key -> string, settings: seq<Setting>)
    requires CleanNames(names)
    ensures Parsed(names, Items(names, settings)) == Assignments(names, settings)
    decreases |settings|
  {
    if settings != [] {
      var init, last := settings[..|settings| - 1], settings[|settings| - 1];
      ParsedItems(names, init);
      ParseOfItem(names, last);
      assert Items(names, settings)[..|settings| - 1] == Items(names, init);
      assert Assignments(names, settings) == Assignments(names, init) + [Assignment(names(last.key), last.value)];
    }
  }

  lemma TokensOfLaunch(names: Key -> string, c: Config)
    requires CleanNames(names) && Acceptable(c)
    ensures Tokens(Rendered(names, c)) == [c.helperPath, c.socketPath] + Items(names, Settings(c))
  {
    ValuesAreSafe(c);
    TokensOfAll(names, c.helperPath, c.socketPath, Settings(c));
  }

  lemma TokensOfAll(names: Key -> string, helperPath: string, socketPath: string, settings: seq<Setting>)
    requires CleanNames(names) && Free(settings, '|')
    requires helperPath != "" && socketPath != "" && '|' !in helperPath && '|' !in socketPath
    ensures Tokens(WithSettings(names, helperPath + "|" + socketPath, settings)) ==
            [helperPath, socketPath] + Items(names, settings)
  {
    TokensOfRendered(names, helperPath + "|" + socketPath, settings);
    TokensOfTwo(helperPath, socketPath);
    OneToken(helperPath);
    OneToken(socketPath);
  }

  /** What a launch should bring across. */
  ghost function Intended(names: Key -> string, c: Config): Launch {
    Launch(c.helperPath, c.socketPath, Assignments(names, Settings(c)))
  }

  /** The launched process gets both paths and every setting, in order, exactly for the configurations without a NUL
      character in their paths and in the shadow mode: validation lets one through, and the C functions of the other
      side stop there. */
  lemma RoundTrip(names: Key -> string, c: Config)
    requires CleanNames(names) && Acceptable(c)
    ensures Received(names, Rendered(names, c)) == Some(Intended(names, c)) <==> FreeFields(c, '\0')
  {
    var params := Rendered(names, c);
    NulIsRendered(names, c);
    if FreeFields(c, '\0') {
      IndexOfIs(params, '\0', |params|);
      assert CString(params) == params;
      TokensOfLaunch(names, c);
      assert Tokens(params)[2..] == Items(names, Settings(c));
      ParsedItems(names, Settings(c));
    } else if Received(names, params) == Some(Intended(names, c)) {
      NothingReceivedHasNul(names, params);
      IntendedHasNoNul(names, c);
      assert false;
    }
  }

  /** A configuration whose fields are all read as C strings. */
  function OfCStrings(c: Config): Config {
    Config(CString(c.helperPath), CString(c.socketPath), CString(c.libraryPath), CString(c.syncMode),
           CString(c.logPath), CString(c.shadowMode), CString(c.shadowTrace), CString(c.presentMode),
           CString(c.shadowMergeRanges), CString(c.descriptorUpdateSerialize), CString(c.gpuUploadWait))
  }

  /** Such a configuration, if it is accepted, always arrives, whatever its fields were before. */
  lemma CStringsRoundTrip(names: Key -> string, c: Config)
    requires CleanNames(names) && Acceptable(OfCStrings(c))
    ensures Received(names, Rendered(names, OfCStrings(c))) == Some(Intended(names, OfCStrings(c)))
  {
    RoundTrip(names, OfCStrings(c));
  }

  /** An accepted configuration that the launched process does not get. */
  const NUL_CONFIG := Config("/", "/", "/", "egl-main", "/\0", "m", "t", "fifo", "0", "0", "0")

  lemma NulConfigIsAcceptable()
    ensures Acceptable(NUL_CONFIG) && !FreeFields(NUL_CONFIG, '\0')
  {
    var f := Fields(NUL_CONFIG);
    forall i | 0 <= i < |f| ensures f[i] != "" && IsSafeField(f[i]) {
    }
    assert NUL_CONFIG.logPath[1] == '\0';
  }

  lemma NulIsLost(names: Key -> string)
    requires CleanNames(names)
    ensures Acceptable(NUL_CONFIG) && Received(names, Rendered(names, NUL_CONFIG)) != Some(Intended(names, NUL_CONFIG))
  {
    NulConfigIsAcceptable();
    RoundTrip(names, NUL_CONFIG);
  }

  // ---- NUL characters ----

  ghost predicate NoNul(assignments: seq<Assignment>) {
    forall a | a in assignments :: '\0' !in a.name && '\0' !in a.value
  }

  lemma {:induction false} TokensHaveNoNul(s: string)
    requires '\0' !in s
    ensures forall t | t in Tokens(s) :: '\0' !in t
    decreases |s|
  {
    if s != "" {
      if s[0] == '|' {
        TokensHaveNoNul(s[1..]);
      } else {
        TokensHaveNoNul(s[IndexOf(s, '|')..]);
      }
    }
  }

  lemma {:induction false} ParsedHasNoNul(names: Key -> string, tokens: seq<string>)
    requires forall t | t in tokens :: '\0' !in t
    ensures NoNul(Parsed(names, tokens))
    decreases |tokens|
  {
    if tokens != [] {
      ParsedHasNoNul(names, tokens[..|tokens| - 1]);
      assert tokens[|tokens| - 1] in tokens;
    }
  }

  lemma NothingReceivedHasNul(names: Key -> string, params: string)
    requires Received(names, params).Some?
    ensures var launch := Received(names, params).value;
            '\0' !in launch.helperPath && '\0' !in launch.socketPath && NoNul(launch.environment)
  {
    var tokens := Tokens(CString(params));
    TokensHaveNoNul(CString(params));
    ParsedHasNoNul(names, tokens[2..]);
    assert tokens[0] in tokens && tokens[1] in tokens;
  }

  /** The launch string has a NUL character exactly if a part of it has one. */
  lemma {:induction false} NulInParts(names: Key -> string, params: string, settings: seq<Setting>)
    requires CleanNames(names)
    ensures '\0' !in WithSettings(names, params, settings) <==> '\0' !in params && Free(settings, '\0')
    decreases |settings|
  {
    if settings != [] {
      var init, last := settings[..|settings| - 1], settings[|settings| - 1];
      NulInParts(names, params, init);
      assert settings == init + [last];
      assert '\0' !in Item(names, last) <==> '\0' !in last.value;
    }
  }

  lemma NulIsRendered(names: Key -> string, c: Config)
    requires CleanNames(names) && Acceptable(c)
    ensures '\0' !in Rendered(names, c) <==> FreeFields(c, '\0')
  {
    var settings := Settings(c);
    NulInParts(names, c.helperPath + "|" + c.socketPath, settings);
    if FreeFields(c, '\0') {
      ValuesHaveNoNul(c);
    } else {
      WhereTheFieldsAre(c);
      assert settings[0] in settings && settings[5] in settings && settings[13] in settings;
    }
  }

  /** If what should arrive has no NUL character, neither have the fields. */
  lemma IntendedHasNoNul(names: Key -> string, c: Config)
    requires '\0' !in c.helperPath && '\0' !in c.socketPath && NoNul(Assignments(names, Settings(c)))
    ensures FreeFields(c, '\0')
  {
    var all := Assignments(names, Settings(c));
    WhereTheFieldsAre(c);
    assert all[0] in all && all[5] in all && all[13] in all;
  }

  // ---- Injectivity ----

  lemma ItemsInjective(names: Key -> string, a: seq<Setting>, b: seq<Setting>)
    requires CleanNames(names) && Items(names, a) == Items(names, b)
    ensures |a| == |b| && forall i | 0 <= i < |a| :: a[i].value == b[i].value
  {
    assert |a| == |Items(names, a)| == |b|;
    forall i | 0 <= i < |a| ensures a[i].value == b[i].value {
      ParseOfItem(names, a[i]);
      ParseOfItem(names, b[i]);
      assert Items(names, a)[i] == Items(names, b)[i];
    }
  }

  lemma WhereTheFieldsAre(c: Config)
    ensures |Settings(c)| >= 36
    ensures Settings(c)[0].value == c.libraryPath && Settings(c)[4].value == c.syncMode
    ensures Settings(c)[5].value == c.logPath
    ensures '\0' in c.shadowMode ==> Settings(c)[13].value == c.shadowMode
    ensures Settings(c)[22].value == c.gpuUploadWait && Settings(c)[31].value == c.shadowMergeRanges
    ensures Settings(c)[34].value == c.presentMode
  {
    WhereInGroups(c, TraitsOf(c));
    if '\0' in c.shadowMode {
      OddMode(c);
    }
  }

  /** A shadow mode with a NUL character is none of the known ones, and is passed on. */
  lemma OddMode(c: Config)
    requires '\0' in c.shadowMode
    ensures FromHostMode(TraitsOf(c), c.shadowMode) == c.shadowMode
  {
  }

  lemma WhereInGroups(c: Config, t: Traits)
    ensures var all := Basics(c) + Tracing(t) + Shadowing(t, c.shadowMode) + Profiling(t)
                       + Uploading(t, c.gpuUploadWait)
                       + Batching(t, c.shadowMergeRanges) + Presenting(t, c.presentMode, c.syncMode == "egl-thread");
            && |all| >= 36 && all[0].value == c.libraryPath && all[4].value == c.syncMode && all[5].value == c.logPath
            && all[13].value == FromHostMode(t, c.shadowMode)
            && all[22].value == c.gpuUploadWait && all[31].value == c.shadowMergeRanges
            && all[34].value == c.presentMode
  {
    InGroups(Basics(c), Tracing(t), Shadowing(t, c.shadowMode), Profiling(t), Uploading(t, c.gpuUploadWait),
             Batching(t, c.shadowMergeRanges), Presenting(t, c.presentMode, c.syncMode == "egl-thread"));
  }

  lemma InGroups(a: seq<Setting>, b: seq<Setting>, c: seq<Setting>, d: seq<Setting>, e: seq<Setting>, f: seq<Setting>,
                 g: seq<Setting>)
    requires |a| == 6 && |b| == 7 && |c| == 3 && |d| == 5 && |e| == 7 && |f| == 5 && |g| >= 3
    ensures var all := a + b + c + d + e + f + g;
            && |all| >= 36 && all[0] == a[0] && all[4] == a[4] && all[5] == a[5]
            && all[13] == c[0] && all[22] == e[1] && all[31] == f[3] && all[34] == g[1]
  {
  }

  /** Two accepted configurations have one launch string if and only if they agree on both paths, the fields that are
      passed on and the shadow mode, and have the same effect. The other two fields, the trace and the flag for
      descriptor updates, are seen through their effect alone. */
  lemma SameLaunchIff(names: Key -> string, c: Config, d: Config)
    requires CleanNames(names) && Acceptable(c) && Acceptable(d)
    ensures Rendered(names, c) == Rendered(names, d) <==>
            && c.helperPath == d.helperPath && c.socketPath == d.socketPath
            && SameFields(c, d) && EffectOf(c) == EffectOf(d)
  {
    SameValuesIff(c, d);
    if Rendered(names, c) == Rendered(names, d) {
      TokensOfLaunch(names, c);
      TokensOfLaunch(names, d);
      var tokens := Tokens(Rendered(names, c));
      assert c.helperPath == tokens[0] == d.helperPath && c.socketPath == tokens[1] == d.socketPath;
      assert Items(names, Settings(c)) == tokens[2..] == Items(names, Settings(d));
      ItemsInjective(names, Settings(c), Settings(d));
    }
    if SameFields(c, d) && EffectOf(c) == EffectOf(d) {
      assert forall i | 0 <= i < |Settings(c)| :: Settings(c)[i].value == Settings(d)[i].value;
    }
  }

  /** So what is hashed can tell configurations apart that launch the same process: with serialised descriptor updates,
      uploads by the CPU and no uploads by the GPU are one. */
  lemma HashedMoreThanLaunched(names: Key -> string, c: Config)
    requires CleanNames(names) && Acceptable(c) && IsText(c)
    requires c.shadowTrace == "no-gpu-upload" && c.descriptorUpdateSerialize == "1"
    ensures var d := c.(shadowTrace := "cpu-upload");
            && Acceptable(d) && Rendered(names, c) == Rendered(names, d)
            && Framing(FieldBytes(c)) != Framing(FieldBytes(d))
  {
    var d := c.(shadowTrace := "cpu-upload");
    UploadsDiffer(c.shadowTrace);
    TracesDiffer(d.shadowTrace);
    OtherTrace(c, d);
    SameLaunchIff(names, c, d);
    ConfigsAreTold(c, d);
  }

  lemma OtherTrace(c: Config, d: Config)
    requires Acceptable(c) && IsText(c) && d == c.(shadowTrace := "cpu-upload")
    ensures Acceptable(d) && IsText(d)
  {
    var f, g := Fields(c), Fields(d);
    assert g == f[6 := "cpu-upload"];
    WordIsText("cpu-upload");
    forall x | x in g ensures x != "" && IsSafeField(x) && TextOnly(x) {
      assert x == "cpu-upload" || x in f;
    }
  }

  lemma WordIsText(s: string)
    requires s == "cpu-upload"
    ensures s != "" && IsSafeField(s) && TextOnly(s)
  {
  }
}
