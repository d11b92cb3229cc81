/**
 * The generate command's parsing: the operator mode, the format check on
 * the image override flags, and the resource they are written into.  The
 * flags arrive as a map from flag name to value; a flag that was not given
 * reads as the empty string.
 */
module Generate {
  import opened Wrappers
  import opened Strings
  import opened Resource
  import opened FlagValues

  /** `IsOlm`: only the two explicit modes are understood. */
  function IsOlm(operatorMode: string): (r: Result<bool>)
    ensures r == Ok(true) <==> operatorMode == OperatorOlm
    ensures r == Ok(false) <==> operatorMode == OperatorPlain
    ensures r.Err? <==> operatorMode != OperatorOlm && operatorMode != OperatorPlain
    ensures r.Err? ==> r.msg == "automatic detection of OLM not implemented yet"
  {
    if operatorMode == OperatorOlm then Ok(true)
    else if operatorMode == OperatorPlain then Ok(false)
    else Err("automatic detection of OLM not implemented yet")
  }

  // ---------------------------------------------------------------------
  // The override format `^[\w-\/\.@]*:?[\w-\.]+$`

  /** `[\w-\/\.@]`. */
  predicate IsImageChar(c: char) { IsWordChar(c) || c == '-' || c == '/' || c == '.' || c == '@' }

  /** `[\w-\.]`. */
  predicate IsTagChar(c: char) { IsWordChar(c) || c == '-' || c == '.' }

  predicate AllImage(s: string) { forall i :: 0 <= i < |s| ==> IsImageChar(s[i]) }

  predicate AllTag(s: string) { forall i :: 0 <= i < |s| ==> IsTagChar(s[i]) }

  /**
   * The format check.  Neither class holds `:`, so a `:` splits the value
   * into its two runs; without one, the value is a single run whose last
   * character is in the smaller class (which is contained in the larger).
   */
  predicate ValidOverrideFormat(s: string)
    ensures ValidOverrideFormat(s) ==> s != [] && IsTagChar(s[|s| - 1])
  {
    match IndexOf(s, ':')
    case Some(c) => AllImage(s[..c]) && c + 1 < |s| && AllTag(s[c + 1..])
    case None => s != [] && AllImage(s) && IsTagChar(s[|s| - 1])
  }

  /** The pattern itself: a run of image characters, an optional `:`, a non-empty run of tag characters. */
  ghost predicate ValidOverrideFormatPattern(s: string)
  {
    exists i, j :: 0 <= i <= j < |s| && (j == i || (j == i + 1 && s[i] == ':'))
                   && AllImage(s[..i]) && AllTag(s[j..])
  }

  /** The explicit check agrees with the pattern. */
  lemma ValidOverrideFormatIsPattern(s: string)
    ensures ValidOverrideFormat(s) <==> ValidOverrideFormatPattern(s)
  {
    if ValidOverrideFormat(s) {
      FormatHasPattern(s);
    }
    if ValidOverrideFormatPattern(s) {
      var i, j :| 0 <= i <= j < |s| && (j == i || (j == i + 1 && s[i] == ':'))
                  && AllImage(s[..i]) && AllTag(s[j..]);
      PatternHasFormat(s, i, j);
    }
  }

  /** An accepted value splits as the pattern says. */
  lemma FormatHasPattern(s: string)
    requires ValidOverrideFormat(s)
    ensures ValidOverrideFormatPattern(s)
  {
    match IndexOf(s, ':')
    case Some(c) =>
      assert 0 <= c < c + 1 < |s| && s[c] == ':' && AllImage(s[..c]) && AllTag(s[c + 1..]);
    case None =>
      var i := |s| - 1;
      assert AllImage(s[..i]);
      assert AllTag(s[i..]);
  }

  /** A split of the pattern puts its optional `:` first, so the explicit check accepts. */
  lemma PatternHasFormat(s: string, i: nat, j: nat)
    requires i <= j < |s| && (j == i || (j == i + 1 && s[i] == ':'))
    requires AllImage(s[..i]) && AllTag(s[j..])
    ensures ValidOverrideFormat(s)
  {
    forall n | 0 <= n < i ensures s[n] != ':' && IsImageChar(s[n]) {
      assert s[..i][n] == s[n];
    }
    forall n | j <= n < |s| ensures s[n] != ':' && IsTagChar(s[n]) {
      assert s[j..][n - j] == s[n];
    }
    if j == i + 1 {
      IndexOfIs(s, ':', i);
    } else {
      assert ':' !in s;
    }
  }

  /** Every accepted value has at most one `:` and ends in a tag character. */
  lemma AcceptedOverrideShape(s: string)
    requires ValidOverrideFormat(s)
    ensures s != [] && IsTagChar(s[|s| - 1])
    ensures Count(s, ':') <= 1
  {
    match IndexOf(s, ':')
    case Some(c) =>
      ColonSplit(s, c);
    case None =>
      assert Lacks(s, ':');
      CountAbsent(s, ':');
  }

  /** An accepted value with its first `:` at `c` has that `:` only. */
  lemma ColonSplit(s: string, c: nat)
    requires c < |s| && s[c] == ':' && ':' !in s[..c] && c + 1 < |s| && AllTag(s[c + 1..])
    ensures IsTagChar(s[|s| - 1]) && Count(s, ':') == 1
  {
    var a, t := s[..c], s[c + 1..];
    assert s[|s| - 1] == t[|t| - 1];
    assert s == a + [':'] + t;
    assert Lacks(a, ':') && Lacks(t, ':');
    CountAbsent(a, ':');
    CountAbsent(t, ':');
    CountSingle(':');
    CountAppend(a, [':'], ':');
    CountAppend(a + [':'], t, ':');
  }

  /** `foo:bar:foo` is refused. */
  lemma RejectsTwoColons()
    ensures !ValidOverrideFormat("foo" + ":" + "bar" + ":" + "foo")
  {
    var s := "foo" + ":" + "bar" + ":" + "foo";
    assert Lacks("foo", ':') && Lacks("bar", ':');
    CountTwo("foo", "bar", "foo", ':');
    if ValidOverrideFormat(s) {
      AcceptedOverrideShape(s);
    }
  }

  // ---------------------------------------------------------------------
  // Reading the component flags into the resource

  /** The value of a string flag; one that was not given reads as "". */
  function FlagValue(flags: map<string, string>, name: string): string
  {
    if name in flags then flags[name] else ""
  }

  /** The error for a value of the wrong format. */
  function InvalidFormatMessage(v: string): string
  {
    "invalid format for image override flag '" + v + "'. It should be <image>:<tag> or <tag>"
  }

  /** `parseComponentFlag` on a snapshot. */
  function ParseComponentFlagSpec(st: AppState, flags: map<string, string>, cf: ComponentFlag): (r: Result<AppState>)
    ensures FlagValue(flags, cf.flag) == "" ==> r == Ok(st)
    ensures r.Err? <==> FlagValue(flags, cf.flag) != "" && !ValidOverrideFormat(FlagValue(flags, cf.flag))
    ensures r.Err? ==> r.msg == InvalidFormatMessage(FlagValue(flags, cf.flag))
    ensures r.Ok? && FlagValue(flags, cf.flag) != "" ==> r.value == st.WithOverride(cf.slot, FlagValue(flags, cf.flag))
  {
    var v := FlagValue(flags, cf.flag);
    if v == "" then Ok(st)
    else if !ValidOverrideFormat(v) then Err(InvalidFormatMessage(v))
    else Ok(st.WithOverride(cf.slot, v))
  }

  /** `parseComponentFlag`: writes an accepted value through the pointer into the resource. */
  method ParseComponentFlag(flags: map<string, string>, cf: ComponentFlag, app: EntandoAppV2)
    returns (err: Option<string>)
    modifies app
    ensures match ParseComponentFlagSpec(old(app.State()), flags, cf)
      case Ok(st) => app.State() == st && err == None
      case Err(e) => app.State() == old(app.State()) && err == Some(e)
  {
    var componentImage := FlagValue(flags, cf.flag);
    if componentImage != "" {
      if !ValidOverrideFormat(componentImage) {
        return Some(InvalidFormatMessage(componentImage));
      }
      app.SetOverride(cf.slot, componentImage);
    }
    return None;
  }

  /** The component flags read in order, stopping at the first refused one. */
  function ParseComponentFlags(st: AppState, flags: map<string, string>, cfs: seq<ComponentFlag>)
    : (r: Result<AppState>)
    decreases |cfs|
    ensures r.Ok? ==> r.value.SameOutsideOverrides(st)
  {
    if cfs == [] then Ok(st)
    else match ParseComponentFlags(st, flags, cfs[..|cfs| - 1])
      case Err(e) => Err(e)
      case Ok(prev) => ParseComponentFlagSpec(prev, flags, cfs[|cfs| - 1])
  }

  /** The first refused flag decides the error; the flags after it are not looked at. */
  lemma {:induction false} FirstInvalidFlagAborts(st: AppState, flags: map<string, string>,
                                                  cfs: seq<ComponentFlag>, k: nat)
    requires k < |cfs|
    requires forall i :: 0 <= i < k ==> FlagValue(flags, cfs[i].flag) == ""
                                        || ValidOverrideFormat(FlagValue(flags, cfs[i].flag))
    requires FlagValue(flags, cfs[k].flag) != "" && !ValidOverrideFormat(FlagValue(flags, cfs[k].flag))
    ensures ParseComponentFlags(st, flags, cfs) == Err(InvalidFormatMessage(FlagValue(flags, cfs[k].flag)))
    decreases |cfs|
  {
    if k < |cfs| - 1 {
      FirstInvalidFlagAborts(st, flags, cfs[..|cfs| - 1], k);
    } else {
      AllValidFlagsAccepted(st, flags, cfs[..k]);
    }
  }

  /** The slots of the component flags. */
  function FlagSlots(cfs: seq<ComponentFlag>): (r: seq<Slot>)
    ensures |r| == |cfs| && forall i :: 0 <= i < |cfs| ==> r[i] == cfs[i].slot
  {
    if cfs == [] then [] else FlagSlots(cfs[..|cfs| - 1]) + [cfs[|cfs| - 1].slot]
  }

  /** The override of a slot after reading the flags: the last non-empty flag for it, or the old one. */
  function OverrideAfter(st: AppState, flags: map<string, string>, cfs: seq<ComponentFlag>, s: Slot): string
    decreases |cfs|
  {
    if cfs == [] then st.Override(s)
    else if cfs[|cfs| - 1].slot == s && FlagValue(flags, cfs[|cfs| - 1].flag) != "" then
      FlagValue(flags, cfs[|cfs| - 1].flag)
    else OverrideAfter(st, flags, cfs[..|cfs| - 1], s)
  }

  /**
   * When every flag is empty or well formed, reading them succeeds, and each
   * override is the value of the last non-empty flag for its slot, or is
   * unchanged.
   */
  lemma {:induction false} AllValidFlagsAccepted(st: AppState, flags: map<string, string>, cfs: seq<ComponentFlag>)
    requires forall i :: 0 <= i < |cfs| ==> FlagValue(flags, cfs[i].flag) == ""
                                            || ValidOverrideFormat(FlagValue(flags, cfs[i].flag))
    ensures ParseComponentFlags(st, flags, cfs).Ok?
    ensures forall s :: ParseComponentFlags(st, flags, cfs).value.Override(s) == OverrideAfter(st, flags, cfs, s)
    decreases |cfs|
  {
    if cfs != [] {
      AllValidFlagsAccepted(st, flags, cfs[..|cfs| - 1]);
    }
  }

  /** With distinct slots, a slot's override is its own flag's value when that is non-empty. */
  lemma {:induction false} OverrideAfterOwnFlag(st: AppState, flags: map<string, string>,
                                                cfs: seq<ComponentFlag>, k: nat)
    requires k < |cfs|
    requires forall i, j :: 0 <= i < j < |cfs| ==> cfs[i].slot != cfs[j].slot
    ensures OverrideAfter(st, flags, cfs, cfs[k].slot)
            == if FlagValue(flags, cfs[k].flag) != "" then FlagValue(flags, cfs[k].flag)
               else st.Override(cfs[k].slot)
    decreases |cfs|
  {
    if k < |cfs| - 1 {
      OverrideAfterOwnFlag(st, flags, cfs[..|cfs| - 1], k);
    } else {
      OverrideAfterOtherFlags(st, flags, cfs[..k], cfs[k].slot);
    }
  }

  /** Flags for other slots leave a slot's override alone. */
  lemma {:induction false} OverrideAfterOtherFlags(st: AppState, flags: map<string, string>,
                                                   cfs: seq<ComponentFlag>, s: Slot)
    requires forall i :: 0 <= i < |cfs| ==> cfs[i].slot != s
    ensures OverrideAfter(st, flags, cfs, s) == st.Override(s)
    decreases |cfs|
  {
    if cfs != [] {
      OverrideAfterOtherFlags(st, flags, cfs[..|cfs| - 1], s);
    }
  }

  /** The component flag table names each slot once. */
  lemma ComponentFlagsDistinct()
    ensures forall i, j :: 0 <= i < j < |ComponentFlags| ==> ComponentFlags[i].slot != ComponentFlags[j].slot
    ensures forall i, j :: 0 <= i < j < |ComponentFlags| ==> ComponentFlags[i].flag != ComponentFlags[j].flag
  {
  }

  /**
   * The component loop of `ParseEntandoAppFromCmd`: a new resource with the
   * version, then every component flag in table order; the first refused
   * flag aborts and no resource is returned.
   */
  method ParseEntandoAppFromCmd(version: string, flags: map<string, string>)
    returns (app: EntandoAppV2?, err: Option<string>)
    ensures match ParseComponentFlags(EmptyState.(version := version), flags, ComponentFlags)
      case Ok(st) => err == None && app != null && fresh(app) && app.State() == st
      case Err(e) => err == Some(e) && app == null
  {
    var entandoApp := new EntandoAppV2();
    entandoApp.version := version;
    ghost var st0 := entandoApp.State();
    assert st0 == EmptyState.(version := version);

    var i := 0;
    while i < |ComponentFlags|
      invariant 0 <= i <= |ComponentFlags|
      invariant ParseComponentFlags(st0, flags, ComponentFlags[..i]) == Ok(entandoApp.State())
      invariant fresh(entandoApp)
    {
      ghost var before := entandoApp.State();
      err := ParseComponentFlag(flags, ComponentFlags[i], entandoApp);
      ParseStep(st0, flags, ComponentFlags, i, before, entandoApp.State(), err);
      if err.Some? {
        FirstErrorStays(st0, flags, ComponentFlags, i + 1);
        return null, err;
      }
      i := i + 1;
    }
    assert ComponentFlags[..i] == ComponentFlags;
    return entandoApp, None;
  }

  /** Reading one more flag after a successful prefix. */
  lemma ParseStep(st: AppState, flags: map<string, string>, cfs: seq<ComponentFlag>, i: nat,
                  before: AppState, after: AppState, err: Option<string>)
    requires i < |cfs| && ParseComponentFlags(st, flags, cfs[..i]) == Ok(before)
    requires match ParseComponentFlagSpec(before, flags, cfs[i])
               case Ok(next) => after == next && err == None
               case Err(e) => err == Some(e)
    ensures err.None? ==> ParseComponentFlags(st, flags, cfs[..i + 1]) == Ok(after)
    ensures err.Some? ==> ParseComponentFlags(st, flags, cfs[..i + 1]) == Err(err.value)
  {
    assert cfs[..i + 1][..i] == cfs[..i];
  }

  /** An error on a prefix of the flags is the error of all of them. */
  lemma {:induction false} FirstErrorStays(st: AppState, flags: map<string, string>, cfs: seq<ComponentFlag>, m: nat)
    requires m <= |cfs|
    requires ParseComponentFlags(st, flags, cfs[..m]).Err?
    ensures ParseComponentFlags(st, flags, cfs) == ParseComponentFlags(st, flags, cfs[..m])
    decreases |cfs| - m
  {
    if m < |cfs| {
      assert cfs[..m + 1][..m] == cfs[..m];
      FirstErrorStays(st, flags, cfs, m + 1);
    } else {
      assert cfs[..m] == cfs;
    }
  }

  /** An accepted flag is written verbatim into its own component's field and nowhere else. */
  lemma GeneratedOverrides(version: string, flags: map<string, string>, k: nat)
    requires k < |ComponentFlags|
    requires forall i :: 0 <= i < |ComponentFlags| ==>
               FlagValue(flags, ComponentFlags[i].flag) == "" || ValidOverrideFormat(FlagValue(flags, ComponentFlags[i].flag))
    ensures var r := ParseComponentFlags(EmptyState.(version := version), flags, ComponentFlags);
            r.Ok? && r.value.version == version
            && r.value.Override(ComponentFlags[k].slot) == FlagValue(flags, ComponentFlags[k].flag)
  {
    var st := EmptyState.(version := version);
    AllValidFlagsAccepted(st, flags, ComponentFlags);
    ComponentFlagsDistinct();
    OverrideAfterOwnFlag(st, flags, ComponentFlags, k);
  }
}
