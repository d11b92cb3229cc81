/**
 * The image override adapter: it turns the image overrides the user gave for
 * AppBuilder, DeApp, ComponentManager and Keycloak into full image URLs,
 * pins them to a digest in OLM mode, and warns when an official DeApp or
 * Keycloak image does not belong to the selected installation type.
 *
 * The registry client is a parameter (`DigestLookup`); the warnings that the
 * tool prints on standard error are returned as a sequence of lines.
 */
module ImageOverrideAdapter {
  import opened Wrappers
  import opened Strings
  import opened Resource
  import opened FlagValues
  import opened Images

  /** The registry digest client: an image reference to its digest, or an error message. */
  type DigestLookup = string -> Result<string>

  /** The text that marks a reference already pinned to a digest. */
  const DigestMarker := "@sha256:"

  // ---------------------------------------------------------------------
  // Default repositories

  /** The DeApp repository of an installation type. */
  function GetDefaultDeAppImage(installationType: string): (repo: string)
    ensures repo == DeAppEapRepo <==> installationType == InstallationRedhatCertified
    ensures repo == DeAppWildflyRepo <==> installationType != InstallationRedhatCertified
  {
    if installationType == InstallationRedhatCertified then DeAppEapRepo else DeAppWildflyRepo
  }

  /** The Keycloak repository of an installation type. */
  function GetDefaultKeycloakImage(installationType: string): (repo: string)
    ensures repo == RedHatSsoRepo <==> installationType == InstallationRedhatCertified
    ensures repo == KeycloakRepo <==> installationType != InstallationRedhatCertified
  {
    if installationType == InstallationRedhatCertified then RedHatSsoRepo else KeycloakRepo
  }

  // ---------------------------------------------------------------------
  // One override

  /**
   * The override completed to a full URL: a bare tag gets the default
   * registry, organization and repository; a reference without a registry
   * host gets the default registry; anything else is kept.  The user's text
   * always survives as a suffix.
   */
  function Normalize(ov: string, defaultImage: string): (r: string)
    ensures |ov| <= |r| && r[|r| - |ov|..] == ov
    ensures ':' !in ov && '/' !in ov ==> r == MkDefaultImage(defaultImage) + ":" + ov
    ensures (':' in ov || '/' in ov) && !ContainsRegistry(ov) ==> r == DefaultRegistry + "/" + ov
    ensures ContainsRegistry(ov) ==> r == ov
  {
    if ':' !in ov && '/' !in ov then
      MkDefaultImage(defaultImage) + ":" + ov
    else if !ContainsRegistry(ov) then
      DefaultRegistry + "/" + ov
    else
      ov
  }

  /**
   * `replaceTagsWithDigests` on a value: a pinned reference is kept without
   * asking the registry; otherwise the tag is replaced by the digest, or the
   * lookup error is reported with the image it was about.
   */
  function PinDigest(ref: string, lookup: DigestLookup): (r: Result<string>)
    ensures ContainsSubstring(ref, DigestMarker) ==> r == Ok(ref)
    ensures !ContainsSubstring(ref, DigestMarker) ==> (r.Err? <==> lookup(ref).Err?)
    ensures r.Err? ==> (lookup(ref).Err?
                        && r.msg == "unable to retrieve digest for image " + ref + ".\n" + lookup(ref).msg)
    ensures r.Ok? && !ContainsSubstring(ref, DigestMarker) ==>
              exists k :: 0 <= k <= |ref| && (k == |ref| || ref[k] == ':') && ':' !in ref[..k]
                          && r.value == ref[..k] + "@" + lookup(ref).value
  {
    if ContainsSubstring(ref, DigestMarker) then Ok(ref)
    else match lookup(ref)
      case Ok(digest) =>
        var head := BeforeFirst(ref, ':');
        assert head == ref[..|head|];
        Ok(head + "@" + digest)
      case Err(e) => Err("unable to retrieve digest for image " + ref + ".\n" + e)
  }

  /** The new value of one override field and the error of adapting it. */
  datatype Adapted = Adapted(value: string, err: Option<string>)

  /** `adaptImageOverride` on a value. */
  function AdaptOverride(ov: string, defaultImage: string, olm: bool, lookup: DigestLookup): (r: Adapted)
    ensures ov == "" ==> r == Adapted("", None)
    ensures ov != "" && !olm ==> r == Adapted(Normalize(ov, defaultImage), None)
    ensures ov != "" && olm ==> (r.err.Some? <==> PinDigest(Normalize(ov, defaultImage), lookup).Err?)
    ensures ov != "" && olm && r.err.None? ==> r.value == PinDigest(Normalize(ov, defaultImage), lookup).value
    ensures !olm ==> r.err == None
    ensures r.err.Some? ==> (olm && ov != "" && r.value == Normalize(ov, defaultImage)
                             && lookup(r.value).Err?
                             && r.err.value == "unable to retrieve digest for image " + r.value + ".\n"
                                               + lookup(r.value).msg)
  {
    if ov == "" then Adapted(ov, None)
    else
      var n := Normalize(ov, defaultImage);
      if !olm then Adapted(n, None)
      else match PinDigest(n, lookup)
        case Ok(pinned) => Adapted(pinned, None)
        case Err(e) => Adapted(n, Some(e))
  }

  /**
   * Pinning through the pointer into the resource: on success only the
   * pointed-to field changes, on failure nothing does.
   */
  method ReplaceTagsWithDigests(app: EntandoAppV2, slot: Slot, lookup: DigestLookup)
    returns (err: Option<string>)
    modifies app
    ensures match PinDigest(old(app.State()).Override(slot), lookup)
      case Ok(pinned) => app.State() == old(app.State()).WithOverride(slot, pinned) && err == None
      case Err(e) => app.State() == old(app.State()) && err == Some(e)
  {
    var ref := app.State().Override(slot);
    if !ContainsSubstring(ref, DigestMarker) {
      var digest := lookup(ref);
      if digest.Err? {
        return Some("unable to retrieve digest for image " + ref + ".\n" + digest.msg);
      }
      app.SetOverride(slot, BeforeFirst(ref, ':') + "@" + digest.value);
    }
    return None;
  }

  /** Completing the pointed-to override field to a full URL in place; no other field changes. */
  method NormalizeImageOverride(app: EntandoAppV2, slot: Slot, defaultImage: string)
    modifies app
    ensures app.State() == old(app.State()).WithOverride(slot, Normalize(old(app.State()).Override(slot), defaultImage))
  {
    ghost var st := app.State();
    var ov := app.State().Override(slot);
    if ':' !in ov && '/' !in ov {
      app.SetOverride(slot, MkDefaultImage(defaultImage) + ":" + ov);
    } else if !ContainsRegistry(ov) {
      app.SetOverride(slot, DefaultRegistry + "/" + ov);
    } else {
      assert st.WithOverride(slot, ov) == st;
    }
  }

  /** Adapting one override field in place; no other field changes. */
  method AdaptImageOverride(app: EntandoAppV2, slot: Slot, defaultImage: string, olm: bool,
                            lookup: DigestLookup)
    returns (err: Option<string>)
    modifies app
    ensures var a := AdaptOverride(old(app.State()).Override(slot), defaultImage, olm, lookup);
            app.State() == old(app.State()).WithOverride(slot, a.value) && err == a.err
  {
    ghost var st := app.State();
    if app.State().Override(slot) != "" {
      NormalizeImageOverride(app, slot, defaultImage);
      if olm {
        err := ReplaceTagsWithDigests(app, slot, lookup);
        PinAfterNormalize(st, slot, defaultImage, lookup);
        return;
      }
    }
    err := None;
  }

  /** In OLM mode a non-empty override is normalized, then pinned in the same field. */
  lemma PinAfterNormalize(st: AppState, slot: Slot, defaultImage: string, lookup: DigestLookup)
    requires st.Override(slot) != ""
    ensures var normalized := Normalize(st.Override(slot), defaultImage);
            var a := AdaptOverride(st.Override(slot), defaultImage, true, lookup);
            match PinDigest(normalized, lookup)
            case Ok(pinned) => a == Adapted(pinned, None)
                               && st.WithOverride(slot, normalized).WithOverride(slot, pinned)
                                  == st.WithOverride(slot, a.value)
            case Err(e) => a == Adapted(normalized, Some(e))
  {
    var normalized := Normalize(st.Override(slot), defaultImage);
    match PinDigest(normalized, lookup)
    case Ok(pinned) => st.WithOverrideTwice(slot, normalized, pinned);
    case Err(e) =>
  }

  // ---------------------------------------------------------------------
  // The four components in order

  /** One component to adapt: its field and its default repository. */
  datatype Step = Step(slot: Slot, defaultImage: string)

  /** The components `AdaptImagesOverride` adapts, in the order it adapts them. */
  function AdapterSteps(installationType: string): (steps: seq<Step>)
    ensures |steps| == 4
  {
    [Step(AppBuilder, AppBuilderRepo),
     Step(DeApp, GetDefaultDeAppImage(installationType)),
     Step(ComponentManager, ComponentManagerRepo),
     Step(Keycloak, GetDefaultKeycloakImage(installationType))]
  }

  /** The fields the steps write. */
  function Slots(steps: seq<Step>): (r: seq<Slot>)
    ensures |r| == |steps|
    ensures forall i :: 0 <= i < |steps| ==> r[i] == steps[i].slot
  {
    if steps == [] then [] else [steps[0].slot] + Slots(steps[1..])
  }

  /** The state after adapting the steps in order, and the error that stopped it, if any. */
  datatype SlotsOutcome = SlotsOutcome(state: AppState, err: Option<string>)

  /** Adapting the steps in order, stopping at the first error. */
  function AdaptSlots(st: AppState, steps: seq<Step>, olm: bool, lookup: DigestLookup): (r: SlotsOutcome)
    decreases |steps|
    ensures r.state.SameOutsideOverrides(st)
    ensures forall s :: s !in Slots(steps) ==> r.state.Override(s) == st.Override(s)
    ensures !olm ==> r.err == None
  {
    if steps == [] then SlotsOutcome(st, None)
    else
      var a := AdaptOverride(st.Override(steps[0].slot), steps[0].defaultImage, olm, lookup);
      var next := st.WithOverride(steps[0].slot, a.value);
      if a.err.Some? then SlotsOutcome(next, a.err)
      else AdaptSlots(next, steps[1..], olm, lookup)
  }

  /** The four steps write the four override fields. */
  lemma AdapterSlots(installationType: string)
    ensures Slots(AdapterSteps(installationType)) == [AppBuilder, DeApp, ComponentManager, Keycloak]
  {
    var steps := AdapterSteps(installationType);
    assert Slots(steps)[0] == AppBuilder && Slots(steps)[1] == DeApp;
    assert Slots(steps)[2] == ComponentManager && Slots(steps)[3] == Keycloak;
  }

  /** The result of `AdaptImagesOverride`: the resource, the error, the warning lines. */
  datatype AdaptOutcome = AdaptOutcome(state: AppState, err: Option<string>, warnings: seq<string>)

  /** A warning as a (possibly empty) list of lines. */
  function Lines(w: Option<string>): (lines: seq<string>)
    ensures |lines| <= 1
  {
    match w
    case None => []
    case Some(line) => [line]
  }

  /**
   * `AdaptImagesOverride` on values: the four components in order, then
   * the mismatch checks on DeApp and Keycloak, which only add warnings.
   */
  function AdaptImages(st: AppState, installationType: string, olm: bool, lookup: DigestLookup): (r: AdaptOutcome)
    ensures r.err.Some? ==> r.warnings == []
    ensures r.state.SameOutsideOverrides(st)
    ensures forall s :: s != AppBuilder && s != DeApp && s != ComponentManager && s != Keycloak
                        ==> r.state.Override(s) == st.Override(s)
    ensures !olm ==> r.err == None
    ensures |r.warnings| <= 2
  {
    var steps := AdapterSteps(installationType);
    var done := AdaptSlots(st, steps, olm, lookup);
    AdapterSlots(installationType);
    if done.err.Some? then AdaptOutcome(done.state, done.err, [])
    else
      var deApp := CheckInstallationTypeImagesMismatch(
        done.state.Override(DeApp), GetDefaultDeAppImage(installationType), installationType);
      var keycloak := CheckInstallationTypeImagesMismatch(
        done.state.Override(Keycloak), GetDefaultKeycloakImage(installationType), installationType);
      AdaptOutcome(done.state, None, Lines(deApp) + Lines(keycloak))
  }

  /** `AdaptImagesOverride`: adapts the resource in place and returns the error and the warnings. */
  method AdaptImagesOverride(app: EntandoAppV2, installationType: string, olm: bool, lookup: DigestLookup)
    returns (err: Option<string>, warnings: seq<string>)
    modifies app
    ensures var r := AdaptImages(old(app.State()), installationType, olm, lookup);
            app.State() == r.state && err == r.err && warnings == r.warnings
  {
    var defaultDeAppImage := GetDefaultDeAppImage(installationType);
    var defaultKeycloakImage := GetDefaultKeycloakImage(installationType);
    ghost var steps := AdapterSteps(installationType);
    ghost var done := AdaptSlots(app.State(), steps, olm, lookup);
    assert steps[0..] == steps;
    warnings := [];

    ghost var st := app.State();
    err := AdaptImageOverride(app, AppBuilder, AppBuilderRepo, olm, lookup);
    AdaptSlotsStep(st, app.State(), err, steps, 0, olm, lookup);
    if err.Some? {
      AdaptImagesFailed(old(app.State()), installationType, olm, lookup, app.State(), err.value);
      return;
    }

    st := app.State();
    err := AdaptImageOverride(app, DeApp, defaultDeAppImage, olm, lookup);
    AdaptSlotsStep(st, app.State(), err, steps, 1, olm, lookup);
    if err.Some? {
      AdaptImagesFailed(old(app.State()), installationType, olm, lookup, app.State(), err.value);
      return;
    }

    st := app.State();
    err := AdaptImageOverride(app, ComponentManager, ComponentManagerRepo, olm, lookup);
    AdaptSlotsStep(st, app.State(), err, steps, 2, olm, lookup);
    if err.Some? {
      AdaptImagesFailed(old(app.State()), installationType, olm, lookup, app.State(), err.value);
      return;
    }

    st := app.State();
    err := AdaptImageOverride(app, Keycloak, defaultKeycloakImage, olm, lookup);
    AdaptSlotsStep(st, app.State(), err, steps, 3, olm, lookup);
    if err.Some? {
      AdaptImagesFailed(old(app.State()), installationType, olm, lookup, app.State(), err.value);
      return;
    }

    AdaptImagesDone(old(app.State()), installationType, olm, lookup, app.State());
    var deApp := CheckInstallationTypeImagesMismatch(app.deApp, defaultDeAppImage, installationType);
    var keycloak := CheckInstallationTypeImagesMismatch(app.keycloak, defaultKeycloakImage, installationType);
    warnings := Lines(deApp) + Lines(keycloak);
  }

  /** When a step fails, `AdaptImages` reports its state and error, with no warning. */
  lemma AdaptImagesFailed(st: AppState, installationType: string, olm: bool, lookup: DigestLookup,
                          st': AppState, e: string)
    requires AdaptSlots(st, AdapterSteps(installationType), olm, lookup) == SlotsOutcome(st', Some(e))
    ensures AdaptImages(st, installationType, olm, lookup) == AdaptOutcome(st', Some(e), [])
  {
  }

  /** When every step succeeds, `AdaptImages` adds the two mismatch warnings. */
  lemma AdaptImagesDone(st: AppState, installationType: string, olm: bool, lookup: DigestLookup, st': AppState)
    requires AdaptSlots(st, AdapterSteps(installationType), olm, lookup) == SlotsOutcome(st', None)
    ensures AdaptImages(st, installationType, olm, lookup)
            == AdaptOutcome(st', None,
                 Lines(CheckInstallationTypeImagesMismatch(st'.deApp, GetDefaultDeAppImage(installationType), installationType))
                 + Lines(CheckInstallationTypeImagesMismatch(st'.keycloak, GetDefaultKeycloakImage(installationType),
                                                             installationType)))
  {
  }

  /**
   * One step of `AdaptSlots` from `i` on: after it fails the outcome is
   * fixed, after it succeeds the remaining steps decide.
   */
  lemma AdaptSlotsStep(st: AppState, st': AppState, err: Option<string>, steps: seq<Step>, i: nat,
                       olm: bool, lookup: DigestLookup)
    requires i < |steps|
    requires var a := AdaptOverride(st.Override(steps[i].slot), steps[i].defaultImage, olm, lookup);
             st' == st.WithOverride(steps[i].slot, a.value) && err == a.err
    ensures err.Some? ==> AdaptSlots(st, steps[i..], olm, lookup) == SlotsOutcome(st', err)
    ensures err.None? ==> AdaptSlots(st, steps[i..], olm, lookup) == AdaptSlots(st', steps[i + 1..], olm, lookup)
  {
    assert steps[i..][0] == steps[i];
    assert steps[i..][1..] == steps[i + 1..];
  }

  // ---------------------------------------------------------------------
  // Installation type mismatch: `^.+/(.+):.+$`, first submatch

  /**
   * The pattern matches with its `/` at `p` and its `:` at `c`: both `.+`
   * around the `/` and the one after the `:` are non-empty.
   */
  predicate MismatchSplitAt(s: string, p: nat, c: nat)
  {
    1 <= p && p + 1 < c && c + 1 < |s| && s[p] == '/' && s[c] == ':'
  }

  /**
   * The captured repository.  No `.` matches a newline, so the image must
   * have none; the greedy first `.+` takes the last `/` that still leaves a
   * non-empty group before some `:`, and the greedy group takes the last `:`
   * that still leaves a non-empty rest.
   */
  function MismatchRepo(image: string): (r: Option<string>)
    ensures r.Some? <==> Lacks(image, '\n') && exists p: nat, c: nat :: MismatchSplitAt(image, p, c)
    ensures r.Some? ==> exists p: nat, c: nat :: MismatchSplitAt(image, p, c) && r.value == image[p + 1..c]
  {
    if !Lacks(image, '\n') || |image| < 2 then None
    else match LastIndexIn(image, ':', 0, |image| - 1)
      case None => None
      case Some(c) =>
        if c < 2 then None
        else match LastIndexIn(image, '/', 1, c - 1)
          case None => None
          case Some(p) =>
            assert MismatchSplitAt(image, p, c);
            Some(image[p + 1..c])
  }

  /** The warning line printed on standard error. */
  function MismatchMessage(installationType: string, providedRepo: string, expectedRepo: string): string
  {
    "WARNING: installationType is set to " + installationType + " but the repository " + providedRepo
    + " was provided. Expected repository should be " + expectedRepo + "\n"
  }

  /**
   * `checkInstallationTypeImagesMismatch`: a warning only for an official
   * image whose captured repository differs from the expected one.
   */
  function CheckInstallationTypeImagesMismatch(image: string, expectedRepo: string, installationType: string)
    : (w: Option<string>)
    ensures w.Some? ==> IsOfficialImage(image)
    ensures w.Some? <==> IsOfficialImage(image) && MismatchRepo(image).Some?
                         && MismatchRepo(image).value != expectedRepo
    ensures w.Some? ==> w.value == MismatchMessage(installationType, MismatchRepo(image).value, expectedRepo)
  {
    if IsOfficialImage(image) then
      match MismatchRepo(image)
      case Some(providedRepo) =>
        if providedRepo != expectedRepo then Some(MismatchMessage(installationType, providedRepo, expectedRepo))
        else None
      case None => None
    else None
  }

  // ---------------------------------------------------------------------
  // Properties of normalization

  /** A bare tag is completed with the repository of the installation type, for DeApp and Keycloak. */
  lemma AdaptOnlyTags(tag: string, installationType: string, lookup: DigestLookup)
    requires tag != "" && ':' !in tag && '/' !in tag
    ensures AdaptOverride(tag, GetDefaultDeAppImage(installationType), false, lookup)
            == Adapted("registry.hub.docker.com/entando/"
                       + (if installationType == InstallationRedhatCertified then "entando-de-app-eap"
                          else "entando-de-app-wildfly")
                       + ":" + tag, None)
    ensures AdaptOverride(tag, GetDefaultKeycloakImage(installationType), false, lookup)
            == Adapted("registry.hub.docker.com/entando/"
                       + (if installationType == InstallationRedhatCertified then "entando-redhat-sso"
                          else "entando-keycloak")
                       + ":" + tag, None)
  {
    MkDefaultImageText(GetDefaultDeAppImage(installationType));
    MkDefaultImageText(GetDefaultKeycloakImage(installationType));
  }

  /** `<org>/<rest>` with a dot-free organization gets the default registry in front. */
  lemma NormalizeOrgRepo(org: string, rest: string, defaultImage: string)
    requires Lacks(org, '/') && Lacks(org, '.')
    ensures Normalize(org + "/" + rest, defaultImage) == DefaultRegistry + "/" + org + "/" + rest
  {
    var ov := org + "/" + rest;
    NoRegistryWithoutDot(org, rest);
    assert ov[|org|] == '/';
    assert Normalize(ov, defaultImage) == DefaultRegistry + "/" + ov;
    assert DefaultRegistry + "/" + (org + "/" + rest) == DefaultRegistry + "/" + org + "/" + rest;
  }

  /**
   * `<repo>:<tag>` without any `/` gets only the default registry in front:
   * no organization is inserted.
   */
  lemma NormalizeRepoTag(repo: string, tag: string, defaultImage: string)
    requires Lacks(repo, '/') && Lacks(tag, '/')
    ensures Normalize(repo + ":" + tag, defaultImage) == DefaultRegistry + "/" + repo + ":" + tag
  {
    var ov := repo + ":" + tag;
    assert ov[|repo|] == ':';
    assert '/' !in ov by {
      forall i | 0 <= i < |ov| ensures ov[i] != '/' {
        if i < |repo| { assert ov[i] == repo[i]; }
        else if i > |repo| { assert ov[i] == tag[i - |repo| - 1]; }
      }
    }
    assert !ContainsRegistry(ov);
    assert DefaultRegistry + "/" + (repo + ":" + tag) == DefaultRegistry + "/" + repo + ":" + tag;
  }

  /** A default image with a tag of reference characters has a registry host. */
  lemma DefaultImageHasRegistry(defaultImage: string, tag: string)
    requires AllRef(defaultImage) && AllRef(tag)
    ensures ContainsRegistry(MkDefaultImage(defaultImage) + ":" + tag)
  {
    DefaultRegistryIsHost();
    assert AllRef(DefaultOrganization);
    HostedTaggedHasRegistry(DefaultRegistry, DefaultOrganization, defaultImage, tag);
  }

  /** `<host>/<org>/<repo>:<tag>` has a registry host when the host has an inner dot. */
  lemma HostedTaggedHasRegistry(h: string, org: string, repo: string, tag: string)
    requires IsRegistryHost(h) && AllRef(org) && AllRef(repo) && AllRef(tag)
    ensures ContainsRegistry(h + "/" + org + "/" + repo + ":" + tag)
  {
    var t := org + "/" + repo + ":" + tag;
    AllRefConcat(org, "/");
    AllRefConcat(org + "/", repo);
    AllRefConcat(org + "/" + repo, ":");
    AllRefConcat(org + "/" + repo + ":", tag);
    ContainsRegistryOfHost(h, t);
    assert h + "/" + org + "/" + repo + ":" + tag == h + "/" + t;
  }

  /**
   * A non-empty override made of reference characters is normalized to a
   * reference with a registry host, so normalizing again changes nothing.
   */
  lemma NormalizeIdempotent(ov: string, defaultImage: string, again: string)
    requires ov != "" && AllRef(ov) && AllRef(defaultImage)
    ensures ContainsRegistry(Normalize(ov, defaultImage))
    ensures Normalize(Normalize(ov, defaultImage), again) == Normalize(ov, defaultImage)
  {
    if ':' !in ov && '/' !in ov {
      DefaultImageHasRegistry(defaultImage, ov);
    } else if !ContainsRegistry(ov) {
      DefaultRegistryIsHost();
      ContainsRegistryOfHost(DefaultRegistry, ov);
    }
  }

  // ---------------------------------------------------------------------
  // Properties of pinning

  /**
   * Pinning is idempotent: once a reference was pinned to a `sha256:`
   * digest, pinning it again keeps it and needs no lookup.
   */
  lemma PinIdempotent(ref: string, lookup: DigestLookup, again: DigestLookup)
    requires PinDigest(ref, lookup).Ok?
    requires lookup(ref).Ok? ==> HasPrefix(lookup(ref).value, "sha256:")
    ensures PinDigest(PinDigest(ref, lookup).value, again) == PinDigest(ref, lookup)
  {
    if !ContainsSubstring(ref, DigestMarker) {
      var digest := lookup(ref).value;
      var head := BeforeFirst(ref, ':');
      assert PinDigest(ref, lookup).value == head + ("@" + digest);
      assert ("@" + digest)[..|DigestMarker|] == DigestMarker;
      ContainsInSuffix(head, "@" + digest, DigestMarker);
    }
  }

  /** An official tagged reference is not pinned yet, and its text before the first `:` is the image. */
  lemma OfficialTagShape(repo: string, tag: string)
    requires Lacks(repo, '@') && Lacks(repo, ':') && Lacks(tag, '@')
    ensures !ContainsSubstring(MkDefaultImage(repo) + ":" + tag, DigestMarker)
    ensures BeforeFirst(MkDefaultImage(repo) + ":" + tag, ':') == MkDefaultImage(repo)
  {
    assert Lacks(OfficialPrefix, ':') && Lacks(OfficialPrefix, '@');
    LacksConcat(OfficialPrefix, repo, ':');
    LacksConcat(OfficialPrefix, repo, '@');
    TaggedShape(MkDefaultImage(repo), tag);
  }

  /** A reference `<image>:<tag>` without `@` is not pinned, and its image is the text before the `:`. */
  lemma TaggedShape(image: string, tag: string)
    requires Lacks(image, '@') && Lacks(image, ':') && Lacks(tag, '@')
    ensures !ContainsSubstring(image + ":" + tag, DigestMarker)
    ensures BeforeFirst(image + ":" + tag, ':') == image
  {
    var ref := image + ":" + tag;
    LacksConcat(image, ":", '@');
    LacksConcat(image + ":", tag, '@');
    NoSubstringWithoutFirst(ref, DigestMarker);
    assert ref[..|image|] == image;
    IndexOfIs(ref, ':', |image|);
  }

  /**
   * Pinning an official tagged reference replaces the tag by the digest and
   * keeps the repository.
   */
  lemma PinOfficialTag(repo: string, tag: string, digest: string, lookup: DigestLookup)
    requires repo != [] && Lacks(repo, '/') && Lacks(repo, '@') && Lacks(repo, ':') && Lacks(repo, '\n')
    requires Lacks(tag, '@') && Lacks(tag, '/') && Lacks(tag, '\n')
    requires Lacks(digest, '/') && Lacks(digest, '\n')
    requires lookup(MkDefaultImage(repo) + ":" + tag) == Ok(digest)
    ensures PinDigest(MkDefaultImage(repo) + ":" + tag, lookup) == Ok(MkDefaultImage(repo) + "@" + digest)
    ensures ExtractRepo(MkDefaultImage(repo) + ":" + tag) == repo
    ensures ExtractRepo(MkDefaultImage(repo) + "@" + digest) == repo
  {
    OfficialTagShape(repo, tag);
    PinnedOfficialRepo(repo, tag, digest);
  }

  /** The repository of an official reference survives replacing its tag by a digest. */
  lemma PinnedOfficialRepo(repo: string, tag: string, digest: string)
    requires repo != [] && Lacks(repo, '/') && Lacks(repo, '@') && Lacks(repo, ':') && Lacks(repo, '\n')
    requires Lacks(tag, '/') && Lacks(tag, '\n')
    requires Lacks(digest, '/') && Lacks(digest, '\n')
    ensures ExtractRepo(MkDefaultImage(repo) + ":" + tag) == repo
    ensures ExtractRepo(MkDefaultImage(repo) + "@" + digest) == repo
  {
    var image := MkDefaultImage(repo);
    LacksConcat(":", tag, '/');
    LacksConcat(":", tag, '\n');
    ExtractRepoOfDefaultImage(repo, ":" + tag);
    assert image + (":" + tag) == image + ":" + tag;
    LacksConcat("@", digest, '/');
    LacksConcat("@", digest, '\n');
    ExtractRepoOfDefaultImage(repo, "@" + digest);
    assert image + ("@" + digest) == image + "@" + digest;
  }

  // ---------------------------------------------------------------------
  // Properties of the four-component sequence

  /** Once a prefix of the steps fails, the remaining steps have no effect. */
  lemma {:induction false} AdaptSlotsStopsAtFailure(st: AppState, steps: seq<Step>, m: nat, olm: bool,
                                                    lookup: DigestLookup)
    requires m <= |steps|
    requires AdaptSlots(st, steps[..m], olm, lookup).err.Some?
    ensures AdaptSlots(st, steps, olm, lookup) == AdaptSlots(st, steps[..m], olm, lookup)
    decreases m
  {
    assert steps[..m][0] == steps[0];
    var a := AdaptOverride(st.Override(steps[0].slot), steps[0].defaultImage, olm, lookup);
    var next := st.WithOverride(steps[0].slot, a.value);
    if a.err.None? {
      assert steps[..m][1..] == steps[1..][..m - 1];
      AdaptSlotsStopsAtFailure(next, steps[1..], m - 1, olm, lookup);
    }
  }

  /**
   * When adapting fails on one of the four components, the components after
   * it keep the value they had, the error is returned and no warning is
   * produced.
   */
  lemma LaterSlotsUntouched(st: AppState, installationType: string, olm: bool, lookup: DigestLookup, m: nat)
    requires m <= 4
    requires AdaptSlots(st, AdapterSteps(installationType)[..m], olm, lookup).err.Some?
    ensures var r := AdaptImages(st, installationType, olm, lookup);
            r.err.Some? && r.warnings == []
            && forall i :: m <= i < 4 ==> r.state.Override(AdapterSteps(installationType)[i].slot)
                                          == st.Override(AdapterSteps(installationType)[i].slot)
  {
    var steps := AdapterSteps(installationType);
    AdaptSlotsStopsAtFailure(st, steps, m, olm, lookup);
    var p := AdaptSlots(st, steps[..m], olm, lookup);
    AdaptImagesFailed(st, installationType, olm, lookup, p.state, p.err.value);
    AdapterStepsDistinct(installationType);
    PrefixLeavesLaterSlots(st, steps, m, olm, lookup);
  }

  /** The four steps write four different fields. */
  lemma AdapterStepsDistinct(installationType: string)
    ensures var steps := AdapterSteps(installationType);
            forall i, j :: 0 <= i < j < |steps| ==> steps[i].slot != steps[j].slot
  {
  }

  /** With distinct fields, the first `m` steps leave the fields of the later steps alone. */
  lemma PrefixLeavesLaterSlots(st: AppState, steps: seq<Step>, m: nat, olm: bool, lookup: DigestLookup)
    requires m <= |steps|
    requires forall i, j :: 0 <= i < j < |steps| ==> steps[i].slot != steps[j].slot
    ensures forall i :: m <= i < |steps| ==> AdaptSlots(st, steps[..m], olm, lookup).state.Override(steps[i].slot)
                                             == st.Override(steps[i].slot)
  {
    var prefix := Slots(steps[..m]);
    forall i | m <= i < |steps| ensures steps[i].slot !in prefix {
      forall j | 0 <= j < m ensures prefix[j] != steps[i].slot {
        assert prefix[j] == steps[j].slot;
      }
    }
  }

  /** Without OLM, the sequence never fails and never consults the registry. */
  lemma {:induction false} AdaptSlotsWithoutOlm(st: AppState, steps: seq<Step>, lookup: DigestLookup,
                                                other: DigestLookup)
    ensures AdaptSlots(st, steps, false, lookup) == AdaptSlots(st, steps, false, other)
    decreases |steps|
  {
    if steps != [] {
      var a := AdaptOverride(st.Override(steps[0].slot), steps[0].defaultImage, false, lookup);
      assert a == AdaptOverride(st.Override(steps[0].slot), steps[0].defaultImage, false, other);
      AdaptSlotsWithoutOlm(st.WithOverride(steps[0].slot, a.value), steps[1..], lookup, other);
    }
  }

  /** Without OLM, `AdaptImagesOverride` succeeds and its outcome does not depend on the registry. */
  lemma AdaptWithoutOlm(st: AppState, installationType: string, lookup: DigestLookup, other: DigestLookup)
    ensures AdaptImages(st, installationType, false, lookup).err == None
    ensures AdaptImages(st, installationType, false, lookup) == AdaptImages(st, installationType, false, other)
  {
    AdaptSlotsWithoutOlm(st, AdapterSteps(installationType), lookup, other);
  }

  /** A step's adaptation of the value its field held before the run. */
  function Own(st: AppState, step: Step, olm: bool, lookup: DigestLookup): Adapted
  {
    AdaptOverride(st.Override(step.slot), step.defaultImage, olm, lookup)
  }

  /**
   * With distinct fields every step sees the value its field had before the
   * run.  When the steps before `m` succeed and step `m`, if any, fails: the
   * error is step `m`'s, every field up to and including `m` holds its own
   * adaptation, and the fields after `m` keep their old value.
   */
  lemma {:induction false} AdaptSlotsByStep(st: AppState, steps: seq<Step>, olm: bool, lookup: DigestLookup, m: nat)
    requires forall i, j :: 0 <= i < j < |steps| ==> steps[i].slot != steps[j].slot
    requires m <= |steps|
    requires forall j :: 0 <= j < m ==> Own(st, steps[j], olm, lookup).err == None
    requires m < |steps| ==> Own(st, steps[m], olm, lookup).err.Some?
    ensures var r := AdaptSlots(st, steps, olm, lookup);
            r.err == (if m < |steps| then Own(st, steps[m], olm, lookup).err else None)
            && (forall j :: 0 <= j < |steps| && j <= m ==> r.state.Override(steps[j].slot) == Own(st, steps[j], olm, lookup).value)
            && (forall j :: m < j < |steps| ==> r.state.Override(steps[j].slot) == st.Override(steps[j].slot))
    decreases |steps|
  {
    if steps != [] {
      var a := Own(st, steps[0], olm, lookup);
      var next := st.WithOverride(steps[0].slot, a.value);
      var rest := steps[1..];
      forall j | 0 < j < |steps|
        ensures rest[j - 1] == steps[j]
        ensures next.Override(steps[j].slot) == st.Override(steps[j].slot)
        ensures Own(next, steps[j], olm, lookup) == Own(st, steps[j], olm, lookup)
      {
      }
      if m > 0 {
        assert a.err == None;
        forall j | 0 <= j < m - 1 ensures Own(next, rest[j], olm, lookup).err == None {
        }
        AdaptSlotsByStep(next, rest, olm, lookup, m - 1);
        assert steps[0].slot !in Slots(rest) by {
          forall j | 0 <= j < |rest| ensures Slots(rest)[j] != steps[0].slot {
            assert rest[j] == steps[j + 1];
          }
        }
      }
    }
  }

  /**
   * `AdaptImagesOverride` component by component: when the components before
   * `m` adapt without error and component `m`, if any, fails, that is the
   * error; the components up to `m` hold their own adaptation with the
   * installation type's default repository (so a failing one holds its
   * normalized reference), and the ones after it keep their old value.
   */
  lemma AdaptImagesByStep(st: AppState, installationType: string, olm: bool, lookup: DigestLookup, m: nat)
    requires m <= 4
    requires forall j :: 0 <= j < m ==> Own(st, AdapterSteps(installationType)[j], olm, lookup).err == None
    requires m < 4 ==> Own(st, AdapterSteps(installationType)[m], olm, lookup).err.Some?
    ensures var steps := AdapterSteps(installationType);
            var r := AdaptImages(st, installationType, olm, lookup);
            r.err == (if m < 4 then Own(st, steps[m], olm, lookup).err else None)
            && (forall j :: 0 <= j < 4 && j <= m ==> r.state.Override(steps[j].slot) == Own(st, steps[j], olm, lookup).value)
            && (forall j :: m < j < 4 ==> r.state.Override(steps[j].slot) == st.Override(steps[j].slot))
  {
    AdapterStepsDistinct(installationType);
    AdaptSlotsByStep(st, AdapterSteps(installationType), olm, lookup, m);
  }

  /**
   * Without OLM a bare tag given for DeApp and Keycloak becomes the official
   * image of the installation type's repository with that tag: the EAP and
   * Red Hat SSO images for the Red Hat certified type.
   */
  lemma AdaptImagesOnlyTags(st: AppState, tag: string, installationType: string, lookup: DigestLookup)
    requires tag != "" && ':' !in tag && '/' !in tag
    requires st.Override(DeApp) == tag && st.Override(Keycloak) == tag
    ensures var r := AdaptImages(st, installationType, false, lookup);
            r.err == None
            && r.state.Override(DeApp) == MkDefaultImage(GetDefaultDeAppImage(installationType)) + ":" + tag
            && r.state.Override(Keycloak) == MkDefaultImage(GetDefaultKeycloakImage(installationType)) + ":" + tag
    ensures installationType == InstallationRedhatCertified ==>
              var r := AdaptImages(st, installationType, false, lookup);
              r.state.Override(DeApp) == MkDefaultImage(DeAppEapRepo) + ":" + tag
              && r.state.Override(Keycloak) == MkDefaultImage(RedHatSsoRepo) + ":" + tag
  {
    var steps := AdapterSteps(installationType);
    AdaptImagesByStep(st, installationType, false, lookup, 4);
    assert steps[1].slot == DeApp && steps[3].slot == Keycloak;
  }

  // ---------------------------------------------------------------------
  // Properties of the mismatch check

  /** The captured repository of `<pre>/<body>:<tag>` is `body` when `body` has no `/` and `tag` no `:`. */
  lemma MismatchRepoOf(pre: string, body: string, tag: string)
    requires pre != [] && body != [] && tag != []
    requires Lacks(body, '/') && Lacks(tag, ':')
    requires Lacks(pre + "/" + body + ":" + tag, '\n')
    ensures MismatchRepo(pre + "/" + body + ":" + tag) == Some(body)
  {
    var s := pre + "/" + body + ":" + tag;
    var p := |pre|;
    var c := |pre| + 1 + |body|;
    assert |s| == c + 1 + |tag| && s[p] == '/' && s[c] == ':' && s[p + 1..c] == body && s[c + 1..] == tag;
    forall i | c < i < |s| - 1 ensures s[i] != ':' {
      assert s[c + 1..][i - c - 1] == s[i];
    }
    forall i | p < i < c - 1 ensures s[i] != '/' {
      assert s[p + 1..c][i - p - 1] == s[i];
    }
    MismatchRepoAt(s, p, c);
  }

  /** The capture is between the last `:` before the end and the last `/` before it. */
  lemma MismatchRepoAt(s: string, p: nat, c: nat)
    requires Lacks(s, '\n') && MismatchSplitAt(s, p, c)
    requires forall i :: c < i < |s| - 1 ==> s[i] != ':'
    requires forall i :: p < i < c - 1 ==> s[i] != '/'
    ensures MismatchRepo(s) == Some(s[p + 1..c])
  {
    LastIndexInIs(s, ':', 0, |s| - 1, c);
    LastIndexInIs(s, '/', 1, c - 1, p);
  }

  /** An official tagged image warns exactly when its repository is not the expected one. */
  lemma MismatchOfficialTagged(repo: string, tag: string, expectedRepo: string, installationType: string)
    requires repo != [] && tag != []
    requires Lacks(repo, '/') && Lacks(repo, '\n') && Lacks(tag, ':') && Lacks(tag, '\n')
    ensures CheckInstallationTypeImagesMismatch(MkDefaultImage(repo) + ":" + tag, expectedRepo, installationType)
            == if repo == expectedRepo then None
               else Some(MismatchMessage(installationType, repo, expectedRepo))
  {
    var pre := DefaultRegistry + "/" + DefaultOrganization;
    var image := MkDefaultImage(repo) + ":" + tag;
    assert image == pre + "/" + repo + ":" + tag;
    assert image[..|OfficialPrefix|] == OfficialPrefix;
    assert Lacks(image, '\n') by {
      assert Lacks(pre, '\n');
      LacksConcat(pre + "/", repo, '\n');
      LacksConcat(pre + "/" + repo, ":", '\n');
      LacksConcat(pre + "/" + repo + ":", tag, '\n');
    }
    MismatchRepoOf(pre, repo, tag);
  }

  /**
   * An official image pinned to a digest always warns when the expected
   * repository has no `@`: the captured text runs to the `:` of the digest
   * and so ends in `@sha256`.
   */
  lemma MismatchOfficialPinned(repo: string, hex: string, expectedRepo: string, installationType: string)
    requires repo != [] && hex != []
    requires Lacks(repo, '/') && Lacks(repo, '\n') && Lacks(hex, ':') && Lacks(hex, '\n')
    requires Lacks(expectedRepo, '@')
    ensures CheckInstallationTypeImagesMismatch(MkDefaultImage(repo) + DigestMarker + hex, expectedRepo,
                                                installationType)
            == Some(MismatchMessage(installationType, repo + "@sha256", expectedRepo))
  {
    var body := repo + "@sha256";
    LacksConcat(repo, "@sha256", '/');
    LacksConcat(repo, "@sha256", '\n');
    assert MkDefaultImage(repo) + DigestMarker + hex == MkDefaultImage(body) + ":" + hex;
    MismatchOfficialTagged(body, hex, expectedRepo, installationType);
    assert body[|repo|] == '@';
  }
}
