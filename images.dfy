/**
 * The table of component images, the default image of each component, and
 * the regular-expression checks on image references.  Each regular
 * expression is written out as a predicate over the characters of the
 * reference, following Go's RE2 semantics: `\w` is ASCII only, `.` never
 * matches a newline, a negated class does, and a submatch is the one the
 * leftmost-first (backtracking) rules pick.
 */
module Images {
  import opened Wrappers
  import opened Strings
  import opened Resource
  import opened FlagValues

  const DefaultRegistry := "registry.hub.docker.com"
  const DefaultOrganization := "entando"

  const AppBuilderRepo := "app-builder"
  const DeAppEapRepo := "entando-de-app-eap"
  const DeAppWildflyRepo := "entando-de-app-wildfly"
  const ComponentManagerRepo := "entando-component-manager"
  const KeycloakRepo := "entando-keycloak"
  const RedHatSsoRepo := "entando-redhat-sso"
  const K8sServiceRepo := "entando-k8s-service"
  const K8sPluginControllerRepo := "entando-k8s-plugin-controller"
  const K8sAppPluginLinkControllerRepo := "entando-k8s-app-plugin-link-controller"

  /** The prefix shared by every official image. */
  const OfficialPrefix := DefaultRegistry + "/" + DefaultOrganization + "/"

  /** What the tool knows about one component's image. */
  datatype EntandoImageInfo = EntandoImageInfo(
    componentName: string,
    imageOverrideFlag: string,
    isMultiImage: bool,
    getDefaultImage: string -> string,
    getImageOverride: Slot)

  /** The full URL of an official image: registry, organization, repository. */
  function MkDefaultImage(repo: string): (r: string)
    ensures r == OfficialPrefix + repo
  {
    DefaultRegistry + "/" + DefaultOrganization + "/" + repo
  }

  /** The full URL spelled out. */
  lemma MkDefaultImageText(repo: string)
    ensures MkDefaultImage(repo) == "registry.hub.docker.com/entando/" + repo
  {
  }

  /** The default-image function of a component with one image for every image set type. */
  function MkGetDefaultSingleImage(repo: string): (f: string -> string)
    ensures forall t :: f(t) == MkDefaultImage(repo)
  {
    (imageSetType: string) => MkDefaultImage(repo)
  }

  /** The default-image function of a component with a community and a certified image. */
  function MkGetDefaultMultiImage(repoCommunity: string, repoCertified: string): (f: string -> string)
    ensures f(ImageSetCommunity) == MkDefaultImage(repoCommunity)
    ensures forall t :: t != ImageSetCommunity ==> f(t) == MkDefaultImage(repoCertified)
  {
    (imageSetType: string) =>
      if imageSetType == ImageSetCommunity then MkDefaultImage(repoCommunity) else MkDefaultImage(repoCertified)
  }

  /** A component with one image: the same default for every image set type, not multi-image. */
  function MkEntandoComponentInfoSingleImage(name: string, flag: string, repo: string, slot: Slot): (r: EntandoImageInfo)
    ensures r.componentName == name && r.imageOverrideFlag == flag && r.getImageOverride == slot
    ensures !r.isMultiImage && forall t :: r.getDefaultImage(t) == MkDefaultImage(repo)
  {
    EntandoImageInfo(name, flag, false, MkGetDefaultSingleImage(repo), slot)
  }

  /** A component with a community and a certified image, chosen by the image set type. */
  function MkEntandoComponentInfoMultiImage(name: string, flag: string, repoCommunity: string,
                                            repoCertified: string, slot: Slot): (r: EntandoImageInfo)
    ensures r.componentName == name && r.imageOverrideFlag == flag && r.getImageOverride == slot
    ensures r.isMultiImage && r.getDefaultImage(ImageSetCommunity) == MkDefaultImage(repoCommunity)
    ensures forall t :: t != ImageSetCommunity ==> r.getDefaultImage(t) == MkDefaultImage(repoCertified)
  {
    EntandoImageInfo(name, flag, true, MkGetDefaultMultiImage(repoCommunity, repoCertified), slot)
  }

  /** The list of all the component images. */
  const EntandoImages: seq<EntandoImageInfo> := [
    MkEntandoComponentInfoMultiImage("DeApp", "image-de-app", DeAppWildflyRepo, DeAppEapRepo, DeApp),
    MkEntandoComponentInfoSingleImage("AppBuilder", "image-app-builder", AppBuilderRepo, AppBuilder),
    MkEntandoComponentInfoSingleImage("ComponentManager", "image-component-manager", ComponentManagerRepo, ComponentManager),
    MkEntandoComponentInfoMultiImage("Keycloak", "image-keycloak", KeycloakRepo, RedHatSsoRepo, Keycloak),
    MkEntandoComponentInfoSingleImage("K8sService", "image-k8s-service", K8sServiceRepo, K8sService),
    MkEntandoComponentInfoSingleImage("K8sPluginController", "image-k8s-plugin-controller",
                                      K8sPluginControllerRepo, K8sPluginController),
    MkEntandoComponentInfoSingleImage("K8sAppPluginLinkController", "image-k8s-app-plugin-link-controller",
                                      K8sAppPluginLinkControllerRepo, K8sAppPluginLinkController)
  ]

  /**
   * The table has seven entries with distinct flags and distinct fields; only
   * DeApp and Keycloak have an image that depends on the image set type, and
   * their community image is chosen exactly for the Community type.
   */
  lemma EntandoImagesTable()
    ensures |EntandoImages| == 7
    ensures forall i, j :: 0 <= i < j < |EntandoImages| ==>
              EntandoImages[i].imageOverrideFlag != EntandoImages[j].imageOverrideFlag
              && EntandoImages[i].getImageOverride != EntandoImages[j].getImageOverride
    ensures forall i :: 0 <= i < |EntandoImages| ==>
              (EntandoImages[i].isMultiImage <==> EntandoImages[i].getImageOverride in {DeApp, Keycloak})
    ensures forall i, t :: 0 <= i < |EntandoImages| && !EntandoImages[i].isMultiImage ==>
              EntandoImages[i].getDefaultImage(t) == EntandoImages[i].getDefaultImage(ImageSetCommunity)
    ensures forall t :: EntandoImages[0].getDefaultImage(t) == MkDefaultImage(DeAppWildflyRepo) <==> t == ImageSetCommunity
    ensures forall t :: EntandoImages[3].getDefaultImage(t) == MkDefaultImage(KeycloakRepo) <==> t == ImageSetCommunity
  {
    forall t ensures EntandoImages[0].getDefaultImage(t) == MkDefaultImage(DeAppWildflyRepo) <==> t == ImageSetCommunity {
      if t != ImageSetCommunity {
        assert MkDefaultImage(DeAppEapRepo)[32..] != MkDefaultImage(DeAppWildflyRepo)[32..];
      }
    }
    forall t ensures EntandoImages[3].getDefaultImage(t) == MkDefaultImage(KeycloakRepo) <==> t == ImageSetCommunity {
      if t != ImageSetCommunity {
        assert MkDefaultImage(RedHatSsoRepo)[32..] != MkDefaultImage(KeycloakRepo)[32..];
      }
    }
  }

  // ---------------------------------------------------------------------
  // Character classes of the patterns

  /** `[\w-\.]`: word characters, `-` and `.`. */
  predicate IsNameChar(c: char) { IsWordChar(c) || c == '-' || c == '.' }

  /** `[\w-]`: word characters and `-`. */
  predicate IsRepoChar(c: char) { IsWordChar(c) || c == '-' }

  /** `[\w-\/@\.:]`: word characters, `-`, `/`, `@`, `.` and `:`. */
  predicate IsRefChar(c: char) { IsWordChar(c) || c == '-' || c == '/' || c == '@' || c == '.' || c == ':' }

  predicate AllName(s: string) { forall i :: 0 <= i < |s| ==> IsNameChar(s[i]) }
  predicate AllRepo(s: string) { forall i :: 0 <= i < |s| ==> IsRepoChar(s[i]) }
  predicate AllRef(s: string) { forall i :: 0 <= i < |s| ==> IsRefChar(s[i]) }

  // ---------------------------------------------------------------------
  // IsOfficialImage

  /** True when the image belongs to the default registry and organization. */
  predicate IsOfficialImage(image: string)
    ensures IsOfficialImage(image) ==>
              IndexOf(image, '/') == Some(|DefaultRegistry|) && IsRegistryHost(image[..|DefaultRegistry|])
  {
    if HasPrefix(image, OfficialPrefix) then
      DefaultRegistryIsHost();
      assert image[..|DefaultRegistry|] == OfficialPrefix[..|DefaultRegistry|] == DefaultRegistry;
      assert image[|DefaultRegistry|] == OfficialPrefix[|DefaultRegistry|] == '/';
      IndexOfIs(image, '/', |DefaultRegistry|);
      true
    else false
  }

  lemma MkDefaultImageIsOfficial(repo: string, rest: string)
    ensures IsOfficialImage(MkDefaultImage(repo))
    ensures IsOfficialImage(MkDefaultImage(repo) + rest)
  {
    assert MkDefaultImage(repo)[..|OfficialPrefix|] == OfficialPrefix;
    assert (MkDefaultImage(repo) + rest)[..|OfficialPrefix|] == OfficialPrefix;
  }

  // ---------------------------------------------------------------------
  // ContainsRegistry: `^[\w-\.]+\.[\w-\.]+\/[\w-\/@\.:]+$`

  /** A registry host: name characters only, with a `.` that is neither first nor last. */
  predicate IsRegistryHost(h: string)
  {
    AllName(h) && |h| >= 3 && '.' in h[1..|h| - 1]
  }

  /**
   * True when the image starts with a registry host.  Because `/` is not a
   * name character, the host is everything before the first `/`.
   */
  predicate ContainsRegistry(image: string)
    ensures ContainsRegistry(image) ==>
              exists k :: 3 <= k < |image| - 1 && image[k] == '/' && '/' !in image[..k] && '.' in image[1..k - 1]
  {
    match IndexOf(image, '/')
    case None => false
    case Some(k) =>
      if IsRegistryHost(image[..k]) && k + 1 < |image| && AllRef(image[k + 1..]) then
        assert image[..k][1..k - 1] == image[1..k - 1] && image[k] == '/';
        true
      else false
  }

  /** The pattern itself: some `.` and some `/` split the image into the three runs. */
  ghost predicate ContainsRegistryPattern(image: string)
  {
    exists d, k :: 0 < d && d + 1 < k && k + 1 < |image| && image[d] == '.' && image[k] == '/'
                   && AllName(image[..d]) && AllName(image[d + 1..k]) && AllRef(image[k + 1..])
  }

  /** The first-slash reading of the pattern agrees with the pattern. */
  lemma ContainsRegistryIsPattern(image: string)
    ensures ContainsRegistry(image) <==> ContainsRegistryPattern(image)
  {
    if ContainsRegistry(image) {
      RegistryHasPattern(image);
    }
    if ContainsRegistryPattern(image) {
      var d, k :| 0 < d && d + 1 < k && k + 1 < |image| && image[d] == '.' && image[k] == '/'
                  && AllName(image[..d]) && AllName(image[d + 1..k]) && AllRef(image[k + 1..]);
      PatternHasRegistry(image, d, k);
    }
  }

  /** A host found before the first `/` gives the pattern's split. */
  lemma RegistryHasPattern(image: string)
    requires ContainsRegistry(image)
    ensures ContainsRegistryPattern(image)
  {
    var k := IndexOf(image, '/').value;
    var h := image[..k];
    var j :| 0 <= j < |h| - 2 && h[1..|h| - 1][j] == '.';
    var d := j + 1;
    assert image[d] == '.';
    assert AllName(image[..d]) by {
      assert image[..d] == h[..d];
    }
    assert AllName(image[d + 1..k]) by {
      assert image[d + 1..k] == h[d + 1..];
    }
    assert 0 < d && d + 1 < k && k + 1 < |image| && image[k] == '/' && AllRef(image[k + 1..]);
  }

  /** A split of the pattern puts its `/` first, so its host is the one before the first `/`. */
  lemma PatternHasRegistry(image: string, d: nat, k: nat)
    requires 0 < d && d + 1 < k && k + 1 < |image| && image[d] == '.' && image[k] == '/'
    requires AllName(image[..d]) && AllName(image[d + 1..k]) && AllRef(image[k + 1..])
    ensures ContainsRegistry(image)
  {
    var h := image[..k];
    forall i | 0 <= i < k ensures h[i] != '/' && IsNameChar(h[i]) {
      if i < d { assert image[..d][i] == h[i]; }
      else if i > d { assert image[d + 1..k][i - d - 1] == h[i]; }
    }
    IndexOfIs(image, '/', k);
    assert h[1..k - 1][d - 1] == '.';
  }

  /** `<host>/<path>` has a registry when the host has an inner dot and the path is non-empty. */
  lemma ContainsRegistryOfHost(h: string, t: string)
    requires IsRegistryHost(h) && t != [] && AllRef(t)
    ensures ContainsRegistry(h + "/" + t)
  {
    FirstSlashAfter(h, t);
    var s := h + "/" + t;
    assert s[..|h|] == h && s[|h| + 1..] == t;
  }

  /** `<org>/<path>` has no registry when the organization has no dot. */
  lemma NoRegistryWithoutDot(org: string, t: string)
    requires Lacks(org, '/') && Lacks(org, '.')
    ensures !ContainsRegistry(org + "/" + t)
  {
    FirstSlashAfter(org, t);
    var s := org + "/" + t;
    assert s[..|org|] == org;
    if |org| >= 3 {
      var inner := org[1..|org| - 1];
      assert '.' !in inner by {
        forall i | 0 <= i < |inner| ensures inner[i] != '.' {
          assert inner[i] == org[i + 1];
        }
      }
    }
  }

  /** The default registry is a registry host. */
  lemma DefaultRegistryIsHost()
    ensures IsRegistryHost(DefaultRegistry)
  {
    var h := DefaultRegistry;
    assert AllName(h) && h[1..|h| - 1][7] == '.';
  }

  /** Reference characters are closed under concatenation. */
  lemma AllRefConcat(a: string, b: string)
    requires AllRef(a) && AllRef(b)
    ensures AllRef(a + b)
  {
    forall i | 0 <= i < |a + b| ensures IsRefChar((a + b)[i]) {
      if i >= |a| { assert (a + b)[i] == b[i - |a|]; }
    }
  }

  /** The full URL of the tests is recognised. */
  lemma ContainsRegistryFullUrlExample()
    ensures ContainsRegistry(DefaultRegistry + "/" + "entando/entando-de-app-wildfly:7.1.0")
  {
    DefaultRegistryIsHost();
    ContainsRegistryOfHost(DefaultRegistry, "entando/entando-de-app-wildfly:7.1.0");
  }

  /** The `org/repo:tag` of the tests is not. */
  lemma ContainsRegistryOrgRepoExample()
    ensures !ContainsRegistry("entando" + "/" + "entando-de-app-wildfly:7.1.0")
  {
    NoRegistryWithoutDot("entando", "entando-de-app-wildfly:7.1.0");
  }

  /** The first `/` of `h + "/" + t` is the one after `h` when `h` has none. */
  lemma FirstSlashAfter(h: string, t: string)
    requires Lacks(h, '/')
    ensures IndexOf(h + "/" + t, '/') == Some(|h|)
  {
    var s := h + "/" + t;
    assert s[..|h|] == h;
    IndexOfIs(s, '/', |h|);
  }

  // ---------------------------------------------------------------------
  // ExtractRepo: `^.+/([^@:]+)(?:@sha256)?:?.*$`, first submatch

  /** The end of the run of characters other than `@` and `:` that starts at `k`. */
  function RunEnd(s: string, k: nat): (e: nat)
    requires k <= |s|
    decreases |s| - k
    ensures k <= e <= |s|
    ensures forall i :: k <= i < e ==> s[i] != '@' && s[i] != ':'
    ensures e < |s| ==> s[e] == '@' || s[e] == ':'
  {
    if k == |s| || s[k] == '@' || s[k] == ':' then k else RunEnd(s, k + 1)
  }

  /**
   * The pattern matches with its `/` at `p`: a non-empty newline-free prefix,
   * then a run of characters other than `@` and `:` (taken as long as it
   * goes), and a newline-free rest.
   */
  predicate RepoSlashAt(s: string, p: nat)
  {
    1 <= p && p + 1 < |s| && s[p] == '/' && s[p + 1] != '@' && s[p + 1] != ':'
    && Lacks(s[..p], '\n') && Lacks(s[RunEnd(s, p + 1)..], '\n')
  }

  /** The greedy `.+` picks the last position at which the rest still matches. */
  function LastRepoSlash(s: string, hi: nat): (r: Option<nat>)
    requires hi <= |s|
    ensures r.None? ==> forall p: nat :: p < hi ==> !RepoSlashAt(s, p)
    ensures r.Some? ==> r.value < hi && RepoSlashAt(s, r.value)
                        && forall q: nat :: r.value < q < hi ==> !RepoSlashAt(s, q)
  {
    if hi == 0 then None
    else if RepoSlashAt(s, hi - 1) then Some(hi - 1)
    else LastRepoSlash(s, hi - 1)
  }

  /** The repository name in an image reference, or "" when the pattern does not match. */
  function ExtractRepo(image: string): (r: string)
    ensures '@' !in r && ':' !in r
    ensures r == "" <==> forall p: nat :: p < |image| ==> !RepoSlashAt(image, p)
  {
    match LastRepoSlash(image, |image|)
    case None => ""
    case Some(p) =>
      var r := image[p + 1..RunEnd(image, p + 1)];
      assert r[0] == image[p + 1];
      r
  }

  /**
   * In a newline-free reference whose last `/` is followed by a character
   * other than `@` and `:`, the repository is what lies between that `/` and
   * the first following `@` or `:`.
   */
  lemma ExtractRepoAfterLastSlash(image: string, p: nat)
    requires Lacks(image, '\n')
    requires 1 <= p && p + 1 < |image| && image[p] == '/' && Lacks(image[p + 1..], '/')
    requires image[p + 1] != '@' && image[p + 1] != ':'
    ensures ExtractRepo(image) == image[p + 1..RunEnd(image, p + 1)]
  {
    assert RepoSlashAt(image, p);
    forall q: nat | p < q < |image| ensures !RepoSlashAt(image, q) {
      assert image[p + 1..][q - p - 1] == image[q];
    }
  }

  /** The official prefix ends with its only relevant `/` and holds no newline. */
  lemma OfficialPrefixShape()
    ensures |OfficialPrefix| == 32 && OfficialPrefix[31] == '/' && Lacks(OfficialPrefix, '\n')
  {
  }

  /** Extracting the repository from `<prefix>/<repo><rest>` gives the repository back. */
  lemma ExtractRepoAfterPrefix(pre: string, repo: string, rest: string)
    requires |pre| >= 2 && pre[|pre| - 1] == '/' && Lacks(pre, '\n')
    requires repo != [] && Lacks(repo, '/') && Lacks(repo, '@') && Lacks(repo, ':') && Lacks(repo, '\n')
    requires rest == [] || rest[0] == '@' || rest[0] == ':'
    requires Lacks(rest, '/') && Lacks(rest, '\n')
    ensures ExtractRepo(pre + repo + rest) == repo
  {
    var image := pre + repo + rest;
    var p := |pre| - 1;
    var e := |pre| + |repo|;
    assert Lacks(image, '\n') by {
      forall i | 0 <= i < |image| ensures image[i] != '\n' {
        if i < |pre| { assert image[i] == pre[i]; }
        else if i < e { assert image[i] == repo[i - |pre|]; }
        else { assert image[i] == rest[i - e]; }
      }
    }
    assert image[p + 1..] == repo + rest;
    ExtractRepoAfterLastSlash(image, p);
    assert image[p + 1..e] == repo;
    RunEndOfRun(image, p + 1, e);
  }

  /** Extracting the repository from an official image reference gives the repository back. */
  lemma ExtractRepoOfDefaultImage(repo: string, rest: string)
    requires repo != [] && Lacks(repo, '/') && Lacks(repo, '@') && Lacks(repo, ':') && Lacks(repo, '\n')
    requires rest == [] || rest[0] == '@' || rest[0] == ':'
    requires Lacks(rest, '/') && Lacks(rest, '\n')
    ensures ExtractRepo(MkDefaultImage(repo) + rest) == repo
  {
    OfficialPrefixShape();
    ExtractRepoAfterPrefix(OfficialPrefix, repo, rest);
    assert MkDefaultImage(repo) + rest == OfficialPrefix + repo + rest;
  }

  /** `RunEnd` stops exactly at the first `@` or `:`. */
  lemma {:induction false} RunEndOfRun(s: string, k: nat, e: nat)
    requires k <= e <= |s|
    requires forall i :: k <= i < e ==> s[i] != '@' && s[i] != ':'
    requires e < |s| ==> s[e] == '@' || s[e] == ':'
    ensures RunEnd(s, k) == e
    decreases e - k
  {
    if k < e {
      RunEndOfRun(s, k + 1, e);
    }
  }

  /** A pinned reference: the `@sha256` suffix is not part of the repository. */
  lemma ExtractRepoPinnedExample()
    ensures ExtractRepo(MkDefaultImage(DeAppEapRepo) + "@sha256:94af0fb4525") == DeAppEapRepo
  {
    var rest := "@sha256:94af0fb4525";
    assert Lacks(DeAppEapRepo, '/') && Lacks(DeAppEapRepo, '@') && Lacks(DeAppEapRepo, ':') && Lacks(DeAppEapRepo, '\n');
    assert rest[0] == '@' && Lacks(rest, '/') && Lacks(rest, '\n');
    ExtractRepoOfDefaultImage(DeAppEapRepo, rest);
  }

  /** A tagged reference. */
  lemma ExtractRepoTaggedExample()
    ensures ExtractRepo(MkDefaultImage(DeAppWildflyRepo) + ":7.1.0") == DeAppWildflyRepo
  {
    var rest := ":7.1.0";
    assert Lacks(DeAppWildflyRepo, '/') && Lacks(DeAppWildflyRepo, '@') && Lacks(DeAppWildflyRepo, ':') && Lacks(DeAppWildflyRepo, '\n');
    assert rest[0] == ':' && Lacks(rest, '/') && Lacks(rest, '\n');
    ExtractRepoOfDefaultImage(DeAppWildflyRepo, rest);
  }

  /** A reference without tag or digest. */
  lemma ExtractRepoBareExample()
    ensures ExtractRepo(MkDefaultImage(DeAppWildflyRepo)) == DeAppWildflyRepo
  {
    assert Lacks(DeAppWildflyRepo, '/') && Lacks(DeAppWildflyRepo, '@') && Lacks(DeAppWildflyRepo, ':') && Lacks(DeAppWildflyRepo, '\n');
    ExtractRepoOfDefaultImage(DeAppWildflyRepo, "");
    assert MkDefaultImage(DeAppWildflyRepo) + "" == MkDefaultImage(DeAppWildflyRepo);
  }

  // ---------------------------------------------------------------------
  // IsValidImageOverride: `^([\w-\.]+\/)?([\w-]+\/[\w-]+(@sha256)?)?:?[\w-\.]+$`

  /** `([\w-\.]+\/)?`: nothing, or a registry followed by `/`. */
  predicate OptRegistryPart(x: string)
  {
    x == [] || (|x| >= 2 && x[|x| - 1] == '/' && AllName(x[..|x| - 1]))
  }

  /** `[\w-]+\/[\w-]+`: organization and repository. */
  predicate OrgRepo(x: string)
  {
    match IndexOf(x, '/')
    case None => false
    case Some(k) => 0 < k && k + 1 < |x| && AllRepo(x[..k]) && AllRepo(x[k + 1..])
  }

  /** `([\w-]+\/[\w-]+(@sha256)?)?`. */
  predicate OptOrgRepoPart(x: string)
  {
    x == [] || OrgRepo(x) || (|x| > 7 && x[|x| - 7..] == "@sha256" && OrgRepo(x[..|x| - 7]))
  }

  /** `:?`. */
  predicate OptColon(x: string)
  {
    x == [] || x == ":"
  }

  /** True when the value can be used as an image override flag. */
  predicate IsValidImageOverride(imageOverride: string)
    ensures IsValidImageOverride(imageOverride) ==>
              imageOverride != [] && IsNameChar(imageOverride[|imageOverride| - 1])
  {
    exists i, j, k :: 0 <= i <= j <= k < |imageOverride|
                      && OptRegistryPart(imageOverride[..i]) && OptOrgRepoPart(imageOverride[i..j])
                      && OptColon(imageOverride[j..k]) && AllName(imageOverride[k..])
  }

  /** Every bare tag of name characters is accepted. */
  lemma ValidOverrideTag(tag: string)
    requires tag != [] && AllName(tag)
    ensures IsValidImageOverride(tag)
  {
    assert tag[..0] == [] && tag[0..0] == [] && tag[0..] == tag;
  }

  /** `<organization>/<repo>` is an organization and repository. */
  lemma OrgRepoOf(org: string, repo: string)
    requires org != [] && repo != [] && AllRepo(org) && AllRepo(repo)
    ensures OrgRepo(org + "/" + repo)
  {
    var x := org + "/" + repo;
    assert Lacks(org, '/') by {
      forall i | 0 <= i < |org| ensures org[i] != '/' { assert IsRepoChar(org[i]); }
    }
    FirstSlashAfter(org, repo);
    assert x[..|org|] == org && x[|org| + 1..] == repo;
  }

  /** A registry part, an organization/repository part, `:` and a tag make an accepted value. */
  lemma ValidOverrideOfParts(a: string, b: string, tag: string)
    requires OptRegistryPart(a) && OptOrgRepoPart(b) && tag != [] && AllName(tag)
    ensures IsValidImageOverride(a + b + ":" + tag)
  {
    var s := a + b + ":" + tag;
    var i, j := |a|, |a| + |b|;
    assert s[..i] == a && s[i..j] == b && s[j..j + 1] == ":" && s[j + 1..] == tag;
  }

  /** `<organization>/<repo>:<tag>` is accepted. */
  lemma ValidOverrideOrgRepoTag(org: string, repo: string, tag: string)
    requires org != [] && repo != [] && tag != [] && AllRepo(org) && AllRepo(repo) && AllName(tag)
    ensures IsValidImageOverride(org + "/" + repo + ":" + tag)
  {
    OrgRepoOf(org, repo);
    ValidOverrideOfParts([], org + "/" + repo, tag);
    assert [] + (org + "/" + repo) == org + "/" + repo;
  }

  /** `<registry>/<organization>/<repo>@sha256:<sha>` is accepted. */
  lemma ValidOverrideRegistryOrgRepoDigest(reg: string, org: string, repo: string, sha: string)
    requires reg != [] && org != [] && repo != [] && sha != []
    requires AllName(reg) && AllRepo(org) && AllRepo(repo) && AllName(sha)
    ensures IsValidImageOverride(reg + "/" + org + "/" + repo + "@sha256" + ":" + sha)
  {
    var r := reg + "/";
    assert r[..|reg|] == reg;
    OptOrgRepoDigest(org, repo, "@sha256");
    ValidOverrideOfParts(r, org + "/" + repo + "@sha256", sha);
    Regroup(reg, org, repo, "@sha256", sha);
  }

  /** `<organization>/<repo>@sha256` is an organization/repository part. */
  lemma OptOrgRepoDigest(org: string, repo: string, marker: string)
    requires org != [] && repo != [] && AllRepo(org) && AllRepo(repo) && marker == "@sha256"
    ensures OptOrgRepoPart(org + "/" + repo + marker)
  {
    var x := org + "/" + repo;
    var y := x + marker;
    OrgRepoOf(org, repo);
    assert |marker| == 7;
    assert y[..|x|] == x && y[|x|..] == marker;
  }

  /** Regrouping a reference around its registry's `/`. */
  lemma Regroup(reg: string, org: string, repo: string, marker: string, sha: string)
    ensures (reg + "/") + (org + "/" + repo + marker) + ":" + sha == reg + "/" + org + "/" + repo + marker + ":" + sha
  {
  }

  /** The parts that `IsValidImageOverride` splits a value into. */
  lemma ValidOverrideParts(s: string) returns (i: nat, j: nat, k: nat)
    requires IsValidImageOverride(s)
    ensures i <= j <= k < |s|
    ensures OptRegistryPart(s[..i]) && OptOrgRepoPart(s[i..j]) && OptColon(s[j..k]) && AllName(s[k..])
  {
    i, j, k :| 0 <= i <= j <= k < |s| && OptRegistryPart(s[..i]) && OptOrgRepoPart(s[i..j])
               && OptColon(s[j..k]) && AllName(s[k..]);
  }

  /** Organization and repository use only `[\w-]` and one `/`. */
  lemma OrgRepoChars(x: string)
    requires OrgRepo(x)
    ensures forall n :: 0 <= n < |x| ==> IsRepoChar(x[n]) || x[n] == '/'
  {
    var k := IndexOf(x, '/').value;
    forall n | 0 <= n < |x| ensures IsRepoChar(x[n]) || x[n] == '/' {
      if n < k { assert x[..k][n] == x[n]; }
      else if n > k { assert x[k + 1..][n - k - 1] == x[n]; }
    }
  }

  /** The registry part holds neither `:` nor `@`. */
  lemma RegistryPartChars(a: string)
    requires OptRegistryPart(a)
    ensures Lacks(a, ':') && Lacks(a, '@')
  {
    if a != [] {
      var name := a[..|a| - 1];
      forall n | 0 <= n < |a| ensures a[n] != ':' && a[n] != '@' {
        if n < |a| - 1 { assert IsNameChar(name[n]); }
      }
    }
  }

  /** The organization/repository part holds no `:`, and its only `@` starts its `@sha256` suffix. */
  lemma OrgRepoPartChars(b: string)
    requires OptOrgRepoPart(b)
    ensures Lacks(b, ':')
    ensures forall n :: 0 <= n < |b| && b[n] == '@' ==> n == |b| - 7 && b[|b| - 7..] == "@sha256"
  {
    if OrgRepo(b) {
      OrgRepoChars(b);
    } else if b != [] {
      var y := b[..|b| - 7];
      var suffix := b[|b| - 7..];
      OrgRepoChars(y);
      assert suffix == "@sha256";
      forall n | 0 <= n < |b| ensures b[n] != ':' && (b[n] == '@' ==> n == |b| - 7) {
        if n < |b| - 7 {
          assert b[n] == y[n];
        } else {
          assert b[n] == suffix[n - (|b| - 7)];
        }
      }
    }
  }

  /** Name characters are neither `:` nor `@`. */
  lemma NameChars(d: string)
    requires AllName(d)
    ensures Lacks(d, ':') && Lacks(d, '@')
  {
  }

  /** An accepted value has at most one `:`. */
  lemma ValidOverrideOneColon(s: string)
    requires IsValidImageOverride(s)
    ensures Count(s, ':') <= 1
  {
    var i, j, k := ValidOverrideParts(s);
    var a, b, c, d := s[..i], s[i..j], s[j..k], s[k..];
    SplitFour(s, i, j, k);
    RegistryPartChars(a);
    OrgRepoPartChars(b);
    NameChars(d);
    CountAbsent(a, ':');
    CountAbsent(b, ':');
    CountAbsent(d, ':');
    CountAppend(a, b, ':');
    CountAppend(a + b, c, ':');
    CountAppend(a + b + c, d, ':');
    assert Count(c, ':') <= 1 by {
      if c == ":" { assert Count(c, ':') == 1 + Count([], ':'); }
    }
  }

  /** In an accepted value, `@` occurs only as the start of `@sha256`. */
  lemma ValidOverrideAtSha(s: string)
    requires IsValidImageOverride(s)
    ensures forall n :: 0 <= n < |s| && s[n] == '@' ==> n + 7 <= |s| && s[n..n + 7] == "@sha256"
  {
    var i, j, k := ValidOverrideParts(s);
    PartsAtSha(s, i, j, k);
  }

  /** Given the four parts, each `@` is the start of the `@sha256` of the second. */
  lemma PartsAtSha(s: string, i: nat, j: nat, k: nat)
    requires i <= j <= k < |s|
    requires OptRegistryPart(s[..i]) && OptOrgRepoPart(s[i..j]) && OptColon(s[j..k]) && AllName(s[k..])
    ensures forall n :: 0 <= n < |s| && s[n] == '@' ==> n + 7 <= |s| && s[n..n + 7] == "@sha256"
  {
    RegistryPartChars(s[..i]);
    assert s[..i] == s[0..i];
    NameChars(s[k..]);
    assert s[k..] == s[k..|s|];
    LacksSlice(s, 0, i, '@');
    LacksSlice(s, j, k, '@');
    LacksSlice(s, k, |s|, '@');
    AtShaInMiddle(s, i, j);
  }

  /** Within the organization/repository part, an `@` starts the closing `@sha256`. */
  lemma AtShaInMiddle(s: string, i: nat, j: nat)
    requires i <= j <= |s| && OptOrgRepoPart(s[i..j])
    ensures forall n :: i <= n < j && s[n] == '@' ==> n + 7 == j && s[n..j] == "@sha256"
  {
    var b := s[i..j];
    OrgRepoPartChars(b);
    forall n | i <= n < j && s[n] == '@' ensures n + 7 == j && s[n..j] == "@sha256" {
      assert b[n - i] == s[n];
      assert s[n..j] == b[n - i..];
    }
  }

  /** A slice without `c` puts no `c` at the indices it covers. */
  lemma LacksSlice(s: string, lo: nat, hi: nat, c: char)
    requires lo <= hi <= |s| && Lacks(s[lo..hi], c)
    ensures forall n :: lo <= n < hi ==> s[n] != c
  {
    forall n | lo <= n < hi ensures s[n] != c {
      assert s[lo..hi][n - lo] == s[n];
    }
  }

  /** The example the tests reject: a second `:` is never accepted. */
  lemma ValidOverrideRejectsTwoColons()
    ensures !IsValidImageOverride("foo" + ":" + "bar" + ":" + "foo")
  {
    var s := "foo" + ":" + "bar" + ":" + "foo";
    assert Lacks("foo", ':') && Lacks("bar", ':');
    CountTwo("foo", "bar", "foo", ':');
    if IsValidImageOverride(s) {
      ValidOverrideOneColon(s);
    }
  }
}
