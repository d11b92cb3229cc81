# upgrade-cli core, modelled in Dafny

This project models the core of `upgrade-cli`, the command-line tool that
generates and installs the `EntandoAppV2` custom resource. The tool is used
to upgrade an Entando installation on Kubernetes. The model covers:

- **Image tables and checks** (`images.dfy`, module `Images`). This is the table
  of the seven component images and the default image URL of each. It also
  holds the checks on user-given references, each written as an explicit
  predicate: "is official", "contains a registry host", "extract the
  repository", "is a valid override". Go's RE2 semantics are spelled out:
  `\w` is ASCII, `.` does not match a newline, and matching is greedy.
- **Image override adapter** (`adapter.dfy`, module `ImageOverrideAdapter`).
  It completes the AppBuilder, DeApp, ComponentManager and Keycloak
  overrides to full URLs. In OLM mode it pins each one to a registry digest.
  It stops at the first failure and warns when an official DeApp or Keycloak
  image does not belong to the installation type.
- **Enumerated flags** (`enum_flag.dfy`, module `EnumTypeFlag`). This is a flag
  object that only takes values from its list. The image set type and
  operator mode flags are built from it.
- **Generate command** (`generate.dfy`, module `Generate`). It reads the
  operator mode and the component image flags into a new resource, refusing
  a value of the wrong format.
- **Resource generator** (`cr_generator.dfy`, module `CrGenerator`). It fills
  in the metadata and the environment-derived fields, then prints the
  resource as a YAML document. When asked, it turns the quoted `ERROR:`
  placeholders into commented lines, which makes the YAML invalid on purpose.
- **Process arguments** (`spawn.dfy`, module `Spawn`). It flattens nested
  argument lists into the argument vector of a child process.
- **kubectl service** (`kubectl.dfy`, module `KubectlService`). It creates
  the resource with `create` or `apply`, reads it back and reads the
  operator mode. It builds the `kubectl` base command from an environment
  variable.
- **Supporting modules.** The resource itself (`resource.dfy`, module
  `Resource`) is a class whose component override fields are rewritten in
  place. The flag constants (`flag_values.dfy`), environment lookup
  (`env.dfy`), string helpers (`strings.dfy`) and the `Option`/`Result`
  wrappers (`wrappers.dfy`) support the rest.

Go code that writes through a pointer into the resource
(`&app.Spec.DeApp.ImageOverride`) is modelled in two parts:

- a method on the `EntandoAppV2` object plus a `Slot` naming the field;
- a value-level function on the `AppState` snapshot, which the method's
  postcondition is tied to.

The lemmas state the properties on those functions. Functions the tool
calls but whose code lies outside this model are parameters:

- the registry digest lookup;
- the process runner;
- the YAML printer and decoder;
- the error returned by file creation;
- the environment;
- whether the file exists.

## Model

| member | source | states |
|---|---|---|
| Images.MkDefaultImage | util/images/images.go:122-124 | The default image of a repository is the default registry and organization prefix followed by the repository |
| Images.MkDefaultImageText | util/images/images.go:122-124 | The default image is `registry.hub.docker.com/entando/<repo>` |
| Images.MkGetDefaultSingleImage | util/images/images.go:116-120 | A single-image component has the same default image whatever the image set type |
| Images.MkGetDefaultMultiImage | util/images/images.go:107-114 | A multi-image component uses the community repository exactly for the Community type and the certified one for every other type |
| Images.MkEntandoComponentInfoSingleImage | util/images/images.go:87-95 | The entry keeps the given name, flag and field, is not multi-image, and has the repository's default image for every image set type |
| Images.MkEntandoComponentInfoMultiImage | util/images/images.go:97-105 | The entry keeps the given name, flag and field, is multi-image, and has the community repository's default image for the Community type and the certified one for every other type |
| Images.EntandoImagesTable | util/images/images.go:42-85 | There are seven entries, with distinct flags and distinct fields; only DeApp and Keycloak are multi-image, and their community image is chosen exactly for the Community type |
| Images.IsOfficialImage | util/images/images.go:136-139 | An official image starts with a registry host, the default registry, ending at its first `/` |
| Images.MkDefaultImageIsOfficial | util/images/images.go:136-139 | A default image, followed by any tag, digest or other suffix, is official |
| Images.ContainsRegistry | util/images/images.go:141-145 | A reference with a registry has a first `/` after at least three characters and before its last one, with a `.` strictly inside the text before that `/` |
| Images.ContainsRegistryIsPattern | util/images/images.go:141-145 | The explicit registry check agrees, in both directions, with the pattern `^[\w-\.]+\.[\w-\.]+\/[\w-\/@\.:]+$` |
| Images.ContainsRegistryOfHost | util/images/images.go:141-145 | A host with an inner dot, then `/` and reference characters, contains a registry |
| Images.NoRegistryWithoutDot | util/images/images.go:141-145 | A reference whose text before the first `/` has no inner dot has no registry |
| Images.ContainsRegistryFullUrlExample | util/images/images.go:141-145 | A full default URL with a tag contains a registry |
| Images.ContainsRegistryOrgRepoExample | util/images/images.go:141-145 | `entando/<repo>:<tag>` has no registry |
| Images.ExtractRepo | util/images/images.go:126-134 | The extracted repository never holds `@` or `:`, and it is empty exactly when the pattern `^.+/([^@:]+)(?:@sha256)?:?.*$` does not match |
| Images.ExtractRepoAfterLastSlash | util/images/images.go:126-134 | In a newline-free reference, the repository is the run after the last `/` up to the first `@` or `:` |
| Images.ExtractRepoOfDefaultImage | util/images/images.go:122-134 | Extracting the repository from a default image, bare, tagged or pinned, gives the repository back |
| Images.ExtractRepoPinnedExample | util/images/images.go:126-134 | A pinned reference's `@sha256` suffix is not part of the repository |
| Images.ExtractRepoTaggedExample | util/images/images.go:126-134 | A tagged reference's tag is not part of the repository |
| Images.ExtractRepoBareExample | util/images/images.go:126-134 | A bare default image yields its repository |
| Images.IsValidImageOverride | util/images/images.go:147-157 | A valid override is non-empty and ends in a name character |
| Images.ValidOverrideTag | util/images/images.go:147-157 | A bare tag of name characters is a valid override |
| Images.ValidOverrideOrgRepoTag | util/images/images.go:147-157 | `<org>/<repo>:<tag>` is a valid override |
| Images.ValidOverrideRegistryOrgRepoDigest | util/images/images.go:147-157 | `<registry>/<org>/<repo>@sha256:<hex>` is a valid override |
| Images.ValidOverrideOneColon | util/images/images.go:147-157 | A valid override has at most one `:` |
| Images.ValidOverrideAtSha | util/images/images.go:147-157 | In a valid override an `@` is always followed by `sha256` |
| Images.ValidOverrideRejectsTwoColons | util/images/images.go:147-157 | `foo:bar:foo` is refused |
| ImageOverrideAdapter.GetDefaultDeAppImage | service/image_override_adapter.go:56-61 | The EAP repository exactly for the Red Hat certified type, the Wildfly one otherwise |
| ImageOverrideAdapter.GetDefaultKeycloakImage | service/image_override_adapter.go:63-68 | The Red Hat SSO repository exactly for the Red Hat certified type, the Keycloak one otherwise |
| ImageOverrideAdapter.Normalize | service/image_override_adapter.go:70-77 | A bare tag (no `:`, no `/`) becomes the default image of the component with that tag. Any other reference without a registry host gets the default registry and a `/` in front. A reference with a registry is kept unchanged. The user's text always survives as a suffix |
| ImageOverrideAdapter.PinDigest | service/image_override_adapter.go:91-102 | A reference already holding `@sha256:` is kept without a lookup. Otherwise the result is an error exactly when the lookup fails, with the message naming the image. On success it is the text up to the first `:` (or all of it) followed by `@<digest>` |
| ImageOverrideAdapter.AdaptOverride | service/image_override_adapter.go:70-84 | An empty override is kept without error. Without OLM a non-empty one becomes its normalized reference, never with an error. With OLM it is an error exactly when pinning the normalized reference fails (the field then holds the normalized reference), and otherwise the pinned reference |
| ImageOverrideAdapter.ReplaceTagsWithDigests | service/image_override_adapter.go:91-102 | On success only the pointed-to field changes to the pinned reference; on failure nothing changes |
| ImageOverrideAdapter.NormalizeImageOverride | service/image_override_adapter.go:71-77 | Only the pointed-to field changes, to the normalized reference |
| ImageOverrideAdapter.AdaptImageOverride | service/image_override_adapter.go:70-84 | Only the pointed-to field changes, to the adapted value; the error is the adaptation's error |
| ImageOverrideAdapter.PinAfterNormalize | service/image_override_adapter.go:70-84 | In OLM mode a non-empty override is normalized, then pinned in the same field, and the two writes compose into one |
| ImageOverrideAdapter.AdapterSlots | service/image_override_adapter.go:33-48 | The steps adapt AppBuilder, DeApp, ComponentManager and Keycloak, in that order |
| ImageOverrideAdapter.AdaptSlots | service/image_override_adapter.go:33-48 | Adapting in order changes only the fields of the steps and never fails without OLM; the value each field takes is stated by `AdaptSlotsByStep` |
| ImageOverrideAdapter.AdaptImages | service/image_override_adapter.go:28-54 | A failure produces no warning; only the four override fields change; without OLM there is no error; at most two warnings. The four adapted values are stated by `AdaptImagesByStep` |
| ImageOverrideAdapter.AdaptImagesOverride | service/image_override_adapter.go:28-54 | The resource in place becomes the state `AdaptImages` computes, with its error and its warnings |
| ImageOverrideAdapter.AdaptImagesFailed | service/image_override_adapter.go:33-48 | When a step fails, its state and error are the outcome, with no warning |
| ImageOverrideAdapter.AdaptImagesDone | service/image_override_adapter.go:50-53 | When every step succeeds, the DeApp and Keycloak mismatch checks run on the adapted fields |
| ImageOverrideAdapter.MismatchRepo | service/image_override_adapter.go:108-110 | The capture of `^.+/(.+):.+$` exists exactly when the image is newline-free and can be split there, and it lies between such a `/` and `:` |
| ImageOverrideAdapter.CheckInstallationTypeImagesMismatch | service/image_override_adapter.go:104-117 | A warning only for an official image whose captured repository differs from the expected one, with the printed message |
| ImageOverrideAdapter.AdaptOnlyTags | service/image_override_adapter.go:70-73 | A bare tag is completed with the DeApp or Keycloak repository of the installation type |
| ImageOverrideAdapter.NormalizeRepoTag | service/image_override_adapter.go:74-76 | `<repo>:<tag>` without `/` gets only the default registry in front, with no organization |
| ImageOverrideAdapter.NormalizeOrgRepo | service/image_override_adapter.go:74-76 | `<org>/<rest>` with a dot-free organization gets the default registry in front |
| ImageOverrideAdapter.DefaultImageHasRegistry | service/image_override_adapter.go:72-73 | A completed bare tag contains a registry |
| ImageOverrideAdapter.NormalizeIdempotent | service/image_override_adapter.go:70-77 | Normalizing a non-empty override made of reference characters yields one with a registry, so normalizing again changes nothing |
| ImageOverrideAdapter.PinIdempotent | service/image_override_adapter.go:91-102 | Pinning with a `sha256:` digest is idempotent and needs no second lookup |
| ImageOverrideAdapter.OfficialTagShape | service/image_override_adapter.go:92-100 | An official tagged reference is not pinned yet, and its text before the first `:` is the image |
| ImageOverrideAdapter.PinOfficialTag | service/image_override_adapter.go:91-102 | Pinning an official tagged reference replaces the tag by the digest and keeps the repository |
| ImageOverrideAdapter.PinnedOfficialRepo | util/images/images.go:126-134 | The repository of an official reference survives replacing its tag by a digest |
| ImageOverrideAdapter.AdaptSlotsStopsAtFailure | service/image_override_adapter.go:33-48 | Once a prefix of the steps fails, the later steps have no effect |
| ImageOverrideAdapter.LaterSlotsUntouched | service/image_override_adapter.go:33-48 | When a step fails, the later components keep their values, the error is returned and nothing is warned |
| ImageOverrideAdapter.AdapterStepsDistinct | service/image_override_adapter.go:33-48 | The four steps write four different fields |
| ImageOverrideAdapter.AdaptSlotsByStep | service/image_override_adapter.go:33-48 | With distinct fields, for the first failing step `m` (or none): the error is step `m`'s, each field up to `m` holds its own adaptation of its old value, and the later fields keep their old value |
| ImageOverrideAdapter.AdaptImagesByStep | service/image_override_adapter.go:28-54 | The same for the four components with the installation type's default repositories: the outcome's error and every one of the four adapted values |
| ImageOverrideAdapter.AdaptImagesOnlyTags | service/image_override_adapter_test.go:72-106 | Without OLM, bare tags for DeApp and Keycloak become the installation type's official images with that tag (EAP and Red Hat SSO for the Red Hat certified type) |
| ImageOverrideAdapter.AdaptSlotsWithoutOlm | service/image_override_adapter.go:79-81 | Without OLM the adaptation never consults the registry |
| ImageOverrideAdapter.AdaptWithoutOlm | service/image_override_adapter.go:28-54 | Without OLM the adapter succeeds and its outcome does not depend on the registry |
| ImageOverrideAdapter.MismatchRepoOf | service/image_override_adapter.go:108-110 | The capture of `<pre>/<body>:<tag>` is `body` when `body` has no `/` and `tag` no `:` |
| ImageOverrideAdapter.MismatchOfficialTagged | service/image_override_adapter.go:104-117 | An official tagged image warns exactly when its repository differs from the expected one |
| ImageOverrideAdapter.MismatchOfficialPinned | service/image_override_adapter.go:104-117 | An official image pinned to a digest always warns, because the capture ends in `@sha256` |
| EnumTypeFlag.IsIncluded | flag/enum_type_flag.go:27-32 | The scan finds the value exactly when it is one of the options |
| EnumTypeFlag.EnumFlag.constructor | flag/enum_type_flag.go:15-20 | The flag holds the given options and default, unchecked |
| EnumTypeFlag.EnumFlag.String | flag/enum_type_flag.go:22-24 | The flag's text is its value |
| EnumTypeFlag.EnumFlag.Type | flag/enum_type_flag.go:42-44 | The type name is `string` |
| EnumTypeFlag.EnumFlag.Set | flag/enum_type_flag.go:26-40 | An allowed value is taken with no error; any other is refused with the "is not included in" message and leaves the value unchanged; a valid flag stays valid |
| EnumTypeFlag.ReplayStaysAllowed | flag/enum_type_flag.go:26-40 | An allowed value stays allowed whatever is set afterwards |
| EnumTypeFlag.ReplayIsLastAllowed | flag/enum_type_flag.go:26-40 | After several `Set` calls the value is the last allowed one, or the initial one when none was allowed |
| EnumTypeFlag.GetImageSetTypeFlag | flag/image_set_type/image_set_type.go:13-19 | The image set type flag lists its values and defaults to `Auto`, which is one of them |
| EnumTypeFlag.GetOperatorModeFlag | flag/operator_mode/operator_mode.go:13-19 | The operator mode flag lists its values and defaults to `Auto`, which is one of them |
| EnumTypeFlag.ImageSetTypeFlagStaysAllowed | flag/image_set_type/image_set_type.go:13-19 | The image set type flag keeps a listed value through any sequence of `Set` calls |
| Generate.IsOlm | cmd/generate/generate.go:88-96 | `OLM` gives true and `Plain` false; every other mode is the "not implemented yet" error |
| Generate.ValidOverrideFormatIsPattern | cmd/generate/generate.go:102-106 | The explicit format check agrees, in both directions, with the pattern `^[\w-\/\.@]*:?[\w-\.]+$` |
| Generate.ValidOverrideFormat | cmd/generate/generate.go:102-106 | An accepted value is non-empty and ends in a tag character |
| Generate.AcceptedOverrideShape | cmd/generate/generate.go:102-106 | An accepted value is non-empty, ends in a tag character and has at most one `:` |
| Generate.RejectsTwoColons | cmd/generate/generate_test.go:92-104 | `foo:bar:foo` is refused |
| Generate.ParseComponentFlagSpec | cmd/generate/generate.go:98-113 | An empty flag changes nothing; a non-empty flag is an error, with its message, exactly when it is malformed; an accepted one is written verbatim into its field |
| Generate.ParseComponentFlag | cmd/generate/generate.go:98-113 | The resource in place becomes the state `ParseComponentFlagSpec` computes, or is unchanged on error |
| Generate.ParseComponentFlags | cmd/generate/generate.go:78-83 | Reading the flags in order changes only override fields |
| Generate.FirstInvalidFlagAborts | cmd/generate/generate.go:78-83 | The first malformed flag decides the error; later flags are not looked at |
| Generate.FlagSlots | cmd/generate/generate.go:78-83 | The slots the component flags write, in order |
| Generate.AllValidFlagsAccepted | cmd/generate/generate.go:78-83 | When every flag is empty or well-formed, reading succeeds and each override is the last non-empty flag for its field |
| Generate.OverrideAfterOwnFlag | cmd/generate/generate.go:78-83 | With distinct fields, a field's override is its own flag's value when that is non-empty |
| Generate.OverrideAfterOtherFlags | cmd/generate/generate.go:78-83 | Flags for other fields leave a field's override alone |
| Generate.ComponentFlagsDistinct | cmd/generate/generate.go:78-83 | The component flag table names each field and each flag once |
| Generate.ParseEntandoAppFromCmd | cmd/generate/generate.go:66-86 | A new resource with the version, filled by the flags in order, or the first flag error |
| Generate.FirstErrorStays | cmd/generate/generate.go:78-83 | An error on a prefix of the flags is the error of all of them |
| Generate.GeneratedOverrides | cmd/generate/generate.go:66-86 | With well-formed flags, generation succeeds, keeps the version and writes each flag verbatim into its own field |
| CrGenerator.MatchAtStart | service/cr_generator.go:80-84 | A match of the placeholder pattern (a quote, `ERROR: `, any text, a quote) starts the text exactly when it begins with a quote and `ERROR: ` and its line holds a further quote; the greedy `.*` makes the match end at the last quote of the line |
| CrGenerator.BreakSyntax | service/cr_generator.go:80-84 | The rewriting never shortens the text and at most doubles it |
| CrGenerator.BreakSyntaxKeepsLines | service/cr_generator.go:80-84 | The rewriting keeps every line break: a match never spans two lines |
| CrGenerator.BreakSyntaxWithoutPlaceholder | service/cr_generator.go:80-84 | Text without a quote directly followed by `ERROR: ` comes out unchanged |
| CrGenerator.BreakSyntaxKeepsPlainPrefix | service/cr_generator.go:80-84 | Text before the first quote is copied unchanged |
| CrGenerator.BreakSyntaxPlaceholderLine | service/cr_generator.go:80-84 | A quoted placeholder that ends its line loses its quotes and gains ` # FIXME`; quotes inside the message stay |
| CrGenerator.BreakSyntaxPlaceholderFirst | service/cr_generator.go:80-84 | A text starting with a quoted placeholder that ends its line has it rewritten |
| CrGenerator.BreakSyntaxLastLine | service/cr_generator.go:80-84 | A double-quoted placeholder on the last line becomes `ERROR: <msg> # FIXME`, whatever quotes the message holds |
| CrGenerator.BreakSyntaxTwoPlaceholders | service/cr_generator.go:80-84 | Two placeholders on one line make a single match from the first quote to the last, so the inner quotes stay |
| CrGenerator.GenerateSpec | service/cr_generator.go:25-77 | The result carries the fixed API version, kind and name, and it keeps the overrides and the version. A missing app name or ingress host is its error, with nothing written. Otherwise both are set on the resource. A failed file creation is its error, with nothing written. Then the outcome succeeds exactly when printing does: a printer error leaves only the header written, and success writes the header and the printed (possibly fixed) resource |
| CrGenerator.GenerateCustomResource | service/cr_generator.go:25-77 | The resource in place, the error and the written text are those of `GenerateSpec` |
| CrGenerator.FixHarmlessWithoutPlaceholder | service/cr_generator.go:70-74 | When the printed resource has no quoted `ERROR: `, asking for the fix changes nothing |
| Spawn.Flatten | util/sys/spawn/base.go:28-44 | Without nested lists, every element gives one or two strings |
| Spawn.FlattenConcat | util/sys/spawn/base.go:28-44 | Flattening distributes over concatenation |
| Spawn.RecursiveAdd | util/sys/spawn/base.go:28-44 | The result is the given list followed by the flattened arguments |
| Spawn.MkRawSpawnArgs | util/sys/spawn/base.go:22-26 | The result is the flattened argument list |
| Spawn.AppendToArgs | util/sys/spawn/base.go:50-52 | The element goes last and the others are kept |
| Spawn.PrependToArgs | util/sys/spawn/base.go:54-56 | The element goes first and the others are kept |
| Spawn.FlattenAppendPrepend | util/sys/spawn/base.go:50-56 | Appending or prepending an element adds its strings at the end or at the front |
| Spawn.ComposeArgs | util/sys/spawn/base.go:58-66 | The result is the lists' elements, one list after the other |
| Spawn.ConcatElements | util/sys/spawn/base.go:58-66 | Every element of every list appears in the composed list at its offset |
| Spawn.FlattenComposed | util/sys/spawn/base.go:58-66 | Flattening the composed list is flattening each list in turn |
| Spawn.AddEnv | util/sys/spawn/base.go:68-73 | An empty map adds nothing; otherwise exactly one `key=value` entry of the map is appended |
| KubectlService.FlattenStrs | util/sys/spawn/base.go:28-44 | Plain string arguments flatten to the strings themselves |
| KubectlService.GetKubectlBaseCommand | service/kubectl_service.go:149-164 | A missing variable is the error; otherwise the first word is the command and the rest are its arguments |
| KubectlService.BaseCommandRoundTrip | service/kubectl_service.go:156-163 | Joining the command and its flattened arguments with spaces gives the variable back, and no part contains a space |
| KubectlService.CreateVerb | service/kubectl_service.go:35-41 | `apply` exactly when forced, `create` exactly when not |
| KubectlService.CreateArgs | service/kubectl_service.go:42 | The base arguments, then the verb, `-f` and the file |
| KubectlService.CreateArgsFlatten | service/kubectl_service.go:42-53 | The flattened command line is the base words, the verb, `-f` and the file |
| KubectlService.ClassifyCreateError | service/kubectl_service.go:55-62 | No process error gives no error. A process error without stderr is passed through. An unforced `AlreadyExists` gives the "--force" hint. Any other error is reported with stderr |
| KubectlService.AlreadyExistsOnlyUnforced | service/kubectl_service.go:55-62 | The "--force" hint appears only for an unforced create that met `AlreadyExists`, or when the process error itself was that text |
| KubectlService.StartFailurePassesThrough | util/sys/spawn/spawn.go:65-83 | When a failed run has no output, as the process launcher produces, the create error is the run's error unchanged |
| KubectlService.CreateEntandoApp | service/kubectl_service.go:24-63 | A missing file is its error. A base-command error is passed through. Otherwise the create or apply command is run and its outcome classified |
| KubectlService.ParseOperatorMode | service/kubectl_service.go:135-144 | `olm` and `helm` (after trimming `'`) give the OLM and Plain modes without error; anything else is `Auto` with an error |
| KubectlService.ParseOperatorModeQuoted | service/kubectl_service.go:135-144 | Any number of `'` around `olm` or `helm` are ignored |
| KubectlService.GetOperatorMode | service/kubectl_service.go:113-145 | A base-command error gives `Auto` and that error; a failed run gives `Auto` and its error; otherwise the parsed output |
| KubectlService.ParseEntandoAppV2 | service/kubectl_service.go:90-109 | Exactly one decoded resource is returned; none or several are the corresponding errors; a decode error is passed through |
| KubectlService.GetEntandoApp | service/kubectl_service.go:66-88 | A base-command error is passed through; otherwise the list command is run and its output parsed |
| Resource.AppState.WithOverride | service/image_override_adapter.go:70-84 | Writing one field changes that field only, and writing its own value back changes nothing |
| Resource.AppState.WithOverrideTwice | service/image_override_adapter.go:70-84 | A second write through the same pointer replaces the first |
| Resource.EntandoAppV2.constructor | cmd/generate/generate.go:75 | A new resource is the zero value |
| Resource.EntandoAppV2.SetOverride | cmd/generate/generate.go:108-109 | Writing through the pointer changes the snapshot by exactly that field |

## Left out

- The registry digest client (`craneDigest`, backed by the crane library) is the `DigestLookup` parameter. Its network access is not modelled.
- The YAML printer and decoder are parameters (`printer`, `decode`). Only their use is modelled, not the YAML format.
- Process execution (`spawn.go`) is the `Runner` parameter. The model does not capture how a process runs, its exit codes or how its output is buffered.
- The environment, `os.Stat` and file creation are parameters. `fileExists` stands for "`os.Stat` reported that the file does not exist". Other stat errors let the create go ahead, as in the source.
- Go's byte buffers of standard output and error are strings.
- Standard-error output is returned as a list of warning lines rather than printed.
- The process launcher (`util/sys/spawn/spawn.go:65-83`) returns an error only when the program cannot be started, and then with empty output; the exit status of `Wait` is discarded. So in the tool a failed `kubectl create` is reported as success, and the `AlreadyExists` and "error creating the resource" branches of `service/kubectl_service.go:55-60` never run. The `Runner` parameter admits any outcome, including an error with output; `KubectlService.StartFailurePassesThrough` states what happens with the outcomes the launcher actually produces.
- CreateEntandoApp: the create error is returned, but the process's standard output is not echoed.
- Spawn.AddEnv: Go's map iteration order is unspecified. The model therefore states only that some entry of the map is added, not which one.
- The `*[]string` and `*[]interface{}` out-parameters of `recursiveAdd` and `ComposeArgs` are a value passed in and a value returned.
- `common.EntandoAppResourceName` lies outside the model. It is taken to be `EntandoAppV2`.
- The operator-mode check in `GetOperatorMode` uses the Go constant names. The model keeps the `olm`/`helm` values of the deployment variable and the `OLM`/`Plain`/`Auto` values of the flag.
- The adapter's own `containsRegistry` and its default registry and organization constants are the same as those of `util/images/images.go`. One definition is used for both.
- ImageOverrideAdapter.MismatchOfficialPinned: this is the mismatch check as written. With OLM pinning, the DeApp and Keycloak images reach the check as `<repo>@sha256:<hex>`, and the check then always warns. The model keeps that behaviour rather than correcting it.
- The release reader, the upgrade and install commands and the cobra command wiring are not part of this model. The same holds for the version flag and the latest-version HTTP lookup. These parts only connect the modelled operations to the terminal, the network and the cluster.
- The adapter's tests call a newer two-argument variant of `AdaptImagesOverride`. That variant takes the image set type from the resource and finds the repository with `ExtractRepo`. It is not part of this model, which follows `service/image_override_adapter.go`. For that variant, `ImageOverrideAdapter.PinnedOfficialRepo` shows that `ExtractRepo` keeps the repository of a pinned image.
