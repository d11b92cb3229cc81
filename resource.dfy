/**
 * The EntandoAppV2 custom resource, reduced to the fields the command-line
 * tool reads or writes: its metadata, the spec values it sets, and one image
 * override string per component (the empty string means "no override").
 */
module Resource {

  /** The components whose image can be overridden. */
  datatype Slot =
    | DeApp
    | AppBuilder
    | ComponentManager
    | Keycloak
    | K8sService
    | K8sPluginController
    | K8sAppPluginLinkController

  /** A snapshot of the resource's fields. */
  datatype AppState = AppState(
    apiVersion: string,
    kind: string,
    name: string,
    version: string,
    entandoAppName: string,
    ingressHostName: string,
    deApp: string,
    appBuilder: string,
    componentManager: string,
    keycloak: string,
    k8sService: string,
    k8sPluginController: string,
    k8sAppPluginLinkController: string)
  {
    /** `Spec.<Component>.ImageOverride`. */
    function Override(s: Slot): string
    {
      match s
      case DeApp => deApp
      case AppBuilder => appBuilder
      case ComponentManager => componentManager
      case Keycloak => keycloak
      case K8sService => k8sService
      case K8sPluginController => k8sPluginController
      case K8sAppPluginLinkController => k8sAppPluginLinkController
    }

    /** Everything except the image overrides agrees with `other`. */
    predicate SameOutsideOverrides(other: AppState)
    {
      apiVersion == other.apiVersion && kind == other.kind && name == other.name
      && version == other.version && entandoAppName == other.entandoAppName
      && ingressHostName == other.ingressHostName
    }

    /** Writing through the pointer to one component's override field. */
    function WithOverride(s: Slot, v: string): (r: AppState)
      ensures r.Override(s) == v
      ensures forall t :: t != s ==> r.Override(t) == Override(t)
      ensures r.SameOutsideOverrides(this)
      ensures v == Override(s) ==> r == this
    {
      match s
      case DeApp => this.(deApp := v)
      case AppBuilder => this.(appBuilder := v)
      case ComponentManager => this.(componentManager := v)
      case Keycloak => this.(keycloak := v)
      case K8sService => this.(k8sService := v)
      case K8sPluginController => this.(k8sPluginController := v)
      case K8sAppPluginLinkController => this.(k8sAppPluginLinkController := v)
    }

    /** A second write through the same pointer replaces the first. */
    lemma WithOverrideTwice(s: Slot, v: string, w: string)
      ensures WithOverride(s, v).WithOverride(s, w) == WithOverride(s, w)
    {
    }
  }

  /** The zero value `v1alpha1.EntandoAppV2{}`. */
  const EmptyState := AppState("", "", "", "", "", "", "", "", "", "", "", "", "")

  /** The resource object the tool fills in and rewrites in place. */
  class EntandoAppV2 {
    var apiVersion: string
    var kind: string
    var name: string
    var version: string
    var entandoAppName: string
    var ingressHostName: string
    var deApp: string
    var appBuilder: string
    var componentManager: string
    var keycloak: string
    var k8sService: string
    var k8sPluginController: string
    var k8sAppPluginLinkController: string

    function State(): AppState
      reads this
    {
      AppState(apiVersion, kind, name, version, entandoAppName, ingressHostName,
               deApp, appBuilder, componentManager, keycloak,
               k8sService, k8sPluginController, k8sAppPluginLinkController)
    }

    constructor ()
      ensures State() == EmptyState
    {
      apiVersion, kind, name, version, entandoAppName, ingressHostName := "", "", "", "", "", "";
      deApp, appBuilder, componentManager, keycloak := "", "", "", "";
      k8sService, k8sPluginController, k8sAppPluginLinkController := "", "", "";
    }

    /** `*GetImageOverride(app) = v`. */
    method SetOverride(s: Slot, v: string)
      modifies this
      ensures State() == old(State()).WithOverride(s, v)
    {
      match s
      case DeApp => deApp := v;
      case AppBuilder => appBuilder := v;
      case ComponentManager => componentManager := v;
      case Keycloak => keycloak := v;
      case K8sService => k8sService := v;
      case K8sPluginController => k8sPluginController := v;
      case K8sAppPluginLinkController => k8sAppPluginLinkController := v;
    }
  }
}
