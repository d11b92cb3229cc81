/**
 * The enumerated flag values and the component-flag table: constant data
 * that the validators and the override pipeline consume.
 */
module FlagValues {
  import opened Resource

  // Image set types (a Go string type; any string can reach the code).
  const ImageSetCommunity := "Community"
  const ImageSetRedhatCertified := "RedhatCertified"
  const ImageSetAuto := "Auto"
  const ImageSetTypeValues := [ImageSetRedhatCertified, ImageSetCommunity, ImageSetAuto]

  // Installation types (the older name of the image set type).
  const InstallationCommunity := "Community"
  const InstallationRedhatCertified := "RedhatCertified"

  // Operator modes.
  const OperatorOlm := "OLM"
  const OperatorPlain := "Plain"
  const OperatorAuto := "Auto"
  const OperatorModeValues := [OperatorOlm, OperatorPlain, OperatorAuto]

  /** A command-line flag that sets one component's image override. */
  datatype ComponentFlag = ComponentFlag(componentName: string, flag: string, slot: Slot)

  /** The component flags, in the order the generate command reads them. */
  const ComponentFlags := [
    ComponentFlag("DeApp", "image-de-app", DeApp),
    ComponentFlag("AppBuilder", "image-app-builder", AppBuilder),
    ComponentFlag("ComponentManager", "image-component-manager", ComponentManager),
    ComponentFlag("Keycloak", "image-keycloak", Keycloak),
    ComponentFlag("K8sService", "image-k8s-service", K8sService),
    ComponentFlag("K8sPluginController", "image-k8s-plugin-controller", K8sPluginController),
    ComponentFlag("K8sAppPluginLinkController", "image-k8s-app-plugin-link-controller", K8sAppPluginLinkController)
  ]
}
