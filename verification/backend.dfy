/** What a display backend reports about the focused application. */
module Backend {
  import opened Wrappers

  /** AppIdentity; a None field stands for a NULL pointer. */
  datatype AppIdentity = AppIdentity(
    desktopId: Option<string>,
    wmClass: Option<string>,
    exePath: Option<string>,
    title: Option<string>)

  /** The identity with every field NULL. */
  const EmptyIdentity: AppIdentity := AppIdentity(None, None, None, None)
}
