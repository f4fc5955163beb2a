/** What the report uses of `crate::remote`. */
module Remote {

  /** How a file compares with its copy on a remote. */
  datatype RemoteStatusCode = Current | NotExists | MD5Mismatch

  /**
   * A synchronisation target. The report only asks it for its display name
   * (`Remote::name`); how a remote is reached is not part of this model.
   */
  datatype Remote = Remote(name: string)
}
