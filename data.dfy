/** The status rows the report is built from (`crate::data`). */
module Data {
  import opened Wrappers
  import opened Remote

  /**
   * Whether a local file matches its registered MD5. The report singles out
   * `Current` and `Modified`; `Other` stands for every further variant of the
   * enumeration, which the colour table sends to its fallback arm.
   */
  datatype LocalStatusCode = Current | Modified | Other

  /**
   * One reconciled row. Only the fields the report reads are modelled:
   * `tracked` is absent when trackedness does not apply, `remoteStatus` is
   * absent when no remote applies, and `cols` holds the display columns, the
   * first of which is a path.
   */
  datatype StatusEntry = StatusEntry(
    tracked: Option<bool>,
    localStatus: LocalStatusCode,
    remoteStatus: Option<RemoteStatusCode>,
    cols: Option<seq<string>>)
}
