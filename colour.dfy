/** The colour a status row is printed in (`print_fixed_width_status`, src/utils.rs). */
module StatusColour {
  import opened Wrappers
  import opened Data
  import opened Remote

  /** The terminal colours the status table uses, as tags instead of ANSI escapes. */
  datatype Colour = Green | Cyan | Yellow | Red

  /**
   * The first-match table over (tracked, local status, remote status). The
   * postconditions regroup its twelve arms by colour, so that each colour is
   * characterised on its own, independently of the order of the arms.
   */
  function RowColour(tracked: Option<bool>, local: LocalStatusCode, remote: Option<RemoteStatusCode>): (c: Colour)
    // A file whose trackedness is known and whose content changed is red.
    ensures c == Red <==> tracked.Some? && local == Modified
    // In sync: tracked and current everywhere it exists, untracked rows with no
    // remote, and (through the catch-all arm for untracked rows) an untracked
    // file whose remote copy differs.
    ensures c == Green <==>
      && local == LocalStatusCode.Current
      && (|| (tracked == Some(true) && (remote == None || remote == Some(RemoteStatusCode.Current)))
          || (tracked == None && remote == None)
          || (tracked == Some(false) && remote == Some(MD5Mismatch)))
    // Needs attention: untracked and never pushed, or tracked but missing or
    // different on the remote.
    ensures c == Yellow <==>
      && local == LocalStatusCode.Current
      && (|| (tracked == Some(false) && (remote == None || remote == Some(NotExists)))
          || (tracked == Some(true) && (remote == Some(NotExists) || remote == Some(MD5Mismatch))))
    // Untracked but on the remote, and the fallback for everything else.
    ensures c == Cyan <==>
      || (tracked == Some(false) && local == LocalStatusCode.Current && remote == Some(RemoteStatusCode.Current))
      || (tracked == None && (local != LocalStatusCode.Current || remote != None))
      || local == Other
  {
    match (tracked, local, remote)
    case (Some(true), Current, Some(Current)) => Green
    case (Some(true), Current, None) => Green
    case (Some(false), Current, Some(Current)) => Cyan
    case (Some(false), Current, None) => Yellow
    case (Some(false), Current, Some(NotExists)) => Yellow
    case (None, Current, None) => Green
    case (Some(true), Modified, _) => Red
    case (Some(false), Modified, _) => Red
    case (Some(true), Current, Some(NotExists)) => Yellow
    case (Some(true), Current, Some(MD5Mismatch)) => Yellow
    case (Some(false), Current, _) => Green
    case _ => Cyan
  }

  /** Modified rows: red whenever trackedness is known, whatever the remote says; otherwise the cyan fallback. */
  lemma ModifiedRows(remote: Option<RemoteStatusCode>)
    ensures RowColour(Some(true), Modified, remote) == Red
    ensures RowColour(Some(false), Modified, remote) == Red
    ensures RowColour(None, Modified, remote) == Cyan
  {
  }

  /**
   * Current rows of untracked files: cyan when the remote copy matches,
   * yellow when there is none, and green (catch-all arm) when it differs.
   */
  lemma UntrackedCurrentRows()
    ensures RowColour(Some(false), LocalStatusCode.Current, Some(RemoteStatusCode.Current)) == Cyan
    ensures RowColour(Some(false), LocalStatusCode.Current, None) == Yellow
    ensures RowColour(Some(false), LocalStatusCode.Current, Some(NotExists)) == Yellow
    ensures RowColour(Some(false), LocalStatusCode.Current, Some(MD5Mismatch)) == Green
  {
  }

  /** Rows whose trackedness does not apply are green only when no remote applies either. */
  lemma UnknownTrackednessRows(local: LocalStatusCode, remote: Option<RemoteStatusCode>)
    ensures RowColour(None, local, remote) == Green <==> local == LocalStatusCode.Current && remote == None
    ensures RowColour(None, local, remote) != Green ==> RowColour(None, local, remote) == Cyan
  {
  }
}
