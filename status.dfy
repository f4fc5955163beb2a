/**
 * The status report of src/utils.rs: rows grouped by the directory of their
 * first column (`organize_by_dir`), group keys annotated with the name of the
 * remote they sync to, and the grouped rows printed as the status table
 * (`print_status`).
 */
module StatusReport {
  import opened Wrappers
  import opened Data
  import opened Remote
  import opened Ordering
  import opened FixedWidth

  // ---------------------------------------------------------------------------
  // Grouping by directory (src/utils.rs:199-214)
  // ---------------------------------------------------------------------------

  /** The index of the last `/` in `path`, or -1 when it has none. */
  function LastSlash(path: string): (i: int)
    ensures -1 <= i < |path|
    ensures 0 <= i ==> path[i] == '/'
    ensures forall k | i < k < |path| :: path[k] != '/'
  {
    if path == [] then -1
    else if path[|path| - 1] == '/' then |path| - 1
    else LastSlash(path[..|path| - 1])
  }

  /**
   * `Path::parent`, read lexically: everything before the last `/`; the root
   * `/` for a path just below it; the empty path for a bare file name; and
   * none for the empty path and for the root itself.
   */
  function Parent(path: string): (parent: Option<string>)
    ensures parent.None? <==> path == "" || path == "/"
    ensures parent.Some? ==> parent.value <= path
    ensures parent.Some? && '/' !in path ==> parent.value == ""
  {
    if path == "" then None
    else
      var i := LastSlash(path);
      if i < 0 then Some("")
      else if i == 0 then (if |path| == 1 then None else Some("/"))
      else Some(path[..i])
  }

  /** A file named directly inside `dir` has `dir` as its parent. */
  lemma ParentOfChild(dir: string, name: string)
    requires dir != "" && name != "" && '/' !in name
    ensures Parent(dir + "/" + name) == Some(dir)
  {
    var path := dir + "/" + name;
    assert path[|dir|] == '/';
    assert forall k | |dir| < k < |path| :: path[k] == name[k - |dir| - 1];
    assert LastSlash(path) == |dir|;
    assert path[..|dir|] == dir;
  }

  /** The group a row goes to: the parent of its first column; none when it has no columns or that path has no parent. */
  function DirKey(entry: StatusEntry): (dir: Option<string>)
    ensures dir.Some? <==> entry.cols.Some? && |entry.cols.value| > 0 && entry.cols.value[0] != "" && entry.cols.value[0] != "/"
    ensures dir.Some? ==> dir.value <= entry.cols.value[0]
  {
    match entry.cols
    case Some(cols) => if |cols| > 0 then Parent(cols[0]) else None
    case None => None
  }

  /** The rows that go to group `dir`, in their original order. */
  function Group(rows: seq<StatusEntry>, dir: string): seq<StatusEntry>
  {
    if rows == [] then []
    else
      var last := rows[|rows| - 1];
      Group(rows[..|rows| - 1], dir) + (if DirKey(last) == Some(dir) then [last] else [])
  }

  /** A group holds every row that belongs to it as often as `rows` does, and nothing else. */
  lemma {:induction false} GroupCount(rows: seq<StatusEntry>, dir: string, entry: StatusEntry)
    ensures multiset(Group(rows, dir))[entry] == if DirKey(entry) == Some(dir) then multiset(rows)[entry] else 0
  {
    if rows != [] {
      var n := |rows|;
      GroupCount(rows[..n - 1], dir, entry);
      assert rows == rows[..n - 1] + [rows[n - 1]];
    }
  }

  /** Grouping keeps order: the group of `a + b` lists the rows from `a` before those from `b`. */
  lemma {:induction false} GroupAppend(a: seq<StatusEntry>, b: seq<StatusEntry>, dir: string)
    ensures Group(a + b, dir) == Group(a, dir) + Group(b, dir)
  {
    if b != [] {
      var n := |b|;
      assert (a + b)[..|a + b| - 1] == a + b[..n - 1];
      GroupAppend(a, b[..n - 1], dir);
    } else {
      assert a + b == a;
    }
  }

  /** The directories the rows belong to. */
  function Dirs(rows: seq<StatusEntry>): set<string>
  {
    if rows == [] then {}
    else
      var last := rows[|rows| - 1];
      Dirs(rows[..|rows| - 1]) + (if DirKey(last).Some? then {DirKey(last).value} else {})
  }

  /** A directory is in `Dirs(rows)` exactly when some row belongs to it. */
  lemma {:induction false} DirsMembership(rows: seq<StatusEntry>, dir: string)
    ensures dir in Dirs(rows) <==> exists j | 0 <= j < |rows| :: DirKey(rows[j]) == Some(dir)
  {
    if rows != [] {
      var n := |rows|;
      var prev := rows[..n - 1];
      DirsMembership(prev, dir);
      if exists j | 0 <= j < n :: DirKey(rows[j]) == Some(dir) {
        var j :| 0 <= j < n && DirKey(rows[j]) == Some(dir);
        if j < n - 1 {
          assert DirKey(prev[j]) == Some(dir);
        }
      }
      if exists j | 0 <= j < n - 1 :: DirKey(prev[j]) == Some(dir) {
        var j :| 0 <= j < n - 1 && DirKey(prev[j]) == Some(dir);
        assert DirKey(rows[j]) == Some(dir);
      }
    }
  }

  /** A directory no row belongs to has an empty group. */
  lemma {:induction false} GroupEmpty(rows: seq<StatusEntry>, dir: string)
    requires dir !in Dirs(rows)
    ensures Group(rows, dir) == []
  {
    if rows != [] {
      GroupEmpty(rows[..|rows| - 1], dir);
    }
  }

  /**
   * `dirMap` is the grouping of `rows`: one group per directory some row
   * belongs to, holding that directory's rows in their original order.
   */
  ghost predicate GroupedByDir(rows: seq<StatusEntry>, dirMap: map<string, seq<StatusEntry>>)
  {
    && dirMap.Keys == Dirs(rows)
    && (forall dir | dir in dirMap :: dirMap[dir] == Group(rows, dir))
  }

  /** Appending a row extends the set of directories and only the group it belongs to. */
  lemma GroupSnoc(rows: seq<StatusEntry>, j: nat)
    requires j < |rows|
    ensures Dirs(rows[..j + 1]) == Dirs(rows[..j]) + (if DirKey(rows[j]).Some? then {DirKey(rows[j]).value} else {})
    ensures forall dir :: Group(rows[..j + 1], dir) == Group(rows[..j], dir) + (if DirKey(rows[j]) == Some(dir) then [rows[j]] else [])
  {
    assert rows[..j + 1][..j] == rows[..j];
  }

  /** `organize_by_dir`: push every row onto the group of its first column's parent. */
  method OrganizeByDir(rows: seq<StatusEntry>) returns (dirMap: map<string, seq<StatusEntry>>)
    ensures GroupedByDir(rows, dirMap)
  {
    dirMap := map[];
    for j := 0 to |rows|
      invariant GroupedByDir(rows[..j], dirMap)
    {
      var entry := rows[j];
      GroupSnoc(rows, j);
      if entry.cols.Some? {
        var cols := entry.cols.value;
        if |cols| > 0 {
          var parent := Parent(cols[0]);
          if parent.Some? {
            var dir := parent.value;
            if dir !in dirMap {
              GroupEmpty(rows[..j], dir);
            }
            var group := if dir in dirMap then dirMap[dir] else [];
            dirMap := dirMap[dir := group + [entry]];
          }
        }
      }
    }
    assert rows[..|rows|] == rows;
  }

  /**
   * Grouping partitions the rows that have a directory: each is in the group of
   * its own directory exactly as often as in `rows`, and in no other group;
   * rows without one (no columns, or a first column without parent) are in none.
   */
  lemma GroupedPartition(rows: seq<StatusEntry>, dirMap: map<string, seq<StatusEntry>>, entry: StatusEntry)
    requires GroupedByDir(rows, dirMap)
    ensures forall dir | dir in dirMap ::
      multiset(dirMap[dir])[entry] == if DirKey(entry) == Some(dir) then multiset(rows)[entry] else 0
    ensures entry in rows && DirKey(entry).Some? ==> DirKey(entry).value in dirMap
  {
    forall dir | dir in dirMap
      ensures multiset(dirMap[dir])[entry] == if DirKey(entry) == Some(dir) then multiset(rows)[entry] else 0
    {
      GroupCount(rows, dir, entry);
    }
    if entry in rows && DirKey(entry).Some? {
      var j :| 0 <= j < |rows| && rows[j] == entry;
      DirsMembership(rows, DirKey(entry).value);
    }
  }

  // ---------------------------------------------------------------------------
  // Remote names in group keys (src/utils.rs:222-236)
  // ---------------------------------------------------------------------------

  /** The key a group is printed under: `"<key> > <remote name>"` when a remote is registered for it. */
  function RemoteKey(key: string, remotes: map<string, Remote>): (newKey: string)
    ensures key !in remotes ==> newKey == key
    ensures key in remotes ==> |newKey| == |key| + 3 + |remotes[key].name|
  {
    if key in remotes then key + " > " + remotes[key].name else key
  }

  /** A group's key is kept as is without a remote, and extended by `" > "` and the remote's name with one. */
  lemma RemoteKeyRewrite(key: string, remotes: map<string, Remote>)
    ensures key <= RemoteKey(key, remotes)
    ensures RemoteKey(key, remotes) == key <==> key !in remotes
    ensures key in remotes ==> RemoteKey(key, remotes)[|key|..] == " > " + remotes[key].name
  {
    if key in remotes {
      var newKey := RemoteKey(key, remotes);
      assert newKey[|key|..] == " > " + remotes[key].name;
      assert |newKey| > |key|;
    }
  }

  /**
   * `rowsByDir` is `organized` with its keys rewritten. Without remotes it is
   * `organized` itself. With remotes, its keys are the rewritten keys, and
   * since the groups are inserted in ascending key order, a rewritten key that
   * several groups share holds the group of the greatest of them: a group keeps
   * its rows under its new key unless a later group's new key is the same.
   */
  ghost predicate IsMerged(organized: map<string, seq<StatusEntry>>, remote: Option<map<string, Remote>>,
                           rowsByDir: map<string, seq<StatusEntry>>)
  {
    match remote
    case None => rowsByDir == organized
    case Some(remotes) =>
      && (forall k :: k in rowsByDir <==> exists key | key in organized :: RemoteKey(key, remotes) == k)
      && (forall key | key in organized &&
            (forall later | later in organized && Below(key, later) :: RemoteKey(later, remotes) != RemoteKey(key, remotes)) ::
            RemoteKey(key, remotes) in rowsByDir && rowsByDir[RemoteKey(key, remotes)] == organized[key])
  }

  /** The map left by inserting `pairs`, one after another, into an empty map. */
  function Inserted<V>(pairs: seq<(string, V)>): map<string, V>
  {
    if pairs == [] then map[]
    else
      var last := pairs[|pairs| - 1];
      Inserted(pairs[..|pairs| - 1])[last.0 := last.1]
  }

  /** Inserting one more pair updates the map at that pair's key. */
  lemma InsertedSnoc<V>(pairs: seq<(string, V)>, i: nat)
    requires i < |pairs|
    ensures Inserted(pairs[..i + 1]) == Inserted(pairs[..i])[pairs[i].0 := pairs[i].1]
  {
    assert pairs[..i + 1][..i] == pairs[..i];
  }

  /** A key is in the map exactly when some pair inserted it. */
  lemma {:induction false} InsertedKeys<V>(pairs: seq<(string, V)>, k: string)
    ensures k in Inserted(pairs) <==> exists j | 0 <= j < |pairs| :: pairs[j].0 == k
  {
    if pairs != [] {
      var n := |pairs|;
      var prev := pairs[..n - 1];
      InsertedKeys(prev, k);
      if exists j | 0 <= j < n - 1 :: prev[j].0 == k {
        var j :| 0 <= j < n - 1 && prev[j].0 == k;
        assert pairs[j].0 == k;
      }
      if exists j | 0 <= j < n :: pairs[j].0 == k {
        var j :| 0 <= j < n && pairs[j].0 == k;
        if j < n - 1 {
          assert prev[j].0 == k;
        }
      }
    }
  }

  /** The last insert under a key wins: a pair no later pair shares its key with is what the map holds. */
  lemma {:induction false} InsertedLastWins<V>(pairs: seq<(string, V)>, j: nat)
    requires j < |pairs|
    requires forall l | j < l < |pairs| :: pairs[l].0 != pairs[j].0
    ensures pairs[j].0 in Inserted(pairs) && Inserted(pairs)[pairs[j].0] == pairs[j].1
  {
    var n := |pairs|;
    if j < n - 1 {
      var prev := pairs[..n - 1];
      assert prev[j] == pairs[j];
      forall l | j < l < |prev|
        ensures prev[l].0 != prev[j].0
      {
        assert prev[l] == pairs[l];
      }
      InsertedLastWins(prev, j);
    }
  }

  /** The insertions of `print_status`: each group of `keys`, in that order, under its rewritten key. */
  function Rewrites(organized: map<string, seq<StatusEntry>>, remotes: map<string, Remote>, keys: seq<string>)
    : seq<(string, seq<StatusEntry>)>
    requires forall j | 0 <= j < |keys| :: keys[j] in organized
  {
    seq(|keys|, j requires 0 <= j < |keys| => (RemoteKey(keys[j], remotes), organized[keys[j]]))
  }

  /** Inserting the groups in ascending key order under their rewritten keys merges them. */
  lemma InsertedMerged(organized: map<string, seq<StatusEntry>>, remotes: map<string, Remote>, keys: seq<string>)
    requires Ascending(keys)
    requires forall k :: k in keys <==> k in organized
    requires forall j | 0 <= j < |keys| :: keys[j] in organized
    ensures IsMerged(organized, Some(remotes), Inserted(Rewrites(organized, remotes, keys)))
  {
    var pairs := Rewrites(organized, remotes, keys);
    var merged := Inserted(pairs);
    forall k ensures k in merged <==> exists key | key in organized :: RemoteKey(key, remotes) == k
    {
      InsertedKeys(pairs, k);
      if k in merged {
        var j :| 0 <= j < |pairs| && pairs[j].0 == k;
        assert keys[j] in organized && RemoteKey(keys[j], remotes) == k;
      }
      if exists key | key in organized :: RemoteKey(key, remotes) == k {
        var key :| key in organized && RemoteKey(key, remotes) == k;
        var j :| 0 <= j < |keys| && keys[j] == key;
        assert pairs[j].0 == k;
      }
    }
    forall key | key in organized &&
        (forall later | later in organized && Below(key, later) :: RemoteKey(later, remotes) != RemoteKey(key, remotes))
      ensures RemoteKey(key, remotes) in merged && merged[RemoteKey(key, remotes)] == organized[key]
    {
      var j :| 0 <= j < |keys| && keys[j] == key;
      forall l | j < l < |pairs|
        ensures pairs[l].0 != pairs[j].0
      {
        assert Below(keys[j], keys[l]);
        assert keys[l] in organized;
      }
      InsertedLastWins(pairs, j);
    }
  }

  /** The `match remote` of `print_status`: re-insert every group, in ascending key order, under its rewritten key. */
  method MergeRemoteNames(organized: map<string, seq<StatusEntry>>, remote: Option<map<string, Remote>>)
    returns (rowsByDir: map<string, seq<StatusEntry>>)
    ensures IsMerged(organized, remote, rowsByDir)
  {
    match remote
    case None =>
      rowsByDir := organized;
    case Some(remotes) =>
      var keys := AscendingKeys(organized);
      assert forall j | 0 <= j < |keys| :: keys[j] in organized;
      ghost var pairs := Rewrites(organized, remotes, keys);
      var newMap := map[];
      for i := 0 to |keys|
        invariant newMap == Inserted(pairs[..i])
      {
        var key := keys[i];
        var value := organized[key];
        InsertedSnoc(pairs, i);
        assert pairs[i] == (RemoteKey(key, remotes), value);
        if key in remotes {
          var newKey := key + " > " + remotes[key].name;
          assert newKey == RemoteKey(key, remotes);
          newMap := newMap[newKey := value];
        } else {
          newMap := newMap[key := value];
        }
      }
      assert pairs[..|keys|] == pairs;
      InsertedMerged(organized, remotes, keys);
      rowsByDir := newMap;
  }

  /** Without key collisions every group keeps its rows under its new key. */
  lemma MergedWithoutCollisions(organized: map<string, seq<StatusEntry>>, remotes: map<string, Remote>,
                                rowsByDir: map<string, seq<StatusEntry>>, key: string)
    requires IsMerged(organized, Some(remotes), rowsByDir)
    requires forall a, b | a in organized && b in organized && a != b :: RemoteKey(a, remotes) != RemoteKey(b, remotes)
    requires key in organized
    ensures RemoteKey(key, remotes) in rowsByDir && rowsByDir[RemoteKey(key, remotes)] == organized[key]
  {
    forall later | later in organized && Below(key, later)
      ensures RemoteKey(later, remotes) != RemoteKey(key, remotes)
    {
      BelowIrreflexive(key);
    }
  }

  // ---------------------------------------------------------------------------
  // The whole report (src/utils.rs:216-239)
  // ---------------------------------------------------------------------------

  /**
   * `print_status` without its two header lines: the rows grouped by
   * directory, the keys annotated with remote names when remotes are given,
   * and the result printed as the status table with the default spacing and
   * indentation and with bold group keys.
   */
  method PrintStatus(rows: seq<StatusEntry>, remote: Option<map<string, Remote>>, width: string -> nat)
    returns (lines: seq<Line>)
    ensures exists organized, rowsByDir ::
      && GroupedByDir(rows, organized)
      && IsMerged(organized, remote, rowsByDir)
      && IsStatusTable(rowsByDir, DefaultSpacing, DefaultIndent, true, width, lines)
  {
    var organized := OrganizeByDir(rows);
    var rowsByDir := MergeRemoteNames(organized, remote);
    lines := PrintFixedWidthStatus(rowsByDir, None, None, true, width);
  }
}
