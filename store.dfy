/**
 * The placement decision of `move_backup` in src/main.rs: under which name
 * and where the downloaded `outline-backup.zip` ends up, and whether it is
 * renamed or copied and then removed. The file operations themselves are
 * not modelled; whether the configured location exists and whether it is
 * absolute are asked of the file system and come in as inputs, and so does
 * the formatted local time.
 */
module Store {

  /** The file the archive is first written to, in the working directory. */
  const Staging := "outline-backup.zip"

  /** The timestamped name the backup is given. */
  function BackupName(timeStr: string): string
  {
    "outline-backup-" + timeStr + ".zip"
  }

  /** `Path::join` on Unix for a relative `name`: a separator goes in unless `base` is empty or already ends in one. */
  function JoinPath(base: string, name: string): string
  {
    if base == [] || base[|base| - 1] == '/' then base + name else base + "/" + name
  }

  /** The last component of a path: what follows its last `/`. */
  function FileName(path: string): string
  {
    if path == [] then ""
    else if path[|path| - 1] == '/' then ""
    else FileName(path[..|path| - 1]) + [path[|path| - 1]]
  }

  /** A name without `/` is its own last component. */
  lemma {:induction false} FileNameOfName(name: string)
    requires forall i :: 0 <= i < |name| ==> name[i] != '/'
    ensures FileName(name) == name
  {
    if name != [] {
      FileNameOfName(name[..|name| - 1]);
    }
  }

  /** The last component of a path ending in `/` + `name` is `name`. */
  lemma {:induction false} FileNameAfterSlash(dir: string, name: string)
    requires |dir| > 0 && dir[|dir| - 1] == '/'
    requires forall i :: 0 <= i < |name| ==> name[i] != '/'
    ensures FileName(dir + name) == name
    decreases |name|
  {
    if name == [] {
      assert dir + name == dir;
    } else {
      var shorter := name[..|name| - 1];
      assert (dir + name)[..|dir + name| - 1] == dir + shorter;
      FileNameAfterSlash(dir, shorter);
    }
  }

  /** Joining a name without `/` onto a directory yields a path whose last component is that name. */
  lemma JoinPathFileName(base: string, name: string)
    requires forall i :: 0 <= i < |name| ==> name[i] != '/'
    ensures FileName(JoinPath(base, name)) == name
  {
    if base == [] {
      assert JoinPath(base, name) == name;
      FileNameOfName(name);
    } else if base[|base| - 1] == '/' {
      FileNameAfterSlash(base, name);
    } else {
      assert base + "/" + name == (base + "/") + name;
      FileNameAfterSlash(base + "/", name);
    }
  }

  datatype Action = Rename | CopyThenRemove

  /** Move `source` to `target` by `action`. */
  datatype Placement = Placement(action: Action, source: string, target: string)

  /**
   * `move_backup(location)`: a location that does not exist (`present` false) means renaming
   * the archive in the working directory; an existing absolute one means
   * copying it there and removing the original; an existing relative one
   * means renaming it into that directory.
   */
  function MoveBackup(location: string, timeStr: string, present: bool, absolute: bool): (p: Placement)
    ensures p.source == Staging
    ensures p.action == CopyThenRemove <==> present && absolute
    ensures !present ==> p.target == BackupName(timeStr)
    ensures present ==> p.target == JoinPath(location, BackupName(timeStr))
  {
    if !present then
      Placement(Rename, Staging, BackupName(timeStr))
    else if absolute then
      Placement(CopyThenRemove, Staging, JoinPath(location, BackupName(timeStr)))
    else
      Placement(Rename, Staging, JoinPath(location, BackupName(timeStr)))
  }

  /**
   * Whatever the branch, the file the backup ends up in is named
   * `outline-backup-<time>.zip`, for any timestamp without `/` (the
   * `%Y-%m-%d-%H-%M-%S` format has none).
   */
  lemma BackupFileName(location: string, timeStr: string, present: bool, absolute: bool)
    requires forall i :: 0 <= i < |timeStr| ==> timeStr[i] != '/'
    ensures FileName(MoveBackup(location, timeStr, present, absolute).target) == BackupName(timeStr)
  {
    var name := BackupName(timeStr);
    assert forall i :: 0 <= i < |name| ==> name[i] != '/' by {
      forall i | 0 <= i < |name|
        ensures name[i] != '/'
      {
        if 15 <= i < 15 + |timeStr| {
          assert name[i] == timeStr[i - 15];
        }
      }
    }
    if present {
      JoinPathFileName(location, name);
    } else {
      FileNameOfName(name);
    }
  }
}
