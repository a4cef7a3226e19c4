/** The backup rule both cover scripts follow: before a cover is rewritten,
    it is copied into a backup directory unless a file of that name is
    already there, so the first original ever seen is the one kept.  The
    directory is modelled by the names it holds. */
module Backups {

  /** The backup directory: the names in it, and the names this run copied
      in, in the order it copied them. */
  datatype Backed = Backed(names: set<string>, copied: seq<string>)

  function Start(names: set<string>): Backed {
    Backed(names, [])
  }

  /** `if not backup_path.exists(): shutil.copy2(path, backup_path)`. */
  function Backup(b: Backed, name: string): (r: Backed)
    ensures name in r.names
    ensures |r.copied| <= |b.copied| + 1
  {
    if name in b.names then b else Backed(b.names + {name}, b.copied + [name])
  }

  /** What a run can have done to the directory it started from: every copy
      went to a name that was free, no name was copied twice, and the
      directory holds the old names and the copied ones. */
  ghost predicate Fresh(b: Backed, initial: set<string>) {
    && (forall i :: 0 <= i < |b.copied| ==> b.copied[i] !in initial)
    && (forall i, j :: 0 <= i < j < |b.copied| ==> b.copied[i] != b.copied[j])
    && b.names == initial + set i | 0 <= i < |b.copied| :: b.copied[i]
  }

  lemma StartFresh(initial: set<string>)
    ensures Fresh(Start(initial), initial)
  {
  }

  /** A backup never overwrites: it keeps the directory `Fresh`. */
  lemma BackupKeepsFresh(b: Backed, name: string, initial: set<string>)
    requires Fresh(b, initial)
    ensures Fresh(Backup(b, name), initial)
  {
    if name !in b.names {
      var r := Backup(b, name);
      assert r.copied[|b.copied|] == name;
      assert forall i :: 0 <= i < |b.copied| ==> r.copied[i] == b.copied[i];
      assert (set i | 0 <= i < |r.copied| :: r.copied[i])
          == (set i | 0 <= i < |b.copied| :: b.copied[i]) + {name};
    }
  }
}
