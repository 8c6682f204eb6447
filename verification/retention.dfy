/**
 The two retention rules of the backup service.

 Local (`clean_local_backups`): the sub-directories of the bot's local backup
 root are sorted by ctime, newest first, and `subs[local_keep:]` is removed.

 Drive (`delete_old_backups_by_count`): the listed Drive folders are sorted
 by `createdTime` (an RFC 3339 string, compared as a Python string), oldest
 first, and `files[:-drive_keep]` is deleted.

 A `Selection` names both halves: `deleted` is what the source removes, in
 the order it removes them, and `kept` is what survives.
 */
module Retention {
  import opened PySlice
  import opened Sorting
  import opened Text
  import opened Wrappers

  /** One name of `os.listdir(local_backup_root)`, whether it is a directory, and its ctime. */
  datatype LocalEntry = LocalEntry(name: string, isDir: bool, ctime: int)

  /** One folder of the Drive listing, `files(id,name,createdTime)`. */
  datatype DriveFolder = DriveFolder(id: string, name: string, createdTime: string)

  datatype Selection<T> = Selection(kept: seq<T>, deleted: seq<T>)

  // ---------------------------------------------------------------------
  // Local rule

  function Ctime(e: LocalEntry): int { e.ctime }

  /** The comparator of `sort(..., reverse=True)`: newer (larger ctime) first. */
  function NewerOrSame(a: int, b: int): bool { a >= b }

  lemma NewerOrSameIsTotalPreorder()
    ensures TotalPreorder(NewerOrSame)
  {
  }

  /** The entries of the listing that are directories, in listing order. */
  function Subdirectories(listing: seq<LocalEntry>): (subs: seq<LocalEntry>)
    ensures |subs| <= |listing|
  {
    if |listing| == 0 then []
    else (if listing[0].isDir then [listing[0]] else []) + Subdirectories(listing[1..])
  }

  /** The sub-directories are exactly the directories of the listing. */
  lemma {:induction false} SubdirectoriesMembers(listing: seq<LocalEntry>)
    ensures forall e :: e in Subdirectories(listing) <==> e in listing && e.isDir
  {
    if |listing| > 0 {
      SubdirectoriesMembers(listing[1..]);
      assert listing == [listing[0]] + listing[1..];
    }
  }

  /** `subs` sorted by ctime, newest first. */
  function NewestFirst(subs: seq<LocalEntry>): seq<LocalEntry>
  {
    Sort(subs, Ctime, NewerOrSame)
  }

  /** `clean_local_backups`: which directories are removed and which stay. */
  function SelectLocal(listing: seq<LocalEntry>, localKeep: int): (r: Selection<LocalEntry>)
    ensures |r.kept| + |r.deleted| == |Subdirectories(listing)|
  {
    var subs := NewestFirst(Subdirectories(listing));
    Selection(Upto(subs, localKeep), From(subs, localKeep))
  }

  /** Kept and removed together are exactly the listed directories, each once;
      nothing that is not a directory of the listing is removed. */
  lemma LocalPartition(listing: seq<LocalEntry>, localKeep: int)
    ensures multiset(SelectLocal(listing, localKeep).kept) + multiset(SelectLocal(listing, localKeep).deleted)
         == multiset(Subdirectories(listing))
    ensures forall e :: e in SelectLocal(listing, localKeep).deleted ==> e in listing && e.isDir
  {
    var subs := NewestFirst(Subdirectories(listing));
    UptoFromMultiset(subs, localKeep);
    SubdirectoriesMembers(listing);
    forall e | e in From(subs, localKeep)
      ensures e in listing && e.isDir
    {
      assert e in multiset(subs);
    }
  }

  /** Every kept directory is at least as recent as every removed one, and
      the removals happen newest first. */
  lemma LocalOrdering(listing: seq<LocalEntry>, localKeep: int)
    ensures forall k, d :: k in SelectLocal(listing, localKeep).kept && d in SelectLocal(listing, localKeep).deleted
              ==> k.ctime >= d.ctime
    ensures forall i, j :: 0 <= i < j < |SelectLocal(listing, localKeep).deleted|
              ==> SelectLocal(listing, localKeep).deleted[i].ctime >= SelectLocal(listing, localKeep).deleted[j].ctime
  {
    var subs := NewestFirst(Subdirectories(listing));
    NewerOrSameIsTotalPreorder();
    SortSorted(Subdirectories(listing), Ctime, NewerOrSame);
    SortedSplit(subs, Bound(localKeep, |subs|), Ctime, NewerOrSame);
  }

  /** How many directories are removed: for a keep count `k >= 0`, all but the
      `k` newest; for `k < 0`, Python's negative index removes the `-k` oldest. */
  lemma LocalCount(listing: seq<LocalEntry>, localKeep: int)
    ensures var n := |Subdirectories(listing)|;
      var removed := |SelectLocal(listing, localKeep).deleted|;
      && (0 <= localKeep ==> removed == if localKeep <= n then n - localKeep else 0)
      && (localKeep < 0 ==> removed == if -localKeep <= n then -localKeep else n)
  {
    FromLength(NewestFirst(Subdirectories(listing)), localKeep);
  }

  /** A keep count of zero removes every directory of the root. */
  lemma LocalKeepZeroRemovesAll(listing: seq<LocalEntry>)
    ensures SelectLocal(listing, 0).kept == []
    ensures multiset(SelectLocal(listing, 0).deleted) == multiset(Subdirectories(listing))
  {
    LocalPartition(listing, 0);
  }

  /** Running the rule again over its survivors with the same non-negative
      keep count removes nothing. */
  lemma LocalIdempotent(listing: seq<LocalEntry>, localKeep: int)
    requires 0 <= localKeep
    ensures SelectLocal(SelectLocal(listing, localKeep).kept, localKeep).deleted == []
  {
    var kept := SelectLocal(listing, localKeep).kept;
    UptoLength(NewestFirst(Subdirectories(listing)), localKeep);
    FromLength(NewestFirst(Subdirectories(kept)), localKeep);
  }

  // ---------------------------------------------------------------------
  // Drive rule

  function CreatedTime(f: DriveFolder): string { f.createdTime }

  /** The comparator of the ascending `sort`: Python's `<=` on the `createdTime` strings. */
  function OlderOrSame(a: string, b: string): bool { LexLe(a, b) }

  lemma OlderOrSameIsTotalPreorder()
    ensures TotalPreorder(OlderOrSame)
  {
    forall a, b
      ensures OlderOrSame(a, b) || OlderOrSame(b, a)
    {
      LexLeTotal(a, b);
    }
    forall a, b, c | OlderOrSame(a, b) && OlderOrSame(b, c)
      ensures OlderOrSame(a, c)
    {
      LexLeTransitive(a, b, c);
    }
  }

  function OldestFirst(files: seq<DriveFolder>): seq<DriveFolder>
  {
    Sort(files, CreatedTime, OlderOrSame)
  }

  /** `delete_old_backups_by_count`: which folders are deleted and which stay. */
  function SelectDrive(files: seq<DriveFolder>, driveKeep: int): (r: Selection<DriveFolder>)
    ensures |r.kept| + |r.deleted| == |files|
  {
    var sorted := OldestFirst(files);
    Selection(From(sorted, -driveKeep), Upto(sorted, -driveKeep))
  }

  /** Kept and deleted together are exactly the listed folders, each once. */
  lemma DrivePartition(files: seq<DriveFolder>, driveKeep: int)
    ensures multiset(SelectDrive(files, driveKeep).kept) + multiset(SelectDrive(files, driveKeep).deleted)
         == multiset(files)
  {
    var sorted := OldestFirst(files);
    UptoFromMultiset(sorted, -driveKeep);
    assert multiset(sorted) == multiset(files);
  }

  /** Every deleted folder was created no later than every kept one, so a
      kept folder is strictly newer than a deleted one unless the two share
      their `createdTime`; and deletions happen oldest first. */
  lemma DriveOrdering(files: seq<DriveFolder>, driveKeep: int)
    ensures forall d, k :: d in SelectDrive(files, driveKeep).deleted && k in SelectDrive(files, driveKeep).kept
              ==> LexLe(d.createdTime, k.createdTime)
    ensures forall d, k :: (d in SelectDrive(files, driveKeep).deleted && k in SelectDrive(files, driveKeep).kept
                            && LexLe(k.createdTime, d.createdTime)) ==> k.createdTime == d.createdTime
    ensures forall i, j :: 0 <= i < j < |SelectDrive(files, driveKeep).deleted|
              ==> LexLe(SelectDrive(files, driveKeep).deleted[i].createdTime, SelectDrive(files, driveKeep).deleted[j].createdTime)
  {
    var sorted := OldestFirst(files);
    var sel := SelectDrive(files, driveKeep);
    OlderOrSameIsTotalPreorder();
    SortSorted(files, CreatedTime, OlderOrSame);
    SortedSplit(sorted, Bound(-driveKeep, |sorted|), CreatedTime, OlderOrSame);
    forall d, k | d in sel.deleted && k in sel.kept && LexLe(k.createdTime, d.createdTime)
      ensures k.createdTime == d.createdTime
    {
      LexLeAntisymmetric(d.createdTime, k.createdTime);
    }
  }

  /** How many folders are deleted. For `1 <= k < n` the `n - k` oldest; for
      `k >= n` none; for `k == 0` none, since `files[:-0]` is `files[:0]`;
      for `k < 0`, `files[:-k]` deletes the `-k` oldest (all when `-k >= n`). */
  lemma DriveCount(files: seq<DriveFolder>, driveKeep: int)
    ensures var n := |files|;
      var removed := |SelectDrive(files, driveKeep).deleted|;
      && (1 <= driveKeep < n ==> removed == n - driveKeep)
      && (driveKeep >= n ==> removed == 0)
      && (driveKeep == 0 ==> removed == 0)
      && (driveKeep < 0 ==> removed == if -driveKeep <= n then -driveKeep else n)
  {
    UptoLength(OldestFirst(files), -driveKeep);
  }

  /** `drive_keep == 0` keeps every folder. */
  lemma DriveKeepZeroDeletesNothing(files: seq<DriveFolder>)
    ensures SelectDrive(files, 0).deleted == []
    ensures multiset(SelectDrive(files, 0).kept) == multiset(files)
  {
    DrivePartition(files, 0);
  }

  /** Running the rule again over its survivors with the same non-negative
      keep count deletes nothing. */
  lemma DriveIdempotent(files: seq<DriveFolder>, driveKeep: int)
    requires 0 <= driveKeep
    ensures SelectDrive(SelectDrive(files, driveKeep).kept, driveKeep).deleted == []
  {
    var kept := SelectDrive(files, driveKeep).kept;
    UptoLength(OldestFirst(files), -driveKeep);
    UptoLength(OldestFirst(kept), -driveKeep);
  }

  // ---------------------------------------------------------------------
  // Removing the selected entries

  /** The removal loop of both rules (`shutil.rmtree` / `files().delete`): the
      targets are removed in order until one raises; that exception leaves the
      loop, so the targets after it are never attempted. */
  method RemoveInOrder<T>(targets: seq<T>, failing: set<T>) returns (removed: seq<T>, raised: Option<T>)
    ensures removed == targets[..FirstFailure(targets, failing)]
    ensures raised.None? <==> removed == targets
    ensures raised.Some? ==> raised.value in failing && targets[|removed|] == raised.value
  {
    removed := [];
    var i := 0;
    while i < |targets|
      invariant 0 <= i <= |targets|
      invariant removed == targets[..i]
      invariant forall j :: 0 <= j < i ==> targets[j] !in failing
    {
      if targets[i] in failing {
        FirstFailureAt(targets, failing, i);
        return removed, Some(targets[i]);
      }
      removed := removed + [targets[i]];
      i := i + 1;
    }
    FirstFailureAt(targets, failing, i);
    raised := None;
  }

  // ---------------------------------------------------------------------
  // Examples

  /** Two local backups `a` older than `b`, listed with a file between them,
      and `local_keep = 1`: the older one is removed and the file is left alone. */
  lemma LocalExample(a: LocalEntry, b: LocalEntry, log: LocalEntry)
    requires a.isDir && b.isDir && !log.isDir
    requires a.ctime < b.ctime
    ensures SelectLocal([a, log, b], 1) == Selection([b], [a])
  {
    LocalExampleDirectories(a, b, log);
    NewestFirstTwo(a, b);
    assert [b, a][..1] == [b] && [b, a][1..] == [a];
  }

  lemma LocalExampleDirectories(a: LocalEntry, b: LocalEntry, log: LocalEntry)
    requires a.isDir && b.isDir && !log.isDir
    ensures Subdirectories([a, log, b]) == [a, b]
  {
    assert [a, log, b][1..] == [log, b];
    assert [log, b][1..] == [b];
    assert [b][1..] == [];
    assert Subdirectories([b]) == [b];
    assert Subdirectories([log, b]) == [b];
  }

  /** Newest first: two entries come out in reverse order of creation. */
  lemma NewestFirstTwo(a: LocalEntry, b: LocalEntry)
    requires a.ctime < b.ctime
    ensures NewestFirst([a, b]) == [b, a]
  {
    assert [a, b][1..] == [b];
    assert [b][1..] == [];
    assert NewestFirst([b]) == [b];
  }

  /** `s < t` on Python strings. */
  predicate LexLt(s: string, t: string)
  {
    LexLe(s, t) && !LexLe(t, s)
  }

  /** Two Drive folders created in the order `f1`, `f2`, listed newest first:
      `drive_keep = 1` deletes the older one, and `drive_keep = -1` does too,
      since `files[:1]` is the oldest folder. */
  lemma DriveExample(f1: DriveFolder, f2: DriveFolder)
    requires LexLt(f1.createdTime, f2.createdTime)
    ensures SelectDrive([f2, f1], 1) == Selection([f2], [f1])
    ensures SelectDrive([f2, f1], -1) == Selection([f2], [f1])
  {
    assert [f2, f1][1..] == [f1];
    assert [f1][1..] == [];
    assert OldestFirst([f1]) == [f1];
    assert Insert(f2, [f1], CreatedTime, OlderOrSame) == [f1, f2];
    assert [f1, f2][..1] == [f1] && [f1, f2][1..] == [f2];
  }
}
