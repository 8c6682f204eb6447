/**
 The inclusion filter of `custom_zip_folder`: which files of the source tree
 go into the ZIP, under which archive name, and how they are counted.

 The source tree is abstract: a directory is the sequence of its entries in
 the order `os.walk` lists them. The walk is top-down: the kept files of a
 directory come before anything below it, then each kept sub-directory is
 walked in listing order. A sub-directory whose name is an excluded folder is
 pruned with everything below it, at any depth (the source root itself is
 never matched against the excluded names). A file is skipped when its name
 ends with one of the excluded "extensions"; this is a plain suffix test on
 the name.

 Six calls can raise, and the first that does ends the function: removing
 a ZIP left from before, the directory check on the source, opening the new
 ZIP, each write, closing the ZIP when the `with` block is left, and reading
 its size for the final log line. A write that raises leaves the ZIP, closed
 by the `with` block, holding the entries written before it; a `close` that
 raises replaces whatever the block was raising.
 */
module Archive {
  import opened Text
  import opened Wrappers

  datatype Node = File(name: string) | Dir(name: string, children: seq<Node>)

  /** What `os.path.isdir(abs_src)` finds at the source path. */
  datatype Source = NotADirectory | Directory(children: seq<Node>)

  /** One `z.write(full_path, arcname)`: the file's path as components (the
      absolute source path followed by the path below it) and its name in the archive. */
  datatype ZipEntry = ZipEntry(fullPath: seq<string>, arcname: string)

  /** Which file-system calls of `custom_zip_folder` raise: the `os.remove` of
      a zip already at `zip_path`, opening the new zip with
      `zipfile.ZipFile(zip_path, "w")`, the `z.write` calls in
      `writeFailing` (a file that cannot be read, or one deleted while the
      walk runs), the `close` that writes the central directory when the
      `with` block is left (a full disk), and the `os.path.getsize` after it. */
  datatype ZipIo = ZipIo(removeOk: bool, openOk: bool, writeFailing: set<ZipEntry>, closeOk: bool, sizeOk: bool)

  /** The exception the call raises: from removing the old zip,
      `FileNotFoundError` for a source that is not a directory, from opening
      the new zip, from one `z.write`, from closing the zip, or from reading
      its size. */
  datatype ZipError =
    | RemoveFailed
    | SourceNotFound(path: seq<string>)
    | OpenFailed
    | WriteFailed(entry: ZipEntry)
    | CloseFailed
    | SizeFailed

  /** What one call leaves behind: whether a zip already at `zip_path` was
      removed, whether a new zip was created there, the entries written to
      it, and the exception raised, if any. */
  datatype ZipOutcome = ZipOutcome(oldZipRemoved: bool, created: bool, written: seq<ZipEntry>, raised: Option<ZipError>)

  /** `any(fname.endswith(ext) for ext in excluded_extensions)` */
  predicate ExcludedByExtension(name: string, excludedExtensions: set<string>)
  {
    exists ext :: ext in excludedExtensions && EndsWith(name, ext)
  }

  /** The paths `[d] + p` for each `p` of `paths`, in order. */
  function Under(d: string, paths: seq<seq<string>>): (r: seq<seq<string>>)
    ensures |r| == |paths|
    ensures forall k :: 0 <= k < |r| ==> r[k] == [d] + paths[k]
  {
    seq(|paths|, k requires 0 <= k < |paths| => [d] + paths[k])
  }

  /** The kept files directly in a directory with entries `cs`, as one-element paths, in listing order. */
  function HereFiles(cs: seq<Node>, excludedExtensions: set<string>): seq<seq<string>>
  {
    if |cs| == 0 then []
    else
      var last := cs[|cs| - 1];
      HereFiles(cs[..|cs| - 1], excludedExtensions)
        + (if last.File? && !ExcludedByExtension(last.name, excludedExtensions) then [[last.name]] else [])
  }

  /** The walks of the kept sub-directories among `cs`, in listing order. */
  function SubWalks(cs: seq<Node>, excludedFolders: set<string>, excludedExtensions: set<string>): seq<seq<string>>
    decreases cs, 0
  {
    if |cs| == 0 then []
    else
      var last := cs[|cs| - 1];
      SubWalks(cs[..|cs| - 1], excludedFolders, excludedExtensions)
        + (if last.Dir? && last.name !in excludedFolders
           then Under(last.name, Walk(last.children, excludedFolders, excludedExtensions))
           else [])
  }

  /** The paths, relative to the directory with entries `cs`, of every file the
      walk writes, in the order it writes them. */
  function Walk(cs: seq<Node>, excludedFolders: set<string>, excludedExtensions: set<string>): seq<seq<string>>
    decreases cs, 1
  {
    HereFiles(cs, excludedExtensions) + SubWalks(cs, excludedFolders, excludedExtensions)
  }

  // ---------------------------------------------------------------------
  // The reference: which files exist, and which of them the filter admits.

  /** There is a file at path `p` below the directory with entries `cs`. */
  ghost predicate FileAt(cs: seq<Node>, p: seq<string>)
    decreases cs
  {
    if |p| == 0 then false
    else if |p| == 1 then File(p[0]) in cs
    else exists i :: 0 <= i < |cs| && cs[i].Dir? && cs[i].name == p[0] && FileAt(cs[i].children, p[1..])
  }

  /** No directory on the path is an excluded folder, and the file name does
      not end with an excluded extension. */
  ghost predicate Admitted(p: seq<string>, excludedFolders: set<string>, excludedExtensions: set<string>)
  {
    && |p| >= 1
    && (forall k :: 0 <= k < |p| - 1 ==> p[k] !in excludedFolders)
    && !ExcludedByExtension(p[|p| - 1], excludedExtensions)
  }

  lemma AdmittedUnder(d: string, q: seq<string>, excludedFolders: set<string>, excludedExtensions: set<string>)
    requires |q| >= 1
    ensures Admitted([d] + q, excludedFolders, excludedExtensions)
        <==> d !in excludedFolders && Admitted(q, excludedFolders, excludedExtensions)
  {
    var p := [d] + q;
    assert p[0] == d && p[|p| - 1] == q[|q| - 1];
    if d !in excludedFolders && Admitted(q, excludedFolders, excludedExtensions) {
      forall k | 0 <= k < |p| - 1
        ensures p[k] !in excludedFolders
      {
        if k > 0 {
          assert p[k] == q[k - 1];
        }
      }
    }
    if Admitted(p, excludedFolders, excludedExtensions) {
      forall k | 0 <= k < |q| - 1
        ensures q[k] !in excludedFolders
      {
        assert q[k] == p[k + 1];
      }
    }
  }

  lemma UnderMembers(d: string, paths: seq<seq<string>>, p: seq<string>)
    ensures p in Under(d, paths) <==> |p| >= 1 && p[0] == d && p[1..] in paths
  {
    if |p| >= 1 && p[0] == d && p[1..] in paths {
      var k :| 0 <= k < |paths| && paths[k] == p[1..];
      assert Under(d, paths)[k] == p;
    }
  }

  lemma {:induction false} HereFilesMembers(cs: seq<Node>, excludedExtensions: set<string>, p: seq<string>)
    ensures p in HereFiles(cs, excludedExtensions)
        <==> |p| == 1 && File(p[0]) in cs && !ExcludedByExtension(p[0], excludedExtensions)
  {
    if |cs| > 0 {
      var init := cs[..|cs| - 1];
      var last := cs[|cs| - 1];
      HereFilesMembers(init, excludedExtensions, p);
      assert cs == init + [last];
      assert |p| == 1 ==> (File(p[0]) in cs <==> File(p[0]) in init || File(p[0]) == last);
      var tail: seq<seq<string>> := if last.File? && !ExcludedByExtension(last.name, excludedExtensions) then [[last.name]] else [];
      assert HereFiles(cs, excludedExtensions) == HereFiles(init, excludedExtensions) + tail;
      assert p in tail <==> |p| == 1 && File(p[0]) == last && !ExcludedByExtension(p[0], excludedExtensions) by {
        if p in tail {
          assert p == [last.name];
        }
        if |p| == 1 && File(p[0]) == last && !ExcludedByExtension(p[0], excludedExtensions) {
          assert p == [p[0]];
        }
      }
    }
  }

  /** A path comes out of the sub-directory walks exactly when it goes through
      a kept sub-directory and comes out of that sub-directory's walk. */
  lemma {:induction false} SubWalksMembers(cs: seq<Node>, excludedFolders: set<string>, excludedExtensions: set<string>, p: seq<string>)
    ensures p in SubWalks(cs, excludedFolders, excludedExtensions)
        <==> |p| >= 1 && p[0] !in excludedFolders
             && exists i :: 0 <= i < |cs| && cs[i].Dir? && cs[i].name == p[0]
                            && p[1..] in Walk(cs[i].children, excludedFolders, excludedExtensions)
  {
    if |cs| > 0 {
      var init := cs[..|cs| - 1];
      var last := cs[|cs| - 1];
      SubWalksMembers(init, excludedFolders, excludedExtensions, p);
      if last.Dir? {
        UnderMembers(last.name, Walk(last.children, excludedFolders, excludedExtensions), p);
      }
      if p in SubWalks(init, excludedFolders, excludedExtensions) {
        var i :| 0 <= i < |init| && init[i].Dir? && init[i].name == p[0]
                 && p[1..] in Walk(init[i].children, excludedFolders, excludedExtensions);
        assert cs[i] == init[i];
      }
      if |p| >= 1 && p[0] !in excludedFolders
         && exists i :: 0 <= i < |cs| && cs[i].Dir? && cs[i].name == p[0]
                        && p[1..] in Walk(cs[i].children, excludedFolders, excludedExtensions)
      {
        var i :| 0 <= i < |cs| && cs[i].Dir? && cs[i].name == p[0]
                 && p[1..] in Walk(cs[i].children, excludedFolders, excludedExtensions);
        if i < |cs| - 1 {
          assert init[i] == cs[i];
        }
      }
    }
  }

  /** The walk writes exactly the files of the tree that the filter admits:
      a path comes out of `Walk` if and only if there is a file at that path
      and no directory on it is excluded and its name has no excluded suffix. */
  lemma {:induction false} WalkExact(cs: seq<Node>, excludedFolders: set<string>, excludedExtensions: set<string>)
    ensures forall p :: p in Walk(cs, excludedFolders, excludedExtensions)
                    <==> FileAt(cs, p) && Admitted(p, excludedFolders, excludedExtensions)
    decreases cs
  {
    forall i | 0 <= i < |cs| && cs[i].Dir?
      ensures WalkIsExact(cs[i].children, excludedFolders, excludedExtensions)
    {
      WalkExact(cs[i].children, excludedFolders, excludedExtensions);
    }
    forall p
      ensures p in Walk(cs, excludedFolders, excludedExtensions)
          <==> FileAt(cs, p) && Admitted(p, excludedFolders, excludedExtensions)
    {
      WalkMember(cs, excludedFolders, excludedExtensions, p);
    }
  }

  /** The property that `WalkExact` proves, for the directory with entries `cs`. */
  ghost predicate WalkIsExact(cs: seq<Node>, excludedFolders: set<string>, excludedExtensions: set<string>)
  {
    forall q :: q in Walk(cs, excludedFolders, excludedExtensions)
           <==> FileAt(cs, q) && Admitted(q, excludedFolders, excludedExtensions)
  }

  /** One step of `WalkExact`: a path, given the property for every sub-directory. */
  lemma WalkMember(cs: seq<Node>, excludedFolders: set<string>, excludedExtensions: set<string>, p: seq<string>)
    requires forall i :: 0 <= i < |cs| && cs[i].Dir? ==> WalkIsExact(cs[i].children, excludedFolders, excludedExtensions)
    ensures p in Walk(cs, excludedFolders, excludedExtensions)
        <==> FileAt(cs, p) && Admitted(p, excludedFolders, excludedExtensions)
  {
    HereFilesMembers(cs, excludedExtensions, p);
    SubWalksMembers(cs, excludedFolders, excludedExtensions, p);
    if |p| >= 2 {
      WalkMemberDeep(cs, excludedFolders, excludedExtensions, p);
    } else if |p| == 1 {
      assert p !in SubWalks(cs, excludedFolders, excludedExtensions) by {
        forall i | 0 <= i < |cs| && cs[i].Dir?
          ensures p[1..] !in Walk(cs[i].children, excludedFolders, excludedExtensions)
        {
          assert !FileAt(cs[i].children, p[1..]);
        }
      }
    }
  }

  /** A path through a sub-directory comes out of the sub-directory walks
      exactly when it is an admitted file. */
  lemma WalkMemberDeep(cs: seq<Node>, excludedFolders: set<string>, excludedExtensions: set<string>, p: seq<string>)
    requires forall i :: 0 <= i < |cs| && cs[i].Dir? ==> WalkIsExact(cs[i].children, excludedFolders, excludedExtensions)
    requires |p| >= 2
    ensures p in SubWalks(cs, excludedFolders, excludedExtensions)
        <==> FileAt(cs, p) && Admitted(p, excludedFolders, excludedExtensions)
  {
    SubWalksMembers(cs, excludedFolders, excludedExtensions, p);
    AdmittedUnder(p[0], p[1..], excludedFolders, excludedExtensions);
    assert p == [p[0]] + p[1..];
    var q := p[1..];
    if p in SubWalks(cs, excludedFolders, excludedExtensions) {
      var i :| 0 <= i < |cs| && cs[i].Dir? && cs[i].name == p[0] && q in Walk(cs[i].children, excludedFolders, excludedExtensions);
      assert WalkIsExact(cs[i].children, excludedFolders, excludedExtensions);
      assert FileAt(cs[i].children, q);
    }
    if FileAt(cs, p) && Admitted(p, excludedFolders, excludedExtensions) {
      var i :| 0 <= i < |cs| && cs[i].Dir? && cs[i].name == p[0] && FileAt(cs[i].children, q);
      assert WalkIsExact(cs[i].children, excludedFolders, excludedExtensions);
      assert q in Walk(cs[i].children, excludedFolders, excludedExtensions);
    }
  }

  // ---------------------------------------------------------------------
  // Writing the archive

  /** The entry written for the file at relative path `rel`. */
  function EntryFor(absSrc: seq<string>, rel: seq<string>): ZipEntry
  {
    ZipEntry(absSrc + rel, Join(rel, '/'))
  }

  /** The entries written for the files at `paths` below the directory at relative path `dir`. */
  function Entries(absSrc: seq<string>, dir: seq<string>, paths: seq<seq<string>>): (r: seq<ZipEntry>)
    ensures |r| == |paths|
  {
    seq(|paths|, k requires 0 <= k < |paths| => EntryFor(absSrc, dir + paths[k]))
  }

  lemma EntriesAppend(absSrc: seq<string>, dir: seq<string>, a: seq<seq<string>>, b: seq<seq<string>>)
    ensures Entries(absSrc, dir, a + b) == Entries(absSrc, dir, a) + Entries(absSrc, dir, b)
  {
  }

  lemma EntriesUnder(absSrc: seq<string>, dir: seq<string>, d: string, paths: seq<seq<string>>)
    ensures Entries(absSrc, dir + [d], paths) == Entries(absSrc, dir, Under(d, paths))
  {
    forall k | 0 <= k < |paths|
      ensures dir + [d] + paths[k] == dir + ([d] + paths[k])
    {
    }
  }

  /** `written` and `raised` are what writing the entries `all` in order
      leaves: the entries before the first write that raises, and that
      entry, if any. */
  predicate Writes(all: seq<ZipEntry>, failing: set<ZipEntry>, written: seq<ZipEntry>, raised: Option<ZipEntry>)
  {
    var k := FirstFailure(all, failing);
    && written == all[..k]
    && (raised.None? <==> k == |all|)
    && (raised.Some? ==> raised.value == all[k])
  }

  /** Writing `a` and then, if nothing raised, `b`, is writing `a + b`. */
  lemma WritesThen(a: seq<ZipEntry>, b: seq<ZipEntry>, failing: set<ZipEntry>,
                   wa: seq<ZipEntry>, ra: Option<ZipEntry>, wb: seq<ZipEntry>, rb: Option<ZipEntry>)
    requires Writes(a, failing, wa, ra)
    requires ra.None? ==> Writes(b, failing, wb, rb)
    ensures ra.Some? ==> Writes(a + b, failing, wa, ra)
    ensures ra.None? ==> Writes(a + b, failing, wa + wb, rb)
  {
    FirstFailureAppend(a, b, failing);
    var ka := FirstFailure(a, failing);
    if ra.Some? {
      assert (a + b)[..ka] == a[..ka];
    } else {
      var kb := FirstFailure(b, failing);
      assert (a + b)[..|a| + kb] == a + b[..kb];
    }
  }

  /** Writing one entry. */
  lemma WritesOne(e: ZipEntry, failing: set<ZipEntry>)
    ensures e in failing ==> Writes([e], failing, [], Some(e))
    ensures e !in failing ==> Writes([e], failing, [e], None)
  {
    if e !in failing {
      FirstFailureAt([e], failing, 1);
    }
  }

  /** What one entry adds to `HereFiles`. */
  function HereFile(n: Node, excludedExtensions: set<string>): seq<seq<string>>
  {
    if n.File? && !ExcludedByExtension(n.name, excludedExtensions) then [[n.name]] else []
  }

  /** What one entry adds to `SubWalks`. */
  function SubWalk(n: Node, excludedFolders: set<string>, excludedExtensions: set<string>): seq<seq<string>>
  {
    if n.Dir? && n.name !in excludedFolders then Under(n.name, Walk(n.children, excludedFolders, excludedExtensions)) else []
  }

  lemma AppendAssoc<T>(x: seq<T>, y: seq<T>, z: seq<T>)
    ensures (x + y) + z == x + (y + z)
  {
  }

  lemma HereFilesSnoc(cs: seq<Node>, last: Node, excludedExtensions: set<string>)
    ensures HereFiles(cs + [last], excludedExtensions) == HereFiles(cs, excludedExtensions) + HereFile(last, excludedExtensions)
  {
    assert (cs + [last])[..|cs|] == cs;
  }

  lemma SubWalksSnoc(cs: seq<Node>, last: Node, excludedFolders: set<string>, excludedExtensions: set<string>)
    ensures SubWalks(cs + [last], excludedFolders, excludedExtensions)
         == SubWalks(cs, excludedFolders, excludedExtensions) + SubWalk(last, excludedFolders, excludedExtensions)
  {
    assert (cs + [last])[..|cs|] == cs;
  }

  lemma {:induction false} HereFilesAppend(a: seq<Node>, b: seq<Node>, excludedExtensions: set<string>)
    ensures HereFiles(a + b, excludedExtensions) == HereFiles(a, excludedExtensions) + HereFiles(b, excludedExtensions)
    decreases |b|
  {
    if |b| == 0 {
      assert a + b == a;
    } else {
      var init := b[..|b| - 1];
      var last := b[|b| - 1];
      assert b == init + [last];
      assert a + b == (a + init) + [last];
      HereFilesAppend(a, init, excludedExtensions);
      HereFilesSnoc(init, last, excludedExtensions);
      HereFilesSnoc(a + init, last, excludedExtensions);
      AppendAssoc(HereFiles(a, excludedExtensions), HereFiles(init, excludedExtensions), HereFile(last, excludedExtensions));
    }
  }

  lemma {:induction false} SubWalksAppend(a: seq<Node>, b: seq<Node>, excludedFolders: set<string>, excludedExtensions: set<string>)
    ensures SubWalks(a + b, excludedFolders, excludedExtensions)
         == SubWalks(a, excludedFolders, excludedExtensions) + SubWalks(b, excludedFolders, excludedExtensions)
    decreases |b|
  {
    if |b| == 0 {
      assert a + b == a;
    } else {
      var init := b[..|b| - 1];
      var last := b[|b| - 1];
      assert b == init + [last];
      assert a + b == (a + init) + [last];
      SubWalksAppend(a, init, excludedFolders, excludedExtensions);
      SubWalksSnoc(init, last, excludedFolders, excludedExtensions);
      SubWalksSnoc(a + init, last, excludedFolders, excludedExtensions);
      AppendAssoc(SubWalks(a, excludedFolders, excludedExtensions), SubWalks(init, excludedFolders, excludedExtensions),
                  SubWalk(last, excludedFolders, excludedExtensions));
    }
  }

  /** The walk of `custom_zip_folder` below the directory at relative path `dir`
      with entries `cs`: the loop over the directory's files writes and counts
      each kept one (`total_files += 1`), then each kept sub-directory is walked.
      The first `z.write` that raises ends the walk; the count is the number of
      entries written. */
  method WriteTree(absSrc: seq<string>, dir: seq<string>, cs: seq<Node>,
                   excludedFolders: set<string>, excludedExtensions: set<string>, failing: set<ZipEntry>)
    returns (written: seq<ZipEntry>, totalFiles: nat, raised: Option<ZipEntry>)
    ensures Writes(Entries(absSrc, dir, Walk(cs, excludedFolders, excludedExtensions)), failing, written, raised)
    ensures totalFiles == |written|
    decreases cs, 1
  {
    var here, hereCount, hereRaised := WriteFiles(absSrc, dir, cs, excludedExtensions, failing);
    var below, belowCount, belowRaised := [], 0, None;
    if hereRaised.None? {
      below, belowCount, belowRaised := WriteSubTrees(absSrc, dir, cs, excludedFolders, excludedExtensions, failing);
    }
    var hereAll := Entries(absSrc, dir, HereFiles(cs, excludedExtensions));
    var belowAll := Entries(absSrc, dir, SubWalks(cs, excludedFolders, excludedExtensions));
    EntriesAppend(absSrc, dir, HereFiles(cs, excludedExtensions), SubWalks(cs, excludedFolders, excludedExtensions));
    WritesThen(hereAll, belowAll, failing, here, hereRaised, below, belowRaised);
    if hereRaised.Some? {
      return here, hereCount, hereRaised;
    }
    written := here + below;
    totalFiles := hereCount + belowCount;
    raised := belowRaised;
  }

  /** The files of one directory: each kept one is written and counted, until
      a write raises. */
  method WriteFiles(absSrc: seq<string>, dir: seq<string>, cs: seq<Node>, excludedExtensions: set<string>,
                    failing: set<ZipEntry>)
    returns (written: seq<ZipEntry>, totalFiles: nat, raised: Option<ZipEntry>)
    ensures Writes(Entries(absSrc, dir, HereFiles(cs, excludedExtensions)), failing, written, raised)
    ensures totalFiles == |written|
  {
    written := [];
    totalFiles := 0;
    raised := None;
    var i := 0;
    while i < |cs| && raised.None?
      invariant 0 <= i <= |cs|
      invariant Writes(Entries(absSrc, dir, HereFiles(cs[..i], excludedExtensions)), failing, written, raised)
      invariant totalFiles == |written|
    {
      var done := Entries(absSrc, dir, HereFiles(cs[..i], excludedExtensions));
      assert cs[..i + 1] == cs[..i] + [cs[i]];
      HereFilesSnoc(cs[..i], cs[i], excludedExtensions);
      var node := cs[i];
      if node.File? && !ExcludedByExtension(node.name, excludedExtensions) {
        var entry := EntryFor(absSrc, dir + [node.name]);
        EntriesAppend(absSrc, dir, HereFiles(cs[..i], excludedExtensions), [[node.name]]);
        assert Entries(absSrc, dir, [[node.name]]) == [entry];
        assert Entries(absSrc, dir, HereFiles(cs[..i + 1], excludedExtensions)) == done + [entry];
        WritesOne(entry, failing);
        if entry in failing {
          WritesThen(done, [entry], failing, written, None, [], Some(entry));
          assert written + [] == written;
          raised := Some(entry);
        } else {
          WritesThen(done, [entry], failing, written, None, [entry], None);
          written := written + [entry];
          totalFiles := totalFiles + 1;
        }
      } else {
        assert HereFiles(cs[..i + 1], excludedExtensions) == HereFiles(cs[..i], excludedExtensions) + [];
        assert Entries(absSrc, dir, HereFiles(cs[..i + 1], excludedExtensions)) == done;
      }
      assert Writes(Entries(absSrc, dir, HereFiles(cs[..i + 1], excludedExtensions)), failing, written, raised);
      i := i + 1;
    }
    var done := Entries(absSrc, dir, HereFiles(cs[..i], excludedExtensions));
    var rest := Entries(absSrc, dir, HereFiles(cs[i..], excludedExtensions));
    assert cs == cs[..i] + cs[i..];
    HereFilesAppend(cs[..i], cs[i..], excludedExtensions);
    EntriesAppend(absSrc, dir, HereFiles(cs[..i], excludedExtensions), HereFiles(cs[i..], excludedExtensions));
    if i == |cs| {
      assert rest == [];
      assert done + rest == done;
    } else {
      WritesThen(done, rest, failing, written, raised, [], None);
    }
  }

  /** The sub-directories of one directory: each kept one is walked in turn,
      until a write raises. */
  method WriteSubTrees(absSrc: seq<string>, dir: seq<string>, cs: seq<Node>,
                       excludedFolders: set<string>, excludedExtensions: set<string>, failing: set<ZipEntry>)
    returns (written: seq<ZipEntry>, totalFiles: nat, raised: Option<ZipEntry>)
    ensures Writes(Entries(absSrc, dir, SubWalks(cs, excludedFolders, excludedExtensions)), failing, written, raised)
    ensures totalFiles == |written|
    decreases cs, 0
  {
    written := [];
    totalFiles := 0;
    raised := None;
    var i := 0;
    while i < |cs| && raised.None?
      invariant 0 <= i <= |cs|
      invariant Writes(Entries(absSrc, dir, SubWalks(cs[..i], excludedFolders, excludedExtensions)), failing, written, raised)
      invariant totalFiles == |written|
    {
      var done := Entries(absSrc, dir, SubWalks(cs[..i], excludedFolders, excludedExtensions));
      assert cs[..i + 1] == cs[..i] + [cs[i]];
      SubWalksSnoc(cs[..i], cs[i], excludedFolders, excludedExtensions);
      var node := cs[i];
      if node.Dir? && node.name !in excludedFolders {
        var sub, count, subRaised := WriteTree(absSrc, dir + [node.name], node.children, excludedFolders, excludedExtensions, failing);
        var inner := Walk(node.children, excludedFolders, excludedExtensions);
        EntriesUnder(absSrc, dir, node.name, inner);
        EntriesAppend(absSrc, dir, SubWalks(cs[..i], excludedFolders, excludedExtensions), Under(node.name, inner));
        WritesThen(done, Entries(absSrc, dir + [node.name], inner), failing, written, None, sub, subRaised);
        written := written + sub;
        totalFiles := totalFiles + count;
        raised := subRaised;
      } else {
        assert SubWalks(cs[..i + 1], excludedFolders, excludedExtensions) == SubWalks(cs[..i], excludedFolders, excludedExtensions) + [];
        assert Entries(absSrc, dir, SubWalks(cs[..i + 1], excludedFolders, excludedExtensions)) == done;
      }
      assert Writes(Entries(absSrc, dir, SubWalks(cs[..i + 1], excludedFolders, excludedExtensions)), failing, written, raised);
      i := i + 1;
    }
    var done := Entries(absSrc, dir, SubWalks(cs[..i], excludedFolders, excludedExtensions));
    var rest := Entries(absSrc, dir, SubWalks(cs[i..], excludedFolders, excludedExtensions));
    assert cs == cs[..i] + cs[i..];
    SubWalksAppend(cs[..i], cs[i..], excludedFolders, excludedExtensions);
    EntriesAppend(absSrc, dir, SubWalks(cs[..i], excludedFolders, excludedExtensions), SubWalks(cs[i..], excludedFolders, excludedExtensions));
    if i == |cs| {
      assert rest == [];
      assert done + rest == done;
    } else {
      WritesThen(done, rest, failing, written, raised, [], None);
    }
  }

  /** Every entry of the source tree the filter admits, in walk order. */
  function Archived(absSrc: seq<string>, source: Source, excludedFolders: set<string>, excludedExtensions: set<string>): seq<ZipEntry>
    requires source.Directory?
  {
    Entries(absSrc, [], Walk(source.children, excludedFolders, excludedExtensions))
  }

  /** Whether `custom_zip_folder` raises: removing the old zip, the source
      check, opening the new zip, one of the writes, closing the zip, or
      reading its size. */
  predicate ZipRaises(absSrc: seq<string>, source: Source, zipAlreadyThere: bool, io: ZipIo,
                      excludedFolders: set<string>, excludedExtensions: set<string>)
  {
    || (zipAlreadyThere && !io.removeOk)
    || source.NotADirectory?
    || !io.openOk
    || (var all := Archived(absSrc, source, excludedFolders, excludedExtensions);
        FirstFailure(all, io.writeFailing) < |all|)
    || !io.closeOk
    || !io.sizeOk
  }

  /** What `custom_zip_folder` leaves, by the first call that raises, in the
      order the source makes them: the old zip's removal, the source check,
      the opening of the new zip, the writes, the `close` and the size read.
      A write that raises leaves the entries before it in the zip, which the
      `with` block closes; a `close` that raises takes the place of the
      write's exception. */
  predicate ZipLeaves(absSrc: seq<string>, source: Source, zipAlreadyThere: bool, io: ZipIo,
                      excludedFolders: set<string>, excludedExtensions: set<string>,
                      outcome: ZipOutcome, totalFiles: nat)
  {
    if zipAlreadyThere && !io.removeOk then
      outcome == ZipOutcome(false, false, [], Some(RemoveFailed)) && totalFiles == 0
    else if source.NotADirectory? then
      outcome == ZipOutcome(zipAlreadyThere, false, [], Some(SourceNotFound(absSrc))) && totalFiles == 0
    else if !io.openOk then
      outcome == ZipOutcome(zipAlreadyThere, false, [], Some(OpenFailed)) && totalFiles == 0
    else
      var all := Archived(absSrc, source, excludedFolders, excludedExtensions);
      var k := FirstFailure(all, io.writeFailing);
      && outcome.oldZipRemoved == zipAlreadyThere
      && outcome.created
      && outcome.written == all[..k]
      && totalFiles == k
      && outcome.raised == (if !io.closeOk then Some(CloseFailed)
                            else if k < |all| then Some(WriteFailed(all[k]))
                            else if !io.sizeOk then Some(SizeFailed)
                            else None)
  }

  /** `custom_zip_folder(source_folder, zip_path)`. A zip already at
      `zip_path` is removed first; then a source that is not a directory
      raises `FileNotFoundError`; then the new zip is opened and the walk
      writes its entries, stopping at the first write that raises; then the
      zip is closed and its size read. When nothing raises, the zip holds
      every entry of the walk and `total_files` counts them. */
  method CustomZipFolder(absSrc: seq<string>, source: Source, zipAlreadyThere: bool, io: ZipIo,
                         excludedFolders: set<string>, excludedExtensions: set<string>)
    returns (outcome: ZipOutcome, totalFiles: nat)
    ensures ZipLeaves(absSrc, source, zipAlreadyThere, io, excludedFolders, excludedExtensions, outcome, totalFiles)
    ensures outcome.raised.None? <==> !ZipRaises(absSrc, source, zipAlreadyThere, io, excludedFolders, excludedExtensions)
    ensures outcome.raised.None? ==>
              && outcome.created
              && outcome.written == Archived(absSrc, source, excludedFolders, excludedExtensions)
              && totalFiles == |outcome.written|
  {
    if zipAlreadyThere && !io.removeOk {
      return ZipOutcome(false, false, [], Some(RemoveFailed)), 0;
    }
    if source.NotADirectory? {
      return ZipOutcome(zipAlreadyThere, false, [], Some(SourceNotFound(absSrc))), 0;
    }
    if !io.openOk {
      return ZipOutcome(zipAlreadyThere, false, [], Some(OpenFailed)), 0;
    }
    var written, raised;
    written, totalFiles, raised := WriteTree(absSrc, [], source.children, excludedFolders, excludedExtensions, io.writeFailing);
    var error := if !io.closeOk then Some(CloseFailed)
      else match raised
        case Some(entry) => Some(WriteFailed(entry))
        case None => if io.sizeOk then None else Some(SizeFailed);
    outcome := ZipOutcome(zipAlreadyThere, true, written, error);
  }

  /** Every written entry is a file of the source tree that the filter
      admits, stored under the source path, and named in the archive by its
      path relative to the source joined with `/`; and every admitted file is
      written. */
  lemma ArchiveContents(absSrc: seq<string>, cs: seq<Node>, excludedFolders: set<string>, excludedExtensions: set<string>)
    ensures forall e :: e in Entries(absSrc, [], Walk(cs, excludedFolders, excludedExtensions)) ==>
              exists rel :: FileAt(cs, rel) && Admitted(rel, excludedFolders, excludedExtensions)
                            && e.fullPath == absSrc + rel && e.arcname == Join(rel, '/')
    ensures forall rel :: FileAt(cs, rel) && Admitted(rel, excludedFolders, excludedExtensions) ==>
              EntryFor(absSrc, rel) in Entries(absSrc, [], Walk(cs, excludedFolders, excludedExtensions))
  {
    var paths := Walk(cs, excludedFolders, excludedExtensions);
    var es := Entries(absSrc, [], paths);
    WalkExact(cs, excludedFolders, excludedExtensions);
    forall e | e in es
      ensures exists rel :: FileAt(cs, rel) && Admitted(rel, excludedFolders, excludedExtensions)
                            && e.fullPath == absSrc + rel && e.arcname == Join(rel, '/')
    {
      var k :| 0 <= k < |es| && es[k] == e;
      assert [] + paths[k] == paths[k];
      assert paths[k] in paths;
    }
    forall rel | FileAt(cs, rel) && Admitted(rel, excludedFolders, excludedExtensions)
      ensures EntryFor(absSrc, rel) in es
    {
      var k :| 0 <= k < |paths| && paths[k] == rel;
      assert [] + paths[k] == rel;
      assert es[k] == EntryFor(absSrc, rel);
    }
  }

  /** The suffix test is not an extension test: an excluded `"py"` also
      skips `"happy"`, and an empty string in the set skips every file. */
  lemma SuffixNotExtension()
    ensures ExcludedByExtension("happy", {"py"})
    ensures forall name :: ExcludedByExtension(name, {""})
  {
    assert EndsWith("happy", "py");
    forall name: string
      ensures ExcludedByExtension(name, {""})
    {
      EndsWithEmpty(name);
    }
  }
}
