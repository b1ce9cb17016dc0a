/** When unpacking an archive leaves the partial store alone, and what happens when it does not. */
module DiskLaws {
  import opened Bytes
  import opened ArchiveTypes
  import opened SecureChannel
  import opened FileTree
  import opened ResumeStore
  import opened Unpacking
  import opened UnpackLaws
  import opened ReceiverDisk
  import opened ArchiveRoundTrip
  import Paths

  /** The rest of a disk whose resume directory holds nothing but the store. */
  ghost predicate Tidy(u: Receiver, rest: Tree) {
    && IsTree(rest)
    && NoFileOn(rest, u.env.destination)
    && forall loc :: loc in rest ==> !(Root(u) <= loc)
  }

  // ---------------------------------------------------------------------------------------------
  // The store is shown faithfully.

  lemma DirOfKeyUnique(u: Receiver, key: PartialKey, other: PartialKey)
    ensures DirOfKey(u, key) == DirOfKey(u, other) <==> key == other
  {
    KeyAtExactly(u, DirOfKey(u, key), key);
    KeyAtExactly(u, DirOfKey(u, key), other);
  }

  lemma ParentOfFile(u: Receiver, key: PartialKey, name: Bytes)
    ensures FileOfKey(u, key, name) != [] && Parent(FileOfKey(u, key, name)) == DirOfKey(u, key)
    ensures FileOfKey(u, key, name)[|FileOfKey(u, key, name)| - 1] == name
    ensures Root(u) <= DirOfKey(u, key) <= FileOfKey(u, key, name)
  {
  }

  lemma FileOfKeyUnique(u: Receiver, key: PartialKey, name: Bytes, other: PartialKey, name': Bytes)
    ensures FileOfKey(u, key, name) == FileOfKey(u, other, name') <==> key == other && name == name'
  {
    ParentOfFile(u, key, name);
    ParentOfFile(u, other, name');
    DirOfKeyUnique(u, key, other);
  }

  lemma NamesOfFiles()
    ensures PART_NAME != META_NAME && PART_NAME != TEMP_NAME && META_NAME != TEMP_NAME
  {
    assert |PART_NAME| == 12 && |META_NAME| == 13 && |TEMP_NAME| == 17;
  }

  lemma FolderShownExactly(u: Receiver, store: Store, key: PartialKey)
    ensures DirOfKey(u, key) in Folders(u, store) <==> key in store
  {
    if DirOfKey(u, key) in Folders(u, store) {
      var other :| other in store && DirOfKey(u, other) == DirOfKey(u, key);
      DirOfKeyUnique(u, key, other);
    }
  }

  lemma DirShownExactly(u: Receiver, store: Store, key: PartialKey)
    ensures DirOfKey(u, key) in Shown(u, store) <==> key in store
    ensures key in store ==> Shown(u, store)[DirOfKey(u, key)] == Folder
  {
    FolderShownExactly(u, store, key);
    assert DirOfKey(u, key) !in Files(u, store) by {
      assert forall loc :: loc in Files(u, store) ==> |loc| == |u.env.destination| + 4;
    }
  }

  predicate HasFile(dir: PartialDir, name: Bytes) {
    || (name == PART_NAME && dir.part.Some?)
    || (name == META_NAME && dir.meta.Some?)
    || (name == TEMP_NAME && dir.temp.Some?)
  }

  lemma InFilesExactly(u: Receiver, store: Store, key: PartialKey, name: Bytes)
    ensures FileOfKey(u, key, name) in Files(u, store) <==> key in store && HasFile(store[key], name)
  {
    NamesOfFiles();
    forall other, name' ensures FileOfKey(u, key, name) == FileOfKey(u, other, name') <==> key == other && name == name' {
      FileOfKeyUnique(u, key, name, other, name');
    }
    hide FileOfKey;
  }

  lemma FileShownExactly(u: Receiver, store: Store, key: PartialKey, name: Bytes)
    ensures FileOfKey(u, key, name) in Shown(u, store) <==> key in store && HasFile(store[key], name)
    ensures key in store && HasFile(store[key], name) ==>
              Shown(u, store)[FileOfKey(u, key, name)] == Content(BytesShown(u, store[key], name))
  {
    InFilesExactly(u, store, key, name);
    ParentOfFile(u, key, name);
    KeyAtExactly(u, DirOfKey(u, key), key);
    var loc := FileOfKey(u, key, name);
    assert loc !in Folders(u, store) by {
      assert forall l :: l in Folders(u, store) ==> |l| <= |u.env.destination| + 3;
    }
    hide Folders, Files, FileOfKey, KeyAt, BytesShown, HasFile;
    assert FileShown(u, store, loc) == if key in store then BytesShown(u, store[key], name) else [];
  }

  lemma ShownIsInside(u: Receiver, store: Store, loc: Location)
    requires loc in Shown(u, store)
    ensures Root(u) <= loc
  {
  }

  /** Reading the store back from the file system that shows it gives the store. */
  lemma StoreIsShown(u: Receiver, t: Tree, store: Store)
    requires ReadsBack(u.metadata)
    requires forall loc :: Root(u) <= loc ==> (loc in t <==> loc in Shown(u, store))
    requires forall loc :: Root(u) <= loc && loc in t ==> t[loc] == Shown(u, store)[loc]
    ensures StoreOf(u, t) == store
  {
    hide Shown, StoreOf, ReadsBack, Root;
    forall key ensures key in StoreOf(u, t) <==> key in store {
      KeyIsShown(u, t, store, key);
    }
    forall key | key in store ensures StoreOf(u, t)[key] == store[key] {
      InStoreExactly(u, t, key);
      DirIsShown(u, t, store, key);
    }
  }

  lemma KeyIsShown(u: Receiver, t: Tree, store: Store, key: PartialKey)
    requires forall loc :: Root(u) <= loc ==> (loc in t <==> loc in Shown(u, store))
    requires forall loc :: Root(u) <= loc && loc in t ==> t[loc] == Shown(u, store)[loc]
    ensures key in StoreOf(u, t) <==> key in store
  {
    InStoreExactly(u, t, key);
    DirShownExactly(u, store, key);
    assert Root(u) <= DirOfKey(u, key);
    hide Shown, StoreOf, DirOfKey, Root;
  }

  lemma DirIsShown(u: Receiver, t: Tree, store: Store, key: PartialKey)
    requires ReadsBack(u.metadata) && key in store
    requires forall loc :: Root(u) <= loc ==> (loc in t <==> loc in Shown(u, store))
    requires forall loc :: Root(u) <= loc && loc in t ==> t[loc] == Shown(u, store)[loc]
    ensures DirAt(u, t, key) == store[key]
  {
    FileShownExactly(u, store, key, PART_NAME);
    FileShownExactly(u, store, key, META_NAME);
    FileShownExactly(u, store, key, TEMP_NAME);
    ParentOfFile(u, key, PART_NAME);
    ParentOfFile(u, key, META_NAME);
    ParentOfFile(u, key, TEMP_NAME);
    NamesOfFiles();
    hide Shown, FileOfKey, DirOfKey, Root;
  }

  // ---------------------------------------------------------------------------------------------
  // The full tree.

  lemma BaseIsTree(u: Receiver, rest: Tree)
    requires Tidy(u, rest)
    ensures IsTree(Base(u, rest)) && IsFolder(Base(u, rest), u.env.destination)
    ensures forall loc :: loc in Base(u, rest) ==> !(Root(u) <= loc)
  {
    CreateDirAllFailsExactly(rest, u.env.destination);
    hide CreateDirAll, IsTree;
    CreateDirAllAdds(rest, u.env.destination);
  }

  lemma FullInside(u: Receiver, disk: Disk)
    requires Tidy(u, disk.rest)
    ensures forall loc :: Root(u) <= loc ==> (loc in FullTree(u, disk) <==> loc in Shown(u, disk.store))
    ensures forall loc :: Root(u) <= loc && loc in FullTree(u, disk) ==> FullTree(u, disk)[loc] == Shown(u, disk.store)[loc]
    ensures forall loc :: !(Root(u) <= loc) ==> (loc in FullTree(u, disk) <==> loc in Base(u, disk.rest))
    ensures forall loc :: !(Root(u) <= loc) && loc in FullTree(u, disk) ==> FullTree(u, disk)[loc] == Base(u, disk.rest)[loc]
  {
    BaseIsTree(u, disk.rest);
    forall loc | loc in Shown(u, disk.store) ensures Root(u) <= loc {
      ShownIsInside(u, disk.store, loc);
    }
    hide Base, Shown, Root;
  }

  lemma ShownParents(u: Receiver, store: Store, loc: Location)
    requires loc in Shown(u, store)
    ensures loc != []
    ensures loc == Root(u) || IsFolder(Shown(u, store), Parent(loc))
  {
    if loc in Files(u, store) {
      var key, name := FileIsSomebodys(u, store, loc);
      ParentOfFile(u, key, name);
      DirShownExactly(u, store, key);
    } else if loc != Root(u) {
      if key :| key in store && loc == SourceDir(u, key) {
        assert Parent(loc) == Root(u);
        assert Root(u) in Folders(u, store);
      } else {
        var key :| key in store && loc == DirOfKey(u, key);
        assert Parent(loc) == SourceDir(u, key);
        assert SourceDir(u, key) in Folders(u, store);
      }
    }
  }

  lemma FileIsSomebodys(u: Receiver, store: Store, loc: Location) returns (key: PartialKey, name: Bytes)
    requires loc in Files(u, store)
    ensures key in store && loc == FileOfKey(u, key, name)
  {
    if k :| k in store && store[k].part.Some? && loc == FileOfKey(u, k, PART_NAME) {
      key, name := k, PART_NAME;
    } else if k :| k in store && store[k].meta.Some? && loc == FileOfKey(u, k, META_NAME) {
      key, name := k, META_NAME;
    } else {
      key :| key in store && store[key].temp.Some? && loc == FileOfKey(u, key, TEMP_NAME);
      name := TEMP_NAME;
    }
  }

  lemma ParentOutside(root: Location, loc: Location)
    requires loc != [] && !(root <= loc)
    ensures !(root <= Parent(loc))
  {
  }

  lemma FullIsTree(u: Receiver, disk: Disk)
    requires Tidy(u, disk.rest)
    ensures IsTree(FullTree(u, disk)) && IsFolder(FullTree(u, disk), u.env.destination)
  {
    BaseIsTree(u, disk.rest);
    FullInside(u, disk);
    var t := FullTree(u, disk);
    assert !(Root(u) <= u.env.destination) && !(Root(u) <= []);
    forall loc | loc in t && loc != [] ensures IsFolder(t, Parent(loc)) {
      if Root(u) <= loc {
        ShownParents(u, disk.store, loc);
        if loc == Root(u) {
          assert Parent(loc) == u.env.destination;
        } else {
          ShownIsInside(u, disk.store, Parent(loc));
        }
      } else {
        ParentOutside(Root(u), loc);
      }
    }
  }

  lemma StoreOfFull(u: Receiver, disk: Disk)
    requires Tidy(u, disk.rest) && ReadsBack(u.metadata)
    ensures StoreOf(u, FullTree(u, disk)) == disk.store
  {
    FullInside(u, disk);
    hide FullTree, Shown, StoreOf;
    StoreIsShown(u, FullTree(u, disk), disk.store);
  }

  // ---------------------------------------------------------------------------------------------
  // Unpacking that leaves the resume directory alone.

  /** A file system in which the resume directory is as it was splits into the old store and a tidy rest. */
  lemma UntouchedKeepsStore(u: Receiver, disk: Disk, t: Tree)
    requires Tidy(u, disk.rest) && ReadsBack(u.metadata) && IsTree(t) && IsFolder(t, u.env.destination)
    requires Untouched(Root(u), FullTree(u, disk), t)
    ensures SplitDisk(u, t).store == disk.store && Tidy(u, SplitDisk(u, t).rest)
  {
    FullInside(u, disk);
    hide FullTree;
    assert forall loc :: Root(u) <= loc ==> (loc in t <==> loc in Shown(u, disk.store));
    StoreIsShown(u, t, disk.store);
    OutsideIsTidy(u, t, disk.store);
  }

  lemma InsideStays(u: Receiver, t: Tree, store: Store, loc: Location)
    requires loc in t && loc !in Shown(u, store) && loc != []
    requires forall l :: Root(u) <= l ==> (l in t <==> l in Shown(u, store))
    ensures Parent(loc) !in Shown(u, store)
  {
    hide Shown;
    ParentOutside(Root(u), loc);
    if Parent(loc) in Shown(u, store) {
      ShownIsInside(u, store, Parent(loc));
    }
  }

  lemma OutsideIsTidy(u: Receiver, t: Tree, store: Store)
    requires IsTree(t) && IsFolder(t, u.env.destination)
    requires forall loc :: Root(u) <= loc ==> (loc in t <==> loc in Shown(u, store))
    ensures Tidy(u, t - Shown(u, store).Keys)
  {
    var rest := t - Shown(u, store).Keys;
    forall loc | loc in Shown(u, store) ensures Root(u) <= loc {
      ShownIsInside(u, store, loc);
    }
    hide Shown;
    forall loc | loc in rest && loc != [] ensures IsFolder(rest, Parent(loc)) {
      assert IsFolder(t, Parent(loc));
      InsideStays(u, t, store, loc);
    }
    assert IsTree(rest) by { assert !(Root(u) <= []); }
    forall p | p in rest && p <= u.env.destination ensures rest[p].Folder? {
      assert p == u.env.destination[..|p|];
      if |p| < |u.env.destination| {
        PrefixesAreFolders(t, u.env.destination, |p|);
      } else {
        assert p == u.env.destination;
      }
    }
  }

  lemma FolderStays(env: Env, before: Tree, tree: Tree, made: seq<Made>, loc: Location)
    requires Faithful(env, before, tree, made) && IsFolder(before, loc) && loc <= env.destination
    ensures IsFolder(tree, loc)
  {
    hide IsTree, PathsDiffer, FilesDiffer;
    assert loc in tree && Explained(env, before, tree, made, loc);
    if m :| m in made && m.entry.kind.File? && loc == m.at {
      MadeIsInside(env, before, tree, m);
    }
  }

  lemma RootNameIsPlain()
    ensures OPENING_PARENTHESIS !in RESUME_DIR
  {
    assert forall i :: 0 <= i < |RESUME_DIR| ==> RESUME_DIR[i] == ".peerline-resume"[i] as int;
    assert forall i :: 0 <= i < 16 ==> ".peerline-resume"[i] as int != 40;
  }

  /** Listed paths none of which starts with the name of the resume directory. */
  predicate KeepsOut(u: Receiver, compression: Compression, archive: Bytes) {
    StaysOutside(Listed(u.frames, u.packer, compression, archive), RESUME_DIR)
  }

  /** The resume directory is as it was, in a file system that still has the destination. */
  ghost predicate LeavesRoot(u: Receiver, disk: Disk, t: Tree) {
    IsTree(t) && IsFolder(t, u.env.destination) && Untouched(Root(u), FullTree(u, disk), t)
  }

  lemma FaithfulLeavesRoot(u: Receiver, disk: Disk, t: Tree, made: seq<Made>, entries: seq<ManifestEntry>)
    requires Tidy(u, disk.rest)
    requires Faithful(u.env, FullTree(u, disk), t, made) && MadeFrom(entries, made) && StaysOutside(entries, RESUME_DIR)
    ensures LeavesRoot(u, disk, t)
  {
    FullIsTree(u, disk);
    assert IsTree(t);
    hide FullTree, Faithful, MadeFrom, StaysOutside, IsTree, Tidy;
    RootNameIsPlain();
    OutsideLeavesAlone(u.env, FullTree(u, disk), t, made, entries, RESUME_DIR);
    FolderStays(u.env, FullTree(u, disk), t, made, u.env.destination);
  }

  /** Unpacking an archive that lists nothing in the resume directory leaves that directory as it was, whatever
      else happens and wherever it is cut short. */
  lemma UnpackingLeavesRoot(u: Receiver, disk: Disk, compression: Compression, archive: Bytes, n: nat)
    requires Tidy(u, disk.rest) && KeepsOut(u, compression, archive)
    ensures LeavesRoot(u, disk, UnpackOnDisk(u, disk, compression, archive).1.tree)
    ensures LeavesRoot(u, disk, UnpackCut(u.env, u.frames, u.packer, FullTree(u, disk), compression, archive, n).tree)
  {
    FullIsTree(u, disk);
    hide FullTree, SplitDisk, Faithful, MadeFrom, StaysOutside, IsTree, Tidy, UnpackArchive, UnpackCut, Listed, LeavesRoot,
         EachOnce;
    ArchiveIsSound(u.env, u.frames, u.packer, FullTree(u, disk), compression, archive, n);
    var entries := Listed(u.frames, u.packer, compression, archive);
    var r := UnpackArchive(u.env, u.frames, u.packer, FullTree(u, disk), compression, archive);
    FaithfulLeavesRoot(u, disk, r.tree, r.made, entries);
    var cut := UnpackCut(u.env, u.frames, u.packer, FullTree(u, disk), compression, archive, n);
    FaithfulLeavesRoot(u, disk, cut.tree, cut.made, entries);
  }

  /** So the whole store is as it was. */
  lemma UnpackingLeavesStore(u: Receiver, disk: Disk, compression: Compression, archive: Bytes)
    requires Tidy(u, disk.rest) && ReadsBack(u.metadata) && KeepsOut(u, compression, archive)
    ensures var disk' := UnpackOnDisk(u, disk, compression, archive).0; disk'.store == disk.store && Tidy(u, disk'.rest)
  {
    UnpackingLeavesRoot(u, disk, compression, archive, 0);
    hide FullTree, SplitDisk, Tidy, ReadsBack, KeepsOut, UnpackArchive, Untouched, IsTree;
    UntouchedKeepsStore(u, disk, UnpackOnDisk(u, disk, compression, archive).1.tree);
  }

  // ---------------------------------------------------------------------------------------------
  // A crash while an archive is being unpacked.

  /** Some frames have been handled, and for the next listed entry some folders may have been made. */
  ghost predicate MidTree(u: Receiver, full: Tree, compression: Compression, archive: Bytes, t: Tree) {
    exists n: nat :: MidTreeAt(u, full, compression, archive, t, n)
  }

  ghost predicate MidTreeAt(u: Receiver, full: Tree, compression: Compression, archive: Bytes, t: Tree, n: nat) {
    var cut := UnpackCut(u.env, u.frames, u.packer, full, compression, archive, n).tree;
    || t == cut
    || exists e, p :: e in Listed(u.frames, u.packer, compression, archive) && IsOnTheWay(u, e, p)
                      && CreateDirAll(cut, p) == Some(t)
  }

  predicate IsOnTheWay(u: Receiver, e: ManifestEntry, p: Location) {
    p <= SafeJoin(u.env.destination, e.path)
  }

  lemma OnTheWayOutside(u: Receiver, e: ManifestEntry, l: Location)
    requires l <= SafeJoin(u.env.destination, e.path) && Paths.Split(e.path)[0] != RESUME_DIR
    ensures !(Root(u) <= l)
  {
    var target, n := SafeJoin(u.env.destination, e.path), |u.env.destination|;
    assert target[n] == Paths.Split(e.path)[0];
    assert Root(u)[n] == RESUME_DIR;
  }

  lemma NewFoldersOutside(u: Receiver, cut: Tree, e: ManifestEntry, p: Location, t: Tree)
    requires WithFolders(cut, p, t) && IsOnTheWay(u, e, p) && Paths.Split(e.path)[0] != RESUME_DIR
    ensures forall l :: l in t && l !in cut ==> !(Root(u) <= l)
  {
    hide IsTree, SafeJoin, Root;
    forall l | l in t && l !in cut ensures !(Root(u) <= l) {
      PrefixTransitive(l, p, SafeJoin(u.env.destination, e.path));
      OnTheWayOutside(u, e, l);
    }
  }

  lemma GrowingOutside(root: Location, before: Tree, cut: Tree, t: Tree)
    requires Untouched(root, before, cut)
    requires forall l :: l in cut ==> l in t && t[l] == cut[l]
    requires forall l :: l in t && l !in cut ==> !(root <= l)
    ensures Untouched(root, before, t)
  {
  }

  lemma FoldersLeaveRoot(u: Receiver, disk: Disk, cut: Tree, e: ManifestEntry, p: Location, t: Tree)
    requires LeavesRoot(u, disk, cut) && IsOnTheWay(u, e, p) && Paths.Split(e.path)[0] != RESUME_DIR
    requires CreateDirAll(cut, p) == Some(t)
    ensures LeavesRoot(u, disk, t)
  {
    CreateDirAllAdds(cut, p);
    hide FullTree, CreateDirAll, IsTree, SafeJoin, Root, Untouched, IsOnTheWay;
    NewFoldersOutside(u, cut, e, p, t);
    GrowingOutside(Root(u), FullTree(u, disk), cut, t);
  }

  lemma MidLeavesStore(u: Receiver, disk: Disk, compression: Compression, archive: Bytes, t: Tree)
    requires Tidy(u, disk.rest) && ReadsBack(u.metadata) && KeepsOut(u, compression, archive)
    requires MidTree(u, FullTree(u, disk), compression, archive, t)
    ensures SplitDisk(u, t).store == disk.store && Tidy(u, SplitDisk(u, t).rest)
  {
    var n: nat :| MidTreeAt(u, FullTree(u, disk), compression, archive, t, n);
    UnpackingLeavesRoot(u, disk, compression, archive, n);
    var cut := UnpackCut(u.env, u.frames, u.packer, FullTree(u, disk), compression, archive, n).tree;
    hide FullTree, SplitDisk, Tidy, ReadsBack, LeavesRoot, UnpackCut, Listed, CreateDirAll;
    if t != cut {
      var e, p :| e in Listed(u.frames, u.packer, compression, archive) && IsOnTheWay(u, e, p)
                  && CreateDirAll(cut, p) == Some(t);
      FoldersLeaveRoot(u, disk, cut, e, p, t);
    }
    LeftIsSplit(u, disk, t);
  }

  lemma LeftIsSplit(u: Receiver, disk: Disk, t: Tree)
    requires Tidy(u, disk.rest) && ReadsBack(u.metadata) && LeavesRoot(u, disk, t)
    ensures SplitDisk(u, t).store == disk.store && Tidy(u, SplitDisk(u, t).rest)
  {
    hide FullTree, SplitDisk, Tidy, ReadsBack, Untouched, IsTree;
    UntouchedKeepsStore(u, disk, t);
  }

  // ---------------------------------------------------------------------------------------------
  // Exactly when.

  /** Unpacking leaves the resume directory alone exactly when whatever it made in there was there already. */
  lemma ResumeRootUntouchedExactly(u: Receiver, disk: Disk, compression: Compression, archive: Bytes)
    requires Tidy(u, disk.rest)
    ensures var r := UnpackOnDisk(u, disk, compression, archive).1;
            Untouched(Root(u), FullTree(u, disk), r.tree) <==> NothingNewInside(Root(u), FullTree(u, disk), r.made)
  {
    FullIsTree(u, disk);
    hide FullTree, Faithful, IsTree, Tidy, UnpackArchive, UnpackCut;
    ArchiveIsSound(u.env, u.frames, u.packer, FullTree(u, disk), compression, archive, 0);
    var r := UnpackArchive(u.env, u.frames, u.packer, FullTree(u, disk), compression, archive);
    RootUntouchedExactly(u.env, FullTree(u, disk), r.tree, r.made, Root(u));
  }

  /** For every archive, whether it unpacks or fails half way: the resume directory stays as it was exactly when each
      listed entry that was completed keeps out of it, is a folder that was there or, where files may be replaced,
      the very same file. */
  lemma CompletedEntriesLeaveRootExactly(u: Receiver, disk: Disk, compression: Compression, archive: Bytes)
    requires Tidy(u, disk.rest) && disk.store != map[] && HashesTell(u.env, FullTree(u, disk))
    ensures var r := UnpackOnDisk(u, disk, compression, archive).1;
      && (forall m :: m in r.made ==> m.entry in Listed(u.frames, u.packer, compression, archive))
      && (Untouched(Root(u), FullTree(u, disk), r.tree)
          <==> forall m :: m in r.made ==> Harmless(u.env, FullTree(u, disk), m.entry, RESUME_DIR))
  {
    FullIsTree(u, disk);
    RootIsShown(u, disk);
    RootNameIsPlain();
    hide FullTree, Faithful, IsTree, Tidy, UnpackArchive, UnpackCut, EachOnce, Harmless, IsFolder, Listed, HashesTell, Untouched;
    ArchiveIsSound(u.env, u.frames, u.packer, FullTree(u, disk), compression, archive, 0);
    var r := UnpackArchive(u.env, u.frames, u.packer, FullTree(u, disk), compression, archive);
    MadeLeavesAloneExactly(u.env, FullTree(u, disk), r.tree, r.made, RESUME_DIR);
  }

  /** Which archives can be unpacked beside partials without touching these: exactly those whose paths into the
      resume directory are only folders that are there and, where files may be replaced, the very same files. */
  lemma UnpackedBesidePartialsExactly(u: Receiver, disk: Disk, compression: Compression, archive: Bytes)
    requires Tidy(u, disk.rest) && disk.store != map[] && HashesTell(u.env, FullTree(u, disk))
    requires UnpackOnDisk(u, disk, compression, archive).1.result.Ok?
    ensures Untouched(Root(u), FullTree(u, disk), UnpackOnDisk(u, disk, compression, archive).1.tree)
            <==> forall e :: e in Listed(u.frames, u.packer, compression, archive)
                   ==> Harmless(u.env, FullTree(u, disk), e, RESUME_DIR)
  {
    FullIsTree(u, disk);
    RootIsShown(u, disk);
    RootNameIsPlain();
    hide FullTree, Faithful, IsTree, Tidy, UnpackArchive, UnpackCut, EachOnce, Harmless, IsFolder, Listed, HashesTell;
    ArchiveIsSound(u.env, u.frames, u.packer, FullTree(u, disk), compression, archive, 0);
    var r := UnpackArchive(u.env, u.frames, u.packer, FullTree(u, disk), compression, archive);
    AllMadeLeavesAloneExactly(u.env, FullTree(u, disk), r.tree, r.made,
                              Listed(u.frames, u.packer, compression, archive), RESUME_DIR);
  }

  lemma RootIsShown(u: Receiver, disk: Disk)
    requires Tidy(u, disk.rest) && disk.store != map[]
    ensures IsFolder(FullTree(u, disk), Root(u))
  {
    var key :| key in disk.store;
    assert Root(u) in Folders(u, disk.store);
  }
}
