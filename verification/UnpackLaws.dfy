/** What unpacking guarantees for every stream of bytes, whether it succeeds or fails. */
module UnpackLaws {
  import opened Bytes
  import opened ArchiveTypes
  import opened Compressing
  import opened Paths
  import opened SecureChannel
  import opened FileTree
  import opened Framing
  import opened Unpacking

  // ---------------------------------------------------------------------------------------------
  // What is on disk.

  /** The file's own path or a numbered one beside it. */
  ghost predicate OwnOrNumbered(target: Location, at: Location)
    requires target != []
  {
    at == target || exists i: nat :: at == Candidate(target, i)
  }

  /** An entry is where its report says: a folder at its own path; a file, of the declared size and hash, at its
      own path or, when nothing may be replaced, there or at a numbered path beside it, whichever was free. */
  ghost predicate Placed(env: Env, before: Tree, tree: Tree, m: Made) {
    var target := SafeJoin(env.destination, m.entry.path);
    if m.entry.kind.Directory? then m.at == target && IsFolder(tree, m.at)
    else
      && m.at != [] && m.at in tree && tree[m.at] == Content(m.content)
      && |m.content| % U64_LIMIT == m.entry.size && m.entry.blake3 == Some(env.hash(m.content))
      && Parent(m.at) == Parent(target)
      && (if env.overwrite then m.at == target else m.at !in before && OwnOrNumbered(target, m.at))
  }

  /** Why a location is as it is: it was so before, or it is a new folder on the way to the destination or to
      an entry, or it is a file that was placed. */
  ghost predicate Explained(env: Env, before: Tree, tree: Tree, made: seq<Made>, loc: Location)
    requires loc in tree
  {
    || (loc in before && tree[loc] == before[loc])
    || (loc !in before && tree[loc].Folder? && (loc <= env.destination || exists m :: m in made && loc <= m.at))
    || (exists m :: m in made && m.entry.kind.File? && loc == m.at)
  }

  ghost predicate AllPlaced(env: Env, before: Tree, tree: Tree, made: seq<Made>) {
    forall m :: m in made ==> Placed(env, before, tree, m)
  }

  ghost predicate AllExplained(env: Env, before: Tree, tree: Tree, made: seq<Made>) {
    forall loc :: loc in tree ==> Explained(env, before, tree, made, loc)
  }

  predicate PathsDiffer(made: seq<Made>) {
    forall i, j :: 0 <= i < j < |made| ==> made[i].entry.path != made[j].entry.path
  }

  predicate FilesDiffer(made: seq<Made>) {
    forall i, j :: 0 <= i < j < |made| && made[i].entry.kind.File? && made[j].entry.kind.File? ==> made[i].at != made[j].at
  }

  ghost predicate Faithful(env: Env, before: Tree, tree: Tree, made: seq<Made>) {
    && IsTree(tree)
    && before.Keys <= tree.Keys
    && AllPlaced(env, before, tree, made)
    && AllExplained(env, before, tree, made)
    && PathsDiffer(made)
    && FilesDiffer(made)
  }

  // ---------------------------------------------------------------------------------------------
  // Which entries are done.

  predicate KeysDiffer(entries: seq<ManifestEntry>) {
    forall i, j :: 0 <= i < j < |entries| ==> Components(entries[i].path) != Components(entries[j].path)
  }

  predicate AllValid(entries: seq<ManifestEntry>) {
    forall e :: e in entries ==> EntryError(e) == None
  }

  ghost predicate IsMade(made: seq<Made>, e: ManifestEntry) {
    exists m :: m in made && m.entry == e
  }

  /** Every entry either remains or has been made, never both. */
  ghost predicate Ledger(entries: seq<ManifestEntry>, remaining: Remaining, made: seq<Made>) {
    && (forall key :: key in remaining ==> remaining[key] in entries && Components(remaining[key].path) == key)
    && (forall m :: m in made ==> m.entry in entries && Components(m.entry.path) !in remaining)
    && (forall e :: e in entries && Components(e.path) !in remaining ==> IsMade(made, e))
  }

  predicate CurrentExpected(remaining: Remaining, current: Option<ActiveFile>) {
    current.Some? ==>
      var key := Components(current.value.path);
      && key in remaining && remaining[key].kind.File?
      && remaining[key].size == current.value.size && remaining[key].blake3 == Some(current.value.blake3)
  }

  ghost predicate Inv(env: Env, before: Tree, entries: seq<ManifestEntry>, s: State) {
    && Faithful(env, before, s.tree, s.made)
    && Ledger(entries, s.remaining, s.made)
    && CurrentExpected(s.remaining, s.current)
  }

  // ---------------------------------------------------------------------------------------------
  // Steps on the tree.

  lemma FoldersKeepPlaced(env: Env, before: Tree, tree: Tree, made: seq<Made>, loc: Location)
    requires IsTree(tree) && AllPlaced(env, before, tree, made) && CreateDirAll(tree, loc).Some?
    ensures AllPlaced(env, before, CreateDirAll(tree, loc).value, made)
  {
    hide SafeJoin, CreateDirAll;
    CreateDirAllAdds(tree, loc);
    var tree' := CreateDirAll(tree, loc).value;
    forall m | m in made ensures Placed(env, before, tree', m) {
      assert Placed(env, before, tree, m);
    }
  }

  /** New folders on the way to `loc` are explained once `loc` is. */
  lemma FoldersExplained(env: Env, before: Tree, tree: Tree, made: seq<Made>, loc: Location, made': seq<Made>)
    requires IsTree(tree) && before.Keys <= tree.Keys && AllExplained(env, before, tree, made)
    requires CreateDirAll(tree, loc).Some?
    requires forall m :: m in made ==> m in made'
    requires loc <= env.destination || exists m :: m in made' && loc <= m.at
    ensures AllExplained(env, before, CreateDirAll(tree, loc).value, made')
  {
    hide CreateDirAll;
    CreateDirAllAdds(tree, loc);
    var tree' := CreateDirAll(tree, loc).value;
    forall l | l in tree' ensures Explained(env, before, tree', made', l) {
      if l in tree {
        assert Explained(env, before, tree, made, l);
      } else {
        PrefixTransitive(l, loc, env.destination);
        if !(loc <= env.destination) {
          var m :| m in made' && loc <= m.at;
          PrefixTransitive(l, loc, m.at);
        }
      }
    }
  }

  lemma PrefixTransitive(a: Location, b: Location, c: Location)
    requires a <= b
    ensures b <= c ==> a <= c
  {
  }

  lemma PersistKeepsPlaced(env: Env, before: Tree, tree: Tree, made: seq<Made>, at: Location, bytes: Bytes)
    requires IsTree(tree) && AllPlaced(env, before, tree, made) && at != [] && Persist(tree, at, bytes).Some?
    requires forall m :: m in made && m.entry.kind.File? ==> m.at != at
    ensures AllPlaced(env, before, Persist(tree, at, bytes).value, made)
  {
    hide SafeJoin;
    var tree' := Persist(tree, at, bytes).value;
    forall m | m in made ensures Placed(env, before, tree', m) {
      assert Placed(env, before, tree, m);
    }
  }

  lemma PersistExplained(env: Env, before: Tree, tree: Tree, made: seq<Made>, at: Location, bytes: Bytes)
    requires IsTree(tree) && AllExplained(env, before, tree, made) && at != [] && Persist(tree, at, bytes).Some?
    requires exists m :: m in made && m.entry.kind.File? && at == m.at
    ensures AllExplained(env, before, Persist(tree, at, bytes).value, made)
  {
    var tree' := Persist(tree, at, bytes).value;
    forall l | l in tree' ensures Explained(env, before, tree', made, l) {
      if l != at {
        assert Explained(env, before, tree, made, l);
      }
    }
  }

  // ---------------------------------------------------------------------------------------------
  // Steps of the ledger.

  lemma OneEntryPerKey(entries: seq<ManifestEntry>, e: ManifestEntry, f: ManifestEntry)
    requires KeysDiffer(entries) && e in entries && f in entries && Components(e.path) == Components(f.path)
    ensures e == f
  {
    var i :| 0 <= i < |entries| && entries[i] == e;
    var j :| 0 <= j < |entries| && entries[j] == f;
  }

  lemma LedgerTake(entries: seq<ManifestEntry>, remaining: Remaining, made: seq<Made>, key: seq<Component>, m: Made)
    requires KeysDiffer(entries) && Ledger(entries, remaining, made) && key in remaining && m.entry == remaining[key]
    requires PathsDiffer(made)
    ensures Ledger(entries, remaining - {key}, made + [m])
    ensures PathsDiffer(made + [m])
  {
    hide Components;
    var made' := made + [m];
    assert m in made';
    forall e | e in entries && Components(e.path) !in remaining - {key} ensures IsMade(made', e) {
      if Components(e.path) == key {
        OneEntryPerKey(entries, e, m.entry);
      } else {
        assert IsMade(made, e);
        var x :| x in made && x.entry == e;
        assert x in made';
      }
    }
  }

  lemma EntryIsValid(entries: seq<ManifestEntry>, remaining: Remaining, made: seq<Made>, path: PathText)
    requires AllValid(entries) && Ledger(entries, remaining, made) && Components(path) in remaining
    ensures ValidateRelativePath(path) == None ==> remaining[Components(path)].path == path
  {
    var e := remaining[Components(path)];
    assert EntryError(e) == None;
    hide Components, ValidateRelativePath, EntryError;
    if ValidateRelativePath(path) == None {
      ValidEntryPath(e);
      SameComponentsSameText(path, e.path);
    }
  }

  lemma ValidEntryPath(e: ManifestEntry)
    requires EntryError(e) == None
    ensures ValidateRelativePath(e.path) == None
  {
  }

  // ---------------------------------------------------------------------------------------------
  // Every frame keeps the invariant; a frame that fails changes nothing.

  ghost predicate StepKeeps(env: Env, before: Tree, entries: seq<ManifestEntry>, s: State, p: Progress) {
    match p
    case Going(s') => Inv(env, before, entries, s')
    case Stopped(tree, made, error) => tree == s.tree && made == s.made && error != AlreadyConsumed
  }

  lemma DirectoryKeeps(env: Env, before: Tree, entries: seq<ManifestEntry>, s: State, path: PathText)
    requires Inv(env, before, entries, s) && KeysDiffer(entries) && AllValid(entries)
    ensures StepKeeps(env, before, entries, s, OnDirectory(env, s, path))
  {
    hide Components, ValidateRelativePath, CreateDirAll, Split;
    var p := OnDirectory(env, s, path);
    if p.Going? {
      var key := Components(path);
      var target := SafeJoin(env.destination, path);
      var m := Made(s.remaining[key], target, []);
      EntryIsValid(entries, s.remaining, s.made, path);
      LedgerTake(entries, s.remaining, s.made, key, m);
      MadeFolder(env, before, s, target, m);
      CurrentIsAFile(s, key);
      hide Ledger, Faithful, SafeJoin;
      assert p.state == State(CreateDirAll(s.tree, target).value, s.remaining - {key}, s.current, s.made + [m]);
    }
  }

  lemma CurrentIsAFile(s: State, key: seq<Component>)
    requires CurrentExpected(s.remaining, s.current) && key in s.remaining && s.remaining[key].kind.Directory?
    ensures CurrentExpected(s.remaining - {key}, s.current)
  {
    hide Components;
  }

  lemma MadeFolder(env: Env, before: Tree, s: State, target: Location, m: Made)
    requires Faithful(env, before, s.tree, s.made) && CreateDirAll(s.tree, target).Some?
    requires m.at == target == SafeJoin(env.destination, m.entry.path) && m.entry.kind.Directory?
    requires PathsDiffer(s.made + [m])
    ensures Faithful(env, before, CreateDirAll(s.tree, target).value, s.made + [m])
  {
    hide CreateDirAll, SafeJoin;
    var made' := s.made + [m];
    assert m in made' && target <= m.at;
    CreateDirAllAdds(s.tree, target);
    FoldersKeepPlaced(env, before, s.tree, s.made, target);
    FoldersExplained(env, before, s.tree, s.made, target, made');
    hide Explained;
    assert Placed(env, before, CreateDirAll(s.tree, target).value, m);
  }

  lemma FileStartKeeps(env: Env, before: Tree, entries: seq<ManifestEntry>, s: State, path: PathText, size: U64, blake3: Digest)
    requires Inv(env, before, entries, s)
    ensures StepKeeps(env, before, entries, s, OnFileStart(env, s, path, size, blake3))
  {
    hide Components, CreateDirAll, Explained, Placed;
    var p := OnFileStart(env, s, path, size, blake3);
    if p.Going? {
      CreateDirAllAdds(s.tree, env.destination);
      FoldersKeepPlaced(env, before, s.tree, s.made, env.destination);
      FoldersExplained(env, before, s.tree, s.made, env.destination, s.made);
    }
  }

  /** The chosen path is free of every file placed earlier. */
  lemma ChosenIsNew(env: Env, before: Tree, entries: seq<ManifestEntry>, s: State, path: PathText)
    requires Inv(env, before, entries, s) && AllValid(entries) && ValidateRelativePath(path) == None
    requires Components(path) in s.remaining
    ensures forall m :: m in s.made && m.entry.kind.File? ==> m.at != ChosenPath(env, s.tree, path)
    ensures Parent(ChosenPath(env, s.tree, path)) == Parent(SafeJoin(env.destination, path))
    ensures if env.overwrite then ChosenPath(env, s.tree, path) == SafeJoin(env.destination, path)
            else ChosenPath(env, s.tree, path) !in s.tree
                 && OwnOrNumbered(SafeJoin(env.destination, path), ChosenPath(env, s.tree, path))
  {
    hide Components, ValidateRelativePath, NonOverwritingPath;
    var target := SafeJoin(env.destination, path);
    NonOverwritingIsFree(s.tree, target);
    forall m | m in s.made && m.entry.kind.File? ensures m.at != ChosenPath(env, s.tree, path) {
      assert Placed(env, before, s.tree, m);
      if env.overwrite {
        assert m.entry in entries;
        assert EntryError(m.entry) == None;
        SameComponentsSameText(m.entry.path, path);
        assert Split(m.entry.path) != Split(path);
        if m.at == target {
          SplitConcat(env.destination, Split(m.entry.path), env.destination, Split(path));
        }
      }
    }
  }

  lemma FileEndKeeps(env: Env, before: Tree, entries: seq<ManifestEntry>, s: State)
    requires Inv(env, before, entries, s) && KeysDiffer(entries) && AllValid(entries)
    ensures StepKeeps(env, before, entries, s, OnFileEnd(env, s))
  {
    if s.current.Some? && ValidateRelativePath(s.current.value.path) == None
       && s.current.value.BytesWritten() == s.current.value.size && env.hash(s.current.value.content) == s.current.value.blake3 {
      ChosenIsNew(env, before, entries, s, s.current.value.path);
      PlaceKeeps(env, before, entries, s, s.current.value, ChosenPath(env, s.tree, s.current.value.path));
    }
  }

  lemma PlaceKeeps(env: Env, before: Tree, entries: seq<ManifestEntry>, s: State, active: ActiveFile, at: Location)
    requires Inv(env, before, entries, s) && KeysDiffer(entries) && AllValid(entries) && s.current == Some(active)
    requires ValidateRelativePath(active.path) == None && at != []
    requires active.BytesWritten() == active.size && env.hash(active.content) == active.blake3
    requires forall m :: m in s.made && m.entry.kind.File? ==> m.at != at
    requires Parent(at) == Parent(SafeJoin(env.destination, active.path))
    requires if env.overwrite then at == SafeJoin(env.destination, active.path)
             else at !in s.tree && OwnOrNumbered(SafeJoin(env.destination, active.path), at)
    ensures StepKeeps(env, before, entries, s, Place(s, active, at))
  {
    hide Components, ValidateRelativePath, CreateDirAll, Split, SafeJoin;
    var p := Place(s, active, at);
    if CreateDirAll(s.tree, Parent(at)).Some? {
      var withParent := CreateDirAll(s.tree, Parent(at)).value;
      if Persist(withParent, at, active.content).None? {
        PersistFailureIsNoChange(s.tree, at, active.content);
      } else {
        var key := Components(active.path);
        var m := Made(s.remaining[key], at, active.content);
        EntryIsValid(entries, s.remaining, s.made, active.path);
        LedgerTake(entries, s.remaining, s.made, key, m);
        assert Going(p.state) == p;
        PlacedTree(env, before, s, at, m);
      }
    }
  }

  lemma PlacedTree(env: Env, before: Tree, s: State, at: Location, m: Made)
    requires Faithful(env, before, s.tree, s.made) && at != [] && m.at == at && m.entry.kind.File?
    requires CreateDirAll(s.tree, Parent(at)).Some?
    requires Persist(CreateDirAll(s.tree, Parent(at)).value, at, m.content).Some?
    requires |m.content| % U64_LIMIT == m.entry.size && m.entry.blake3 == Some(env.hash(m.content))
    requires forall x :: x in s.made && x.entry.kind.File? ==> x.at != at
    requires Parent(at) == Parent(SafeJoin(env.destination, m.entry.path))
    requires if env.overwrite then at == SafeJoin(env.destination, m.entry.path)
             else at !in s.tree && OwnOrNumbered(SafeJoin(env.destination, m.entry.path), at)
    requires PathsDiffer(s.made + [m])
    ensures Faithful(env, before, Persist(CreateDirAll(s.tree, Parent(at)).value, at, m.content).value, s.made + [m])
  {
    hide CreateDirAll, SafeJoin, IsTree;
    var withParent := CreateDirAll(s.tree, Parent(at)).value;
    var tree := Persist(withParent, at, m.content).value;
    var made' := s.made + [m];
    assert m in made' && Parent(at) <= m.at;
    CreateDirAllAdds(s.tree, Parent(at));
    FoldersKeepPlaced(env, before, s.tree, s.made, Parent(at));
    FoldersExplained(env, before, s.tree, s.made, Parent(at), made');
    PersistKeepsTree(withParent, at, m.content);
    PersistKeepsPlaced(env, before, withParent, s.made, at, m.content);
    PersistExplained(env, before, withParent, made', at, m.content);
    assert Placed(env, before, tree, m);
  }

  lemma FrameKeeps(env: Env, before: Tree, entries: seq<ManifestEntry>, s: State, frame: ArchiveFrame)
    requires Inv(env, before, entries, s) && KeysDiffer(entries) && AllValid(entries)
    ensures StepKeeps(env, before, entries, s, OnFrame(env, s, frame))
  {
    hide Faithful, Ledger, Components, OnFileEnd, OnDirectory, OnFileStart;
    match frame
    case ManifestFrame(_) =>
    case DirectoryFrame(path) => DirectoryKeeps(env, before, entries, s, path);
    case FileStart(path, size, blake3) => FileStartKeeps(env, before, entries, s, path, size, blake3);
    case FileChunk(_) =>
    case FileEnd => FileEndKeeps(env, before, entries, s);
  }

  // ---------------------------------------------------------------------------------------------
  // Whole streams.

  predicate MadeFrom(entries: seq<ManifestEntry>, made: seq<Made>) {
    forall m :: m in made ==> m.entry in entries
  }

  lemma {:induction false} ConsumeKeeps(env: Env, codec: FramesCodec, before: Tree, entries: seq<ManifestEntry>, s: State,
                                        bytes: Bytes, broken: bool)
    requires Inv(env, before, entries, s) && KeysDiffer(entries) && AllValid(entries)
    ensures match Consume(env, codec, s, bytes, broken)
            case Going(s') => Inv(env, before, entries, s') && s'.remaining == map[]
            case Stopped(tree, made, error) =>
              Faithful(env, before, tree, made) && error != AlreadyConsumed && MadeFrom(entries, made)
    decreases |bytes|
  {
    hide Inv, OnFrame, ReadFrame, KeysDiffer, AllValid;
    match ReadFrame(codec, bytes, broken)
    case ReadError => InvIsFaithful(env, before, entries, s);
    case EndOfStream => InvIsFaithful(env, before, entries, s);
    case Frame(frame, rest) =>
      FrameKeeps(env, before, entries, s, frame);
      match OnFrame(env, s, frame)
      case Stopped(_, _, _) => InvIsFaithful(env, before, entries, s);
      case Going(s') => ConsumeKeeps(env, codec, before, entries, s', rest, broken);
  }

  lemma InvIsFaithful(env: Env, before: Tree, entries: seq<ManifestEntry>, s: State)
    requires Inv(env, before, entries, s)
    ensures Faithful(env, before, s.tree, s.made) && MadeFrom(entries, s.made)
  {
  }

  lemma {:induction false} ValidationCovers(entries: seq<ManifestEntry>)
    ensures ValidateEntries(entries) == None <==> AllValid(entries)
  {
    hide EntryError;
    if entries != [] {
      ValidationCovers(entries[1..]);
      assert entries == [entries[0]] + entries[1..];
    }
  }

  predicate Covers(entries: seq<ManifestEntry>, remaining: Remaining) {
    && (forall key :: key in remaining ==> remaining[key] in entries && Components(remaining[key].path) == key)
    && (forall e :: e in entries ==> Components(e.path) in remaining)
  }

  lemma KeyIsTaken(entries: seq<ManifestEntry>, last: ManifestEntry, remaining: Remaining)
    requires KeysDiffer(entries) && Covers(entries, remaining)
    ensures Components(last.path) in remaining <==> !KeysDiffer(entries + [last])
  {
    hide Components;
    var all := entries + [last];
    if Components(last.path) in remaining {
      var i :| 0 <= i < |entries| && entries[i] == remaining[Components(last.path)];
      assert all[i] == entries[i] && all[|entries|] == last;
    } else {
      forall i | 0 <= i < |entries| ensures Components(all[i].path) != Components(last.path) {
        assert all[i] == entries[i] && entries[i] in entries;
      }
    }
  }

  lemma KeysDifferPrefix(entries: seq<ManifestEntry>, last: ManifestEntry)
    requires KeysDiffer(entries + [last])
    ensures KeysDiffer(entries)
  {
    hide Components;
    var all := entries + [last];
    assert forall i :: 0 <= i < |entries| ==> all[i] == entries[i];
  }

  lemma CoversOneMore(entries: seq<ManifestEntry>, last: ManifestEntry, remaining: Remaining)
    requires Covers(entries, remaining) && Components(last.path) !in remaining
    ensures Covers(entries + [last], remaining[Components(last.path) := last])
  {
    hide Components;
  }

  /** Collecting succeeds exactly when no two entries have the same path, and then holds exactly the entries. */
  lemma {:induction false} CollectedExactly(entries: seq<ManifestEntry>)
    ensures ExpectedEntries(entries).Some? <==> KeysDiffer(entries)
    ensures ExpectedEntries(entries).Some? ==> Covers(entries, ExpectedEntries(entries).value)
    decreases |entries|
  {
    if entries != [] {
      var earlier, last := entries[..|entries| - 1], entries[|entries| - 1];
      CollectedExactly(earlier);
      assert entries == earlier + [last];
      hide Components, KeysDiffer, Covers;
      if ExpectedEntries(earlier).Some? {
        KeyIsTaken(earlier, last, ExpectedEntries(earlier).value);
        if Components(last.path) !in ExpectedEntries(earlier).value {
          CoversOneMore(earlier, last, ExpectedEntries(earlier).value);
        }
      } else if KeysDiffer(entries) {
        KeysDifferPrefix(earlier, last);
      }
    }
  }

  /** Each entry was made exactly once, and nothing else was. */
  ghost predicate EachOnce(entries: seq<ManifestEntry>, made: seq<Made>) {
    && PathsDiffer(made)
    && KeysDiffer(entries)
    && (forall m :: m in made ==> m.entry in entries)
    && (forall e :: e in entries ==> IsMade(made, e))
  }

  lemma NothingMade(env: Env, tree: Tree)
    requires IsTree(tree)
    ensures Faithful(env, tree, tree, [])
  {
  }

  lemma StartsWell(env: Env, tree: Tree, entries: seq<ManifestEntry>, remaining: Remaining)
    requires IsTree(tree) && Covers(entries, remaining)
    ensures Inv(env, tree, entries, State(tree, remaining, None, []))
  {
    hide Components;
    NothingMade(env, tree);
  }

  lemma EndsWell(env: Env, before: Tree, entries: seq<ManifestEntry>, s: State)
    requires Inv(env, before, entries, s) && s.remaining == map[] && KeysDiffer(entries)
    ensures EachOnce(entries, s.made)
  {
    hide Components;
  }

  lemma SameFrame(codec: FramesCodec, bytes: Bytes, broken: bool)
    ensures ReadFrame(codec, bytes, broken).Frame? ==> ReadFrame(codec, bytes, broken) == ReadFrame(codec, bytes, false)
    ensures ReadFrame(codec, bytes, false).Frame? ==> ReadFrame(codec, bytes, broken) == ReadFrame(codec, bytes, false)
  {
  }

  /** For every stream: the disk is explained by the entries that were made, whether unpacking succeeds or
      fails, only listed entries were made, the error for an entry consumed twice never occurs, and success means
      that each manifest entry was made exactly once. */
  lemma UnpackIsSound(env: Env, codec: FramesCodec, tree: Tree, bytes: Bytes, broken: bool)
    requires IsTree(tree)
    ensures var r := UnpackRawArchive(env, codec, tree, bytes, broken);
            && Faithful(env, tree, r.tree, r.made)
            && r.result != Err(AlreadyConsumed)
            && MadeFrom(ListedIn(codec, bytes), r.made)
            && (r.result.Ok? ==> EachOnce(r.result.value.entries, r.made) && r.result.value.entries == ListedIn(codec, bytes))
  {
    SameFrame(codec, bytes, broken);
    hide ReadFrame, Consume, Faithful, EachOnce, Inv, Covers, AllValid, KeysDiffer, ValidateEntries, ExpectedEntries, IsTree;
    NothingMade(env, tree);
    match ReadFrame(codec, bytes, broken)
    case Frame(first, rest) =>
      if first.ManifestFrame? {
        var entries := first.manifest.entries;
        ValidationCovers(entries);
        CollectedExactly(entries);
        ValidationErrors(entries);
        if ValidateEntries(entries) == None && ExpectedEntries(entries).Some? {
          var s := State(tree, ExpectedEntries(entries).value, None, []);
          StartsWell(env, tree, entries, s.remaining);
          ConsumeKeeps(env, codec, tree, entries, s, rest, broken);
          var p := Consume(env, codec, s, rest, broken);
          if p.Going? {
            InvIsFaithful(env, tree, entries, p.state);
            EndsWell(env, tree, entries, p.state);
          }
        }
      }
    case _ =>
  }

  lemma {:induction false} ValidationErrors(entries: seq<ManifestEntry>)
    ensures ValidateEntries(entries) != Some(AlreadyConsumed)
  {
    if entries != [] {
      ValidationErrors(entries[1..]);
    }
  }

  /** Without permission to replace, everything that existed stays as it was, whether unpacking succeeds or
      fails, and the files it completed are at paths that were free and that all differ. */
  lemma ExistingFilesAreKept(env: Env, codec: FramesCodec, tree: Tree, bytes: Bytes, broken: bool)
    requires IsTree(tree) && !env.overwrite
    ensures var r := UnpackRawArchive(env, codec, tree, bytes, broken);
            && (forall loc :: loc in tree ==> loc in r.tree && r.tree[loc] == tree[loc])
            && (forall m :: m in r.made && m.entry.kind.File? ==>
              m.at !in tree && m.at in r.tree && r.tree[m.at] == Content(m.content))
            && FilesDiffer(r.made)
  {
    hide UnpackRawArchive;
    UnpackIsSound(env, codec, tree, bytes, broken);
    var r := UnpackRawArchive(env, codec, tree, bytes, broken);
    forall loc | loc in tree ensures loc in r.tree && r.tree[loc] == tree[loc] {
      assert Explained(env, tree, r.tree, r.made, loc);
      assert forall m :: m in r.made ==> Placed(env, tree, r.tree, m);
    }
    assert forall m :: m in r.made ==> Placed(env, tree, r.tree, m);
  }

  /** Even with permission to replace, nothing changes outside the destination except that the folders on the
      way to it may appear. */
  lemma NothingOutsideChanges(env: Env, codec: FramesCodec, tree: Tree, bytes: Bytes, broken: bool, loc: Location)
    requires IsTree(tree) && !(env.destination <= loc)
    ensures var r := UnpackRawArchive(env, codec, tree, bytes, broken);
            && (loc in tree ==> loc in r.tree && r.tree[loc] == tree[loc])
            && (loc in r.tree && loc !in tree ==> loc <= env.destination && r.tree[loc].Folder?)
  {
    hide UnpackRawArchive;
    UnpackIsSound(env, codec, tree, bytes, broken);
    var r := UnpackRawArchive(env, codec, tree, bytes, broken);
    forall m | m in r.made ensures env.destination <= m.at && m.at != env.destination {
      assert Placed(env, tree, r.tree, m);
      MadeIsInside(env, tree, r.tree, m);
    }
    if loc in r.tree {
      assert Explained(env, tree, r.tree, r.made, loc);
      if m :| m in r.made && loc <= m.at {
        BothPrefixes(loc, env.destination, m.at);
      }
    }
  }

  lemma BothPrefixes(a: Location, b: Location, c: Location)
    requires a <= c && b <= c
    ensures a <= b || b <= a
  {
    if |a| <= |b| {
      assert a == c[..|a|] == b[..|a|];
    } else {
      assert b == c[..|b|] == a[..|b|];
    }
  }

  lemma MadeIsInside(env: Env, before: Tree, tree: Tree, m: Made)
    requires Placed(env, before, tree, m)
    ensures env.destination <= m.at && m.at != env.destination
  {
    var target := SafeJoin(env.destination, m.entry.path);
    assert |target| > |env.destination|;
    if m.entry.kind.File? {
      assert Parent(m.at) == Parent(target);
      assert |m.at| == |target|;
      assert env.destination <= Parent(target);
    }
  }

  // ---------------------------------------------------------------------------------------------
  // Through the compression, and cut short.

  lemma FaithfulFromEarlier(env: Env, before: Tree, between: Tree, tree: Tree, made: seq<Made>)
    requires WithFolders(before, env.destination, between) && Faithful(env, between, tree, made)
    ensures Faithful(env, before, tree, made)
  {
    hide IsTree, SafeJoin, PathsDiffer, FilesDiffer;
    forall m | m in made ensures Placed(env, before, tree, m) {
      assert Placed(env, between, tree, m);
    }
    forall loc | loc in tree ensures Explained(env, before, tree, made, loc) {
      assert Explained(env, between, tree, made, loc);
    }
  }

  lemma CutListsLess(codec: FramesCodec, raw: Bytes, n: nat)
    requires n <= |raw|
    ensures ListedIn(codec, raw[..n]) == ListedIn(codec, raw) || ListedIn(codec, raw[..n]) == []
  {
    hide FromBigEndian;
    var cut := raw[..n];
    if n >= 4 {
      assert cut[..4] == raw[..4];
      var len := FromBigEndian(raw[..4]);
      if n - 4 >= len {
        assert cut[4..4 + len] == raw[4..4 + len];
      }
    }
  }

  lemma BaseIsSound(env: Env, tree: Tree, compression: Compression)
    requires IsTree(tree) && BaseFor(env, tree, compression).Some?
    ensures IsTree(BaseFor(env, tree, compression).value)
    ensures compression.CompressLzma? ==> WithFolders(tree, env.destination, BaseFor(env, tree, compression).value)
  {
    hide CreateDirAll;
    if compression.CompressLzma? {
      CreateDirAllAdds(tree, env.destination);
    }
  }

  lemma RawIsSound(env: Env, codec: FramesCodec, tree: Tree, compression: Compression, raw: Bytes, broken: bool)
    requires IsTree(tree) && BaseFor(env, tree, compression).Some?
    ensures var base := BaseFor(env, tree, compression).value;
            var r := UnpackRawArchive(env, codec, base, raw, broken);
            && Faithful(env, tree, r.tree, r.made) && MadeFrom(ListedIn(codec, raw), r.made)
            && (r.result.Ok? ==> EachOnce(r.result.value.entries, r.made) && r.result.value.entries == ListedIn(codec, raw))
            && Faithful(env, tree, base, [])
  {
    hide CreateDirAll, UnpackRawArchive, Faithful, MadeFrom, EachOnce, IsTree;
    BaseIsSound(env, tree, compression);
    var base := BaseFor(env, tree, compression).value;
    UnpackIsSound(env, codec, base, raw, broken);
    NothingMade(env, base);
    if compression.CompressLzma? {
      FaithfulFromEarlier(env, tree, base, base, []);
      FaithfulFromEarlier(env, tree, base, UnpackRawArchive(env, codec, base, raw, broken).tree,
                          UnpackRawArchive(env, codec, base, raw, broken).made);
    }
  }

  /** Whatever the archive holds, and wherever its unpacking is cut short, what is on disk is explained by
      listed entries. */
  lemma ArchiveIsSound(env: Env, codec: FramesCodec, packer: Packer, tree: Tree, compression: Compression, bytes: Bytes, n: nat)
    requires IsTree(tree)
    ensures var r := UnpackArchive(env, codec, packer, tree, compression, bytes);
            && Faithful(env, tree, r.tree, r.made) && MadeFrom(Listed(codec, packer, compression, bytes), r.made)
            && (r.result.Ok? ==> EachOnce(Listed(codec, packer, compression, bytes), r.made))
    ensures var cut := UnpackCut(env, codec, packer, tree, compression, bytes, n);
            Faithful(env, tree, cut.tree, cut.made) && MadeFrom(Listed(codec, packer, compression, bytes), cut.made)
  {
    hide BaseFor, UnpackRawArchive, Faithful, ListedIn, IsTree, EachOnce;
    NothingMade(env, tree);
    if BaseFor(env, tree, compression).Some? {
      RawIsSound(env, codec, tree, compression, [], false);
      if RawOf(packer, compression, bytes).Some? {
        var (raw, broken) := RawOf(packer, compression, bytes).value;
        RawIsSound(env, codec, tree, compression, raw, broken);
        RawIsSound(env, codec, tree, compression, raw, false);
        if n < |raw| {
          RawIsSound(env, codec, tree, compression, raw[..n], false);
          CutListsLess(codec, raw, n);
        }
      }
    }
  }

  // ---------------------------------------------------------------------------------------------
  // A folder inside the destination that unpacking may or may not reach.

  ghost predicate Untouched(root: Location, before: Tree, tree: Tree) {
    forall loc :: root <= loc ==> (loc in before <==> loc in tree) && (loc in before ==> before[loc] == tree[loc])
  }

  function NodeMade(m: Made): Node {
    if m.entry.kind.Directory? then Folder else Content(m.content)
  }

  /** What was made inside `root` is what was there already. */
  ghost predicate NothingNewInside(root: Location, before: Tree, made: seq<Made>) {
    forall m :: m in made && root <= m.at ==> m.at in before && before[m.at] == NodeMade(m)
  }

  lemma InsideIsExplained(env: Env, before: Tree, tree: Tree, made: seq<Made>, root: Location, loc: Location)
    requires IsTree(before) && loc in tree && Explained(env, before, tree, made, loc) && env.destination < root <= loc
    requires AllPlaced(env, before, tree, made) && NothingNewInside(root, before, made)
    ensures loc in before && before[loc] == tree[loc]
  {
    hide SafeJoin, IsTree;
    if loc !in before && tree[loc].Folder? && !(loc <= env.destination) {
      if m :| m in made && loc <= m.at {
        PrefixTransitive(root, loc, m.at);
        OnTheWayExists(before, loc, m.at);
      }
    }
    if m :| m in made && m.entry.kind.File? && loc == m.at {
      assert Placed(env, before, tree, m);
    }
    assert !(loc <= env.destination);
  }

  lemma OnTheWayExists(tree: Tree, loc: Location, longer: Location)
    requires IsTree(tree) && longer in tree && loc <= longer
    ensures loc in tree
  {
    assert loc == longer[..|loc|];
    if |loc| < |longer| {
      PrefixesAreFolders(tree, longer, |loc|);
    } else {
      assert loc == longer;
    }
  }

  /** Unpacking leaves a folder inside the destination alone exactly when whatever it made in there was there
      already, with the same content. */
  lemma RootUntouchedExactly(env: Env, before: Tree, tree: Tree, made: seq<Made>, root: Location)
    requires IsTree(before) && Faithful(env, before, tree, made) && env.destination < root
    ensures Untouched(root, before, tree) <==> NothingNewInside(root, before, made)
  {
    hide Placed, Explained, IsTree;
    if NothingNewInside(root, before, made) {
      forall loc | root <= loc && loc in tree ensures loc in before && before[loc] == tree[loc] {
        InsideIsExplained(env, before, tree, made, root, loc);
      }
    }
    if Untouched(root, before, tree) {
      forall m | m in made && root <= m.at ensures m.at in before && before[m.at] == NodeMade(m) {
        MadeIsThere(env, before, tree, m);
      }
    }
  }

  lemma MadeIsThere(env: Env, before: Tree, tree: Tree, m: Made)
    requires Placed(env, before, tree, m)
    ensures m.at in tree && tree[m.at] == NodeMade(m)
  {
  }

  const OPENING_PARENTHESIS: Byte := 40

  lemma NumberedNamesAreMarked(name: Bytes, i: nat)
    ensures OPENING_PARENTHESIS in Numbered(name, i)
  {
    assert Numbered(name, i)[|FileStem(name)| + 1] == OPENING_PARENTHESIS;
  }

  lemma NumberingKeepsOthersOut(target: Location, at: Location, k: nat, name: Bytes)
    requires k < |target| && OwnOrNumbered(target, at) && OPENING_PARENTHESIS !in name && target[k] != name
    ensures k < |at| && at[k] != name
  {
    if at != target {
      var i: nat :| at == Candidate(target, i);
      NumberedNamesAreMarked(target[|target| - 1], i);
      if k == |target| - 1 {
        assert at[k] == Numbered(target[k], i);
      }
    }
  }

  /** A path whose first name is another one stays outside, also when its file gets a numbered name. */
  lemma OtherNamesStayOutside(env: Env, before: Tree, tree: Tree, m: Made, name: Bytes)
    requires Placed(env, before, tree, m) && OPENING_PARENTHESIS !in name && Split(m.entry.path)[0] != name
    ensures !(env.destination + [name] <= m.at)
  {
    var target := SafeJoin(env.destination, m.entry.path);
    var k := |env.destination|;
    assert target[k] == Split(m.entry.path)[0];
    NumberingKeepsOthersOut(target, m.at, k, name);
    assert (env.destination + [name])[k] == name;
  }

  /** No listed path starts with the name. */
  predicate StaysOutside(entries: seq<ManifestEntry>, name: Bytes) {
    forall e :: e in entries ==> Split(e.path)[0] != name
  }

  /** Unpacking entries none of whose paths starts with a name leaves what is under that name alone. */
  lemma OutsideLeavesAlone(env: Env, before: Tree, tree: Tree, made: seq<Made>, entries: seq<ManifestEntry>, name: Bytes)
    requires IsTree(before) && Faithful(env, before, tree, made) && MadeFrom(entries, made)
    requires StaysOutside(entries, name) && OPENING_PARENTHESIS !in name
    ensures Untouched(env.destination + [name], before, tree)
  {
    hide Placed, Explained, IsTree, Split;
    forall m | m in made ensures !(env.destination + [name] <= m.at) {
      OtherNamesStayOutside(env, before, tree, m, name);
    }
    RootUntouchedExactly(env, before, tree, made, env.destination + [name]);
  }

  /** The file is there already, as far as size and hash tell. */
  predicate HasAlready(env: Env, before: Tree, e: ManifestEntry, target: Location) {
    && target in before && before[target].Content?
    && |before[target].bytes| % U64_LIMIT == e.size && e.blake3 == Some(env.hash(before[target].bytes))
  }

  /** A listed entry that keeps out of a folder of the destination or is there already: a folder, or a file that
      may be replaced by itself. A file of the folder's own name lands beside it if nothing may be replaced. */
  predicate Harmless(env: Env, before: Tree, e: ManifestEntry, name: Bytes) {
    var target := SafeJoin(env.destination, e.path);
    Split(e.path)[0] == name ==>
      if e.kind.Directory? then IsFolder(before, target)
      else if env.overwrite then HasAlready(env, before, e, target)
      else |Split(e.path)| == 1
  }

  /** Nothing else has the hash of a file that is there. */
  ghost predicate HashesTell(env: Env, before: Tree) {
    forall loc, other: Bytes :: loc in before && before[loc].Content? && env.hash(other) == env.hash(before[loc].bytes)
      ==> other == before[loc].bytes
  }

  lemma HarmlessFile(env: Env, before: Tree, tree: Tree, m: Made, name: Bytes)
    requires IsFolder(before, env.destination + [name]) && HashesTell(env, before) && m.entry.kind.File?
    requires Placed(env, before, tree, m) && Split(m.entry.path)[0] == name
    ensures Harmless(env, before, m.entry, name) <==>
            (env.destination + [name] <= m.at ==> m.at in before && before[m.at] == Content(m.content))
  {
    var root, target := env.destination + [name], SafeJoin(env.destination, m.entry.path);
    var k := |env.destination|;
    assert root <= target by { assert target[k] == name && target[..k + 1] == root; }
    if !env.overwrite {
      if |Split(m.entry.path)| == 1 {
        assert target == root;
        assert root <= m.at ==> m.at == root;
      } else {
        assert root <= Parent(target) == Parent(m.at) <= m.at;
      }
    }
  }

  lemma HarmlessMade(env: Env, before: Tree, tree: Tree, m: Made, name: Bytes)
    requires IsFolder(before, env.destination + [name]) && OPENING_PARENTHESIS !in name && HashesTell(env, before)
    requires Placed(env, before, tree, m)
    ensures Harmless(env, before, m.entry, name) <==>
            (env.destination + [name] <= m.at ==> m.at in before && before[m.at] == NodeMade(m))
  {
    var root, target := env.destination + [name], SafeJoin(env.destination, m.entry.path);
    if Split(m.entry.path)[0] != name {
      OtherNamesStayOutside(env, before, tree, m, name);
    } else if m.entry.kind.File? {
      hide Placed, Harmless, HashesTell;
      HarmlessFile(env, before, tree, m, name);
    } else {
      var k := |env.destination|;
      assert root <= target by { assert target[k] == name && target[..k + 1] == root; }
    }
  }

  /** A folder that was in the destination is left alone exactly when each entry that was made keeps out of it, is
      a folder that was there or, where files may be replaced, the same file. */
  lemma MadeLeavesAloneExactly(env: Env, before: Tree, tree: Tree, made: seq<Made>, name: Bytes)
    requires IsTree(before) && Faithful(env, before, tree, made) && HashesTell(env, before)
    requires IsFolder(before, env.destination + [name]) && OPENING_PARENTHESIS !in name
    ensures Untouched(env.destination + [name], before, tree)
            <==> forall m :: m in made ==> Harmless(env, before, m.entry, name)
  {
    hide Placed, Explained, IsTree, Harmless, IsFolder, HashesTell;
    RootUntouchedExactly(env, before, tree, made, env.destination + [name]);
    forall m | m in made
      ensures Harmless(env, before, m.entry, name) <==>
              (env.destination + [name] <= m.at ==> m.at in before && before[m.at] == NodeMade(m))
    {
      HarmlessMade(env, before, tree, m, name);
    }
  }

  /** So, when every entry was made, exactly when all listed entries are like this. */
  lemma AllMadeLeavesAloneExactly(env: Env, before: Tree, tree: Tree, made: seq<Made>, entries: seq<ManifestEntry>, name: Bytes)
    requires IsTree(before) && Faithful(env, before, tree, made) && EachOnce(entries, made) && HashesTell(env, before)
    requires IsFolder(before, env.destination + [name]) && OPENING_PARENTHESIS !in name
    ensures Untouched(env.destination + [name], before, tree)
            <==> forall e :: e in entries ==> Harmless(env, before, e, name)
  {
    MadeLeavesAloneExactly(env, before, tree, made, name);
    hide Faithful, IsTree, Harmless, IsFolder, HashesTell, Untouched;
    forall e | e in entries ensures exists m :: m in made && m.entry == e {
      assert IsMade(made, e);
    }
  }
}
