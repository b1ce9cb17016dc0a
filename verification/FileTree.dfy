/** The file system as unpacking uses it: folders and files by location, the standard library's
    `create_dir_all`, the rename that persists a temporary file, and `non_overwriting_path` of
    crates/peerline-core/src/path.rs. */
module FileTree {
  import opened Bytes
  import opened Paths

  /** The names from the root. */
  type Location = seq<Bytes>

  datatype Node = Folder | Content(bytes: Bytes)

  type Tree = map<Location, Node>

  predicate IsFolder(t: Tree, loc: Location) {
    loc in t && t[loc].Folder?
  }

  function Parent(loc: Location): Location
    requires loc != []
  {
    loc[..|loc| - 1]
  }

  /** Everything lies in a folder. */
  predicate IsTree(t: Tree) {
    && IsFolder(t, [])
    && forall loc :: loc in t && loc != [] ==> IsFolder(t, Parent(loc))
  }

  function CreateDirAll(t: Tree, loc: Location): Option<Tree>
    decreases |loc|
  {
    if loc in t then (if t[loc].Folder? then Some(t) else None)
    else if loc == [] then None
    else
      match CreateDirAll(t, Parent(loc))
      case None => None
      case Some(t') => Some(t'[loc := Folder])
  }

  /** The rename onto `loc`: it replaces a file, never a folder. */
  function Persist(t: Tree, loc: Location, bytes: Bytes): Option<Tree>
    requires loc != []
  {
    if !IsFolder(t, Parent(loc)) || IsFolder(t, loc) then None else Some(t[loc := Content(bytes)])
  }

  // ---------------------------------------------------------------------------------------------

  /** All folders on the way to something that exists. */
  lemma {:induction false} PrefixesAreFolders(t: Tree, loc: Location, n: nat)
    requires IsTree(t) && loc in t && n < |loc|
    ensures IsFolder(t, loc[..n])
    decreases |loc|
  {
    if n < |loc| - 1 {
      PrefixesAreFolders(t, Parent(loc), n);
      assert Parent(loc)[..n] == loc[..n];
    }
  }

  /** What `CreateDirAll` leaves: the folders on the way and nothing else. */
  predicate WithFolders(t: Tree, loc: Location, t': Tree) {
    && IsTree(t')
    && (forall l :: l in t ==> l in t' && t'[l] == t[l])
    && (forall l :: l in t' && l !in t ==> l <= loc && t'[l].Folder?)
    && IsFolder(t', loc)
  }

  lemma {:induction false} CreateDirAllAdds(t: Tree, loc: Location)
    requires IsTree(t) && CreateDirAll(t, loc).Some?
    ensures WithFolders(t, loc, CreateDirAll(t, loc).value)
    decreases |loc|
  {
    if loc !in t && loc != [] {
      CreateDirAllAdds(t, Parent(loc));
    }
  }

  /** It fails exactly when a file is in the way. */
  lemma {:induction false} CreateDirAllFailsExactly(t: Tree, loc: Location)
    requires IsTree(t)
    ensures CreateDirAll(t, loc) == None <==> exists n :: 0 <= n <= |loc| && loc[..n] in t && !IsFolder(t, loc[..n])
    decreases |loc|
  {
    assert loc[..|loc|] == loc;
    if loc in t {
      forall n | 0 <= n < |loc| ensures IsFolder(t, loc[..n]) {
        PrefixesAreFolders(t, loc, n);
      }
    } else {
      CreateDirAllFailsExactly(t, Parent(loc));
      assert forall n :: 0 <= n < |loc| ==> Parent(loc)[..n] == loc[..n];
    }
  }

  lemma PersistKeepsTree(t: Tree, loc: Location, bytes: Bytes)
    requires IsTree(t) && loc != [] && Persist(t, loc, bytes).Some?
    ensures IsTree(Persist(t, loc, bytes).value)
  {
    var t' := Persist(t, loc, bytes).value;
    forall l | l in t' && l != [] ensures IsFolder(t', Parent(l)) {
      assert l == loc || l in t;
      assert IsFolder(t, Parent(l));
    }
  }

  /** A file that cannot be persisted although its folder could be made changed nothing. */
  lemma PersistFailureIsNoChange(t: Tree, loc: Location, bytes: Bytes)
    requires IsTree(t) && loc != [] && CreateDirAll(t, Parent(loc)).Some?
    requires Persist(CreateDirAll(t, Parent(loc)).value, loc, bytes) == None
    ensures CreateDirAll(t, Parent(loc)).value == t && IsFolder(t, loc)
  {
    CreateDirAllAdds(t, Parent(loc));
  }

  // ---------------------------------------------------------------------------------------------
  // Keeping an existing file.

  /** The path with the numbered name. */
  function Candidate(loc: Location, index: nat): Location
    requires loc != []
  {
    Parent(loc) + [Numbered(loc[|loc| - 1], index)]
  }

  lemma CandidateInjective(loc: Location, i: nat, j: nat)
    requires loc != [] && Candidate(loc, i) == Candidate(loc, j)
    ensures i == j
  {
    assert Candidate(loc, i)[|loc| - 1] == Numbered(loc[|loc| - 1], i);
    assert Candidate(loc, j)[|loc| - 1] == Numbered(loc[|loc| - 1], j);
    NumberedInjective(loc[|loc| - 1], i, j);
  }

  predicate AllTaken(t: Tree, loc: Location, index: nat)
    requires loc != []
  {
    forall i :: 1 <= i < index ==> Candidate(loc, i) in t
  }

  /** No more candidates are taken than there are locations. */
  lemma {:induction false} Pigeonhole(t: Tree, loc: Location, index: nat)
    requires loc != [] && index > 0 && AllTaken(t, loc, index)
    ensures index - 1 <= |t|
  {
    if index > 1 {
      var last := Candidate(loc, index - 1);
      var t' := t - {last};
      assert t'.Keys == t.Keys - {last};
      forall i | 1 <= i < index - 1 ensures Candidate(loc, i) in t' {
        if Candidate(loc, i) == last {
          CandidateInjective(loc, i, index - 1);
        }
      }
      Pigeonhole(t', loc, index - 1);
    }
  }

  function FirstFree(t: Tree, loc: Location, index: nat): Location
    requires loc != [] && index > 0 && AllTaken(t, loc, index)
    decreases |t| + 1 - index
  {
    Pigeonhole(t, loc, index);
    if Candidate(loc, index) in t then
      Pigeonhole(t, loc, index + 1);
      FirstFree(t, loc, index + 1)
    else Candidate(loc, index)
  }

  function NonOverwritingPath(t: Tree, loc: Location): Location
    requires loc != []
  {
    if loc in t then FirstFree(t, loc, 1) else loc
  }

  lemma {:induction false} FirstFreeIsFree(t: Tree, loc: Location, index: nat)
    requires loc != [] && index > 0 && AllTaken(t, loc, index)
    ensures FirstFree(t, loc, index) !in t
    ensures exists i :: index <= i <= |t| + 1 && FirstFree(t, loc, index) == Candidate(loc, i) && AllTaken(t, loc, i)
    decreases |t| + 1 - index
  {
    Pigeonhole(t, loc, index);
    if Candidate(loc, index) in t {
      Pigeonhole(t, loc, index + 1);
      FirstFreeIsFree(t, loc, index + 1);
    }
  }

  /** The path it gives is free, in the same folder, and is the wanted one or the first free numbered one,
      whose number is at most one more than the number of existing locations. */
  lemma NonOverwritingIsFree(t: Tree, loc: Location)
    requires loc != []
    ensures NonOverwritingPath(t, loc) !in t
    ensures NonOverwritingPath(t, loc) != [] && Parent(NonOverwritingPath(t, loc)) == Parent(loc)
    ensures loc !in t <==> NonOverwritingPath(t, loc) == loc
    ensures loc in t ==> exists i :: 1 <= i <= |t| + 1 && NonOverwritingPath(t, loc) == Candidate(loc, i) && AllTaken(t, loc, i)
  {
    if loc in t {
      FirstFreeIsFree(t, loc, 1);
    }
  }

  method FindFreePath(t: Tree, path: Location) returns (free: Location)
    requires path != []
    ensures free == NonOverwritingPath(t, path)
    ensures free !in t
  {
    NonOverwritingIsFree(t, path);
    if path !in t {
      return path;
    }
    var parent, name := Parent(path), path[|path| - 1];
    var index := 1;
    var candidate := parent + [Numbered(name, index)];
    while candidate in t
      invariant index > 0 && candidate == Candidate(path, index)
      invariant AllTaken(t, path, index)
      invariant FirstFree(t, path, index) == FirstFree(t, path, 1)
      decreases |t| + 1 - index
    {
      Pigeonhole(t, path, index + 1);
      index := index + 1;
      candidate := parent + [Numbered(name, index)];
    }
    free := candidate;
  }

  /** A directory tree that system calls change. */
  class FileSystem {
    var nodes: Tree

    constructor (nodes: Tree)
      ensures this.nodes == nodes
    {
      this.nodes := nodes;
    }

    method MakeDirs(loc: Location) returns (ok: bool)
      modifies this
      ensures ok <==> CreateDirAll(old(nodes), loc).Some?
      ensures nodes == if ok then CreateDirAll(old(nodes), loc).value else old(nodes)
      decreases |loc|
    {
      if loc in nodes {
        return nodes[loc].Folder?;
      }
      if loc == [] {
        return false;
      }
      ok := MakeDirs(Parent(loc));
      if ok {
        nodes := nodes[loc := Folder];
      }
    }

    method PersistAt(loc: Location, bytes: Bytes) returns (ok: bool)
      requires loc != []
      modifies this
      ensures ok <==> Persist(old(nodes), loc, bytes).Some?
      ensures nodes == if ok then Persist(old(nodes), loc, bytes).value else old(nodes)
      ensures ok <==> IsFolder(old(nodes), Parent(loc)) && !IsFolder(old(nodes), loc)
      ensures ok ==> loc in nodes && nodes[loc] == Content(bytes)
      ensures forall l :: l != loc || !ok ==> (l in nodes <==> l in old(nodes)) && (l in nodes ==> nodes[l] == old(nodes)[l])
      ensures old(IsTree(nodes)) ==> IsTree(nodes)
    {
      ok := Parent(loc) in nodes && nodes[Parent(loc)].Folder? && !(loc in nodes && nodes[loc].Folder?);
      if ok {
        nodes := nodes[loc := Content(bytes)];
      }
    }
  }
}
