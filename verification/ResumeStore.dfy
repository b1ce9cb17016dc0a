/** The partial-archive store of crates/peerline-net/src/resume.rs.

    One directory for each (source, resource) pair holds `archive.part`, `metadata.json` and, while metadata
    is being replaced, `metadata.json.tmp`. Every operation is a list of effects on these files. A crash of the
    process leaves the files as they are after some of the effects, the last of them possibly half done. */
module ResumeStore {
  import opened Bytes
  import opened FileTree
  import opened SecureChannel

  const PARTIAL_RETENTION: nat := 24 * 60 * 60

  type NodeId = n: Bytes | |n| == 16 witness [0, 0, 0, 0, 0, 0, 0, 0, 0, 0, 0, 0, 0, 0, 0, 0]

  type ResourceId = Digest

  datatype Descriptor = Descriptor(
    sourceId: NodeId,
    resourceId: ResourceId,
    archiveBytes: U64,
    logicalBytes: U64,
    files: nat,
    compression: Compression)

  datatype Metadata = Metadata(
    sourceId: NodeId,
    resourceId: ResourceId,
    archiveBytes: U64,
    logicalBytes: U64,
    files: nat,
    receivedBytes: U64,
    updatedAt: nat)

  /** A file that should hold metadata: it does, or it does not parse. */
  datatype MetaFile = Readable(metadata: Metadata) | Garbled

  datatype PartialDir = PartialDir(part: Option<Bytes>, meta: Option<MetaFile>, temp: Option<MetaFile>)

  datatype PartialKey = PartialKey(source: NodeId, resource: ResourceId)

  type Store = map<PartialKey, PartialDir>

  function KeyOf(d: Descriptor): PartialKey {
    PartialKey(d.sourceId, d.resourceId)
  }

  const EMPTY_DIR := PartialDir(None, None, None)

  // ---------------------------------------------------------------------------------------------
  // Effects and crashes.

  datatype Effect =
    | MakeDir(key: PartialKey)
    | RemoveTree(key: PartialKey)
    | AppendPart(key: PartialKey, bytes: Bytes)
    | WriteTemp(key: PartialKey, metadata: Metadata)
    | RenameTemp(key: PartialKey)
    | RemovePart(key: PartialKey)
    | RemoveMeta(key: PartialKey)
    | PruneDir(key: PartialKey)

  /** The bytes of `archive.part`, none when the file is absent. */
  function PartOf(s: Store, key: PartialKey): Bytes {
    if key in s && s[key].part.Some? then s[key].part.value else []
  }

  function Apply(s: Store, e: Effect): Store {
    if e.MakeDir? then (if e.key in s then s else s[e.key := EMPTY_DIR])
    else if e.key !in s then s
    else
      var dir := s[e.key];
      match e
      case RemoveTree(key) => s - {key}
      case AppendPart(key, bytes) => s[key := dir.(part := Some(PartOf(s, key) + bytes))]
      case WriteTemp(key, metadata) => s[key := dir.(temp := Some(Readable(metadata)))]
      case RenameTemp(key) => s[key := dir.(meta := dir.temp, temp := None)]
      case RemovePart(key) => s[key := dir.(part := None)]
      case RemoveMeta(key) => s[key := dir.(meta := None)]
      case PruneDir(key) => if dir == EMPTY_DIR then s - {key} else s
  }

  function Run(s: Store, effects: seq<Effect>): Store
    decreases |effects|
  {
    if effects == [] then s
    else Apply(Run(s, effects[..|effects| - 1]), effects[|effects| - 1])
  }

  predicate Remains<T(==)>(left: Option<T>, whole: Option<T>) {
    left == None || left == whole
  }

  /** What a crash inside an effect can leave beyond the states before and after it. */
  ghost predicate Torn(s: Store, e: Effect, left: Store) {
    && e.key in s
    && match e
       case AppendPart(key, bytes) =>
         exists n :: 0 <= n <= |bytes| && left == Apply(s, AppendPart(key, bytes[..n]))
       case WriteTemp(key, _) =>
         left == s[key := s[key].(temp := Some(Garbled))]
       case RemoveTree(key) =>
         && key in left && left == s[key := left[key]]
         && Remains(left[key].part, s[key].part)
         && Remains(left[key].meta, s[key].meta)
         && Remains(left[key].temp, s[key].temp)
       case _ => false
  }

  /** `left` is a state that a crash during the effects can leave. */
  ghost predicate CrashState(s: Store, effects: seq<Effect>, left: Store)
    decreases |effects|
  {
    || left == Run(s, effects)
    || (effects != [] &&
        var before := effects[..|effects| - 1];
        Torn(Run(s, before), effects[|effects| - 1], left) || CrashState(s, before, left))
  }

  lemma {:induction false} RunConcat(s: Store, first: seq<Effect>, second: seq<Effect>)
    ensures Run(s, first + second) == Run(Run(s, first), second)
    decreases |second|
  {
    if second == [] {
      assert first + second == first;
    } else {
      var n := |second| - 1;
      assert (first + second)[..|first| + n] == first + second[..n];
      RunConcat(s, first, second[..n]);
    }
  }

  lemma RunNothing(s: Store)
    ensures Run(s, []) == s
  {
  }

  lemma RunOne(s: Store, e: Effect)
    ensures Run(s, [e]) == Apply(s, e)
  {
    assert [e][..0] == [];
  }

  lemma RunThree(s: Store, a: Effect, b: Effect, c: Effect)
    ensures Run(s, [a, b, c]) == Apply(Apply(Apply(s, a), b), c)
  {
    assert [a, b, c][..2] == [a, b] && [a, b][..1] == [a];
    RunOne(s, a);
  }

  // ---------------------------------------------------------------------------------------------
  // The operations as functions of the store.

  /** `updated_at < now - retention`, with a subtraction that stops at zero; unreadable metadata is stale. */
  predicate Stale(dir: PartialDir, now: nat) {
    match dir.meta
    case Some(Readable(m)) => m.updatedAt < (if now < PARTIAL_RETENTION then 0 else now - PARTIAL_RETENTION)
    case _ => true
  }

  function CleanupEffects(s: Store, listing: seq<PartialKey>, now: nat): seq<Effect> {
    if listing == [] then []
    else
      var last := listing[|listing| - 1];
      CleanupEffects(s, listing[..|listing| - 1], now)
      + if last in s && Stale(s[last], now) then [RemoveTree(last)] else []
  }

  /** The directories that are not both listed and stale. */
  function AfterCleanup(s: Store, listing: seq<PartialKey>, now: nat): Store {
    map k | k in s && !(k in listing && Stale(s[k], now)) :: s[k]
  }

  lemma ListOneMore(s: Store, listing: seq<PartialKey>, last: PartialKey, now: nat)
    ensures var kept := AfterCleanup(s, listing, now);
            AfterCleanup(s, listing + [last], now) == if last in s && Stale(s[last], now) then kept - {last} else kept
  {
    hide Stale;
    var kept, less := AfterCleanup(s, listing, now), AfterCleanup(s, listing + [last], now);
    forall k ensures k in less <==> k in kept && !(k == last && Stale(s[k], now)) {
      assert k in listing + [last] <==> k in listing || k == last;
    }
  }

  /** The clean-up keeps exactly the directories that are not both listed and stale, in whatever order the
      file system lists them. */
  lemma CleanupKeepsFresh(s: Store, listing: seq<PartialKey>, now: nat)
    ensures Run(s, CleanupEffects(s, listing, now))
         == map k | k in s && !(k in listing && Stale(s[k], now)) :: s[k]
  {
    CleanupIsFresh(s, listing, now);
    hide Run, CleanupEffects, Stale;
  }

  /** The file system lists each directory once, in any order. */
  ghost predicate Lists(listing: seq<PartialKey>, s: Store) {
    && (forall i, j :: 0 <= i < j < |listing| ==> listing[i] != listing[j])
    && forall k :: k in listing <==> k in s
  }

  ghost function Unexpired(s: Store, now: nat): Store {
    map k | k in s && !Stale(s[k], now) :: s[k]
  }

  lemma AllListed(s: Store, listing: seq<PartialKey>, now: nat)
    requires Lists(listing, s)
    ensures Run(s, CleanupEffects(s, listing, now)) == Unexpired(s, now)
  {
    CleanupKeepsFresh(s, listing, now);
    hide Run, CleanupEffects, Stale;
  }

  lemma {:induction false} CleanupIsFresh(s: Store, listing: seq<PartialKey>, now: nat)
    ensures Run(s, CleanupEffects(s, listing, now)) == AfterCleanup(s, listing, now)
  {
    hide Stale, AfterCleanup;
    if listing == [] {
      NothingListed(s, now);
      RunNothing(s);
    } else {
      var n := |listing| - 1;
      var last := listing[n];
      var before := CleanupEffects(s, listing[..n], now);
      CleanupIsFresh(s, listing[..n], now);
      assert listing == listing[..n] + [last];
      ListOneMore(s, listing[..n], last, now);
      if last in s && Stale(s[last], now) {
        RunConcat(s, before, [RemoveTree(last)]);
        RunOne(Run(s, before), RemoveTree(last));
        RemoveIsMinus(Run(s, before), last);
      } else {
        assert before + [] == before;
      }
      hide Run;
    }
  }

  lemma NothingListed(s: Store, now: nat)
    ensures AfterCleanup(s, [], now) == s
  {
    hide Stale;
  }

  lemma NothingCleaned(s: Store, listing: seq<PartialKey>, now: nat, log: seq<Effect>)
    ensures CleanupEffects(s, listing[..0], now) == [] && Run(s, []) == s && log + [] == log
  {
    RunNothing(s);
    hide Run;
  }

  lemma JournalGrows(log: seq<Effect>, did: seq<Effect>, e: Effect)
    ensures log + (did + [e]) == log + did + [e]
  {
  }

  lemma RemoveIsMinus(s: Store, key: PartialKey)
    ensures Apply(s, RemoveTree(key)) == s - {key}
  {
    assert key !in s ==> s - {key} == s;
  }

  lemma CleanupOneMore(s: Store, listing: seq<PartialKey>, i: nat, now: nat)
    requires i < |listing| && Lists(listing, s)
    ensures var key := listing[i];
            var before := CleanupEffects(s, listing[..i], now);
            var after := CleanupEffects(s, listing[..i + 1], now);
            && key in Run(s, before) && Run(s, before)[key] == s[key]
            && after == before + (if Stale(s[key], now) then [RemoveTree(key)] else [])
            && Run(s, after) == if Stale(s[key], now) then Apply(Run(s, before), RemoveTree(key)) else Run(s, before)
  {
    assert listing[..i + 1][..i] == listing[..i];
    CleanupKeepsFresh(s, listing[..i], now);
    var before := CleanupEffects(s, listing[..i], now);
    if Stale(s[listing[i]], now) {
      RunConcat(s, before, [RemoveTree(listing[i])]);
      RunOne(Run(s, before), RemoveTree(listing[i]));
    } else {
      assert before + [] == before;
    }
  }

  predicate Matches(m: Metadata, d: Descriptor) {
    && m.sourceId == d.sourceId && m.resourceId == d.resourceId && m.archiveBytes == d.archiveBytes
    && m.logicalBytes == d.logicalBytes && m.files == d.files
  }

  /** The partial is kept: both files are there, belong to this transfer and agree on the length. */
  predicate Keeps(dir: PartialDir, d: Descriptor) {
    && dir.part.Some? && dir.meta.Some? && dir.meta.value.Readable?
    && Matches(dir.meta.value.metadata, d)
    && |dir.part.value| <= d.archiveBytes
    && |dir.part.value| == dir.meta.value.metadata.receivedBytes
  }

  function MetadataFor(d: Descriptor, received: U64, now: nat): Metadata {
    Metadata(d.sourceId, d.resourceId, d.archiveBytes, d.logicalBytes, d.files, received, now)
  }

  function WriteMetadataEffects(d: Descriptor, received: U64, now: nat): seq<Effect> {
    [MakeDir(KeyOf(d)), WriteTemp(KeyOf(d), MetadataFor(d, received, now)), RenameTemp(KeyOf(d))]
  }

  function RemovePartialEffects(key: PartialKey): seq<Effect> {
    [RemovePart(key), RemoveMeta(key), PruneDir(key)]
  }

  function DirOf(s: Store, key: PartialKey): PartialDir {
    if key in s then s[key] else EMPTY_DIR
  }

  function OffsetOf(dir: PartialDir, d: Descriptor): U64 {
    if Keeps(dir, d) then |dir.part.value| else 0
  }

  /** What `resume_state` does once expired partials are gone and the directory exists. */
  function ClaimEffects(dir: PartialDir, d: Descriptor, now: nat): seq<Effect> {
    (if !Keeps(dir, d) && (dir.part.Some? || dir.meta.Some?) then RemovePartialEffects(KeyOf(d)) else [])
    + (if OffsetOf(dir, d) == 0 then WriteMetadataEffects(d, 0, now) else [])
  }

  function OpeningEffects(s: Store, listing: seq<PartialKey>, d: Descriptor, now: nat): seq<Effect> {
    CleanupEffects(s, listing, now) + [MakeDir(KeyOf(d))]
  }

  /** The directory as `resume_state` finds it after the clean-up. */
  function FoundDir(s: Store, listing: seq<PartialKey>, d: Descriptor, now: nat): PartialDir {
    DirOf(Run(s, OpeningEffects(s, listing, d, now)), KeyOf(d))
  }

  function ResumeEffects(s: Store, listing: seq<PartialKey>, d: Descriptor, now: nat): seq<Effect> {
    OpeningEffects(s, listing, d, now) + ClaimEffects(FoundDir(s, listing, d, now), d, now)
  }

  function ResumeOffset(s: Store, listing: seq<PartialKey>, d: Descriptor, now: nat): U64 {
    OffsetOf(FoundDir(s, listing, d, now), d)
  }

  datatype StoreError = PartMissing | OffsetOverflow | TooManyBytes | SizeMismatch | HashMismatch

  /** The metadata is written only when the new offset fits the archive; the bytes are appended regardless. */
  function AppendEffects(s: Store, offset: U64, d: Descriptor, bytes: Bytes, now: nat): seq<Effect> {
    if KeyOf(d) !in s then []
    else [AppendPart(KeyOf(d), bytes)]
         + (if offset + |bytes| > d.archiveBytes then [] else WriteMetadataEffects(d, offset + |bytes|, now))
  }

  function AppendResult(s: Store, offset: U64, d: Descriptor, bytes: Bytes): Result<U64, StoreError> {
    if KeyOf(d) !in s then Err(PartMissing)
    else if offset + |bytes| >= U64_LIMIT then Err(OffsetOverflow)
    else if offset + |bytes| > d.archiveBytes then Err(TooManyBytes)
    else Ok(offset + |bytes|)
  }

  /** The caller's offset moves on before the length is checked. */
  function OffsetAfter(s: Store, offset: U64, d: Descriptor, bytes: Bytes): U64 {
    if KeyOf(d) !in s || offset + |bytes| >= U64_LIMIT then offset else offset + |bytes|
  }

  function CompleteResult(hash: Bytes -> ResourceId, s: Store, d: Descriptor): Result<Bytes, StoreError> {
    if KeyOf(d) !in s || s[KeyOf(d)].part.None? then Err(PartMissing)
    else
      var part := s[KeyOf(d)].part.value;
      if |part| != d.archiveBytes then Err(SizeMismatch)
      else if hash(part) != d.resourceId then Err(HashMismatch)
      else Ok(part)
  }

  /** A partial that fails the check is removed; one that cannot be opened is left alone. */
  function CompleteEffects(hash: Bytes -> ResourceId, s: Store, d: Descriptor): seq<Effect> {
    match CompleteResult(hash, s, d)
    case Err(SizeMismatch) => RemovePartialEffects(KeyOf(d))
    case Err(HashMismatch) => RemovePartialEffects(KeyOf(d))
    case _ => []
  }

  /** Neither a part nor metadata is left of a partial. */
  predicate IsGone(s: Store, key: PartialKey) {
    key in s ==> s[key].part.None? && s[key].meta.None?
  }

  /** All but one of the partials are what they were. */
  ghost predicate OthersUnchanged(s: Store, s': Store, key: PartialKey) {
    forall k :: k != key ==> (k in s' <==> k in s) && (k in s ==> s'[k] == s[k])
  }

  // ---------------------------------------------------------------------------------------------
  // The store as the program changes it, with the rest of the disk beside it. The journal is the record of
  // effects that crashes cut short.

  class ResumeDisk {
    var dirs: Store
    var rest: Tree
    ghost var journal: seq<Effect>

    constructor (rest: Tree)
      ensures dirs == map[] && this.rest == rest && journal == []
    {
      dirs, this.rest, journal := map[], rest, [];
    }

    /** This run of the program took the store from `before` to where it is by exactly these effects. */
    twostate predicate Did(effects: seq<Effect>)
      reads this
    {
      journal == old(journal) + effects && dirs == Run(old(dirs), effects) && rest == old(rest)
    }

    method Perform(e: Effect)
      modifies this
      ensures Did([e]) && dirs == Apply(old(dirs), e)
    {
      RunOne(dirs, e);
      dirs, journal := Apply(dirs, e), journal + [e];
    }

    method CleanupExpired(listing: seq<PartialKey>, now: nat)
      requires Lists(listing, dirs)
      modifies this
      ensures Did(CleanupEffects(old(dirs), listing, now))
      ensures dirs == Unexpired(old(dirs), now)
    {
      hide Run, CleanupEffects, Stale, Apply, Unexpired, Lists;
      var i := 0;
      ghost var store, log := dirs, journal;
      ghost var did: seq<Effect> := [];
      NothingCleaned(store, listing, now, log);
      while i < |listing|
        invariant 0 <= i <= |listing|
        invariant did == CleanupEffects(store, listing[..i], now)
        invariant journal == log + did && dirs == Run(store, did) && rest == old(rest)
      {
        CleanupOneMore(store, listing, i, now);
        if Stale(dirs[listing[i]], now) {
          JournalGrows(log, did, RemoveTree(listing[i]));
          Perform(RemoveTree(listing[i]));
          did := did + [RemoveTree(listing[i])];
        }
        i := i + 1;
      }
      assert did == CleanupEffects(store, listing, now) by { assert listing[..i] == listing; }
      AllListed(store, listing, now);
    }

    /** Afterwards the directory is there and its metadata is this; the part and other directories are as they
        were. */
    method WriteMetadata(d: Descriptor, received: U64, now: nat)
      modifies this
      ensures Did(WriteMetadataEffects(d, received, now))
      ensures var dir := DirOf(old(dirs), KeyOf(d));
              dirs == old(dirs)[KeyOf(d) := PartialDir(dir.part, Some(Readable(MetadataFor(d, received, now))), None)]
    {
      RunThree(dirs, MakeDir(KeyOf(d)), WriteTemp(KeyOf(d), MetadataFor(d, received, now)), RenameTemp(KeyOf(d)));
      Perform(MakeDir(KeyOf(d)));
      Perform(WriteTemp(KeyOf(d), MetadataFor(d, received, now)));
      Perform(RenameTemp(KeyOf(d)));
    }

    /** Afterwards there is no part and no metadata, and the directory only stays for a temporary file. */
    method RemovePartial(key: PartialKey)
      modifies this
      ensures Did(RemovePartialEffects(key))
      ensures var temp := DirOf(old(dirs), key).temp;
              dirs == if temp.Some? then old(dirs)[key := PartialDir(None, None, temp)] else old(dirs) - {key}
    {
      RunThree(dirs, RemovePart(key), RemoveMeta(key), PruneDir(key));
      Perform(RemovePart(key));
      Perform(RemoveMeta(key));
      Perform(PruneDir(key));
    }

    /** Keeps a partial that matches the transfer and starts over otherwise. */
    method Claim(d: Descriptor, now: nat) returns (offset: U64)
      requires KeyOf(d) in dirs
      modifies this
      ensures Did(ClaimEffects(old(dirs)[KeyOf(d)], d, now))
      ensures offset == OffsetOf(old(dirs)[KeyOf(d)], d)
    {
      var key := KeyOf(d);
      var dir := dirs[key];
      offset := 0;
      ghost var did: seq<Effect> := [];
      if dir.part.Some? && dir.meta.Some? {
        if dir.meta.value.Readable? && Matches(dir.meta.value.metadata, d) {
          var length := |dir.part.value|;
          if length <= d.archiveBytes && length == dir.meta.value.metadata.receivedBytes {
            offset := length;
          } else {
            RemovePartial(key);
            did := RemovePartialEffects(key);
          }
        } else {
          RemovePartial(key);
          did := RemovePartialEffects(key);
        }
      } else if dir.part.Some? || dir.meta.Some? {
        RemovePartial(key);
        did := RemovePartialEffects(key);
      }
      assert Did(did);
      if offset == 0 {
        RunConcat(old(dirs), did, WriteMetadataEffects(d, 0, now));
        WriteMetadata(d, 0, now);
        did := did + WriteMetadataEffects(d, 0, now);
      } else {
        did := did + [];
      }
      assert did == ClaimEffects(dir, d, now);
    }

    method ResumeState(listing: seq<PartialKey>, d: Descriptor, now: nat) returns (offset: U64)
      requires Lists(listing, dirs)
      modifies this
      ensures Did(ResumeEffects(old(dirs), listing, d, now))
      ensures offset == ResumeOffset(old(dirs), listing, d, now)
    {
      hide CleanupEffects, Stale, Keeps, ClaimEffects;
      CleanupExpired(listing, now);
      ghost var cleanup := CleanupEffects(old(dirs), listing, now);
      RunConcat(old(dirs), cleanup, [MakeDir(KeyOf(d))]);
      Perform(MakeDir(KeyOf(d)));
      ghost var opening := OpeningEffects(old(dirs), listing, d, now);
      assert Did(opening);
      ghost var found := FoundDir(old(dirs), listing, d, now);
      RunConcat(old(dirs), opening, ClaimEffects(found, d, now));
      offset := Claim(d, now);
    }

    /** The offset of the caller's resume state is updated even when the archive turns out too long. */
    method AppendChunk(offset: U64, d: Descriptor, bytes: Bytes, now: nat)
      returns (offset': U64, r: Result<U64, StoreError>)
      modifies this
      ensures Did(AppendEffects(old(dirs), offset, d, bytes, now))
      ensures r == AppendResult(old(dirs), offset, d, bytes)
      ensures offset' == OffsetAfter(old(dirs), offset, d, bytes)
      ensures r.Ok? ==> offset' == r.value
      ensures r == Err(TooManyBytes) ==> offset' == offset + |bytes|
    {
      offset' := offset;
      if KeyOf(d) !in dirs {
        return offset', Err(PartMissing);
      }
      Perform(AppendPart(KeyOf(d), bytes));
      if offset + |bytes| >= U64_LIMIT {
        return offset', Err(OffsetOverflow);
      }
      offset' := offset + |bytes|;
      if offset' > d.archiveBytes {
        return offset', Err(TooManyBytes);
      }
      RunConcat(old(dirs), [AppendPart(KeyOf(d), bytes)], WriteMetadataEffects(d, offset', now));
      WriteMetadata(d, offset', now);
      r := Ok(offset');
    }

    method CompletePartial(hash: Bytes -> ResourceId, d: Descriptor) returns (r: Result<Bytes, StoreError>)
      modifies this
      ensures r == CompleteResult(hash, old(dirs), d)
      ensures Did(CompleteEffects(hash, old(dirs), d))
      ensures r == Err(SizeMismatch) || r == Err(HashMismatch) ==>
                IsGone(dirs, KeyOf(d)) && OthersUnchanged(old(dirs), dirs, KeyOf(d))
      ensures r.Ok? || r == Err(PartMissing) ==> dirs == old(dirs)
    {
      if KeyOf(d) !in dirs || dirs[KeyOf(d)].part.None? {
        return Err(PartMissing);
      }
      var part := dirs[KeyOf(d)].part.value;
      if |part| != d.archiveBytes {
        RemovePartial(KeyOf(d));
        return Err(SizeMismatch);
      }
      if hash(part) != d.resourceId {
        RemovePartial(KeyOf(d));
        return Err(HashMismatch);
      }
      r := Ok(part);
    }
  }
}
