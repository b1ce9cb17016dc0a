/** What the operations of the partial store promise: what a crash can leave and what a resume finds. */
module ResumeLaws {
  import opened Bytes
  import opened ResumeStore

  /** A partial is kept exactly when the directory is what the store itself writes for this transfer when it
      holds that many bytes. */
  lemma KeepsExactlyItsOwn(dir: PartialDir, d: Descriptor)
    ensures Keeps(dir, d) <==>
            dir.part.Some? && |dir.part.value| <= d.archiveBytes
            && exists t: nat :: dir.meta == Some(Readable(MetadataFor(d, |dir.part.value|, t)))
  {
    if Keeps(dir, d) {
      assert dir.meta == Some(Readable(MetadataFor(d, |dir.part.value|, dir.meta.value.metadata.updatedAt)));
    }
  }

  ghost predicate Appends(e: Effect, key: PartialKey) {
    e.AppendPart? && e.key == key
  }

  lemma StepWithoutAppend(s: Store, e: Effect, left: Store, key: PartialKey)
    requires !Appends(e, key)
    requires left == Apply(s, e) || Torn(s, e, left)
    ensures PartOf(left, key) == PartOf(s, key) || PartOf(left, key) == []
  {
    if Torn(s, e, left) && e.AppendPart? {
      var n :| 0 <= n <= |e.bytes| && left == Apply(s, AppendPart(e.key, e.bytes[..n]));
    }
  }

  /** Effects that append nothing to a part leave it as it was or take it away, even when a crash cuts them
      short. */
  lemma {:induction false} CrashWithoutAppend(s: Store, effects: seq<Effect>, left: Store, key: PartialKey)
    requires forall e :: e in effects ==> !Appends(e, key)
    requires CrashState(s, effects, left)
    ensures PartOf(left, key) == PartOf(s, key) || PartOf(left, key) == []
    decreases |effects|
  {
    if effects != [] {
      var n := |effects| - 1;
      var before, last := effects[..n], effects[n];
      assert CrashState(s, before, Run(s, before));
      if CrashState(s, before, left) {
        CrashWithoutAppend(s, before, left, key);
      } else {
        CrashWithoutAppend(s, before, Run(s, before), key);
        StepWithoutAppend(Run(s, before), last, left, key);
      }
    }
  }

  /** Effects on other directories leave a directory alone, even when a crash cuts them short. */
  lemma {:induction false} CrashElsewhere(s: Store, effects: seq<Effect>, left: Store, key: PartialKey)
    requires forall e :: e in effects ==> e.key != key
    requires CrashState(s, effects, left)
    ensures key in left <==> key in s
    ensures key in s ==> left[key] == s[key]
    decreases |effects|
  {
    if effects != [] {
      var n := |effects| - 1;
      var before, last := effects[..n], effects[n];
      assert CrashState(s, before, Run(s, before));
      CrashElsewhere(s, before, Run(s, before), key);
      if CrashState(s, before, left) {
        CrashElsewhere(s, before, left, key);
      }
    }
  }

  lemma {:induction false} CrashSplit(s: Store, first: seq<Effect>, second: seq<Effect>, left: Store)
    requires CrashState(s, first + second, left)
    ensures CrashState(s, first, left) || CrashState(Run(s, first), second, left)
    decreases |second|
  {
    if second == [] {
      assert first + second == first;
    } else {
      var n := |second| - 1;
      assert (first + second)[..|first| + n] == first + second[..n];
      RunConcat(s, first, second);
      RunConcat(s, first, second[..n]);
      if CrashState(s, first + second[..n], left) {
        CrashSplit(s, first, second[..n], left);
      }
    }
  }

  /** Writing metadata leaves every part as it is, even when a crash cuts it short. */
  lemma {:induction false} CrashKeepsParts(s: Store, effects: seq<Effect>, left: Store, key: PartialKey)
    requires forall e :: e in effects ==> e.MakeDir? || e.WriteTemp? || e.RenameTemp?
    requires CrashState(s, effects, left)
    ensures PartOf(left, key) == PartOf(s, key)
    decreases |effects|
  {
    if effects != [] {
      var n := |effects| - 1;
      var before, last := effects[..n], effects[n];
      assert CrashState(s, before, Run(s, before));
      CrashKeepsParts(s, before, Run(s, before), key);
      if CrashState(s, before, left) {
        CrashKeepsParts(s, before, left, key);
      }
    }
  }

  /** A crash during an append leaves the old part with some beginning of the new bytes. */
  lemma CrashDuringAppend(s: Store, offset: U64, d: Descriptor, bytes: Bytes, now: nat, left: Store)
    requires CrashState(s, AppendEffects(s, offset, d, bytes, now), left)
    ensures exists n :: 0 <= n <= |bytes| && PartOf(left, KeyOf(d)) == PartOf(s, KeyOf(d)) + bytes[..n]
  {
    var key := KeyOf(d);
    assert PartOf(s, key) + bytes[..0] == PartOf(s, key);
    if key in s {
      var append := AppendPart(key, bytes);
      var rest := AppendEffects(s, offset, d, bytes, now)[1..];
      assert AppendEffects(s, offset, d, bytes, now) == [append] + rest;
      CrashSplit(s, [append], rest, left);
      RunOne(s, append);
      assert [append][..0] == [];
      assert bytes[..|bytes|] == bytes;
      if left == s {
      } else if left == Apply(s, append) {
      } else if Torn(s, append, left) {
        var n :| 0 <= n <= |bytes| && left == Apply(s, AppendPart(key, bytes[..n]));
      } else {
        CrashKeepsParts(Apply(s, append), rest, left, key);
      }
    }
  }

  lemma {:induction false} CleanupOnlyRemovesTrees(s: Store, listing: seq<PartialKey>, now: nat)
    ensures forall e :: e in CleanupEffects(s, listing, now) ==> e.RemoveTree?
  {
    if listing != [] {
      CleanupOnlyRemovesTrees(s, listing[..|listing| - 1], now);
    }
  }

  lemma ResumeAppendsNothing(s: Store, listing: seq<PartialKey>, d: Descriptor, now: nat)
    ensures forall e :: e in ResumeEffects(s, listing, d, now) ==> !e.AppendPart?
    ensures forall e :: e in ResumeEffects(s, listing, d, now) ==> e.RemoveTree? || e.key == KeyOf(d)
  {
    CleanupOnlyRemovesTrees(s, listing, now);
    ClaimStaysAtKey(FoundDir(s, listing, d, now), d, now);
    hide CleanupEffects, ClaimEffects, FoundDir;
  }

  lemma ClaimStaysAtKey(dir: PartialDir, d: Descriptor, now: nat)
    ensures forall e :: e in ClaimEffects(dir, d, now) ==> !e.AppendPart? && e.key == KeyOf(d)
  {
    hide Keeps, OffsetOf, KeyOf;
  }

  /** The store after `resume_state`: this transfer's directory is ready and holds exactly as many bytes as
      the offset that is offered, taken over unchanged or cleared; every other directory is as it was, or gone
      because it had expired. */
  lemma ResumeOutcome(s: Store, listing: seq<PartialKey>, d: Descriptor, now: nat)
    ensures var s' := Run(s, ResumeEffects(s, listing, d, now));
            var o := ResumeOffset(s, listing, d, now);
            var key := KeyOf(d);
            && key in s' && |PartOf(s', key)| == o && o <= d.archiveBytes
            && (PartOf(s', key) == PartOf(s, key) || PartOf(s', key) == [])
            && (o > 0 ==> s'[key].part.Some?)
            && s'[key].meta.Some? && s'[key].meta.value.Readable?
            && s'[key].meta.value.metadata == MetadataFor(d, o, s'[key].meta.value.metadata.updatedAt)
            && (forall k :: k in s' && k != key ==> k in s && s'[k] == s[k])
            && (forall k :: k in s && k != key && !Stale(s[k], now) ==> k in s')
  {
    var key := KeyOf(d);
    var opening := OpeningEffects(s, listing, d, now);
    var s1 := Run(s, opening);
    CleanupKeepsFresh(s, listing, now);
    RunConcat(s, CleanupEffects(s, listing, now), [MakeDir(key)]);
    RunOne(Run(s, CleanupEffects(s, listing, now)), MakeDir(key));
    var dir := s1[key];
    RunConcat(s, opening, ClaimEffects(dir, d, now));
    ClaimOutcome(s1, d, now);
  }

  lemma ClaimOutcome(s: Store, d: Descriptor, now: nat)
    requires KeyOf(d) in s
    ensures var s' := Run(s, ClaimEffects(s[KeyOf(d)], d, now));
            var o := OffsetOf(s[KeyOf(d)], d);
            var key := KeyOf(d);
            && key in s' && |PartOf(s', key)| == o
            && (PartOf(s', key) == PartOf(s, key) || PartOf(s', key) == [])
            && (o > 0 ==> s'[key].part.Some?)
            && s'[key].meta.Some? && s'[key].meta.value.Readable?
            && s'[key].meta.value.metadata == MetadataFor(d, o, s'[key].meta.value.metadata.updatedAt)
            && (forall k :: k != key ==> (k in s' <==> k in s) && (k in s ==> s'[k] == s[k]))
  {
    var key := KeyOf(d);
    var dir := s[key];
    var clear := if !Keeps(dir, d) && (dir.part.Some? || dir.meta.Some?) then RemovePartialEffects(key) else [];
    var write := if OffsetOf(dir, d) == 0 then WriteMetadataEffects(d, 0, now) else [];
    RunConcat(s, clear, write);
    RunNothing(s);
    ClearOutcome(s, key);
    WriteOutcome(Run(s, clear), d, now);
    RunNothing(Run(s, clear));
    hide Run, RemovePartialEffects, WriteMetadataEffects;
  }

  lemma ClearOutcome(s: Store, key: PartialKey)
    ensures var s' := Run(s, RemovePartialEffects(key));
            && PartOf(s', key) == []
            && (forall k :: k != key ==> (k in s' <==> k in s) && (k in s ==> s'[k] == s[k]))
  {
    RunThree(s, RemovePart(key), RemoveMeta(key), PruneDir(key));
    hide Run;
  }

  lemma WriteOutcome(s: Store, d: Descriptor, now: nat)
    ensures var s' := Run(s, WriteMetadataEffects(d, 0, now));
            var key := KeyOf(d);
            && key in s' && PartOf(s', key) == PartOf(s, key)
            && s'[key].meta == Some(Readable(MetadataFor(d, 0, now)))
            && (forall k :: k != key ==> (k in s' <==> k in s) && (k in s ==> s'[k] == s[k]))
  {
    var key := KeyOf(d);
    RunThree(s, MakeDir(key), WriteTemp(key, MetadataFor(d, 0, now)), RenameTemp(key));
    hide Run;
  }

  /** An append that is accepted adds exactly its bytes and records the new length; every append adds its
      bytes, accepted or not, and touches nothing else. */
  lemma AppendOutcome(s: Store, offset: U64, d: Descriptor, bytes: Bytes, now: nat)
    requires KeyOf(d) in s
    ensures var r := AppendResult(s, offset, d, bytes);
            var dir := s[KeyOf(d)].(part := Some(PartOf(s, KeyOf(d)) + bytes));
            Run(s, AppendEffects(s, offset, d, bytes, now)) ==
              if r.Err? then s[KeyOf(d) := dir]
              else s[KeyOf(d) := dir.(meta := Some(Readable(MetadataFor(d, r.value, now))), temp := None)]
  {
    var key := KeyOf(d);
    var append := AppendPart(key, bytes);
    RunOne(s, append);
    if offset + |bytes| <= d.archiveBytes {
      RunConcat(s, [append], WriteMetadataEffects(d, offset + |bytes|, now));
      RunThree(Apply(s, append), MakeDir(key), WriteTemp(key, MetadataFor(d, offset + |bytes|, now)), RenameTemp(key));
    } else {
      assert [append] + [] == [append];
    }
  }

  /** The directory records `o` bytes of the transfer, as of time `t`. */
  predicate Settled(s: Store, d: Descriptor, o: U64, t: nat) {
    && KeyOf(d) in s
    && s[KeyOf(d)].meta == Some(Readable(MetadataFor(d, o, t)))
    && |PartOf(s, KeyOf(d))| == o
    && (o > 0 ==> s[KeyOf(d)].part.Some?)
  }

  /** What `resume_state` finds of a directory that has not expired is that directory. */
  lemma FreshIsFound(s: Store, listing: seq<PartialKey>, d: Descriptor, now: nat)
    requires KeyOf(d) in s && !Stale(s[KeyOf(d)], now)
    ensures FoundDir(s, listing, d, now) == s[KeyOf(d)]
  {
    var cleaned := Run(s, CleanupEffects(s, listing, now));
    CleanupKeepsFresh(s, listing, now);
    assert KeyOf(d) in cleaned && cleaned[KeyOf(d)] == s[KeyOf(d)];
    RunConcat(s, CleanupEffects(s, listing, now), [MakeDir(KeyOf(d))]);
    RunOne(cleaned, MakeDir(KeyOf(d)));
    hide Run, CleanupEffects, Stale;
  }

  /** A disconnected transfer is taken up where it stopped, if it has not expired. */
  lemma SettledResumes(s: Store, listing: seq<PartialKey>, d: Descriptor, now: nat, o: U64, t: nat)
    requires Settled(s, d, o, t) && o <= d.archiveBytes && now <= t + PARTIAL_RETENTION
    ensures ResumeOffset(s, listing, d, now) == o
  {
    FreshIsFound(s, listing, d, now);
    hide FoundDir;
  }

  // ---------------------------------------------------------------------------------------------
  // What a resume offers and keeps, of everything that the store can hold.

  /** What `resume_state` finds is what was there, unless it had expired. */
  lemma FoundIsFresh(s: Store, listing: seq<PartialKey>, d: Descriptor, now: nat)
    requires Lists(listing, s)
    ensures FoundDir(s, listing, d, now)
         == if KeyOf(d) in s && !Stale(s[KeyOf(d)], now) then s[KeyOf(d)] else EMPTY_DIR
  {
    var cleaned := Run(s, CleanupEffects(s, listing, now));
    AllListed(s, listing, now);
    RunConcat(s, CleanupEffects(s, listing, now), [MakeDir(KeyOf(d))]);
    RunOne(cleaned, MakeDir(KeyOf(d)));
    hide Run, CleanupEffects, Stale, Lists;
  }

  /** Readable metadata, at most a day old. */
  predicate IsRecent(dir: PartialDir, now: nat) {
    dir.meta.Some? && dir.meta.value.Readable? && now <= dir.meta.value.metadata.updatedAt + 86_400
  }

  lemma RecentExactly(dir: PartialDir, now: nat)
    ensures IsRecent(dir, now) <==> !Stale(dir, now)
  {
  }

  /** More than nothing is offered exactly when the part has that length, fits the archive, and its metadata is what the
      store wrote for this transfer at this length no longer than a day ago. */
  lemma OfferedExactly(s: Store, listing: seq<PartialKey>, d: Descriptor, now: nat, n: U64)
    requires Lists(listing, s) && n > 0
    ensures ResumeOffset(s, listing, d, now) == n <==>
            && KeyOf(d) in s && s[KeyOf(d)].part.Some? && |s[KeyOf(d)].part.value| == n <= d.archiveBytes
            && exists t: nat :: now <= t + 86_400 && s[KeyOf(d)].meta == Some(Readable(MetadataFor(d, n, t)))
  {
    FoundIsFresh(s, listing, d, now);
    if KeyOf(d) in s {
      var dir := s[KeyOf(d)];
      RecentExactly(dir, now);
      KeepsExactlyItsOwn(dir, d);
      if IsRecent(dir, now) && Keeps(dir, d) {
        assert dir.meta == Some(Readable(MetadataFor(d, |dir.part.value|, dir.meta.value.metadata.updatedAt)));
      }
    }
    hide FoundDir, Stale, Lists;
  }

  /** Of the other transfers' partials a resume leaves exactly the recent ones, as they are. */
  lemma OthersKeptExactly(s: Store, listing: seq<PartialKey>, d: Descriptor, now: nat, key: PartialKey)
    requires Lists(listing, s) && key != KeyOf(d)
    ensures var s' := Run(s, ResumeEffects(s, listing, d, now));
            && (key in s' <==> key in s && IsRecent(s[key], now))
            && (key in s' ==> s'[key] == s[key])
  {
    var opening, cleaned := OpeningEffects(s, listing, d, now), Run(s, CleanupEffects(s, listing, now));
    var found := Run(s, opening);
    AllListed(s, listing, now);
    RunConcat(s, CleanupEffects(s, listing, now), [MakeDir(KeyOf(d))]);
    RunOne(cleaned, MakeDir(KeyOf(d)));
    RunConcat(s, opening, ClaimEffects(found[KeyOf(d)], d, now));
    ClaimOutcome(found, d, now);
    if key in s {
      RecentExactly(s[key], now);
    }
    hide Run, CleanupEffects, ClaimEffects, Stale, Lists;
  }

  // ---------------------------------------------------------------------------------------------
  // What becomes of a partial at the end of its transfer.

  /** The part has the announced length and hash. */
  predicate IsWhole(hash: Bytes -> ResourceId, part: Bytes, d: Descriptor) {
    |part| == d.archiveBytes && hash(part) == d.resourceId
  }

  lemma RemovalClears(s: Store, key: PartialKey)
    ensures IsGone(Run(s, RemovePartialEffects(key)), key) && OthersUnchanged(s, Run(s, RemovePartialEffects(key)), key)
  {
    RunThree(s, RemovePart(key), RemoveMeta(key), PruneDir(key));
    hide Run;
  }

  /** A part that fails its check is removed with its metadata, and one that passes stays; nothing else changes. */
  lemma CheckClearsExactly(hash: Bytes -> ResourceId, s: Store, d: Descriptor)
    ensures var s' := Run(s, CompleteEffects(hash, s, d));
            if KeyOf(d) in s && s[KeyOf(d)].part.Some? && !IsWhole(hash, s[KeyOf(d)].part.value, d)
            then IsGone(s', KeyOf(d)) && OthersUnchanged(s, s', KeyOf(d))
            else s' == s
  {
    RemovalClears(s, KeyOf(d));
    RunNothing(s);
    hide Run, RemovePartialEffects;
  }

  /** Of a partial that is gone nothing is offered, to any transfer that would use it. */
  lemma GoneOffersNothing(s: Store, listing: seq<PartialKey>, d: Descriptor, now: nat)
    requires IsGone(s, KeyOf(d))
    ensures ResumeOffset(s, listing, d, now) == 0
  {
    var cleaned := Run(s, CleanupEffects(s, listing, now));
    CleanupKeepsFresh(s, listing, now);
    RunConcat(s, CleanupEffects(s, listing, now), [MakeDir(KeyOf(d))]);
    RunOne(cleaned, MakeDir(KeyOf(d)));
    hide Run, CleanupEffects, Stale;
  }
}
