/** Which request gets which reply from the libp2p receiver, and when a session is over. */
module Libp2pReplies {
  import opened Bytes
  import opened SecureChannel
  import opened ResumeStore
  import opened ReceiverDisk
  import opened Transcripts
  import opened Libp2pReceiver
  import opened Unpacking

  /** The frame that a secure request opens to. */
  function OpenedBy(o: Options, sessions: Sessions, e: Event): Option<SecureFrame> {
    if e.Request? && e.frame.Secure? && e.peer in sessions && sessions[e.peer].aead.Some? then
      match OpenChunk(o, sessions[e.peer], e.frame.encrypted).1
      case Ok(frame) => Some(frame)
      case Err(_) => None
    else None
  }

  predicate Refuses(t: Turn, refusal: Refusal) {
    t.reply == Respond(ErrorFrame(refusal))
  }

  /** The part that the end of a transfer finds passes the check. */
  predicate PassesCheck(o: Options, disk: Disk, d: Descriptor) {
    && KeyOf(d) in disk.store && disk.store[KeyOf(d)].part.Some?
    && var part := disk.store[KeyOf(d)].part.value;
       |part| == d.archiveBytes && o.u.env.hash(part) == d.resourceId
  }

  predicate UnpacksOnto(o: Options, disk: Disk, compression: Compression, d: Descriptor)
    requires PassesCheck(o, disk, d)
  {
    UnpackArchive(o.u.env, o.u.frames, o.u.packer, FullTree(o.u, disk), compression, disk.store[KeyOf(d)].part.value).result.Ok?
  }

  /** The introductions, exactly: another version is refused first, then another receiver's name. */
  lemma IntroductionRefusedExactly(o: Options, sessions: Sessions, disk: Disk, e: Event)
    requires e.Request?
    ensures var t := OnEvent(o, sessions, disk, e);
      && (forall version :: Refuses(t, IncompatibleVersion(version)) <==>
            e.frame.ClientIntro? && e.frame.version == version && version != 3)
      && (Refuses(t, NameMismatch) <==>
            e.frame.ClientIntro? && e.frame.version == 3 && e.frame.name.Some? && e.frame.name.value != o.name)
      && (Refuses(t, UnexpectedFrame) <==> e.frame.Ack? || e.frame.ErrorFrame?)
      && (Refuses(t, UnexpectedLibp2pFrame) <==> e.frame.ServerIntro?)
  {
    hide ResumeEffects, ResumeOffset, Decrypted, AppendEffects, AppendResult, CompleteResult, CompleteEffects, UnpackOnDisk,
      RemovePartialEffects, OffsetAfter, FullTree, Libp2pTranscript;
  }

  /** The secure requests, exactly: a second header, a header with another compression than announced, a chunk before the
      header, and an end whose archive passed the check and did not unpack. */
  lemma SecureRefusedExactly(o: Options, sessions: Sessions, disk: Disk, e: Event)
    requires e.Request?
    ensures var t, frame := OnEvent(o, sessions, disk, e), OpenedBy(o, sessions, e);
      && (Refuses(t, DuplicateHeader) <==>
            frame.Some? && frame.value.Header? && sessions[e.peer].compression.Some?)
      && (Refuses(t, CompressionMismatch) <==>
            frame.Some? && frame.value.Header? && sessions[e.peer].compression.None?
            && frame.value.compression != sessions[e.peer].descriptor.compression)
      && (Refuses(t, HeaderFirst) <==>
            frame.Some? && frame.value.ArchiveChunk? && sessions[e.peer].compression.None?)
      && (Refuses(t, UnpackFailed) <==>
            && frame.Some? && frame.value.Done? && sessions[e.peer].compression.Some?
            && PassesCheck(o, disk, sessions[e.peer].descriptor)
            && !UnpacksOnto(o, disk, sessions[e.peer].compression.value, sessions[e.peer].descriptor))
  {
    hide ResumeEffects, ResumeOffset, Decrypted, AppendEffects, AppendResult, CompleteEffects, UnpackArchive,
      RemovePartialEffects, OffsetAfter, FullTree, SplitDisk, Libp2pTranscript;
  }

  /** A secure request ends the receiver exactly when there is no session that could open it, it does not open, a chunk
      does not fit the archive or has nowhere to go, or the end comes before the header or fails the check. */
  lemma SecureFailsExactly(o: Options, sessions: Sessions, disk: Disk, e: Event)
    requires e.Request? && e.frame.Secure?
    ensures var t, frame := OnEvent(o, sessions, disk, e), OpenedBy(o, sessions, e);
      t.reply == Fail <==>
        match frame
        case None => true
        case Some(Header(_)) => false
        case Some(ArchiveChunk(bytes)) =>
          var s := sessions[e.peer];
          s.compression.Some? && (KeyOf(s.descriptor) !in disk.store || s.offset + |bytes| > s.descriptor.archiveBytes)
        case Some(Done) =>
          sessions[e.peer].compression.None? || !PassesCheck(o, disk, sessions[e.peer].descriptor)
  {
    hide Decrypted, AppendEffects, CompleteEffects, UnpackArchive, RemovePartialEffects, FullTree, SplitDisk;
  }

  /** A session is over exactly when the reply to its end, good or bad, has been sent. */
  lemma ResponseEndsExactly(o: Options, sessions: Sessions, disk: Disk, peer: PeerId, request: RequestId)
    ensures var t := OnEvent(o, sessions, disk, ResponseSent(peer, request));
      && DiskAfter(t) == disk
      && (forall other :: other in t.sessions <==>
            && other in sessions
            && !(other == peer && sessions[peer].pendingError == Some(request))
            && !(other == peer && sessions[peer].pendingResult.Some? && sessions[peer].pendingResult.value.0 == request))
      && (forall other :: other in t.sessions ==> t.sessions[other] == sessions[other])
      && (forall archive :: t.reply == Yield(archive) <==>
            peer in sessions && sessions[peer].pendingResult == Some((request, archive)))
      && (t.reply.Yield? || t.reply == Quiet)
  {
    RunNothing(disk.store);
    hide Run;
  }

  /** A refused end is forgotten with its reply: the session is gone, and nothing is reported. */
  lemma RefusedEndIsForgotten(o: Options, sessions: Sessions, disk: Disk, e: Event)
    requires e.Request? && Refuses(OnEvent(o, sessions, disk, e), UnpackFailed)
    requires sessions[e.peer].pendingResult.None? || sessions[e.peer].pendingResult.value.0 != e.request
    ensures var t := OnEvent(o, sessions, disk, e);
      var t' := OnEvent(o, t.sessions, DiskAfter(t), ResponseSent(e.peer, e.request));
      t'.reply == Quiet && t'.sessions == t.sessions - {e.peer}
  {
    RefusedEndIsPending(o, sessions, disk, e);
    hide OnRequest, DiskAfter;
  }

  lemma DoneIsPending(o: Options, sessions: Sessions, disk: Disk, peer: PeerId, s: Session, request: RequestId)
    requires Refuses(OnDone(o, sessions, disk, peer, s, request), UnpackFailed)
    ensures OnDone(o, sessions, disk, peer, s, request).sessions == sessions[peer := s.(pendingError := Some(request))]
  {
    hide CompleteResult, CompleteEffects, UnpackOnDisk, RemovePartialEffects, FullTree;
  }

  lemma EndTurn(o: Options, sessions: Sessions, disk: Disk, e: Event)
    requires OpenedBy(o, sessions, e) == Some(SecureFrame.Done)
    ensures var s := OpenChunk(o, sessions[e.peer], e.frame.encrypted).0;
      && OnEvent(o, sessions, disk, e) == OnDone(o, sessions, disk, e.peer, s, e.request)
      && s.pendingResult == sessions[e.peer].pendingResult
  {
    hide Decrypted, OnHeader, OnChunk, OnDone, OnIntro, OnFinish;
  }

  lemma RefusedEndIsPending(o: Options, sessions: Sessions, disk: Disk, e: Event)
    requires e.Request? && Refuses(OnEvent(o, sessions, disk, e), UnpackFailed)
    ensures var t := OnEvent(o, sessions, disk, e);
      && e.peer in t.sessions && t.sessions[e.peer].pendingError == Some(e.request)
      && e.peer in sessions && t.sessions[e.peer].pendingResult == sessions[e.peer].pendingResult
  {
    SecureRefusedExactly(o, sessions, disk, e);
    assert OpenedBy(o, sessions, e) == Some(SecureFrame.Done) && e.peer in sessions;
    hide *;
    EndTurn(o, sessions, disk, e);
    DoneIsPending(o, sessions, disk, e.peer, OpenChunk(o, sessions[e.peer], e.frame.encrypted).0, e.request);
  }
}
