/** The sending and the receiving side of crates/peerline-net/src/direct.rs between two awaits. */
module DirectTransfer {
  import opened Bytes
  import opened ChunkRatchet
  import opened SecureChannel
  import opened ResumeStore
  import opened ReceiverDisk
  import opened Unpacking

  const SEND_BUFFER: nat := 64 * 1024

  /** The chunks that a sequence of reads into the send buffer can produce. */
  predicate IsChunking(chunks: seq<Bytes>, data: Bytes) {
    AreReads(chunks, data, SEND_BUFFER)
  }

  function ChunkFrames(chunks: seq<Bytes>): (frames: seq<SecureFrame>)
    ensures |frames| == |chunks|
  {
    seq(|chunks|, i requires 0 <= i < |chunks| => ArchiveChunk(chunks[i]))
  }

  function SenderFrames(compression: Compression, chunks: seq<Bytes>): seq<SecureFrame> {
    [Header(compression)] + ChunkFrames(chunks) + [SecureFrame.Done]
  }

  function Sends(frames: seq<SecureFrame>): (steps: seq<Step>)
    ensures |steps| == |frames|
  {
    seq(|frames|, i requires 0 <= i < |frames| => Send(frames[i]))
  }

  lemma {:induction false} AfterConcat(codec: Codec, c: Channel, first: seq<Step>, second: seq<Step>)
    ensures After(codec, c, first + second) == After(codec, After(codec, c, first), second)
    decreases |first|
  {
    if first == [] {
      assert first + second == second;
    } else {
      assert (first + second)[1..] == first[1..] + second;
      AfterConcat(codec, Next(codec, c, first[0]), first[1..], second);
    }
  }

  lemma AfterOneMore(codec: Codec, c: Channel, frames: seq<SecureFrame>, frame: SecureFrame)
    ensures After(codec, c, Sends(frames + [frame])) == Next(codec, After(codec, c, Sends(frames)), Send(frame))
  {
    assert Sends(frames + [frame]) == Sends(frames) + [Send(frame)];
    AfterConcat(codec, c, Sends(frames), [Send(frame)]);
    assert [Send(frame)][1..] == [];
  }

  lemma OneMoreChunk(chunks: seq<Bytes>, archive: Bytes, from: nat, to: nat, next: nat)
    requires from <= to < next <= |archive| && next - to <= SEND_BUFFER
    requires IsChunking(chunks, archive[from..to])
    ensures IsChunking(chunks + [archive[to..next]], archive[from..next])
    ensures ChunkFrames(chunks + [archive[to..next]]) == ChunkFrames(chunks) + [ArchiveChunk(archive[to..next])]
  {
    OneMoreRead(chunks, archive, SEND_BUFFER, from, to, next);
  }

  lemma ChunksAreBounded(chunks: seq<Bytes>, archive: Bytes, from: nat, position: nat)
    requires from <= |archive| && IsChunking(chunks, archive[from..])
    ensures forall chunk :: chunk in chunks ==> 0 < |chunk| <= 65_536
    ensures ReadFully(chunks, archive, SEND_BUFFER, position) ==> AreFull(chunks, 65_536)
  {
  }

  datatype SendError = OffsetBeyondArchive | EncryptFailed

  /** The connection of a sender: its ratchet, its counter and what it has written. The ghost channel is the
      session as the laws of the secure channel see it. */
  class SenderConnection {
    const codec: Codec
    const aead: ChunkAead
    var sequence: U64
    var written: seq<EncryptedChunk>
    ghost var channel: Channel

    ghost predicate Valid()
      reads this, aead
    {
      && channel.sender == Endpoint(aead.State(), sequence)
      && channel.wire == written
    }

    /** From `start`, this connection sent exactly `frames`. */
    ghost predicate HasSent(start: Channel, frames: seq<SecureFrame>)
      reads this, aead
    {
      && Valid()
      && channel == After(codec, start, Sends(frames))
      && channel.sent == start.sent + frames
    }

    constructor (codec: Codec, secret: nat, prefix: NoncePrefix)
      ensures HasSent(Opening(secret, prefix), []) && fresh(aead)
      ensures channel == Opening(secret, prefix) && this.codec == codec
    {
      this.codec := codec;
      aead := new ChunkAead(Root(secret), prefix);
      sequence, written := 0, [];
      channel := Opening(secret, prefix);
    }

    method WriteSecure(frame: SecureFrame, ghost start: Channel, ghost frames: seq<SecureFrame>)
      returns (ok: bool)
      requires HasSent(start, frames)
      modifies this, aead
      ensures Valid() && channel == Next(codec, old(channel), Send(frame))
      ensures ok ==> HasSent(start, frames + [frame])
    {
      var sequence', r := EncryptSecure(codec, aead, sequence, frame);
      sequence := sequence';
      AfterOneMore(codec, start, frames, frame);
      channel := Next(codec, channel, Send(frame));
      ok := r.Some?;
      if ok {
        written := written + [r.value];
      }
    }

    /** Sends the archive from the offset that the receiver asked for. `readSizes` says how much each read of
        the archive returns, at least one byte before the end. */
    method SendArchive(archive: Bytes, compression: Compression, resumeOffset: U64, readSizes: nat -> nat)
      returns (r: Result<nat, SendError>, ghost chunks: seq<Bytes>)
      requires HasSent(channel, [])
      modifies this, aead
      ensures Valid()
      ensures r == Err(OffsetBeyondArchive) <==> resumeOffset > |archive|
      ensures r == Err(OffsetBeyondArchive) ==> channel == old(channel)
      ensures r.Ok? ==> r.value == |archive| && IsChunking(chunks, archive[resumeOffset..])
      ensures r.Ok? ==> forall chunk :: chunk in chunks ==> 0 < |chunk| <= 65_536
      ensures r.Ok? && FillsBuffers(readSizes, 65_536) ==> AreFull(chunks, 65_536)
      ensures r.Ok? ==> HasSent(old(channel), SenderFrames(compression, chunks))
    {
      chunks := [];
      if resumeOffset > |archive| {
        return Err(OffsetBeyondArchive), chunks;
      }
      ghost var start := channel;
      var bytesSent := resumeOffset;
      var ok := WriteSecure(Header(compression), start, []);
      if !ok {
        return Err(EncryptFailed), chunks;
      }
      assert [] + [Header(compression)] == [Header(compression)] + ChunkFrames(chunks);
      var round := 0;
      NothingReadYet(archive, SEND_BUFFER, bytesSent);
      assert IsChunking(chunks, archive[resumeOffset..bytesSent]);
      hide FillsBuffers, ReadFully, AreFull, IsChunking, ChunkFrames;
      while bytesSent < |archive|
        invariant resumeOffset <= bytesSent <= |archive|
        invariant IsChunking(chunks, archive[resumeOffset..bytesSent])
        invariant HasSent(start, [Header(compression)] + ChunkFrames(chunks))
        invariant FillsBuffers(readSizes, SEND_BUFFER) ==> ReadFully(chunks, archive, SEND_BUFFER, bytesSent)
        decreases |archive| - bytesSent
      {
        OneMoreFullRead(readSizes, round, chunks, archive, SEND_BUFFER, bytesSent);
        var read := ReadLength(readSizes(round), |archive| - bytesSent, SEND_BUFFER);
        var buffer := archive[bytesSent..bytesSent + read];
        OneMoreChunk(chunks, archive, resumeOffset, bytesSent, bytesSent + read);
        ok := WriteSecure(ArchiveChunk(buffer), start, [Header(compression)] + ChunkFrames(chunks));
        if !ok {
          return Err(EncryptFailed), chunks;
        }
        assert [Header(compression)] + ChunkFrames(chunks) + [ArchiveChunk(buffer)]
            == [Header(compression)] + ChunkFrames(chunks + [buffer]);
        chunks := chunks + [buffer];
        bytesSent := bytesSent + read;
        round := round + 1;
      }
      assert archive[resumeOffset..bytesSent] == archive[resumeOffset..];
      ChunksAreBounded(chunks, archive, resumeOffset, bytesSent);
      ok := WriteSecure(SecureFrame.Done, start, [Header(compression)] + ChunkFrames(chunks));
      r := if ok then Ok(bytesSent) else Err(EncryptFailed);
    }
  }

  // ---------------------------------------------------------------------------------------------
  // The receiving side, one accepted frame at a time.

  /** A receiving session: what it resumed at, where it is, the header it has seen and the frames that it was given.
      A direct session ends with the first frame that it refuses and with its last; a libp2p session is patient. */
  datatype Session = Session(
    descriptor: Descriptor,
    start: U64,
    offset: U64,
    compression: Option<Compression>,
    accepted: seq<SecureFrame>,
    patient: bool)

  datatype Outcome = Continue(session: Session) | Received(archive: Bytes) | Failed

  function FrameEffects(hash: Bytes -> ResourceId, s: Store, session: Session, frame: SecureFrame, now: nat)
    : seq<Effect>
  {
    if session.compression.None? then []
    else
      match frame
      case Header(_) => []
      case ArchiveChunk(bytes) => AppendEffects(s, session.offset, session.descriptor, bytes, now)
      case Done =>
        if CompleteResult(hash, s, session.descriptor).Ok? then RemovePartialEffects(KeyOf(session.descriptor))
        else CompleteEffects(hash, s, session.descriptor)
  }

  function FrameOutcome(hash: Bytes -> ResourceId, s: Store, session: Session, frame: SecureFrame, unpacks: bool)
    : Outcome
  {
    var session' := session.(accepted := session.accepted + [frame]);
    match (session.compression, frame)
    case (None, Header(c)) =>
      if c == session.descriptor.compression then Continue(session'.(compression := Some(c))) else Failed
    case (None, _) => Failed
    case (Some(_), Header(_)) => Failed
    case (Some(_), ArchiveChunk(bytes)) =>
      (match AppendResult(s, session.offset, session.descriptor, bytes)
       case Ok(offset) => Continue(session'.(offset := offset))
       case Err(_) => Failed)
    case (Some(_), Done) =>
      match CompleteResult(hash, s, session.descriptor)
      case Ok(archive) => if unpacks then Received(archive) else Failed
      case Err(_) => Failed
  }

  /** What a patient session answers and lives on: a header that does not match or comes again, a chunk before the
      header, and an end whose archive passed the check. */
  predicate IsAnswered(hash: Bytes -> ResourceId, s: Store, session: Session, frame: SecureFrame) {
    match frame
    case Header(_) => true
    case ArchiveChunk(_) => session.compression.None?
    case Done => session.compression.Some? && CompleteResult(hash, s, session.descriptor).Ok?
  }

  /** The session after a frame, if it lives on. */
  function SessionAfter(hash: Bytes -> ResourceId, s: Store, session: Session, frame: SecureFrame): Option<Session> {
    match FrameOutcome(hash, s, session, frame, true)
    case Continue(session') => Some(session')
    case _ =>
      if session.patient && IsAnswered(hash, s, session, frame) then Some(session.(accepted := session.accepted + [frame]))
      else None
  }

  /** At the end of a transfer whose partial passes the check, the archive is unpacked: the disk after that. */
  function Unpacked(u: Receiver, disk: Disk, session: Session, frame: SecureFrame): Option<(Disk, Report)> {
    if session.compression.None? || !frame.Done? then None
    else
      match CompleteResult(u.env.hash, disk.store, session.descriptor)
      case Err(_) => None
      case Ok(archive) => Some(UnpackOnDisk(u, disk, session.compression.value, archive))
  }

  function FrameResult(u: Receiver, disk: Disk, session: Session, frame: SecureFrame): Outcome {
    var unpacked := Unpacked(u, disk, session, frame);
    FrameOutcome(u.env.hash, disk.store, session, frame, unpacked.Some? && unpacked.value.1.result.Ok?)
  }

  /** The effects on the store come after the unpacking, which may have reached into the store. */
  function FrameDisk(u: Receiver, disk: Disk, session: Session, frame: SecureFrame, now: nat): Disk {
    var unpacked := Unpacked(u, disk, session, frame);
    var base := if unpacked.Some? then unpacked.value.0 else disk;
    base.(store := Run(base.store, FrameEffects(u.env.hash, disk.store, session, frame, now)))
  }

  /** Everything the receive loop does for one frame, without an await in between. The check of the archive,
      its unpacking and the removal of the partial are one such step. */
  method ReceiveFrame(u: Receiver, disk: ResumeDisk, session: Session, frame: SecureFrame, now: nat)
    returns (outcome: Outcome)
    modifies disk
    ensures outcome == FrameResult(u, Disk(old(disk.dirs), old(disk.rest)), session, frame)
    ensures Disk(disk.dirs, disk.rest) == FrameDisk(u, Disk(old(disk.dirs), old(disk.rest)), session, frame, now)
    ensures disk.journal == old(disk.journal) + FrameEffects(u.env.hash, old(disk.dirs), session, frame, now)
  {
    hide Run, UnpackOnDisk, AppendEffects, AppendResult, RemovePartialEffects, CompleteEffects, CompleteResult;
    RunNothing(disk.dirs);
    var session' := session.(accepted := session.accepted + [frame]);
    if session.compression.None? {
      if frame.Header? && frame.compression == session.descriptor.compression {
        return Continue(session'.(compression := Some(frame.compression)));
      }
      return Failed;
    }
    match frame
    case Header(_) =>
      outcome := Failed;
    case ArchiveChunk(bytes) =>
      var offset, r := disk.AppendChunk(session.offset, session.descriptor, bytes, now);
      outcome := if r.Ok? then Continue(session'.(offset := offset)) else Failed;
    case Done =>
      var archive, unpacked := EndTransfer(u, disk, session.compression.value, session.descriptor);
      outcome := if unpacked then Received(archive.value) else Failed;
  }
}
