/** Why the prefix law needs offers that arrive: the offset that a sender is told comes without protection, and a
    sender that was told another one writes bytes that do not belong behind the part. */
module AlteredOffers {
  import opened Bytes
  import opened ChunkRatchet
  import opened SecureChannel
  import opened FileTree
  import opened ResumeStore
  import opened ResumeLaws
  import opened ReceiverDisk
  import opened DirectTransfer
  import opened ReceiverRuns
  import T = TransferRuns

  /** The chunk that opens to a frame on this side of a channel. */
  function SealedFor(codec: Codec, e: Endpoint, frame: SecureFrame): EncryptedChunk {
    SealedChunk(e.ratchet, e.sequence, SECURE_AAD, codec.encode(frame))
  }

  lemma SealedOpens(codec: Codec, e: Endpoint, frame: SecureFrame)
    requires Inverse(codec)
    ensures Decrypted(codec, e, SealedFor(codec, e, frame))
            == (Endpoint(Advanced(e.ratchet, e.sequence), Bump(e.sequence)), Ok(frame))
  {
    assert codec.decode(codec.encode(frame)) == Some(frame);
  }

  // ---------------------------------------------------------------------------------------------
  // Exactly when.

  lemma ChunkArrives(u: Receiver, w: World, m: Move, bytes: Bytes)
    requires m.Arrive? && m.id in w.links && FrameOf(u, w, m) == Some(ArchiveChunk(bytes))
    requires w.links[m.id].session.compression.Some? && KeyOf(w.links[m.id].session.descriptor) in w.disk.store
    ensures var key := KeyOf(w.links[m.id].session.descriptor);
            PartOf(Turn(u, w, m).disk.store, key) == PartOf(w.disk.store, key) + bytes
  {
    var session := w.links[m.id].session;
    AppendOutcome(w.disk.store, session.offset, session.descriptor, bytes, m.now);
    assert EffectsOf(u, w, m) == AppendEffects(w.disk.store, session.offset, session.descriptor, bytes, m.now)
      && BaseDisk(u, w, m) == w.disk by { hide AppendEffects, Decrypted; }
    hide AppendEffects, Run, EffectsOf, BaseDisk, FrameOf, LinksAfter, ReceiptsAfter;
  }

  /** Where the sender of a connection stands when the session has taken all it wrote. */
  function Position(link: Link): nat
    requires link.session.start <= link.session.offset
  {
    link.told + (link.session.offset - link.session.start)
  }

  /** Whatever chunk opens to the archive's bytes at that position leaves a prefix of the archive. */
  ghost predicate KeepsPrefixOf(u: Receiver, w: World, id: nat, archive: Bytes, at: nat, n: nat, now: nat)
    requires id in w.links && at + n <= |archive|
  {
    forall chunk :: FrameOf(u, w, Arrive(id, chunk, now)) == Some(ArchiveChunk(archive[at..at + n])) ==>
      PartOf(Turn(u, w, Arrive(id, chunk, now)).disk.store, KeyOf(w.links[id].session.descriptor)) <= archive
  }

  lemma KeepsIfExtended(u: Receiver, w: World, id: nat, archive: Bytes, at: nat, n: nat, now: nat)
    requires Inverse(u.secure) && id in w.links && at + n <= |archive|
    requires w.links[id].session.compression.Some? && KeyOf(w.links[id].session.descriptor) in w.disk.store
    ensures KeepsPrefixOf(u, w, id, archive, at, n, now)
            <==> T.Extended(archive, PartOf(w.disk.store, KeyOf(w.links[id].session.descriptor)), at, n)
  {
    var e := w.links[id].channel.receiver;
    var chunk := SealedFor(u.secure, e, ArchiveChunk(archive[at..at + n]));
    SealedOpens(u.secure, e, ArchiveChunk(archive[at..at + n]));
    assert FrameOf(u, w, Arrive(id, chunk, now)) == Some(ArchiveChunk(archive[at..at + n]));
    hide FrameOf, Turn, PartOf, SealedFor, Inverse;
    forall c | FrameOf(u, w, Arrive(id, c, now)) == Some(ArchiveChunk(archive[at..at + n]))
      ensures PartOf(Turn(u, w, Arrive(id, c, now)).disk.store, KeyOf(w.links[id].session.descriptor))
              == PartOf(w.disk.store, KeyOf(w.links[id].session.descriptor)) + archive[at..at + n]
    {
      ChunkArrives(u, w, Arrive(id, c, now), archive[at..at + n]);
    }
  }

  /** For a session that stands at the end of its part: the next chunk of its sender keeps the part a prefix,
      whatever archive begins with the part, exactly when the sender was told the session's start. */
  lemma NextChunkKeepsPrefixExactly(u: Receiver, w: World, id: nat, n: nat, now: nat)
    requires Inverse(u.secure) && id in w.links && w.links[id].session.start <= w.links[id].session.offset
    requires w.links[id].session.compression.Some? && KeyOf(w.links[id].session.descriptor) in w.disk.store
    requires var d := w.links[id].session.descriptor;
      && 0 < n && Position(w.links[id]) + n <= d.archiveBytes
      && |PartOf(w.disk.store, KeyOf(d))| == w.links[id].session.offset <= d.archiveBytes
    ensures var d := w.links[id].session.descriptor;
      var p := PartOf(w.disk.store, KeyOf(d));
      (forall a: Bytes :: T.BeginsWith(a, d.archiveBytes, p) ==> KeepsPrefixOf(u, w, id, a, Position(w.links[id]), n, now))
      <==> w.links[id].told == w.links[id].session.start
  {
    var d, at := w.links[id].session.descriptor, Position(w.links[id]);
    var p := PartOf(w.disk.store, KeyOf(d));
    hide Inverse, PartOf;
    forall a: Bytes | T.BeginsWith(a, d.archiveBytes, p)
      ensures KeepsPrefixOf(u, w, id, a, at, n, now) <==> T.Extended(a, p, at, n)
    {
      KeepsIfExtended(u, w, id, a, at, n, now);
    }
    T.ExtendsExactly(d.archiveBytes, p, at, n);
    hide KeepsPrefixOf, T.Extended;
  }

  // ---------------------------------------------------------------------------------------------
  // A run in which only the offer is altered.

  ghost predicate SenderRun(u: Receiver, w: World, moves: seq<Move>, t: T.Transfer)
    decreases |moves|
  {
    moves == [] || (Legal(u, w, moves[0]) && FromSender(u, w, moves[0], t) && OpensAlone(w, moves[0], t)
                    && KeptOut(u, w, moves[0]) && SenderRun(u, Turn(u, w, moves[0]), moves[1..], t))
  }

  /** All that such a run lacks for honesty is that offers arrive. */
  lemma {:induction false} HonestRunExactly(u: Receiver, w: World, moves: seq<Move>, t: T.Transfer)
    ensures HonestRun(u, w, moves, t) <==> SenderRun(u, w, moves, t) && OffersArrive(u, w, moves, t)
    decreases |moves|
  {
    hide Legal, FromSender, OpensAlone, OfferArrives, KeptOut, Turn;
    if moves != [] {
      HonestRunExactly(u, Turn(u, w, moves[0]), moves[1..], t);
    }
  }

  ghost predicate OffersArrive(u: Receiver, w: World, moves: seq<Move>, t: T.Transfer)
    decreases |moves|
  {
    moves == [] || (OfferArrives(w, moves[0], t) && OffersArrive(u, Turn(u, w, moves[0]), moves[1..], t))
  }

  lemma {:induction false} OneMoreMove(u: Receiver, w: World, moves: seq<Move>, m: Move, t: T.Transfer)
    requires SenderRun(u, w, moves, t)
    requires var w' := Turns(u, w, moves);
      Legal(u, w', m) && FromSender(u, w', m, t) && OpensAlone(w', m, t) && KeptOut(u, w', m)
    ensures SenderRun(u, w, moves + [m], t)
    ensures Turns(u, w, moves + [m]) == Turn(u, Turns(u, w, moves), m)
    decreases |moves|
  {
    hide Turn, Legal, FromSender, OpensAlone, KeptOut;
    if moves == [] {
      assert [] + [m] == [m] && [m][1..] == [];
    } else {
      assert (moves + [m])[1..] == moves[1..] + [m];
      OneMoreMove(u, Turn(u, w, moves[0]), moves[1..], m, t);
    }
  }

  /** The partial holds these bytes and records their number; the one connection is this. */
  predicate Stands(w: World, d: Descriptor, part: Bytes, link: Link) {
    && |part| <= d.archiveBytes
    && KeyOf(d) in w.disk.store && PartOf(w.disk.store, KeyOf(d)) == part
    && (part != [] ==> w.disk.store[KeyOf(d)].part.Some?)
    && w.disk.store[KeyOf(d)].meta.Some? && w.disk.store[KeyOf(d)].meta.value.Readable?
    && w.disk.store[KeyOf(d)].meta.value.metadata
       == MetadataFor(d, |part|, w.disk.store[KeyOf(d)].meta.value.metadata.updatedAt)
    && w.links == map[0 := link]
  }

  lemma StandsIsOffered(w: World, d: Descriptor, part: Bytes, link: Link)
    requires Stands(w, d, part, link)
    ensures ResumeOffset(w.disk.store, [], d, 0) == |part|
  {
    RunOne(w.disk.store, MakeDir(KeyOf(d)));
    assert OpeningEffects(w.disk.store, [], d, 0) == [MakeDir(KeyOf(d))];
  }

  function OpeningLink(d: Descriptor, patient: bool, told: U64, secret: nat, prefix: NoncePrefix): Link {
    Link(Session(d, 0, 0, None, [], patient), told, secret, prefix, Opening(secret, prefix))
  }

  lemma Opens(u: Receiver, rest: Tree, t: T.Transfer, patient: bool, told: U64, secret: nat, prefix: NoncePrefix)
    ensures var m := Open(0, t.descriptor, [], 0, patient, told, secret, prefix);
      && SenderRun(u, Fresh(rest), [m], t)
      && Stands(Turns(u, Fresh(rest), [m]), t.descriptor, [], OpeningLink(t.descriptor, patient, told, secret, prefix))
  {
    var d := t.descriptor;
    var m := Open(0, d, [], 0, patient, told, secret, prefix);
    RunOne(map[], MakeDir(KeyOf(d)));
    assert OpeningEffects(map[], [], d, 0) == [MakeDir(KeyOf(d))];
    ResumeOutcome(map[], [], d, 0);
    NothingUnpacked(u, Fresh(rest), m);
    assert [m][1..] == [];
    hide ResumeEffects, Run, BaseDisk, UnpackedBy, FrameOf;
  }

  /** Everything that was written has arrived. */
  predicate InStep(link: Link) {
    && link.channel.sender == link.channel.receiver
    && link.channel.sent == link.channel.accepted == link.session.accepted
  }

  function AfterWrite(u: Receiver, link: Link, frame: SecureFrame): Link {
    link.(channel := Next(u.secure, link.channel, Send(frame)))
  }

  function Delivered(u: Receiver, link: Link, frame: SecureFrame): Channel {
    Next(u.secure, AfterWrite(u, link, frame).channel, Deliver(SealedFor(u.secure, link.channel.sender, frame)))
  }

  /** The channel of a frame that is written and delivered. */
  lemma ChannelDelivers(u: Receiver, link: Link, frame: SecureFrame)
    requires Inverse(u.secure) && InStep(link) && |u.secure.encode(frame)| <= PLAINTEXT_LIMIT
    ensures var chunk := SealedFor(u.secure, link.channel.sender, frame);
      var between, after := AfterWrite(u, link, frame).channel, Delivered(u, link, frame);
      && Possible(link.secret, between, Deliver(chunk))
      && Decrypted(u.secure, between.receiver, chunk).1 == Ok(frame)
      && after.sender == after.receiver && after.sent == after.accepted == link.session.accepted + [frame]
  {
    SealedOpens(u.secure, link.channel.sender, frame);
    var between := AfterWrite(u, link, frame).channel;
    assert between.wire[|between.wire| - 1] == SealedFor(u.secure, link.channel.sender, frame);
  }

  function WriteAndArrive(u: Receiver, link: Link, frame: SecureFrame): seq<Move> {
    [Write(0, frame), Arrive(0, SealedFor(u.secure, link.channel.sender, frame), 0)]
  }

  /** A frame that the sender may write extends the run by its writing and its arrival. */
  lemma FrameTravels(u: Receiver, rest: Tree, moves: seq<Move>, t: T.Transfer, part: Bytes, link: Link, frame: SecureFrame)
    requires Inverse(u.secure) && InStep(link) && |u.secure.encode(frame)| <= PLAINTEXT_LIMIT && !frame.Done?
    requires SenderRun(u, Fresh(rest), moves, t) && Stands(Turns(u, Fresh(rest), moves), t.descriptor, part, link)
    requires WrittenFor(link.session.accepted + [frame], link.told, t)
    ensures var w := Turns(u, Fresh(rest), moves);
      var between := w.(links := map[0 := AfterWrite(u, link, frame)]);
      var arrive := WriteAndArrive(u, link, frame)[1];
      && SenderRun(u, Fresh(rest), moves + WriteAndArrive(u, link, frame), t)
      && Turns(u, Fresh(rest), moves + WriteAndArrive(u, link, frame)) == Turn(u, between, arrive)
      && FrameOf(u, between, arrive) == Some(frame) && UnpackedBy(u, between, arrive) == None
  {
    var w := Turns(u, Fresh(rest), moves);
    var chunk := SealedFor(u.secure, link.channel.sender, frame);
    var between := w.(links := map[0 := AfterWrite(u, link, frame)]);
    ChannelDelivers(u, link, frame);
    assert Turn(u, w, Write(0, frame)) == between by {
      assert w.links[0 := AfterWrite(u, link, frame)] == map[0 := AfterWrite(u, link, frame)];
    }
    assert moves + WriteAndArrive(u, link, frame) == moves + [Write(0, frame)] + [Arrive(0, chunk, 0)];
    hide Turns, SenderRun, SealedFor, Inverse, WrittenFor, Turn, Decrypted, Next, Possible, PartOf;
    OneMoreMove(u, Fresh(rest), moves, Write(0, frame), t);
    OneMoreMove(u, Fresh(rest), moves + [Write(0, frame)], Arrive(0, chunk, 0), t);
  }

  lemma HeaderTravels(u: Receiver, rest: Tree, moves: seq<Move>, t: T.Transfer, link: Link)
    requires Inverse(u.secure) && link.session == Session(t.descriptor, 0, 0, None, [], link.session.patient) && InStep(link)
    requires var frame := Header(t.descriptor.compression);
      |u.secure.encode(frame)| <= PLAINTEXT_LIMIT && WrittenFor([frame], link.told, t)
    requires SenderRun(u, Fresh(rest), moves, t) && Stands(Turns(u, Fresh(rest), moves), t.descriptor, [], link)
    ensures var frame := Header(t.descriptor.compression);
      var moves' := moves + WriteAndArrive(u, link, frame);
      var session := Session(t.descriptor, 0, 0, Some(t.descriptor.compression), [frame], link.session.patient);
      && SenderRun(u, Fresh(rest), moves', t)
      && Stands(Turns(u, Fresh(rest), moves'), t.descriptor, [], link.(session := session, channel := Delivered(u, link, frame)))
  {
    var frame := Header(t.descriptor.compression);
    assert [] + [frame] == [frame];
    FrameTravels(u, rest, moves, t, [], link, frame);
    hide SenderRun, Turns, WrittenFor, Inverse, Decrypted, SealedFor, Next, InStep, PartOf, KeyOf, MetadataFor;
    var w := Turns(u, Fresh(rest), moves);
    var between := w.(links := map[0 := AfterWrite(u, link, frame)]);
    RunNothing(w.disk.store);
    assert forall link' :: between.links[0 := link'] == map[0 := link'];
  }

  lemma ChunkTravels(u: Receiver, rest: Tree, moves: seq<Move>, t: T.Transfer, link: Link, bytes: Bytes)
    requires Inverse(u.secure) && InStep(link) && |bytes| <= t.descriptor.archiveBytes
    requires var header := Header(t.descriptor.compression);
      && link.session == Session(t.descriptor, 0, 0, Some(t.descriptor.compression), [header], link.session.patient)
      && |u.secure.encode(ArchiveChunk(bytes))| <= PLAINTEXT_LIMIT
      && WrittenFor([header, ArchiveChunk(bytes)], link.told, t)
    requires SenderRun(u, Fresh(rest), moves, t) && Stands(Turns(u, Fresh(rest), moves), t.descriptor, [], link)
    ensures var frame := ArchiveChunk(bytes);
      var moves' := moves + WriteAndArrive(u, link, frame);
      var session := Session(t.descriptor, 0, |bytes|, Some(t.descriptor.compression), [Header(t.descriptor.compression), frame],
                             link.session.patient);
      && SenderRun(u, Fresh(rest), moves', t)
      && Stands(Turns(u, Fresh(rest), moves'), t.descriptor, bytes,
                link.(session := session, channel := Delivered(u, link, frame)))
  {
    var frame := ArchiveChunk(bytes);
    assert [Header(t.descriptor.compression)] + [frame] == [Header(t.descriptor.compression), frame];
    FrameTravels(u, rest, moves, t, [], link, frame);
    var w := Turns(u, Fresh(rest), moves);
    var between := w.(links := map[0 := AfterWrite(u, link, frame)]);
    var arrive := WriteAndArrive(u, link, frame)[1];
    var link' := link.(session := Session(t.descriptor, 0, |bytes|, Some(t.descriptor.compression),
                                          [Header(t.descriptor.compression), frame], link.session.patient),
                       channel := Delivered(u, link, frame));
    ChunkStands(w, t.descriptor, bytes, link, Turn(u, between, arrive), link') by {
      assert KeyOf(t.descriptor) in w.disk.store && w.links == map[0 := link];
      hide SenderRun, Turns, WrittenFor, Inverse, Decrypted, SealedFor, Next, InStep, AppendEffects, Run, PartOf, KeyOf,
        MetadataFor, Stands, FrameOf, UnpackedBy;
      assert between.links[0 := link'] == map[0 := link'];
    }
    hide *;
  }

  /** A chunk that fits, stored at the beginning. */
  lemma ChunkStands(w: World, d: Descriptor, bytes: Bytes, link: Link, after: World, link': Link)
    requires Stands(w, d, [], link) && |bytes| <= d.archiveBytes
    requires after.disk.store == Run(w.disk.store, AppendEffects(w.disk.store, 0, d, bytes, 0))
    requires after.links == map[0 := link']
    ensures Stands(after, d, bytes, link')
  {
    AppendOutcome(w.disk.store, 0, d, bytes, 0);
    assert [] + bytes == bytes;
    hide AppendEffects, Run, KeyOf;
  }

  lemma AlteredRun(u: Receiver, rest: Tree, t: T.Transfer, patient: bool, told: U64, bytes: Bytes, secret: nat,
                   prefix: NoncePrefix)
    returns (moves: seq<Move>, link: Link)
    requires Inverse(u.secure) && |bytes| <= t.descriptor.archiveBytes
    requires var header, frame := Header(t.descriptor.compression), ArchiveChunk(bytes);
      && |u.secure.encode(header)| <= PLAINTEXT_LIMIT && |u.secure.encode(frame)| <= PLAINTEXT_LIMIT
      && WrittenFor([header], told, t) && WrittenFor([header, frame], told, t)
    ensures SenderRun(u, Fresh(rest), moves, t) && Stands(Turns(u, Fresh(rest), moves), t.descriptor, bytes, link)
  {
    var header, frame := Header(t.descriptor.compression), ArchiveChunk(bytes);
    hide SenderRun, Turns, Stands, WrittenFor, Inverse, Next, SealedFor;
    moves := [Open(0, t.descriptor, [], 0, patient, told, secret, prefix)];
    link := OpeningLink(t.descriptor, patient, told, secret, prefix);
    Opens(u, rest, t, patient, told, secret, prefix);
    HeaderTravels(u, rest, moves, t, link);
    ChannelDelivers(u, link, header);
    assert [] + [header] == [header];
    moves := moves + WriteAndArrive(u, link, header);
    link := link.(session := Session(t.descriptor, 0, 0, Some(t.descriptor.compression), [header], patient),
                  channel := Delivered(u, link, header));
    hide OpeningLink, Delivered;
    ChunkTravels(u, rest, moves, t, link, bytes);
    moves := moves + WriteAndArrive(u, link, frame);
    link := link.(session := Session(t.descriptor, 0, |bytes|, Some(t.descriptor.compression), [header, frame], patient),
                  channel := Delivered(u, link, frame));
  }

  /** From an empty store, over one session that overlaps no other and whose sender is honest, with nothing altered
      but the offer: what the sender was told to start with is afterwards taken for the archive's beginning. The
      archive can be any, and so can the offset. */
  lemma AlteredOfferIsStored(u: Receiver, rest: Tree, t: T.Transfer, patient: bool, told: U64, chunks: seq<Bytes>,
                             secret: nat, prefix: NoncePrefix)
    requires Inverse(u.secure) && t.descriptor.archiveBytes == |t.archive|
    requires told <= |t.archive| && IsChunking(chunks, t.archive[told..]) && chunks != []
    requires |u.secure.encode(Header(t.descriptor.compression))| <= PLAINTEXT_LIMIT
    requires |u.secure.encode(ArchiveChunk(chunks[0]))| <= PLAINTEXT_LIMIT
    ensures exists moves ::
      && SenderRun(u, Fresh(rest), moves, t)
      && var store := Turns(u, Fresh(rest), moves).disk.store;
      && ResumeOffset(store, [], t.descriptor, 0) == |chunks[0]|
      && PartOf(store, KeyOf(t.descriptor)) == chunks[0] == t.archive[told..told + |chunks[0]|]
  {
    FirstFrames(t, told, chunks);
    hide SenderRun, Turns, WrittenFor, Inverse, IsChunking;
    var moves, link := AlteredRun(u, rest, t, patient, told, chunks[0], secret, prefix);
    StandsIsOffered(Turns(u, Fresh(rest), moves), t.descriptor, chunks[0], link);
  }

  /** The first frames of a sender, and the bytes in them. */
  lemma FirstFrames(t: T.Transfer, told: nat, chunks: seq<Bytes>)
    requires told <= |t.archive| && IsChunking(chunks, t.archive[told..]) && chunks != []
    ensures var header, frame := Header(t.descriptor.compression), ArchiveChunk(chunks[0]);
      WrittenFor([header], told, t) && WrittenFor([header, frame], told, t)
    ensures told + |chunks[0]| <= |t.archive| && chunks[0] == t.archive[told..told + |chunks[0]|]
  {
    var frames := SenderFrames(t.descriptor.compression, chunks);
    assert frames[0] == Header(t.descriptor.compression) && frames[1] == ArchiveChunk(chunks[0]);
    assert [frames[0]] <= frames && [frames[0], frames[1]] <= frames;
    assert t.archive[told..] == chunks[0] + Flatten(chunks[1..]);
    assert t.archive[told..told + |chunks[0]|] == t.archive[told..][..|chunks[0]|];
  }
}
