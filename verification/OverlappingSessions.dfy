/** Why the prefix law of transfer runs needs sessions that do not overlap: a run of three sessions of one
    truthful sender after which the store offers a resume offset whose bytes are not the archive's. */
module OverlappingSessions {
  import opened Bytes
  import opened SecureChannel
  import opened ResumeStore
  import opened ResumeLaws
  import opened DirectTransfer
  import opened TransferRuns

  const ARCHIVE: Bytes := [1, 2, 3, 4]

  const SOURCE: NodeId := [0, 0, 0, 0, 0, 0, 0, 0, 0, 0, 0, 0, 0, 0, 0, 0]

  function TransferOf(hash: Bytes -> ResourceId): (t: Transfer)
    ensures Describes(hash, t)
  {
    Transfer(Descriptor(SOURCE, hash(ARCHIVE), 4, 4, 1, CompressNone), ARCHIVE)
  }

  // ---------------------------------------------------------------------------------------------
  // Honest but for the overlap.

  /** Sessions on the transfer's partial announce the transfer and take the frames that its sender writes from
      the offset it was offered. */
  ghost predicate FromSender(w: World, m: Move, t: Transfer) {
    match m
    case Open(_, d, _, _, _) => KeyOf(d) == KeyOf(t.descriptor) ==> d == t.descriptor
    case Accept(id, frame, _, _) =>
      Concerns(w, id, t) ==>
        exists chunks :: w.sessions[id].start <= |t.archive| && IsChunking(chunks, t.archive[w.sessions[id].start..])
          && w.sessions[id].accepted + [frame] <= SenderFrames(t.descriptor.compression, chunks)
    case Crash(during, _) => FromSender(w, during, t)
    case Drop(_) => true
  }

  ghost predicate OpensAlone(w: World, m: Move, t: Transfer) {
    match m
    case Open(_, d, _, _, _) => KeyOf(d) == KeyOf(t.descriptor) ==> forall id :: !Concerns(w, id, t)
    case Crash(during, _) => OpensAlone(w, during, t)
    case _ => true
  }

  /** What honesty adds to this is only that no session opens while another is live. */
  lemma HonestExactly(w: World, m: Move, t: Transfer)
    ensures Honest(w, m, t) <==> FromSender(w, m, t) && OpensAlone(w, m, t)
    decreases m
  {
    if m.Crash? {
      HonestExactly(w, m.during, t);
    }
  }

  ghost predicate SenderRun(hash: Bytes -> ResourceId, w: World, moves: seq<Move>, t: Transfer)
    decreases |moves|
  {
    moves == [] || (Legal(hash, w, moves[0]) && FromSender(w, moves[0], t)
                    && SenderRun(hash, Turn(hash, w, moves[0]), moves[1..], t))
  }

  lemma {:induction false} OneMoreMove(hash: Bytes -> ResourceId, w: World, moves: seq<Move>, m: Move, t: Transfer)
    requires SenderRun(hash, w, moves, t)
    requires Legal(hash, Turns(hash, w, moves), m) && FromSender(Turns(hash, w, moves), m, t)
    ensures SenderRun(hash, w, moves + [m], t)
    ensures Turns(hash, w, moves + [m]) == Turn(hash, Turns(hash, w, moves), m)
    decreases |moves|
  {
    hide Turn, Legal, FromSender;
    if moves == [] {
      assert [] + [m] == [m] && [m][1..] == [];
    } else {
      assert (moves + [m])[1..] == moves[1..] + [m];
      OneMoreMove(hash, Turn(hash, w, moves[0]), moves[1..], m, t);
    }
  }

  // ---------------------------------------------------------------------------------------------
  // The moves of the run.

  /** The partial holds these bytes, the metadata records that length, and these are the live sessions. */
  predicate Stands(hash: Bytes -> ResourceId, w: World, part: Bytes, recorded: U64, sessions: map<nat, Session>) {
    var d := TransferOf(hash).descriptor;
    && KeyOf(d) in w.store && PartOf(w.store, KeyOf(d)) == part
    && (part != [] ==> w.store[KeyOf(d)].part.Some?)
    && w.store[KeyOf(d)].meta.Some? && w.store[KeyOf(d)].meta.value.Readable?
    && w.store[KeyOf(d)].meta.value.metadata == MetadataFor(d, recorded, w.store[KeyOf(d)].meta.value.metadata.updatedAt)
    && w.sessions == sessions
  }

  function Opened(hash: Bytes -> ResourceId, offset: U64): Session {
    Session(TransferOf(hash).descriptor, offset, offset, None, [], false)
  }

  /** A session of the transfer after its header and these chunks. */
  function Took(hash: Bytes -> ResourceId, start: U64, offset: U64, chunks: seq<Bytes>): Session {
    Session(TransferOf(hash).descriptor, start, offset, Some(CompressNone), [Header(CompressNone)] + ChunkFrames(chunks),
            false)
  }

  lemma Offers(hash: Bytes -> ResourceId, w: World, part: Bytes, recorded: U64, sessions: map<nat, Session>)
    requires Stands(hash, w, part, recorded, sessions) && |part| <= 4
    ensures ResumeOffset(w.store, [], TransferOf(hash).descriptor, 0) == if |part| == recorded then recorded else 0
  {
    var d := TransferOf(hash).descriptor;
    RunOne(w.store, MakeDir(KeyOf(d)));
    assert OpeningEffects(w.store, [], d, 0) == [MakeDir(KeyOf(d))];
  }

  lemma OpensFirst(hash: Bytes -> ResourceId)
    ensures Stands(hash, Turn(hash, FRESH_WORLD, Open(0, TransferOf(hash).descriptor, [], 0, false)), [], 0,
                   map[0 := Opened(hash, 0)])
  {
    var d := TransferOf(hash).descriptor;
    RunOne(map[], MakeDir(KeyOf(d)));
    assert OpeningEffects(map[], [], d, 0) == [MakeDir(KeyOf(d))];
    ResumeOutcome(map[], [], d, 0);
    hide ResumeEffects, Run;
  }

  lemma Opens(hash: Bytes -> ResourceId, w: World, id: nat, part: Bytes, recorded: U64, sessions: map<nat, Session>)
    requires Stands(hash, w, part, recorded, sessions) && |part| <= 4
    ensures var w' := Turn(hash, w, Open(id, TransferOf(hash).descriptor, [], 0, false));
            if |part| == recorded then Stands(hash, w', part, recorded, sessions[id := Opened(hash, recorded)])
            else Stands(hash, w', [], 0, sessions[id := Opened(hash, 0)])
  {
    Offers(hash, w, part, recorded, sessions);
    ResumeOutcome(w.store, [], TransferOf(hash).descriptor, 0);
    hide ResumeEffects, ResumeOffset, Run;
  }

  lemma TakesHeader(hash: Bytes -> ResourceId, w: World, id: nat, part: Bytes, recorded: U64, sessions: map<nat, Session>,
                    start: U64)
    requires Stands(hash, w, part, recorded, sessions) && id in sessions && sessions[id] == Opened(hash, start)
    ensures Stands(hash, Turn(hash, w, Accept(id, Header(CompressNone), 0, false)), part, recorded,
                   sessions[id := Took(hash, start, start, [])])
  {
    assert [] + [Header(CompressNone)] == [Header(CompressNone)] + ChunkFrames([]);
    RunNothing(w.store);
  }

  lemma TakesChunk(hash: Bytes -> ResourceId, w: World, id: nat, part: Bytes, recorded: U64, sessions: map<nat, Session>,
                   start: U64, offset: U64, chunks: seq<Bytes>, bytes: Bytes)
    requires Stands(hash, w, part, recorded, sessions) && id in sessions && sessions[id] == Took(hash, start, offset, chunks)
    requires offset + |bytes| <= 4
    ensures Stands(hash, Turn(hash, w, Accept(id, ArchiveChunk(bytes), 0, false)), part + bytes, offset + |bytes|,
                   sessions[id := Took(hash, start, offset + |bytes|, chunks + [bytes])])
  {
    assert [Header(CompressNone)] + ChunkFrames(chunks) + [ArchiveChunk(bytes)]
        == [Header(CompressNone)] + ChunkFrames(chunks + [bytes]);
    ChunkTurn(hash, w, Accept(id, ArchiveChunk(bytes), 0, false));
    AppendOutcome(w.store, offset, TransferOf(hash).descriptor, bytes, 0);
    hide Turn, AppendEffects, Run;
  }

  // ---------------------------------------------------------------------------------------------
  // The run.

  ghost predicate Reached(hash: Bytes -> ResourceId, moves: seq<Move>, part: Bytes, recorded: U64,
                          sessions: map<nat, Session>)
  {
    && SenderRun(hash, FRESH_WORLD, moves, TransferOf(hash))
    && Stands(hash, Turns(hash, FRESH_WORLD, moves), part, recorded, sessions)
  }

  /** How the sender cuts the archive for a session that starts there. */
  predicate IsPlan(start: U64, plan: seq<Bytes>) {
    start <= 4 && IsChunking(plan, ARCHIVE[start..])
  }

  lemma FramesOfPlan(chunks: seq<Bytes>, plan: seq<Bytes>)
    requires chunks <= plan
    ensures [Header(CompressNone)] + ChunkFrames(chunks) <= SenderFrames(CompressNone, plan)
  {
    assert forall i :: 0 <= i < |chunks| ==> chunks[i] == plan[i];
  }

  lemma ThenOpens(hash: Bytes -> ResourceId, moves: seq<Move>, id: nat, part: Bytes, recorded: U64, sessions: map<nat, Session>)
    requires Reached(hash, moves, part, recorded, sessions) && |part| <= 4 && id !in sessions
    ensures var moves' := moves + [Open(id, TransferOf(hash).descriptor, [], 0, false)];
            if |part| == recorded then Reached(hash, moves', part, recorded, sessions[id := Opened(hash, recorded)])
            else Reached(hash, moves', [], 0, sessions[id := Opened(hash, 0)])
  {
    var w := Turns(hash, FRESH_WORLD, moves);
    Opens(hash, w, id, part, recorded, sessions);
    hide SenderRun, Turns, Turn;
    OneMoreMove(hash, FRESH_WORLD, moves, Open(id, TransferOf(hash).descriptor, [], 0, false), TransferOf(hash));
  }

  lemma ThenHeader(hash: Bytes -> ResourceId, moves: seq<Move>, id: nat, part: Bytes, recorded: U64,
                   sessions: map<nat, Session>, start: U64, plan: seq<Bytes>)
    requires Reached(hash, moves, part, recorded, sessions) && id in sessions && sessions[id] == Opened(hash, start)
    requires IsPlan(start, plan)
    ensures Reached(hash, moves + [Accept(id, Header(CompressNone), 0, false)], part, recorded,
                    sessions[id := Took(hash, start, start, [])])
  {
    var w := Turns(hash, FRESH_WORLD, moves);
    TakesHeader(hash, w, id, part, recorded, sessions, start);
    FramesOfPlan([], plan);
    hide SenderRun, Turns, Turn, IsChunking;
    assert w.sessions[id].accepted + [Header(CompressNone)] == [Header(CompressNone)] + ChunkFrames([]);
    OneMoreMove(hash, FRESH_WORLD, moves, Accept(id, Header(CompressNone), 0, false), TransferOf(hash));
  }

  lemma ThenChunk(hash: Bytes -> ResourceId, moves: seq<Move>, id: nat, part: Bytes, recorded: U64,
                  sessions: map<nat, Session>, start: U64, offset: U64, chunks: seq<Bytes>, bytes: Bytes, plan: seq<Bytes>)
    requires Reached(hash, moves, part, recorded, sessions)
    requires id in sessions && sessions[id] == Took(hash, start, offset, chunks)
    requires offset + |bytes| <= 4 && IsPlan(start, plan) && chunks + [bytes] <= plan
    ensures Reached(hash, moves + [Accept(id, ArchiveChunk(bytes), 0, false)], part + bytes, offset + |bytes|,
                    sessions[id := Took(hash, start, offset + |bytes|, chunks + [bytes])])
  {
    var w := Turns(hash, FRESH_WORLD, moves);
    TakesChunk(hash, w, id, part, recorded, sessions, start, offset, chunks, bytes);
    FramesOfPlan(chunks + [bytes], plan);
    hide SenderRun, Turns, Turn, IsChunking;
    assert w.sessions[id].accepted + [ArchiveChunk(bytes)] == [Header(CompressNone)] + ChunkFrames(chunks + [bytes]);
    OneMoreMove(hash, FRESH_WORLD, moves, Accept(id, ArchiveChunk(bytes), 0, false), TransferOf(hash));
  }

  const FIRST_PLAN: seq<Bytes> := [[1], [2], [3], [4]]

  const SECOND_PLAN: seq<Bytes> := [[2], [3, 4]]

  const THIRD_PLAN: seq<Bytes> := [[1, 2], [3, 4]]

  lemma Plans()
    ensures IsPlan(0, FIRST_PLAN) && IsPlan(1, SECOND_PLAN) && IsPlan(0, THIRD_PLAN)
  {
    assert FIRST_PLAN[1..] == [[2], [3], [4]] && FIRST_PLAN[1..][1..] == [[3], [4]];
    assert [[3], [4]][1..] == [[4]] && [[4]][1..] == [];
    assert [[2], [3, 4]][1..] == [[3, 4]] && [[1, 2], [3, 4]][1..] == [[3, 4]] && [[3, 4]][1..] == [];
    assert ARCHIVE[0..] == [1] + ([2] + ([3] + ([4] + []))) == [1, 2] + ([3, 4] + []);
    assert ARCHIVE[1..] == [2] + ([3, 4] + []);
  }

  /** Three live sessions, of which the first stands at two bytes when the store holds none: the second was offered
      the first one's byte, both appended the next, and the third found a part that is longer than recorded. */
  lemma Misled(hash: Bytes -> ResourceId) returns (moves: seq<Move>)
    ensures Reached(hash, moves, [], 0,
                    map[0 := Took(hash, 0, 2, [[1], [2]]), 1 := Took(hash, 1, 2, [[2]]), 2 := Opened(hash, 0)])
  {
    hide Reached, IsPlan, Opened, Took, TransferOf;
    Plans();
    moves := Begun(hash);
    var none: seq<Bytes> := [];
    assert none + [[1]] == [[1]] && none + [[2]] == [[2]] && [[1]] + [[2]] == [[1], [2]];
    var s := map[0 := Opened(hash, 0)];
    ThenHeader(hash, moves, 0, [], 0, s, 0, FIRST_PLAN);
    moves, s := moves + [Accept(0, Header(CompressNone), 0, false)], s[0 := Took(hash, 0, 0, [])];
    ThenChunk(hash, moves, 0, [], 0, s, 0, 0, [], [1], FIRST_PLAN);
    moves, s := moves + [Accept(0, ArchiveChunk([1]), 0, false)], s[0 := Took(hash, 0, 1, [[1]])];
    ThenOpens(hash, moves, 1, [] + [1], 1, s);
    moves, s := moves + [Open(1, TransferOf(hash).descriptor, [], 0, false)], s[1 := Opened(hash, 1)];
    ThenHeader(hash, moves, 1, [] + [1], 1, s, 1, SECOND_PLAN);
    moves, s := moves + [Accept(1, Header(CompressNone), 0, false)], s[1 := Took(hash, 1, 1, [])];
    ThenChunk(hash, moves, 1, [] + [1], 1, s, 1, 1, [], [2], SECOND_PLAN);
    moves, s := moves + [Accept(1, ArchiveChunk([2]), 0, false)], s[1 := Took(hash, 1, 2, [[2]])];
    ThenChunk(hash, moves, 0, [] + [1] + [2], 2, s, 0, 1, [[1]], [2], FIRST_PLAN);
    moves, s := moves + [Accept(0, ArchiveChunk([2]), 0, false)], s[0 := Took(hash, 0, 2, [[1], [2]])];
    ThenOpens(hash, moves, 2, [] + [1] + [2] + [2], 2, s);
    moves, s := moves + [Open(2, TransferOf(hash).descriptor, [], 0, false)], s[2 := Opened(hash, 0)];
    assert s == map[0 := Took(hash, 0, 2, [[1], [2]]), 1 := Took(hash, 1, 2, [[2]]), 2 := Opened(hash, 0)];
  }

  lemma Begun(hash: Bytes -> ResourceId) returns (moves: seq<Move>)
    ensures Reached(hash, moves, [], 0, map[0 := Opened(hash, 0)])
  {
    OpensFirst(hash);
    var m := Open(0, TransferOf(hash).descriptor, [], 0, false);
    OneMoreMove(hash, FRESH_WORLD, [], m, TransferOf(hash));
    moves := [m];
    assert [] + [m] == [m];
  }

  /** Every session announces the transfer, resumes where the store says and takes the sender's own frames in
      order, yet at the end the store holds 3, 1, 2, 4 and offers to resume at 4. */
  lemma OverlapOffersWrongBytes(hash: Bytes -> ResourceId)
    ensures exists moves ::
              && SenderRun(hash, FRESH_WORLD, moves, TransferOf(hash))
              && var store := Turns(hash, FRESH_WORLD, moves).store;
              && ResumeOffset(store, [], TransferOf(hash).descriptor, 0) == 4
              && PartOf(store, KeyOf(TransferOf(hash).descriptor)) == [3, 1, 2, 4]
  {
    Plans();
    var moves, s := Ended(hash);
    Offers(hash, Turns(hash, FRESH_WORLD, moves), [3, 1, 2, 4], 4, s);
    hide SenderRun, Turns, ResumeOffset;
  }

  lemma Ended(hash: Bytes -> ResourceId) returns (moves: seq<Move>, s: map<nat, Session>)
    ensures Reached(hash, moves, [3, 1, 2, 4], 4, s)
  {
    hide Reached, IsPlan, Opened, Took, TransferOf;
    Plans();
    moves := Misled(hash);
    s := map[0 := Took(hash, 0, 2, [[1], [2]]), 1 := Took(hash, 1, 2, [[2]]), 2 := Opened(hash, 0)];
    ThenHeader(hash, moves, 2, [], 0, s, 0, THIRD_PLAN);
    moves, s := moves + [Accept(2, Header(CompressNone), 0, false)], s[2 := Took(hash, 0, 0, [])];
    ThenChunk(hash, moves, 0, [], 0, s, 0, 2, [[1], [2]], [3], FIRST_PLAN);
    moves, s := moves + [Accept(0, ArchiveChunk([3]), 0, false)], s[0 := Took(hash, 0, 3, [[1], [2]] + [[3]])];
    ThenChunk(hash, moves, 2, [] + [3], 3, s, 0, 0, [], [1, 2], THIRD_PLAN);
    moves, s := moves + [Accept(2, ArchiveChunk([1, 2]), 0, false)], s[2 := Took(hash, 0, 2, [] + [[1, 2]])];
    ThenChunk(hash, moves, 0, [] + [3] + [1, 2], 2, s, 0, 3, [[1], [2]] + [[3]], [4], FIRST_PLAN);
    moves, s := moves + [Accept(0, ArchiveChunk([4]), 0, false)], s[0 := Took(hash, 0, 4, [[1], [2]] + [[3]] + [[4]])];
    assert [] + [3] + [1, 2] + [4] == [3, 1, 2, 4];
  }
}
