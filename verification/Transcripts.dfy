/** The hash inputs of crates/peerline-crypto/src/transcript.rs, of the transcripts in
    crates/peerline-net/src/protocol.rs and of the manifest id in crates/peerline-transfer/src/archive.rs:
    which values can give the same bytes. */
module Transcripts {
  import opened Bytes
  import opened SecureChannel
  import opened ArchiveTypes

  const PROTOCOL_VERSION: nat := 3

  datatype Transcript = Transcript(parts: seq<Bytes>) {
    function Append(title: Bytes, value: Bytes): Transcript {
      Transcript(parts + [title, value])
    }

    /** What the hasher is fed: each part after its length. */
    function HashInput(): Bytes {
      Encoding(parts)
    }
  }

  function PartEncoding(part: Bytes): Bytes {
    LittleEndian(|part|, 8) + part
  }

  function Encoding(parts: seq<Bytes>): Bytes {
    if parts == [] then [] else Encoding(parts[..|parts| - 1]) + PartEncoding(parts[|parts| - 1])
  }

  /** The loop of `hash`; a hasher is the bytes it has been given. */
  method FeedHasher(t: Transcript) returns (hasher: Bytes)
    ensures hasher == t.HashInput()
  {
    hasher := [];
    for i := 0 to |t.parts|
      invariant hasher == Encoding(t.parts[..i])
    {
      assert t.parts[..i + 1][..i] == t.parts[..i];
      hasher := hasher + LittleEndian(|t.parts[i]|, 8);
      hasher := hasher + t.parts[i];
      assert hasher == Encoding(t.parts[..i]) + PartEncoding(t.parts[i]);
    }
    assert t.parts[..|t.parts|] == t.parts;
  }

  /** Lengths are those of byte strings in memory. */
  predicate InMemory(parts: seq<Bytes>) {
    forall p :: p in parts ==> |p| < U64_LIMIT
  }

  lemma {:induction false} EncodingCons(first: Bytes, rest: seq<Bytes>)
    ensures Encoding([first] + rest) == PartEncoding(first) + Encoding(rest)
  {
    var all := [first] + rest;
    if rest == [] {
      assert all[..0] == [];
      assert Encoding(all) == [] + PartEncoding(first);
    } else {
      var n := |rest| - 1;
      assert all[..|all| - 1] == [first] + rest[..n];
      EncodingCons(first, rest[..n]);
      assert PartEncoding(first) + Encoding(rest[..n]) + PartEncoding(rest[n]) == PartEncoding(first) + Encoding(rest);
    }
  }

  lemma FirstPartUnique(a: Bytes, x: Bytes, b: Bytes, y: Bytes)
    requires |a| < U64_LIMIT && |b| < U64_LIMIT && PartEncoding(a) + x == PartEncoding(b) + y
    ensures a == b && x == y
  {
    PartPieces(a, x);
    PartPieces(b, y);
    MachineWidths();
    hide PartEncoding, LittleEndian, Pow256;
    SplitConcat(LittleEndian(|a|, 8), a + x, LittleEndian(|b|, 8), b + y);
    LittleEndianInjective(|a|, |b|, 8);
    SplitConcat(a, x, b, y);
  }

  lemma PartPieces(a: Bytes, x: Bytes)
    ensures PartEncoding(a) + x == LittleEndian(|a|, 8) + (a + x)
  {
    hide LittleEndian;
  }

  lemma NotEmpty(parts: seq<Bytes>)
    ensures Encoding(parts) == [] <==> parts == []
  {
  }

  /** The encoding is uniquely decodable. */
  lemma {:induction false} EncodingUnique(a: seq<Bytes>, b: seq<Bytes>)
    requires InMemory(a) && InMemory(b) && Encoding(a) == Encoding(b)
    ensures a == b
    decreases |a|
  {
    NotEmpty(a);
    NotEmpty(b);
    if a != [] && b != [] {
      assert a == [a[0]] + a[1..] && b == [b[0]] + b[1..];
      EncodingCons(a[0], a[1..]);
      EncodingCons(b[0], b[1..]);
      FirstPartUnique(a[0], Encoding(a[1..]), b[0], Encoding(b[1..]));
      EncodingUnique(a[1..], b[1..]);
    }
  }

  const NO_NAME: Bytes := Ascii("direct-ip")

  function DirectTranscriptForRoute(name: Option<Bytes>, route: Bytes): Transcript {
    var transcript := Transcript([Ascii("peerline:direct:v1")])
      .Append(Ascii("version"), BigEndian(PROTOCOL_VERSION, 2))
      .Append(Ascii("route"), route);
    match name
    case Some(name) => transcript.Append(Ascii("name"), name)
    case None => transcript.Append(Ascii("name"), NO_NAME)
  }

  function Libp2pTranscript(name: Bytes, lookupKey: Bytes, receiverPeerId: Bytes, route: Bytes): Transcript {
    Transcript([Ascii("peerline:libp2p:v1")])
      .Append(Ascii("version"), BigEndian(PROTOCOL_VERSION, 2))
      .Append(Ascii("route"), route)
      .Append(Ascii("name"), name)
      .Append(Ascii("lookup-key"), lookupKey)
      .Append(Ascii("receiver-peer-id"), receiverPeerId)
  }

  /** Direct transcripts agree exactly when the routes agree and the names do, where no name and the name
      "direct-ip" count as the same. */
  lemma DirectTranscriptsAgreeExactly(name: Option<Bytes>, route: Bytes, name': Option<Bytes>, route': Bytes)
    requires |route| < U64_LIMIT && |route'| < U64_LIMIT
    requires (name.Some? ==> |name.value| < U64_LIMIT) && (name'.Some? ==> |name'.value| < U64_LIMIT)
    ensures DirectTranscriptForRoute(name, route).HashInput() == DirectTranscriptForRoute(name', route').HashInput()
            <==> route == route'
                 && var ip := Ascii("direct-ip");
                    name == name' || (name == None && name' == Some(ip)) || (name == Some(ip) && name' == None)
  {
    var t, t' := DirectTranscriptForRoute(name, route), DirectTranscriptForRoute(name', route');
    var n := if name.Some? then name.value else NO_NAME;
    var n' := if name'.Some? then name'.value else NO_NAME;
    assert t.parts[4] == route && t.parts[6] == n && |t.parts| == 7;
    assert t'.parts[4] == route' && t'.parts[6] == n' && |t'.parts| == 7;
    assert InMemory(t.parts) && InMemory(t'.parts);
    if t.HashInput() == t'.HashInput() {
      EncodingUnique(t.parts, t'.parts);
    } else {
      assert t.parts != t'.parts;
    }
  }

  lemma Libp2pParts(name: Bytes, key: Bytes, peer: Bytes, route: Bytes)
    requires |name| < U64_LIMIT && |key| < U64_LIMIT && |peer| < U64_LIMIT && |route| < U64_LIMIT
    ensures var parts := Libp2pTranscript(name, key, peer, route).parts;
      && |parts| == 11 && InMemory(parts)
      && parts[4] == route && parts[6] == name && parts[8] == key && parts[10] == peer
  {
  }

  lemma DirectParts(name: Option<Bytes>, route: Bytes)
    requires |route| < U64_LIMIT && (name.Some? ==> |name.value| < U64_LIMIT)
    ensures var parts := DirectTranscriptForRoute(name, route).parts; |parts| == 7 && InMemory(parts)
  {
  }

  /** Two libp2p transcripts agree only in full. */
  lemma Libp2pTranscriptsAgreeExactly(name: Bytes, key: Bytes, peer: Bytes, route: Bytes,
                                      name': Bytes, key': Bytes, peer': Bytes, route': Bytes)
    requires |name| < U64_LIMIT && |key| < U64_LIMIT && |peer| < U64_LIMIT && |route| < U64_LIMIT
    requires |name'| < U64_LIMIT && |key'| < U64_LIMIT && |peer'| < U64_LIMIT && |route'| < U64_LIMIT
    ensures Libp2pTranscript(name, key, peer, route).HashInput() == Libp2pTranscript(name', key', peer', route').HashInput()
            <==> name == name' && key == key' && peer == peer' && route == route'
  {
    hide Libp2pTranscript, InMemory, Encoding;
    Libp2pParts(name, key, peer, route);
    Libp2pParts(name', key', peer', route');
    var t, t' := Libp2pTranscript(name, key, peer, route), Libp2pTranscript(name', key', peer', route');
    if t.HashInput() == t'.HashInput() {
      EncodingUnique(t.parts, t'.parts);
    }
  }

  /** No libp2p transcript gives the bytes of a direct one. */
  lemma Libp2pIsNotDirect(name: Bytes, key: Bytes, peer: Bytes, route: Bytes, name': Option<Bytes>, route': Bytes)
    requires |name| < U64_LIMIT && |key| < U64_LIMIT && |peer| < U64_LIMIT && |route| < U64_LIMIT
    requires |route'| < U64_LIMIT && (name'.Some? ==> |name'.value| < U64_LIMIT)
    ensures Libp2pTranscript(name, key, peer, route).HashInput() != DirectTranscriptForRoute(name', route').HashInput()
  {
    hide Libp2pTranscript, DirectTranscriptForRoute, InMemory, Encoding;
    Libp2pParts(name, key, peer, route);
    DirectParts(name', route');
    if Libp2pTranscript(name, key, peer, route).HashInput() == DirectTranscriptForRoute(name', route').HashInput() {
      EncodingUnique(Libp2pTranscript(name, key, peer, route).parts, DirectTranscriptForRoute(name', route').parts);
    }
  }

  // ---------------------------------------------------------------------------------------------
  // The manifest id.

  function CompressionTag(c: Compression): Byte {
    match c
    case CompressAuto => 0
    case CompressNone => 1
    case CompressZstd => 2
    case CompressLzma => 3
  }

  function KindTag(k: EntryKind): Byte {
    match k
    case File => 1
    case Directory => 2
  }

  function HashTag(h: Option<Digest>): Bytes {
    match h
    case Some(hash) => [1] + hash
    case None => [0]
  }

  function EntryEncoding(e: ManifestEntry): Bytes {
    [KindTag(e.kind)] + BigEndian(|e.path|, 8) + e.path + BigEndian(e.size, 8) + HashTag(e.blake3)
  }

  function EntriesEncoding(entries: seq<ManifestEntry>): Bytes {
    if entries == [] then [] else EntryEncoding(entries[0]) + EntriesEncoding(entries[1..])
  }

  function ManifestIdInput(c: Compression, entries: seq<ManifestEntry>): Bytes {
    Ascii("peerline:manifest-id:v1") + [CompressionTag(c)] + EntriesEncoding(entries)
  }

  /** The loop of `deterministic_manifest_id`. */
  method FeedManifestId(c: Compression, entries: seq<ManifestEntry>) returns (hasher: Bytes)
    ensures hasher == ManifestIdInput(c, entries)
  {
    hasher := Ascii("peerline:manifest-id:v1");
    hasher := hasher + [CompressionTag(c)];
    ghost var header := hasher;
    hide EntryEncoding, KindTag, HashTag, BigEndian;
    for i := 0 to |entries|
      invariant hasher + EntriesEncoding(entries[i..]) == header + EntriesEncoding(entries)
    {
      var entry := entries[i];
      assert entries[i..][1..] == entries[i + 1..];
      EntryFed(hasher, entry, EntriesEncoding(entries[i + 1..]));
      hasher := hasher + [KindTag(entry.kind)];
      hasher := hasher + BigEndian(|entry.path|, 8);
      hasher := hasher + entry.path;
      hasher := hasher + BigEndian(entry.size, 8);
      hasher := hasher + HashTag(entry.blake3);
    }
    assert entries[|entries|..] == [];
    assert hasher + [] == hasher;
  }

  lemma EntryFed(hasher: Bytes, e: ManifestEntry, rest: Bytes)
    ensures hasher + (EntryEncoding(e) + rest) ==
            hasher + [KindTag(e.kind)] + BigEndian(|e.path|, 8) + e.path + BigEndian(e.size, 8) + HashTag(e.blake3) + rest
  {
    hide KindTag, HashTag, BigEndian;
  }

  lemma BigEndianInjective(m: U64, n: U64)
    requires BigEndian(m, 8) == BigEndian(n, 8)
    ensures m == n
  {
    MachineWidths();
    BigEndianRoundTrip(m, 8);
    BigEndianRoundTrip(n, 8);
  }

  lemma HashTagUnique(a: Option<Digest>, x: Bytes, b: Option<Digest>, y: Bytes)
    requires HashTag(a) + x == HashTag(b) + y
    ensures a == b && x == y
  {
    assert (HashTag(a) + x)[0] == HashTag(a)[0] && (HashTag(b) + y)[0] == HashTag(b)[0];
    SplitConcat(HashTag(a), x, HashTag(b), y);
    if a.Some? {
      assert HashTag(a)[1..] == a.value && HashTag(b)[1..] == b.value;
    }
  }

  lemma EntryPieces(e: ManifestEntry, x: Bytes)
    ensures EntryEncoding(e) + x ==
            [KindTag(e.kind)] + (BigEndian(|e.path|, 8) + (e.path + (BigEndian(e.size, 8) + (HashTag(e.blake3) + x))))
  {
  }

  lemma FirstEntryUnique(a: ManifestEntry, x: Bytes, b: ManifestEntry, y: Bytes)
    requires |a.path| < U64_LIMIT && |b.path| < U64_LIMIT && EntryEncoding(a) + x == EntryEncoding(b) + y
    ensures a == b && x == y
  {
    EntryPieces(a, x);
    EntryPieces(b, y);
    var a4, b4 := HashTag(a.blake3) + x, HashTag(b.blake3) + y;
    var a3, b3 := BigEndian(a.size, 8) + a4, BigEndian(b.size, 8) + b4;
    var a2, b2 := a.path + a3, b.path + b3;
    var a1, b1 := BigEndian(|a.path|, 8) + a2, BigEndian(|b.path|, 8) + b2;
    hide EntryEncoding, HashTag, BigEndian;
    SplitConcat([KindTag(a.kind)], a1, [KindTag(b.kind)], b1);
    assert KindTag(a.kind) == [KindTag(a.kind)][0] == [KindTag(b.kind)][0] == KindTag(b.kind);
    SplitConcat(BigEndian(|a.path|, 8), a2, BigEndian(|b.path|, 8), b2);
    BigEndianInjective(|a.path|, |b.path|);
    SplitConcat(a.path, a3, b.path, b3);
    SplitConcat(BigEndian(a.size, 8), a4, BigEndian(b.size, 8), b4);
    BigEndianInjective(a.size, b.size);
    HashTagUnique(a.blake3, x, b.blake3, y);
  }

  lemma NoEntries(entries: seq<ManifestEntry>)
    ensures EntriesEncoding(entries) == [] <==> entries == []
  {
  }

  lemma {:induction false} EntriesUnique(a: seq<ManifestEntry>, b: seq<ManifestEntry>)
    requires forall e :: e in a + b ==> |e.path| < U64_LIMIT
    requires EntriesEncoding(a) == EntriesEncoding(b)
    ensures a == b
    decreases |a|
  {
    NoEntries(a);
    NoEntries(b);
    hide EntryEncoding;
    if a != [] && b != [] {
      assert a[0] in a + b && b[0] in a + b;
      FirstEntryUnique(a[0], EntriesEncoding(a[1..]), b[0], EntriesEncoding(b[1..]));
      assert forall e :: e in a[1..] + b[1..] ==> e in a + b;
      EntriesUnique(a[1..], b[1..]);
      assert a == [a[0]] + a[1..] && b == [b[0]] + b[1..];
    }
  }

  /** The manifest id is taken over bytes that determine the compression and every entry. */
  lemma ManifestIdInputUnique(c: Compression, entries: seq<ManifestEntry>, c': Compression, entries': seq<ManifestEntry>)
    requires forall e :: e in entries + entries' ==> |e.path| < U64_LIMIT
    ensures ManifestIdInput(c, entries) == ManifestIdInput(c', entries') <==> c == c' && entries == entries'
  {
    if ManifestIdInput(c, entries) == ManifestIdInput(c', entries') {
      var head := Ascii("peerline:manifest-id:v1");
      assert (head + [CompressionTag(c)])[|head|] == CompressionTag(c);
      assert (head + [CompressionTag(c')])[|head|] == CompressionTag(c');
      SplitConcat(head + [CompressionTag(c)], EntriesEncoding(entries), head + [CompressionTag(c')], EntriesEncoding(entries'));
      EntriesUnique(entries, entries');
    }
  }
}
