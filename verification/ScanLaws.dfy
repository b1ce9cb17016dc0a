/** What a scan finds, and that its order does not depend on the order in which the sources were given. */
module ScanLaws {
  import opened Bytes
  import opened Paths
  import opened FileTree
  import opened Scanning

  // ---------------------------------------------------------------------------------------------
  // What is at a path below the sources.

  function FindIn(sources: seq<Source>, names: seq<Bytes>): Option<Node>
    decreases sources, 1
  {
    if names == [] || sources == [] then None
    else if sources[0].name == names[0] then NodeUnder(sources[0], names[1..])
    else FindIn(sources[1..], names)
  }

  function NodeUnder(s: Source, names: seq<Bytes>): Option<Node>
    decreases s, 0
  {
    match s
    case SourceFile(_, content) => if names == [] then Some(Content(content)) else None
    case SourceFolder(_, children) => if names == [] then Some(Folder) else FindIn(children, names)
  }

  lemma {:induction false} FoundIsScanned(prefix: seq<Bytes>, sources: seq<Source>, names: seq<Bytes>)
    requires FindIn(sources, names).Some?
    ensures SourceEntry(prefix + names, FindIn(sources, names).value) in ScanAll(prefix, sources)
    decreases sources, 1
  {
    if sources[0].name == names[0] {
      assert names == [names[0]] + names[1..];
      UnderIsScanned(prefix, sources[0], names[1..]);
    } else {
      FoundIsScanned(prefix, sources[1..], names);
    }
  }

  lemma {:induction false} UnderIsScanned(prefix: seq<Bytes>, s: Source, names: seq<Bytes>)
    requires NodeUnder(s, names).Some?
    ensures SourceEntry(prefix + ([s.name] + names), NodeUnder(s, names).value) in ScanSource(prefix, s)
    decreases s, 0
  {
    assert prefix + ([s.name] + names) == prefix + [s.name] + names;
    if names != [] {
      FoundIsScanned(prefix + [s.name], s.children, names);
    } else {
      assert prefix + [s.name] + names == prefix + [s.name];
    }
  }

  lemma {:induction false} ScannedIsFound(prefix: seq<Bytes>, sources: seq<Source>, e: SourceEntry)
    requires AllExist(sources) && NamesDiffer(sources) && e in ScanAll(prefix, sources)
    ensures prefix <= e.names && |e.names| > |prefix|
    ensures FindIn(sources, e.names[|prefix|..]) == Some(e.node)
    ensures exists s :: s in sources && e.names[|prefix|] == s.name
    ensures AreNames(e.names[|prefix|..]) && (e.node.Content? ==> |e.node.bytes| < U64_LIMIT)
    decreases sources, 1
  {
    assert sources[0] in sources && Exists(sources[0]);
    if e in ScanSource(prefix, sources[0]) {
      ScannedIsUnder(prefix, sources[0], e);
    } else {
      RestExists(sources);
      ScannedIsFound(prefix, sources[1..], e);
      var s :| s in sources[1..] && e.names[|prefix|] == s.name;
      assert s in sources && s.name != sources[0].name;
    }
  }

  lemma RestExists(sources: seq<Source>)
    requires sources != [] && AllExist(sources) && NamesDiffer(sources)
    ensures AllExist(sources[1..]) && NamesDiffer(sources[1..])
    ensures forall s :: s in sources[1..] ==> s.name != sources[0].name
  {
    hide Exists;
  }

  lemma {:induction false} ScannedIsUnder(prefix: seq<Bytes>, s: Source, e: SourceEntry)
    requires Exists(s) && e in ScanSource(prefix, s)
    ensures prefix <= e.names && |e.names| > |prefix| && e.names[|prefix|] == s.name
    ensures NodeUnder(s, e.names[|prefix|..][1..]) == Some(e.node)
    ensures AreNames(e.names[|prefix|..]) && (e.node.Content? ==> |e.node.bytes| < U64_LIMIT)
    decreases s, 0
  {
    var own := prefix + [s.name];
    if e.names == own && (s.SourceFile? || e == SourceEntry(own, Folder)) {
      assert e.names[|prefix|..] == [s.name];
    } else {
      assert s.SourceFolder? && e in ScanAll(own, s.children);
      ScannedIsFound(own, s.children, e);
      assert e.names[|prefix|..] == [s.name] + e.names[|own|..];
      assert e.names[|prefix|..][1..] == e.names[|own|..];
    }
  }

  lemma {:induction false} NothingUnderAFile(sources: seq<Source>, names: seq<Bytes>, longer: seq<Bytes>)
    requires FindIn(sources, names).Some? && FindIn(sources, names).value.Content? && names < longer
    ensures FindIn(sources, longer) == None
    decreases sources
  {
    assert longer[0] == names[0];
    if sources[0].name != names[0] {
      NothingUnderAFile(sources[1..], names, longer);
    } else if sources[0].SourceFolder? {
      assert names[1..] < longer[1..];
      NothingUnderAFile(sources[0].children, names[1..], longer[1..]);
    }
  }

  lemma {:induction false} FoldersOnTheWay(sources: seq<Source>, names: seq<Bytes>, shorter: seq<Bytes>)
    requires FindIn(sources, names).Some? && shorter != [] && shorter < names
    ensures FindIn(sources, shorter) == Some(Folder)
    decreases sources
  {
    assert shorter[0] == names[0];
    if sources[0].name != names[0] {
      FoldersOnTheWay(sources[1..], names, shorter);
    } else if |shorter| > 1 {
      assert shorter[1..] < names[1..];
      FoldersOnTheWay(sources[0].children, names[1..], shorter[1..]);
    }
  }

  // ---------------------------------------------------------------------------------------------
  // No path twice, exactly when the base names differ.

  predicate EntriesDiffer(entries: seq<SourceEntry>) {
    forall i, j :: 0 <= i < j < |entries| ==> entries[i].names != entries[j].names
  }

  lemma ConcatDiffers(a: seq<SourceEntry>, b: seq<SourceEntry>)
    requires EntriesDiffer(a) && EntriesDiffer(b)
    requires forall x, y :: x in a && y in b ==> x.names != y.names
    ensures EntriesDiffer(a + b)
  {
  }

  lemma {:induction false} ScanAllDiffers(prefix: seq<Bytes>, sources: seq<Source>)
    requires AllExist(sources) && NamesDiffer(sources)
    ensures EntriesDiffer(ScanAll(prefix, sources))
    decreases sources, 1
  {
    if sources != [] {
      assert sources[0] in sources && Exists(sources[0]);
      RestExists(sources);
      ScanSourceDiffers(prefix, sources[0]);
      ScanAllDiffers(prefix, sources[1..]);
      var a, b := ScanSource(prefix, sources[0]), ScanAll(prefix, sources[1..]);
      forall x, y | x in a && y in b ensures x.names != y.names {
        ScannedIsUnder(prefix, sources[0], x);
        ScannedIsFound(prefix, sources[1..], y);
      }
      ConcatDiffers(a, b);
    }
  }

  lemma {:induction false} ScanSourceDiffers(prefix: seq<Bytes>, s: Source)
    requires Exists(s)
    ensures EntriesDiffer(ScanSource(prefix, s))
    decreases s, 0
  {
    if s.SourceFolder? {
      var own := prefix + [s.name];
      ScanAllDiffers(own, s.children);
      forall y | y in ScanAll(own, s.children) ensures y.names != own {
        ScannedIsFound(own, s.children, y);
      }
      ConcatDiffers([SourceEntry(own, Folder)], ScanAll(own, s.children));
    }
  }

  /** Every source starts with the entry of its base name. */
  lemma {:induction false} SourceScanned(sources: seq<Source>, i: nat)
    requires i < |sources|
    ensures exists k :: 0 <= k < |ScanAll([], sources)| && ScanAll([], sources)[k].names == [sources[i].name]
  {
    var first := ScanSource([], sources[0]);
    assert [] + [sources[0].name] == [sources[0].name];
    if i == 0 {
      assert ScanAll([], sources)[0] == first[0];
    } else {
      SourceScanned(sources[1..], i - 1);
      var k :| 0 <= k < |ScanAll([], sources[1..])| && ScanAll([], sources[1..])[k].names == [sources[i].name];
      assert ScanAll([], sources)[|first| + k] == ScanAll([], sources[1..])[k];
    }
  }

  lemma {:induction false} TwiceScanned(sources: seq<Source>, i: nat, j: nat)
    requires i < j < |sources| && sources[i].name == sources[j].name
    ensures !EntriesDiffer(ScanAll([], sources))
  {
    var first, rest := ScanSource([], sources[0]), ScanAll([], sources[1..]);
    if i > 0 {
      TwiceScanned(sources[1..], i - 1, j - 1);
      var x, y :| 0 <= x < y < |rest| && rest[x].names == rest[y].names;
      assert ScanAll([], sources)[|first| + x] == rest[x] && ScanAll([], sources)[|first| + y] == rest[y];
    } else {
      SourceScanned(sources[1..], j - 1);
      var k :| 0 <= k < |rest| && rest[k].names == [sources[j].name];
      assert first[0].names == [] + [sources[0].name] == [sources[j].name];
      assert ScanAll([], sources)[0] == first[0] && ScanAll([], sources)[|first| + k] == rest[k];
    }
  }

  /** A scan repeats a path exactly when two of the sources have the same base name. */
  lemma ScanDiffersExactly(sources: seq<Source>)
    requires AllExist(sources)
    ensures EntriesDiffer(ScanAll([], sources)) <==> NamesDiffer(sources)
  {
    if NamesDiffer(sources) {
      ScanAllDiffers([], sources);
    } else {
      var i, j :| 0 <= i < j < |sources| && sources[i].name == sources[j].name;
      TwiceScanned(sources, i, j);
    }
  }

  // ---------------------------------------------------------------------------------------------
  // The order.

  lemma {:induction false} BytesTotal(a: Bytes, b: Bytes)
    ensures BytesLe(a, b) || BytesLe(b, a)
    ensures BytesLe(a, b) && BytesLe(b, a) ==> a == b
  {
    if a != [] && b != [] {
      BytesTotal(a[1..], b[1..]);
      assert a == [a[0]] + a[1..] && b == [b[0]] + b[1..];
    }
  }

  lemma {:induction false} BytesTransitive(a: Bytes, b: Bytes, c: Bytes)
    requires BytesLe(a, b) && BytesLe(b, c)
    ensures BytesLe(a, c)
  {
    if a != [] && a[0] == b[0] == c[0] {
      BytesTransitive(a[1..], b[1..], c[1..]);
    }
  }

  lemma {:induction false} NamesTotal(a: seq<Bytes>, b: seq<Bytes>)
    ensures NamesLe(a, b) || NamesLe(b, a)
    ensures NamesLe(a, b) && NamesLe(b, a) ==> a == b
  {
    if a != [] && b != [] {
      BytesTotal(a[0], b[0]);
      NamesTotal(a[1..], b[1..]);
      assert a == [a[0]] + a[1..] && b == [b[0]] + b[1..];
    }
  }

  lemma {:induction false} NamesTransitive(a: seq<Bytes>, b: seq<Bytes>, c: seq<Bytes>)
    requires NamesLe(a, b) && NamesLe(b, c)
    ensures NamesLe(a, c)
  {
    if a != [] {
      hide BytesLe;
      if a[0] == b[0] == c[0] {
        NamesTransitive(a[1..], b[1..], c[1..]);
      } else if a[0] != b[0] && b[0] != c[0] {
        BytesTransitive(a[0], b[0], c[0]);
        BytesTotal(a[0], b[0]);
      }
    }
  }

  predicate InOrder(entries: seq<SourceEntry>) {
    forall i, j :: 0 <= i < j < |entries| ==> NamesLe(entries[i].names, entries[j].names)
  }

  lemma {:induction false} InsertSorts(e: SourceEntry, sorted: seq<SourceEntry>)
    requires InOrder(sorted)
    ensures multiset(Insert(e, sorted)) == multiset(sorted) + multiset{e}
    ensures InOrder(Insert(e, sorted))
  {
    if sorted != [] {
      var n := |sorted| - 1;
      var last := sorted[n];
      assert sorted == sorted[..n] + [last];
      NamesTotal(last.names, e.names);
      if NamesLe(last.names, e.names) {
        forall i | 0 <= i <= n ensures NamesLe(sorted[i].names, e.names) {
          if i < n {
            NamesTransitive(sorted[i].names, last.names, e.names);
          }
        }
      } else {
        InsertSorts(e, sorted[..n]);
        LastStaysLast(e, sorted[..n], last);
      }
    }
  }

  lemma LastStaysLast(e: SourceEntry, sorted: seq<SourceEntry>, last: SourceEntry)
    requires InOrder(sorted + [last]) && InOrder(Insert(e, sorted)) && NamesLe(e.names, last.names)
    requires multiset(Insert(e, sorted)) == multiset(sorted) + multiset{e}
    ensures InOrder(Insert(e, sorted) + [last])
  {
    hide NamesLe, Insert;
    var inserted := Insert(e, sorted);
    forall i | 0 <= i < |inserted| ensures NamesLe(inserted[i].names, last.names) {
      assert inserted[i] in multiset(inserted);
      if inserted[i] != e {
        assert inserted[i] in sorted;
        var k :| 0 <= k < |sorted| && sorted[k] == inserted[i];
        assert (sorted + [last])[k] == sorted[k] && (sorted + [last])[|sorted|] == last;
      }
    }
  }

  /** Sorting loses nothing and orders by path. */
  lemma {:induction false} SortSorts(entries: seq<SourceEntry>)
    ensures multiset(SortByPath(entries)) == multiset(entries)
    ensures InOrder(SortByPath(entries))
  {
    if entries != [] {
      var n := |entries| - 1;
      assert entries == entries[..n] + [entries[n]];
      hide InOrder, Insert;
      SortSorts(entries[..n]);
      InsertSorts(entries[n], SortByPath(entries[..n]));
    } else {
      hide NamesLe;
    }
  }

  lemma SameMembers(a: seq<SourceEntry>, b: seq<SourceEntry>)
    requires multiset(a) == multiset(b)
    ensures forall e :: e in a <==> e in b
  {
    forall e ensures e in a <==> e in b {
      assert e in a <==> e in multiset(a);
      assert e in b <==> e in multiset(b);
    }
  }

  lemma {:induction false} DifferByCount(a: seq<SourceEntry>, b: seq<SourceEntry>)
    requires multiset(a) == multiset(b) && EntriesDiffer(a)
    ensures EntriesDiffer(b)
  {
    SameMembers(a, b);
    forall i, j | 0 <= i < j < |b| ensures b[i].names != b[j].names {
      if b[i].names == b[j].names {
        assert b[i] in b && b[j] in b;
        var x :| 0 <= x < |a| && a[x] == b[i];
        var y :| 0 <= y < |a| && a[y] == b[j];
        assert x == y;
        CountTwice(b, i, j);
        CountOnce(a, x);
      }
    }
  }

  lemma CountTwice(b: seq<SourceEntry>, i: nat, j: nat)
    requires i < j < |b| && b[i] == b[j]
    ensures multiset(b)[b[i]] >= 2
  {
    assert b == b[..i] + [b[i]] + b[i + 1..j] + [b[j]] + b[j + 1..];
  }

  lemma CountOnce(a: seq<SourceEntry>, x: nat)
    requires x < |a| && EntriesDiffer(a)
    ensures multiset(a)[a[x]] == 1
  {
    assert a == a[..x] + [a[x]] + a[x + 1..];
    assert a[x] !in multiset(a[..x]) && a[x] !in multiset(a[x + 1..]);
  }

  lemma LastIsSame(a: seq<SourceEntry>, b: seq<SourceEntry>)
    requires InOrder(a) && InOrder(b) && EntriesDiffer(a) && multiset(a) == multiset(b)
    requires |a| == |b| > 0
    ensures a[|a| - 1] == b[|b| - 1]
  {
    hide NamesLe;
    var n := |a| - 1;
    SameMembers(a, b);
    assert a[n] in b && b[n] in a;
    var i :| 0 <= i <= n && b[i] == a[n];
    var j :| 0 <= j <= n && a[j] == b[n];
    NamesTotal(a[n].names, b[n].names);
  }

  lemma SameLength<T>(a: seq<T>, b: seq<T>)
    requires multiset(a) == multiset(b)
    ensures |a| == |b|
  {
    assert |multiset(a)| == |a| && |multiset(b)| == |b|;
  }

  lemma WithoutLast<T>(a: seq<T>, b: seq<T>, last: T)
    requires multiset(a + [last]) == multiset(b + [last])
    ensures multiset(a) == multiset(b)
  {
    assert multiset(a) == multiset(a + [last]) - multiset{last};
    assert multiset(b) == multiset(b + [last]) - multiset{last};
  }

  lemma PrefixInOrder(a: seq<SourceEntry>, last: SourceEntry)
    ensures InOrder(a + [last]) ==> InOrder(a)
    ensures EntriesDiffer(a + [last]) ==> EntriesDiffer(a)
  {
    hide NamesLe;
    assert forall i :: 0 <= i < |a| ==> (a + [last])[i] == a[i];
  }

  /** There is only one order for entries whose paths differ. */
  lemma {:induction false} OneOrder(a: seq<SourceEntry>, b: seq<SourceEntry>)
    requires InOrder(a) && InOrder(b) && EntriesDiffer(a) && multiset(a) == multiset(b)
    ensures a == b
    decreases |a|
  {
    SameLength(a, b);
    if a != [] {
      LastIsSame(a, b);
      var last, a', b' := a[|a| - 1], a[..|a| - 1], b[..|b| - 1];
      assert a == a' + [last] && b == b' + [last];
      hide InOrder, EntriesDiffer;
      WithoutLast(a', b', last);
      PrefixInOrder(a', last);
      PrefixInOrder(b', last);
      OneOrder(a', b');
    }
  }

  lemma WithoutOne<T>(a: seq<T>, k: nat)
    requires k < |a|
    ensures multiset(a[..k] + a[k + 1..]) == multiset(a) - multiset{a[k]}
  {
    assert a == a[..k] + [a[k]] + a[k + 1..];
  }

  lemma Locate<T>(s: seq<T>, x: T) returns (k: nat)
    requires x in multiset(s)
    ensures k < |s| && s[k] == x
  {
    k :| 0 <= k < |s| && s[k] == x;
  }

  lemma TakeOne<T>(a: seq<T>, b: seq<T>) returns (k: nat)
    requires a != [] && multiset(a) == multiset(b)
    ensures k < |b| && b[k] == a[0]
    ensures multiset(a[1..]) == multiset(b[..k] + b[k + 1..])
  {
    assert a[0] in multiset(a);
    k := Locate(b, a[0]);
    WithoutFirst(a);
    WithoutOne(b, k);
  }

  lemma WithoutFirst<T>(a: seq<T>)
    requires a != []
    ensures multiset(a[1..]) == multiset(a) - multiset{a[0]}
  {
    assert a == [a[0]] + a[1..];
  }

  lemma {:induction false} ScanConcat(prefix: seq<Bytes>, a: seq<Source>, b: seq<Source>)
    ensures ScanAll(prefix, a + b) == ScanAll(prefix, a) + ScanAll(prefix, b)
    decreases |a|
  {
    hide ScanSource;
    if a == [] {
      assert a + b == b;
    } else {
      assert (a + b)[1..] == a[1..] + b;
      ScanConcat(prefix, a[1..], b);
    }
  }

  lemma ScanAround(prefix: seq<Bytes>, b: seq<Source>, k: nat)
    requires k < |b|
    ensures multiset(ScanAll(prefix, b)) == multiset(ScanSource(prefix, b[k])) + multiset(ScanAll(prefix, b[..k] + b[k + 1..]))
  {
    hide ScanSource;
    var before, after := b[..k], b[k + 1..];
    assert b == before + ([b[k]] + after);
    ScanConcat(prefix, before, after);
    ScanConcat(prefix, before, [b[k]] + after);
    assert ([b[k]] + after)[1..] == after;
  }

  lemma {:induction false} SameSourcesSameEntries(prefix: seq<Bytes>, a: seq<Source>, b: seq<Source>)
    requires multiset(a) == multiset(b)
    ensures multiset(ScanAll(prefix, a)) == multiset(ScanAll(prefix, b))
    decreases |a|
  {
    hide ScanSource, ScanAll;
    SameLength(a, b);
    if a == [] {
      assert b == [];
    } else {
      var k := TakeOne(a, b);
      SameSourcesSameEntries(prefix, a[1..], b[..k] + b[k + 1..]);
      assert a[..0] + a[0 + 1..] == a[1..];
      ScanAround(prefix, a, 0);
      ScanAround(prefix, b, k);
    }
  }

  /** The order in which the sources are given does not change the entries of the archive. */
  lemma ScanOrderIsCanonical(sources: seq<Source>, other: seq<Source>)
    requires AllExist(sources) && NamesDiffer(sources) && multiset(sources) == multiset(other)
    ensures ScanSources(sources) == ScanSources(other)
  {
    var a, b := ScanAll([], sources), ScanAll([], other);
    SameSourcesSameEntries([], sources, other);
    ScanDiffersExactly(sources);
    hide ScanAll, EntriesDiffer, InOrder, SortByPath, Exists;
    SortSorts(a);
    SortSorts(b);
    DifferByCount(a, SortByPath(a));
    OneOrder(SortByPath(a), SortByPath(b));
  }

  // ---------------------------------------------------------------------------------------------
  // Which order it is.

  /** The texts part at this place. */
  predicate PartAt<T(==)>(a: seq<T>, b: seq<T>, k: nat) {
    k < |a| && k < |b| && a[..k] == b[..k] && a[k] != b[k]
  }

  lemma PartLater<T>(a: seq<T>, b: seq<T>)
    requires a != [] && b != [] && a[0] == b[0]
    ensures a <= b <==> a[1..] <= b[1..]
    ensures forall k: nat :: PartAt(a, b, k + 1) <==> PartAt(a[1..], b[1..], k)
    ensures !PartAt(a, b, 0)
  {
    assert a == [a[0]] + a[1..] && b == [b[0]] + b[1..];
    forall k: nat ensures PartAt(a, b, k + 1) <==> PartAt(a[1..], b[1..], k) {
      if k + 1 < |a| && k + 1 < |b| {
        assert a[..k + 1] == [a[0]] + a[1..][..k] && b[..k + 1] == [b[0]] + b[1..][..k];
        assert a[..k + 1][1..] == a[1..][..k] && b[..k + 1][1..] == b[1..][..k];
      }
    }
  }

  lemma PartAtOnce<T>(a: seq<T>, b: seq<T>)
    requires a != [] && b != [] && a[0] != b[0]
    ensures PartAt(a, b, 0) && !(a <= b) && forall k: nat :: PartAt(a, b, k) ==> k == 0
  {
    forall k: nat | 0 < k < |a| && k < |b| ensures a[..k] != b[..k] {
      assert a[..k][0] == a[0] && b[..k][0] == b[0];
    }
  }

  /** A name comes before the longer ones that it begins, and otherwise the smaller byte decides where the two part. */
  lemma {:induction false} BytesOrderExactly(a: Bytes, b: Bytes)
    ensures BytesLe(a, b) <==> a <= b || exists k: nat :: PartAt(a, b, k) && a[k] < b[k]
  {
    if a != [] && b != [] {
      if a[0] == b[0] {
        BytesOrderExactly(a[1..], b[1..]);
        PartLater(a, b);
        if exists k: nat :: PartAt(a[1..], b[1..], k) && a[1..][k] < b[1..][k] {
          var k: nat :| PartAt(a[1..], b[1..], k) && a[1..][k] < b[1..][k];
          assert PartAt(a, b, k + 1) && a[k + 1] < b[k + 1];
        }
        if exists k: nat :: PartAt(a, b, k) && a[k] < b[k] {
          var k: nat :| PartAt(a, b, k) && a[k] < b[k];
          var j: nat := k - 1;
          assert PartAt(a, b, j + 1);
          assert PartAt(a[1..], b[1..], j) && a[1..][j] < b[1..][j];
        }
      } else {
        PartAtOnce(a, b);
      }
    }
  }

  /** A folder comes before what it holds, and otherwise the names decide where two paths part. */
  lemma {:induction false} PathOrderExactly(a: seq<Bytes>, b: seq<Bytes>)
    ensures NamesLe(a, b) <==> a <= b || exists k: nat :: PartAt(a, b, k) && BytesLe(a[k], b[k])
  {
    hide BytesLe;
    if a != [] && b != [] {
      if a[0] == b[0] {
        PathOrderExactly(a[1..], b[1..]);
        PartLater(a, b);
        if exists k: nat :: PartAt(a[1..], b[1..], k) && BytesLe(a[1..][k], b[1..][k]) {
          var k: nat :| PartAt(a[1..], b[1..], k) && BytesLe(a[1..][k], b[1..][k]);
          assert PartAt(a, b, k + 1) && BytesLe(a[k + 1], b[k + 1]);
        }
        if exists k: nat :: PartAt(a, b, k) && BytesLe(a[k], b[k]) {
          var k: nat :| PartAt(a, b, k) && BytesLe(a[k], b[k]);
          var j: nat := k - 1;
          assert PartAt(a, b, j + 1);
          assert PartAt(a[1..], b[1..], j) && BytesLe(a[1..][j], b[1..][j]);
        }
      } else {
        PartAtOnce(a, b);
      }
    }
  }

  /** The entries of one path, in their order. */
  function AtPath(entries: seq<SourceEntry>, names: seq<Bytes>): seq<SourceEntry> {
    if entries == [] then []
    else
      var last := entries[|entries| - 1];
      AtPath(entries[..|entries| - 1], names) + IfAt(last, names)
  }

  lemma AtPathOneMore(entries: seq<SourceEntry>, last: SourceEntry, names: seq<Bytes>)
    ensures AtPath(entries + [last], names) == AtPath(entries, names) + IfAt(last, names)
  {
    assert (entries + [last])[..|entries|] == entries;
  }

  function IfAt(e: SourceEntry, names: seq<Bytes>): seq<SourceEntry> {
    if e.names == names then [e] else []
  }

  lemma Commute(a: seq<SourceEntry>, e: SourceEntry, last: SourceEntry, names: seq<Bytes>)
    requires e.names != last.names
    ensures a + IfAt(e, names) + IfAt(last, names) == a + IfAt(last, names) + IfAt(e, names)
  {
  }

  lemma {:induction false} InsertIsStable(e: SourceEntry, sorted: seq<SourceEntry>, names: seq<Bytes>)
    ensures AtPath(Insert(e, sorted), names) == AtPath(sorted, names) + IfAt(e, names)
  {
    AtPathOneMore(sorted, e, names);
    if sorted == [] {
      assert [] + [e] == [e];
    } else {
      var init, last := sorted[..|sorted| - 1], sorted[|sorted| - 1];
      assert sorted == init + [last];
      AtPathOneMore(init, last, names);
      if NamesLe(last.names, e.names) {
        assert Insert(e, sorted) == sorted + [e];
      } else {
        assert Insert(e, sorted) == Insert(e, init) + [last];
        InsertIsStable(e, init, names);
        AtPathOneMore(Insert(e, init), last, names);
        NamesTotal(last.names, e.names);
        hide AtPath, Insert, IfAt, NamesLe;
        Commute(AtPath(init, names), e, last, names);
      }
    }
  }

  /** Entries of one path keep their order. */
  lemma {:induction false} SortIsStable(entries: seq<SourceEntry>, names: seq<Bytes>)
    ensures AtPath(SortByPath(entries), names) == AtPath(entries, names)
  {
    if entries != [] {
      SortIsStable(entries[..|entries| - 1], names);
      InsertIsStable(entries[|entries| - 1], SortByPath(entries[..|entries| - 1]), names);
    }
  }
}
