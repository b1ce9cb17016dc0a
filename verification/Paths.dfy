/** crates/peerline-core/src/path.rs on a Unix system: which relative paths are accepted, when two of them are
    the same path, and the numbered names that keep an existing file. */
module Paths {
  import opened Bytes
  import opened ArchiveTypes

  const SLASH: Byte := 47
  const DOT: Byte := 46

  datatype Component = RootDir | CurDir | ParentDir | Normal(name: Bytes)

  datatype PathError = Empty | Absolute | ParentComponent

  /** The pieces between the separators; there is always at least one. */
  function Split(text: PathText): (segments: seq<Bytes>)
    ensures |segments| > 0
  {
    if text == [] then [[]]
    else
      var rest := Split(text[1..]);
      if text[0] == SLASH then [[]] + rest else [[text[0]] + rest[0]] + rest[1..]
  }

  function Join(segments: seq<Bytes>): PathText
    requires |segments| > 0
  {
    if |segments| == 1 then segments[0] else segments[0] + [SLASH] + Join(segments[1..])
  }

  predicate Noncanonical(segment: Bytes) {
    segment == [] || segment == [DOT] || segment == [DOT, DOT]
  }

  /** A name that a directory entry can have. */
  predicate IsName(name: Bytes) {
    !Noncanonical(name) && SLASH !in name
  }

  predicate AreNames(names: seq<Bytes>) {
    forall i :: 0 <= i < |names| ==> IsName(names[i])
  }

  function SegmentComponents(segments: seq<Bytes>): seq<Component> {
    if segments == [] then []
    else
      (if segments[0] == [] || segments[0] == [DOT] then []
       else if segments[0] == [DOT, DOT] then [ParentDir]
       else [Normal(segments[0])])
      + SegmentComponents(segments[1..])
  }

  /** What the standard library compares when it compares two paths. */
  function Components(path: PathText): seq<Component> {
    if path == [] then []
    else
      (if path[0] == SLASH then [RootDir] else if Split(path)[0] == [DOT] then [CurDir] else [])
      + SegmentComponents(Split(path))
  }

  /** The error of the first component that is not a plain name. */
  function ComponentError(components: seq<Component>): Option<PathError> {
    if components == [] then None
    else
      match components[0]
      case RootDir => Some(Absolute)
      case CurDir => Some(ParentComponent)
      case ParentDir => Some(ParentComponent)
      case Normal(name) => if name == [] then Some(Empty) else ComponentError(components[1..])
  }

  /** `None` when the path is accepted. */
  function ValidateRelativePath(path: PathText): Option<PathError> {
    if path == [] then Some(Empty)
    else if path[0] == SLASH then Some(Absolute)
    else if exists i :: 0 <= i < |Split(path)| && Noncanonical(Split(path)[i]) then Some(ParentComponent)
    else ComponentError(Components(path))
  }

  // ---------------------------------------------------------------------------------------------
  // Paths and their names.

  lemma JoinCons(head: Bytes, tail: seq<Bytes>)
    requires |tail| > 0
    ensures Join([head] + tail) == head + [SLASH] + Join(tail)
  {
    assert ([head] + tail)[1..] == tail;
  }

  lemma Prepend(first: Byte, a: Bytes, b: Bytes)
    ensures [first] + a + [SLASH] + b == [first] + (a + [SLASH] + b)
  {
  }

  lemma JoinGrows(first: Byte, head: Bytes, tail: seq<Bytes>)
    ensures Join([[first] + head] + tail) == [first] + Join([head] + tail)
  {
    if tail == [] {
      assert [head] + tail == [head] && [[first] + head] + tail == [[first] + head];
    } else {
      JoinCons(head, tail);
      JoinCons([first] + head, tail);
      Prepend(first, head, Join(tail));
    }
  }

  lemma {:induction false} JoinSplit(text: PathText)
    ensures Join(Split(text)) == text
    ensures forall i :: 0 <= i < |Split(text)| ==> SLASH !in Split(text)[i]
  {
    if text != [] {
      var rest := Split(text[1..]);
      JoinSplit(text[1..]);
      hide Join;
      assert text == [text[0]] + text[1..];
      if text[0] == SLASH {
        JoinCons([], rest);
      } else {
        assert rest == [rest[0]] + rest[1..];
        JoinGrows(text[0], rest[0], rest[1..]);
      }
    }
  }

  lemma {:induction false} SplitName(name: Bytes, rest: PathText)
    requires SLASH !in name
    ensures Split(name + [SLASH] + rest) == [name] + Split(rest)
  {
    var text := name + [SLASH] + rest;
    if name == [] {
      assert text[1..] == rest;
    } else {
      assert text[1..] == name[1..] + [SLASH] + rest;
      SplitName(name[1..], rest);
      assert [text[0]] + name[1..] == name;
    }
  }

  lemma {:induction false} SplitWord(name: Bytes)
    requires SLASH !in name
    ensures Split(name) == [name]
  {
    if name != [] {
      SplitWord(name[1..]);
      assert [name[0]] + name[1..] == name;
    }
  }

  lemma {:induction false} SplitJoin(segments: seq<Bytes>)
    requires |segments| > 0 && forall i :: 0 <= i < |segments| ==> SLASH !in segments[i]
    ensures Split(Join(segments)) == segments
  {
    if |segments| == 1 {
      SplitWord(segments[0]);
    } else {
      SplitName(segments[0], Join(segments[1..]));
      SplitJoin(segments[1..]);
      assert [segments[0]] + segments[1..] == segments;
    }
  }

  lemma {:induction false} NamesAreComponents(names: seq<Bytes>)
    requires AreNames(names)
    ensures |SegmentComponents(names)| == |names|
    ensures forall i :: 0 <= i < |names| ==> SegmentComponents(names)[i] == Normal(names[i])
    ensures ComponentError(SegmentComponents(names)) == None
  {
    if names != [] {
      NamesAreComponents(names[1..]);
      assert SegmentComponents(names) == [Normal(names[0])] + SegmentComponents(names[1..]);
    }
  }

  /** Exactly the paths that are names joined by single separators are accepted. */
  lemma AcceptedExactly(path: PathText)
    ensures ValidateRelativePath(path) == None <==> AreNames(Split(path))
    ensures AreNames(Split(path)) ==> Join(Split(path)) == path
    ensures AreNames(Split(path)) ==> Components(path) == SegmentComponents(Split(path))
  {
    JoinSplit(path);
    if AreNames(Split(path)) {
      NamesAreComponents(Split(path));
      assert forall i :: 0 <= i < |Split(path)| ==> IsName(Split(path)[i]) && !Noncanonical(Split(path)[i]);
      assert IsName(Split(path)[0]);
      assert path != [] && path[0] != SLASH;
      assert Components(path) == SegmentComponents(Split(path));
      assert ComponentError(Components(path)) == None;
      assert !(exists i :: 0 <= i < |Split(path)| && Noncanonical(Split(path)[i]));
    } else if path != [] && path[0] != SLASH {
      var i :| 0 <= i < |Split(path)| && !IsName(Split(path)[i]);
      assert Noncanonical(Split(path)[i]);
    }
  }

  /** Every sequence of names is the split of an accepted path. */
  lemma NamesMakeAPath(names: seq<Bytes>)
    requires |names| > 0 && AreNames(names)
    ensures Split(Join(names)) == names && ValidateRelativePath(Join(names)) == None
  {
    SplitJoin(names);
    AcceptedExactly(Join(names));
  }

  /** Two accepted paths with the same components are the same text. */
  lemma SameComponentsSameText(path: PathText, other: PathText)
    requires ValidateRelativePath(path) == None && ValidateRelativePath(other) == None
    ensures Components(path) == Components(other) <==> path == other
    ensures Split(path) == Split(other) <==> path == other
  {
    AcceptedExactly(path);
    AcceptedExactly(other);
    if Components(path) == Components(other) {
      NamesAreComponents(Split(path));
      NamesAreComponents(Split(other));
      forall i | 0 <= i < |Split(path)| ensures Split(path)[i] == Split(other)[i] {
        assert Components(path)[i] == Normal(Split(path)[i]) && Components(other)[i] == Normal(Split(other)[i]);
      }
      assert Split(path) == Split(other);
    }
  }

  // ---------------------------------------------------------------------------------------------
  // Numbered names.

  function LastDot(name: Bytes): (i: int)
    ensures -1 <= i < |name|
    ensures i >= 0 ==> name[i] == DOT
    ensures forall j :: i < j < |name| ==> name[j] != DOT
  {
    if name == [] then -1
    else if name[|name| - 1] == DOT then |name| - 1
    else LastDot(name[..|name| - 1])
  }

  /** A dot that starts the name does not start an extension. */
  function FileStem(name: Bytes): Bytes {
    if name == [DOT, DOT] || LastDot(name) <= 0 then name else name[..LastDot(name)]
  }

  function Extension(name: Bytes): Option<Bytes> {
    if name == [DOT, DOT] || LastDot(name) <= 0 then None else Some(name[LastDot(name) + 1..])
  }

  function Decimal(n: nat): (digits: Bytes)
    ensures |digits| > 0
  {
    if n < 10 then [48 + n] else Decimal(n / 10) + [48 + n % 10]
  }

  /** `stem (index)` or `stem (index).ext`. */
  function Numbered(name: Bytes, index: nat): Bytes {
    FileStem(name) + [32, 40] + Decimal(index) + [41]
    + (match Extension(name) case Some(ext) => [DOT] + ext case None => [])
  }

  function FromDecimal(digits: Bytes): int {
    if digits == [] then 0 else 10 * FromDecimal(digits[..|digits| - 1]) + digits[|digits| - 1] - 48
  }

  /** The digits are those of the number, without a zero in front. */
  lemma {:induction false} DecimalReads(n: nat)
    ensures FromDecimal(Decimal(n)) == n
    ensures Decimal(n)[0] == 48 <==> n == 0
  {
    if n >= 10 {
      DecimalReads(n / 10);
      assert Decimal(n)[..|Decimal(n)| - 1] == Decimal(n / 10);
    } else {
      assert Decimal(n)[..0] == [];
    }
  }

  /** A name is its stem, or its stem, a dot and its extension; it has an extension exactly when there is a dot behind
      its first byte, and the extension starts behind the last one. */
  lemma StemAndExtension(name: Bytes)
    requires IsName(name)
    ensures Extension(name).Some? <==> exists i :: 0 < i < |name| && name[i] == DOT
    ensures match Extension(name)
            case None => FileStem(name) == name
            case Some(ext) => FileStem(name) != [] && name == FileStem(name) + [DOT] + ext && DOT !in ext
  {
    var i := LastDot(name);
    if i > 0 {
      assert name == name[..i] + [name[i]] + name[i + 1..];
    }
  }

  lemma LastDotAt(name: Bytes, i: nat)
    requires i < |name| && name[i] == DOT && forall j :: i < j < |name| ==> name[j] != DOT
    ensures LastDot(name) == i
  {
  }

  lemma WithExtension(stem: Bytes, ext: Bytes)
    requires |stem| > 0 && DOT !in ext && |stem + [DOT] + ext| > 2
    ensures FileStem(stem + [DOT] + ext) == stem && Extension(stem + [DOT] + ext) == Some(ext)
  {
    var all := stem + [DOT] + ext;
    forall j | |stem| < j < |all| ensures all[j] != DOT {
      assert all[j] == ext[j - |stem| - 1];
    }
    LastDotAt(all, |stem|);
    hide LastDot;
    assert all[..|stem|] == stem && all[|stem| + 1..] == ext;
  }

  lemma WithoutExtension(stem: Bytes)
    requires |stem| > 2 && forall j :: 0 < j < |stem| ==> stem[j] != DOT
    ensures FileStem(stem) == stem && Extension(stem) == None
  {
    assert LastDot(stem) <= 0;
    hide LastDot;
  }

  function WithNumber(stem: Bytes, index: nat): (numbered: Bytes)
    ensures |numbered| >= |stem| + 4
  {
    stem + [32, 40] + Decimal(index) + [41]
  }

  lemma NumberHasNoDot(stem: Bytes, index: nat)
    ensures forall j :: |stem| <= j < |WithNumber(stem, index)| ==> WithNumber(stem, index)[j] != DOT
    ensures forall j :: 0 <= j < |stem| ==> WithNumber(stem, index)[j] == stem[j]
  {
    DigitsOnly(index);
    hide Decimal;
    var numbered := WithNumber(stem, index);
    forall j | |stem| <= j < |numbered| ensures numbered[j] != DOT {
      if |stem| + 2 <= j < |numbered| - 1 {
        assert numbered[j] == Decimal(index)[j - |stem| - 2];
      }
    }
  }

  /** A numbered name is the stem with " (n)" behind it and the same extension. */
  lemma NumberedKeepsExtension(name: Bytes, index: nat)
    requires IsName(name)
    ensures Extension(Numbered(name, index)) == Extension(name)
    ensures FileStem(Numbered(name, index)) == FileStem(name) + Ascii(" (") + Decimal(index) + Ascii(")")
  {
    StemAndExtension(name);
    assert Ascii(" (") == [32, 40] && Ascii(")") == [41];
    var stem := FileStem(name);
    var numbered := WithNumber(stem, index);
    NumberHasNoDot(stem, index);
    if Extension(name).Some? {
      assert Numbered(name, index) == numbered + [DOT] + Extension(name).value;
      hide WithNumber, Numbered, FileStem, Extension, Decimal;
      WithExtension(numbered, Extension(name).value);
    } else {
      assert Numbered(name, index) == numbered + [] == numbered;
      hide WithNumber, Numbered, FileStem, Extension, Decimal;
      WithoutExtension(numbered);
    }
    assert numbered == stem + [32, 40] + Decimal(index) + [41];
  }

  lemma {:induction false} DecimalInjective(m: nat, n: nat)
    requires Decimal(m) == Decimal(n)
    ensures m == n
  {
    var a, b := Decimal(m), Decimal(n);
    assert a[|a| - 1] == 48 + m % 10 && b[|b| - 1] == 48 + n % 10;
    if m >= 10 && n >= 10 {
      assert a[..|a| - 1] == Decimal(m / 10) && b[..|b| - 1] == Decimal(n / 10);
      DecimalInjective(m / 10, n / 10);
    }
  }

  /** Different numbers give different names. */
  lemma NumberedInjective(name: Bytes, i: nat, j: nat)
    requires Numbered(name, i) == Numbered(name, j)
    ensures i == j
  {
    var stem := FileStem(name) + [32, 40];
    var tail := [41] + (match Extension(name) case Some(ext) => [DOT] + ext case None => []);
    assert Numbered(name, i) == stem + (Decimal(i) + tail);
    assert Numbered(name, j) == stem + (Decimal(j) + tail);
    SplitConcat(stem, Decimal(i) + tail, stem, Decimal(j) + tail);
    SplitConcat(Decimal(i), tail, Decimal(j), tail);
    DecimalInjective(i, j);
  }

  lemma {:induction false} DigitsOnly(n: nat)
    ensures forall k :: 0 <= k < |Decimal(n)| ==> 48 <= Decimal(n)[k] < 58
  {
    if n >= 10 {
      DigitsOnly(n / 10);
    }
  }

  /** A numbered name is again one name, so the file stays in its directory. */
  lemma NumberedIsName(name: Bytes, index: nat)
    requires IsName(name)
    ensures IsName(Numbered(name, index))
  {
    DigitsOnly(index);
    var numbered := Numbered(name, index);
    assert numbered[|FileStem(name)|] == 32;
    assert |numbered| >= 4;
    assert SLASH !in FileStem(name) && SLASH !in Decimal(index);
    assert Extension(name).Some? ==> SLASH !in Extension(name).value;
  }
}
