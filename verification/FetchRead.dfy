/** The grantor's side of a read: a range of a file, in fragments. */
module FetchRead {
  import opened Base

  const FRAGMENT := 32768
  const MAX_READ := 262144
  const MAX_FILE := 8388608
  const MAX_FRAGMENTS := MAX_READ / FRAGMENT

  function Min(a: int, b: int): int { if a < b then a else b }

  /** How many bytes a read of a file of this size returns. */
  function Want(size: int, offset: int, length: int): int { if offset < size then Min(length, size - offset) else 0 }

  /** How many fragments carry n bytes; an empty read is one empty fragment. */
  function Count(n: int): int { if n <= 0 then 1 else (n + FRAGMENT - 1) / FRAGMENT }

  lemma CountBounds(n: int)
    requires n >= 0
    ensures Count(n) >= 1 && n <= Count(n) * FRAGMENT && (Count(n) - 1) * FRAGMENT <= n
    ensures n <= MAX_READ ==> Count(n) <= MAX_FRAGMENTS
  {
  }

  function PartLength(n: int, i: nat): nat {
    var want := Min(FRAGMENT, n - i * FRAGMENT);
    if want < 0 then 0 else want
  }

  /** Fragment i of the file as it is when that fragment is read. */
  predicate IsPart(part: bytes, file: bytes, offset: nat, n: int, i: nat) {
    var at := offset + i * FRAGMENT;
    if PartLength(n, i) == 0 then part == []
    else at + PartLength(n, i) <= |file| && part == file[at..at + PartLength(n, i)]
  }

  /** The file no longer holds all of fragment i. */
  predicate Shrank(file: bytes, offset: nat, n: int, i: nat) {
    PartLength(n, i) > 0 && |file| < offset + i * FRAGMENT + PartLength(n, i)
  }

  predicate AreParts(parts: seq<bytes>, files: seq<bytes>, offset: nat, n: int) {
    |parts| <= |files| && forall i: nat | i < |parts| :: IsPart(parts[i], files[i], offset, n, i)
  }

  /**
   The fragment loop of Read. `files[i]` is the content when fragment i is read, so the
   file may change during the loop; a file that got too short ends it with an error.
   */
  method Read(size: nat, offset: nat, length: nat, files: seq<bytes>) returns (parts: seq<bytes>, ok: bool)
    requires 1 <= length <= MAX_READ && |files| == Count(Want(size, offset, length))
    ensures AreParts(parts, files, offset, Want(size, offset, length))
    ensures ok ==> |parts| == Count(Want(size, offset, length)) <= MAX_FRAGMENTS
    ensures !ok ==> |parts| < |files| && Shrank(files[|parts|], offset, Want(size, offset, length), |parts|)
  {
    var n := if offset < size then Min(length, size - offset) else 0;
    var frags := (n + FRAGMENT - 1) / FRAGMENT;
    if frags == 0 { frags := 1; }
    CountBounds(n);
    parts, ok := [], true;
    var i := 0;
    while i < frags
      invariant 0 <= i <= frags && |parts| == i && AreParts(parts, files, offset, n)
    {
      var want := Min(FRAGMENT, n - i * FRAGMENT);
      if want < 0 { want := 0; }
      var at := offset + i * FRAGMENT;
      var data := [];
      if want > 0 {
        if |files[i]| < at + want {
          ok := false;
          return;
        }
        data := files[i][at..at + want];
      }
      parts := parts + [data];
      i := i + 1;
    }
  }

  /** The fragments put back together. */
  function Concat(parts: seq<bytes>): bytes {
    if parts == [] then [] else Concat(parts[..|parts| - 1]) + parts[|parts| - 1]
  }

  lemma {:induction false} PartsLength(parts: seq<bytes>, files: seq<bytes>, offset: nat, n: nat)
    requires AreParts(parts, files, offset, n) && |parts| <= Count(n)
    ensures |Concat(parts)| == Min(|parts| * FRAGMENT, n)
    decreases |parts|
  {
    CountBounds(n);
    if parts != [] {
      var init := parts[..|parts| - 1];
      assert AreParts(init, files, offset, n);
      PartsLength(init, files, offset, n);
      assert IsPart(parts[|parts| - 1], files[|parts| - 1], offset, n, |parts| - 1);
    }
  }

  /** Each byte of the whole comes from the file as it was when its fragment was read. */
  lemma {:induction false} ByteOfParts(parts: seq<bytes>, files: seq<bytes>, offset: nat, n: nat, i: nat, j: nat)
    requires AreParts(parts, files, offset, n) && i < |parts| <= Count(n) && j < PartLength(n, i)
    ensures i * FRAGMENT + j < |Concat(parts)| && offset + i * FRAGMENT + j < |files[i]|
    ensures Concat(parts)[i * FRAGMENT + j] == files[i][offset + i * FRAGMENT + j]
    decreases |parts|
  {
    var last := |parts| - 1;
    var init := parts[..last];
    CountBounds(n);
    assert AreParts(init, files, offset, n);
    PartsLength(init, files, offset, n);
    assert IsPart(parts[i], files[i], offset, n, i);
    if i < last { ByteOfParts(init, files, offset, n, i, j); }
  }

  lemma ByteOfSlice(parts: seq<bytes>, file: bytes, files: seq<bytes>, offset: nat, n: nat, k: nat)
    requires AreParts(parts, files, offset, n) && |parts| == Count(n) && k < n
    requires forall i | 0 <= i < |files| :: files[i] == file
    ensures k < |Concat(parts)| && offset + k < |file| && Concat(parts)[k] == file[offset + k]
  {
    var i, j := k / FRAGMENT, k % FRAGMENT;
    assert k == i * FRAGMENT + j;
    CountBounds(n);
    hide AreParts, Count;
    ByteOfParts(parts, files, offset, n, i, j);
    PartsFit(parts, files, offset, n);
  }

  lemma PartsFit(parts: seq<bytes>, files: seq<bytes>, offset: nat, n: nat)
    ensures AreParts(parts, files, offset, n) ==> |parts| <= |files|
  {
  }

  /** On a file that does not change during the read, the fragments are exactly the range asked for. */
  lemma PartsAreSlice(parts: seq<bytes>, file: bytes, files: seq<bytes>, offset: nat, length: nat)
    requires var n := Want(|file|, offset, length);
             AreParts(parts, files, offset, n) && |parts| == Count(n) && forall i | 0 <= i < |files| :: files[i] == file
    ensures Concat(parts) == if offset < |file| then file[offset..Min(offset + length, |file|)] else []
  {
    var n := Want(|file|, offset, length);
    CountBounds(n);
    PartsLength(parts, files, offset, n);
    hide AreParts, Count, Concat;
    var all := Concat(parts);
    forall k | 0 <= k < n ensures all[k] == file[offset + k] { ByteOfSlice(parts, file, files, offset, n, k); }
  }

  // ---- A file that changes during the read ----

  /** The n bytes of a version from offset on. */
  predicate Is(data: bytes, version: bytes, offset: nat, n: nat)
    requires n > 0 ==> offset + n <= |version|
  {
    data == if n == 0 then [] else version[offset..offset + n]
  }

  lemma PartFits(n: nat, i: nat)
    requires i < Count(n) && n > 0
    ensures PartLength(n, i) > 0 && i * FRAGMENT + PartLength(n, i) <= n
  {
    CountBounds(n);
  }

  lemma PartOfVersion(parts: seq<bytes>, files: seq<bytes>, version: bytes, offset: nat, n: nat, i: nat)
    requires AreParts(parts, files, offset, n) && |parts| == Count(n) && i < |parts|
    requires n > 0 && offset + n <= |version| && Concat(parts) == version[offset..offset + n]
    ensures IsPart(parts[i], version, offset, n, i)
  {
    PartFits(n, i);
    var at := offset + i * FRAGMENT;
    assert IsPart(parts[i], files[i], offset, n, i);
    forall j | 0 <= j < PartLength(n, i) ensures parts[i][j] == version[at..at + PartLength(n, i)][j] {
      ByteOfParts(parts, files, offset, n, i, j);
      assert version[at + j] == version[offset..offset + n][i * FRAGMENT + j];
    }
  }

  lemma VersionParts(parts: seq<bytes>, version: bytes, offset: nat, n: nat)
    requires |parts| == Count(n) && (n > 0 ==> offset + n <= |version|)
    requires forall i: nat | i < |parts| :: IsPart(parts[i], version, offset, n, i)
    ensures Is(Concat(parts), version, offset, n)
  {
    var same := seq(|parts|, _ => version);
    assert AreParts(parts, same, offset, n);
    PartsLength(parts, same, offset, n);
    CountBounds(n);
    var all := Concat(parts);
    hide AreParts, Count, Concat, PartLength;
    forall k | 0 <= k < n ensures all[k] == version[offset + k] { ByteOfSlice(parts, version, same, offset, n, k); }
  }

  /**
   However the file changes while it is read: the joined fragments are one version's range exactly
   when each fragment, at the time it was read, was already or still that version's.
   */
  lemma ReadIsVersion(parts: seq<bytes>, files: seq<bytes>, version: bytes, offset: nat, n: nat)
    requires AreParts(parts, files, offset, n) && |parts| == Count(n) && (n > 0 ==> offset + n <= |version|)
    ensures Is(Concat(parts), version, offset, n)
       <==> forall i: nat | i < |parts| :: IsPart(parts[i], version, offset, n, i)
  {
    if forall i: nat | i < |parts| :: IsPart(parts[i], version, offset, n, i) {
      VersionParts(parts, version, offset, n);
    } else if n > 0 && Is(Concat(parts), version, offset, n) {
      forall i: nat | i < |parts| ensures IsPart(parts[i], version, offset, n, i) {
        PartOfVersion(parts, files, version, offset, n, i);
      }
    }
  }

  function Piece(file: bytes, offset: nat, n: nat, i: nat): bytes
    requires offset + i * FRAGMENT + PartLength(n, i) <= |file|
  {
    file[offset + i * FRAGMENT..offset + i * FRAGMENT + PartLength(n, i)]
  }

  /** The fragments of n bytes of a file from offset on. */
  function Fragments(file: bytes, offset: nat, n: nat): (parts: seq<bytes>)
    requires n > 0 ==> offset + n <= |file|
    ensures |parts| == Count(n)
  {
    if n == 0 then [[]]
    else seq(Count(n), (i: nat) requires i < Count(n) => (PartFits(n, i); Piece(file, offset, n, i)))
  }

  /** A file that is one version before the cut and another after it. */
  function Mixed(a: bytes, b: bytes, cut: nat): bytes
    requires cut <= |a| == |b|
  {
    a[..cut] + b[cut..]
  }

  /** The file as each fragment is read, when it is rewritten before the fragment at the cut. */
  function Rewriting(a: bytes, b: bytes, cut: nat, offset: nat, n: nat): (files: seq<bytes>)
    ensures |files| == Count(n) && forall f | f in files :: f == a || f == b
  {
    seq(Count(n), (i: nat) => if offset + i * FRAGMENT < cut then a else b)
  }

  lemma FragmentOf(file: bytes, offset: nat, n: nat, i: nat)
    requires (n > 0 ==> offset + n <= |file|) && i < Count(n)
    ensures IsPart(Fragments(file, offset, n)[i], file, offset, n, i)
  {
    if n > 0 { PartFits(n, i); }
  }

  lemma FragmentsAreParts(file: bytes, offset: nat, n: nat)
    requires n > 0 ==> offset + n <= |file|
    ensures AreParts(Fragments(file, offset, n), seq(Count(n), _ => file), offset, n)
  {
    var parts := Fragments(file, offset, n);
    forall i: nat | i < |parts| ensures IsPart(parts[i], file, offset, n, i) { FragmentOf(file, offset, n, i); }
  }

  /** A file rewritten in place between two fragments is read as the mixture of its versions. */
  lemma MixedParts(a: bytes, b: bytes, cut: nat, offset: nat, n: nat)
    requires cut <= |a| == |b| && (cut <= offset || cut == offset + FRAGMENT) && (n > 0 ==> offset + n <= |a|)
    ensures AreParts(Fragments(Mixed(a, b, cut), offset, n), Rewriting(a, b, cut, offset, n), offset, n)
  {
    var parts, files := Fragments(Mixed(a, b, cut), offset, n), Rewriting(a, b, cut, offset, n);
    forall i: nat | i < |parts| ensures IsPart(parts[i], files[i], offset, n, i) {
      FragmentOf(Mixed(a, b, cut), offset, n, i);
      assert offset + i * FRAGMENT < cut ==> files[i] == a;
      assert cut <= offset + i * FRAGMENT ==> files[i] == b;
      hide Fragments, Rewriting, IsPart, Mixed;
      MixedPart(a, b, cut, parts[i], offset, n, i);
    }
  }

  lemma MixedPart(a: bytes, b: bytes, cut: nat, part: bytes, offset: nat, n: nat, i: nat)
    requires cut <= |a| == |b| && (cut <= offset || cut == offset + FRAGMENT)
    requires IsPart(part, Mixed(a, b, cut), offset, n, i)
    ensures IsPart(part, if offset + i * FRAGMENT < cut then a else b, offset, n, i)
  {
    var at, k := offset + i * FRAGMENT, PartLength(n, i);
    assert k <= FRAGMENT;
    hide PartLength;
    if k > 0 {
      if at < cut { assert Mixed(a, b, cut)[at..at + k] == a[at..at + k]; }
      else { assert Mixed(a, b, cut)[at..at + k] == b[at..at + k]; }
    }
  }

  /** The data is the range of some version that was read. */
  ghost predicate OneVersion(data: bytes, versions: seq<bytes>, offset: nat, n: nat) {
    exists v :: v in versions && offset + n <= |v| && data == v[offset..offset + n]
  }

  /** Whatever the file is while each fragment is read, a read of n bytes is the range of one version of it. */
  ghost predicate WholeRead(n: nat) {
    forall parts, files, offset: nat | AreParts(parts, files, offset, n) && |parts| == Count(n) ::
      OneVersion(Concat(parts), files, offset, n)
  }

  lemma OneFragment(parts: seq<bytes>, files: seq<bytes>, offset: nat, n: nat)
    requires AreParts(parts, files, offset, n) && |parts| == Count(n) && 0 < n <= FRAGMENT
    ensures OneVersion(Concat(parts), files, offset, n)
  {
    assert IsPart(parts[0], files[0], offset, n, 0) && parts == [parts[0]];
    assert Concat(parts[..0]) == [];
    assert files[0] in files && Concat(parts) == files[0][offset..offset + n];
  }

  lemma FragmentsJoin(file: bytes, offset: nat, n: nat)
    requires 0 < n && offset + n <= |file|
    ensures Concat(Fragments(file, offset, n)) == file[offset..offset + n]
  {
    FragmentsAreParts(file, offset, n);
    hide Fragments;
    PartsAreSlice(Fragments(file, offset, n), file, seq(Count(n), _ => file), offset, n);
  }

  /**
   A file rewritten after its first fragment is read: the read is the mixture, and that is
   one of the two versions only if they agree on one of its halves.
   */
  lemma ChangeGivesMixture(a: bytes, b: bytes, offset: nat, n: nat)
    requires n > FRAGMENT && |a| == |b| >= offset + n
    ensures var cut := offset + FRAGMENT;
            var parts, files := Fragments(Mixed(a, b, cut), offset, n), Rewriting(a, b, cut, offset, n);
            && AreParts(parts, files, offset, n) && Concat(parts) == a[offset..cut] + b[cut..offset + n]
            && (OneVersion(Concat(parts), files, offset, n)
                <==> a[offset..cut] == b[offset..cut] || a[cut..offset + n] == b[cut..offset + n])
  {
    var cut := offset + FRAGMENT;
    var parts, files := Fragments(Mixed(a, b, cut), offset, n), Rewriting(a, b, cut, offset, n);
    MixedParts(a, b, cut, offset, n);
    FragmentsJoin(Mixed(a, b, cut), offset, n);
    assert files[0] == a && files[1] == b;
    hide Fragments, Rewriting;
    var all := Concat(parts);
    assert all == a[offset..cut] + b[cut..offset + n];
    Halves(all, a, b, offset, n);
  }

  lemma Halves(all: bytes, a: bytes, b: bytes, offset: nat, n: nat)
    requires n > FRAGMENT && |a| == |b| >= offset + n
    requires all == a[offset..offset + FRAGMENT] + b[offset + FRAGMENT..offset + n]
    ensures all == a[offset..offset + n] <==> a[offset + FRAGMENT..offset + n] == b[offset + FRAGMENT..offset + n]
    ensures all == b[offset..offset + n] <==> a[offset..offset + FRAGMENT] == b[offset..offset + FRAGMENT]
  {
    var cut := offset + FRAGMENT;
    assert all[..FRAGMENT] == a[offset..cut] && all[FRAGMENT..] == b[cut..offset + n];
    assert a[offset..offset + n] == a[offset..cut] + a[cut..offset + n];
    assert b[offset..offset + n] == b[offset..cut] + b[cut..offset + n];
    assert a[offset..offset + n][FRAGMENT..] == a[cut..offset + n];
    assert b[offset..offset + n][..FRAGMENT] == b[offset..cut];
  }

  /** A file of one byte repeated. */
  function Filled(b: byte, size: nat): (file: bytes)
    ensures |file| == size
  {
    seq(size, _ => b)
  }

  lemma FilledDiffer(size: nat, i: nat, j: nat)
    requires i < j <= size
    ensures Filled(0, size)[i..j] != Filled(1, size)[i..j]
  {
    assert Filled(0, size)[i..j][0] != Filled(1, size)[i..j][0];
  }

  /** Zeros overwritten with ones after the first fragment are read as neither. */
  lemma FilledMixture(size: nat, offset: nat, n: nat)
    requires n > FRAGMENT && offset + n <= size
    ensures var a, b, cut := Filled(0, size), Filled(1, size), offset + FRAGMENT;
            var parts, files := Fragments(Mixed(a, b, cut), offset, n), Rewriting(a, b, cut, offset, n);
            AreParts(parts, files, offset, n) && !OneVersion(Concat(parts), files, offset, n)
  {
    hide Filled, Fragments, Rewriting, Concat, Mixed, AreParts, OneVersion;
    FilledDiffer(size, offset, offset + FRAGMENT);
    FilledDiffer(size, offset + FRAGMENT, offset + n);
    ChangeGivesMixture(Filled(0, size), Filled(1, size), offset, n);
  }

  /** A read survives every change of its file exactly when it fits in one fragment. */
  lemma WholeReadIsExact(n: nat)
    requires n > 0
    ensures WholeRead(n) <==> n <= 32768
  {
    if n <= FRAGMENT {
      forall parts, files, offset: nat | AreParts(parts, files, offset, n) && |parts| == Count(n)
        ensures OneVersion(Concat(parts), files, offset, n)
      {
        OneFragment(parts, files, offset, n);
      }
    } else {
      hide Filled, Fragments, Rewriting, Concat, Mixed, AreParts, OneVersion;
      FilledMixture(n, 0, n);
    }
  }
}
