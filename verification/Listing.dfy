/**
 Listing a directory page by page, with the directory changing between pages.
 A page goes from a cursor (the last name of the page before) as far as its
 limits allow.
 */
module Listing {
  import opened Base
  import opened Order

  const MAX_ENTRIES := 1000
  const MAX_BYTES := 49152
  const MAX_SCAN := 100000
  const MAX_PAGES := 1000

  /** The names found in a directory, sorted, and the encoded size of each entry that is still there when looked at. */
  datatype Dir = Dir(names: seq<bytes>, entry: bytes -> Option<nat>)

  predicate Ascending(names: seq<bytes>) { forall i, j | 0 <= i < j < |names| :: Less(names[i], names[j]) }

  /** Directory names are distinct and never empty; sorting gives their order. */
  predicate Valid(d: Dir) { Ascending(d.names) && [] !in d.names }

  /** One page; an empty cursor says it is the last. */
  datatype Page = Page(names: seq<bytes>, next: bytes)

  predicate After(lo: bytes, n: bytes) { lo == [] || Less(lo, n) }
  predicate Upto(n: bytes, hi: bytes) { hi == [] || n == hi || Less(n, hi) }

  predicate Chosen(d: Dir, lo: bytes, hi: bytes, n: bytes) { d.entry(n).Some? && After(lo, n) && Upto(n, hi) }

  /** The entries present after lo and up to hi, in order. */
  function Select(d: Dir, names: seq<bytes>, lo: bytes, hi: bytes): seq<bytes> {
    if names == [] then []
    else
      var n := names[|names| - 1];
      Select(d, names[..|names| - 1], lo, hi) + if Chosen(d, lo, hi, n) then [n] else []
  }

  /** The names of a directory that a listing would show. */
  predicate Shows(d: Dir, n: bytes) { n in d.names && d.entry(n).Some? }

  // ---- Select ----

  lemma {:induction false} SelectNone(d: Dir, names: seq<bytes>, lo: bytes, hi: bytes)
    requires forall i | 0 <= i < |names| :: !Chosen(d, lo, hi, names[i])
    ensures Select(d, names, lo, hi) == []
  {
    if names != [] {
      var init := names[..|names| - 1];
      forall i | 0 <= i < |init| ensures !Chosen(d, lo, hi, init[i]) { assert init[i] == names[i]; }
      SelectNone(d, init, lo, hi);
      assert !Chosen(d, lo, hi, names[|names| - 1]);
    }
  }

  lemma {:induction false} SelectMembers(d: Dir, names: seq<bytes>, lo: bytes, hi: bytes)
    ensures forall n :: n in Select(d, names, lo, hi) <==> n in names && Chosen(d, lo, hi, n)
  {
    if names != [] {
      var init, last := names[..|names| - 1], names[|names| - 1];
      SelectMembers(d, init, lo, hi);
      assert names == init + [last];
    }
  }

  lemma {:induction false} SelectAscending(d: Dir, names: seq<bytes>, lo: bytes, hi: bytes)
    requires Ascending(names)
    ensures Ascending(Select(d, names, lo, hi))
  {
    if names != [] {
      var init, last := names[..|names| - 1], names[|names| - 1];
      assert Ascending(init);
      SelectAscending(d, init, lo, hi);
      SelectMembers(d, init, lo, hi);
      var s := Select(d, init, lo, hi);
      forall i | 0 <= i < |s| ensures Less(s[i], last) {
        assert s[i] in init;
        var k :| 0 <= k < |init| && init[k] == s[i];
        assert names[k] == s[i];
      }
    }
  }

  lemma {:induction false} SelectSplit(d: Dir, a: seq<bytes>, b: seq<bytes>, lo: bytes, hi: bytes)
    ensures Select(d, a + b, lo, hi) == Select(d, a, lo, hi) + Select(d, b, lo, hi)
  {
    if b == [] {
      assert a + b == a;
    } else {
      var init := b[..|b| - 1];
      assert (a + b)[..|a + b| - 1] == a + init;
      SelectSplit(d, a, init, lo, hi);
    }
  }

  lemma {:induction false} SelectSame(d: Dir, names: seq<bytes>, lo: bytes, hi: bytes)
    requires forall n | n in Select(d, names, lo, []) :: Upto(n, hi)
    ensures Select(d, names, lo, hi) == Select(d, names, lo, [])
  {
    if names != [] {
      var init, last := names[..|names| - 1], names[|names| - 1];
      assert forall n | n in Select(d, init, lo, []) :: n in Select(d, names, lo, []);
      SelectSame(d, init, lo, hi);
      if Chosen(d, lo, [], last) { assert last in Select(d, names, lo, []); }
    }
  }

  lemma RestLater(d: Dir, i: nat, h: nat, lo: bytes)
    requires Valid(d) && h < i <= |d.names|
    ensures Select(d, d.names[i..], lo, d.names[h]) == []
  {
    var rest, hi := d.names[i..], d.names[h];
    forall k | 0 <= k < |rest| ensures !Chosen(d, lo, hi, rest[k]) {
      assert rest[k] == d.names[i + k];
      NotBoth(hi, rest[k]);
    }
    SelectNone(d, rest, lo, hi);
  }

  lemma LastIsBound(d: Dir, i: nat, lo: bytes) returns (h: nat)
    requires Valid(d) && i <= |d.names| && Select(d, d.names[..i], lo, []) != []
    ensures var out := Select(d, d.names[..i], lo, []);
            && h < i && d.names[h] == out[|out| - 1]
            && forall n | n in out :: Upto(n, out[|out| - 1])
  {
    var seen := d.names[..i];
    var out := Select(d, seen, lo, []);
    assert Ascending(seen);
    SelectAscending(d, seen, lo, []);
    SelectMembers(d, seen, lo, []);
    hide Select, Less, Chosen;
    assert out[|out| - 1] in out;
    assert out[|out| - 1] in seen;
    h :| 0 <= h < i && seen[h] == out[|out| - 1];
    forall n | n in out ensures Upto(n, out[|out| - 1]) {
      var k :| 0 <= k < |out| && out[k] == n;
      if k < |out| - 1 { assert Less(out[k], out[|out| - 1]); }
    }
  }

  /** What the scan has collected when the limits stop it is the whole page up to its last name. */
  lemma StoppedPage(d: Dir, i: nat, lo: bytes)
    requires Valid(d) && i < |d.names| && Select(d, d.names[..i], lo, []) != []
    ensures var out := Select(d, d.names[..i], lo, []);
            && out == Select(d, d.names, lo, out[|out| - 1])
            && out[|out| - 1] != [] && Less(out[|out| - 1], d.names[i])
  {
    hide Select, Less, Chosen, Upto;
    var seen, rest := d.names[..i], d.names[i..];
    var h := LastIsBound(d, i, lo);
    var hi := d.names[h];
    SelectSame(d, seen, lo, hi);
    RestLater(d, i, h, lo);
    SelectSplit(d, seen, rest, lo, hi);
    assert seen + rest == d.names;
  }

  lemma NotBoth(a: bytes, b: bytes)
    requires Less(a, b)
    ensures !Less(b, a) && a != b
  {
    LessIrreflexive(a);
    if Less(b, a) { LessTransitive(a, b, a); }
  }

  // ---- The server's page ----

  /** sort.SearchStrings: the first index whose name is not below the cursor. */
  method Search(names: seq<bytes>, cursor: bytes) returns (i: nat)
    requires Ascending(names)
    ensures i <= |names|
    ensures forall k | 0 <= k < i :: Less(names[k], cursor)
    ensures forall k | i <= k < |names| :: !Less(names[k], cursor)
  {
    i := 0;
    var j := |names|;
    while i < j
      invariant 0 <= i <= j <= |names|
      invariant forall k | 0 <= k < i :: Less(names[k], cursor)
      invariant forall k | j <= k < |names| :: !Less(names[k], cursor)
    {
      var h := (i + j) / 2;
      if Less(names[h], cursor) {
        forall k | 0 <= k < h ensures Less(names[k], cursor) { LessTransitive(names[k], names[h], cursor); }
        i := h + 1;
      } else {
        forall k | h <= k < |names| ensures !Less(names[k], cursor) {
          if k > h && Less(names[k], cursor) { LessTransitive(names[h], names[k], cursor); }
        }
        j := h;
      }
    }
  }

  /** Where a page starts: past the cursor. */
  method Start(names: seq<bytes>, cursor: bytes) returns (i: nat)
    requires Ascending(names)
    ensures i <= |names|
    ensures forall k | 0 <= k < i :: !After(cursor, names[k])
    ensures forall k | i <= k < |names| :: After(cursor, names[k])
  {
    i := Search(names, cursor);
    forall k | 0 <= k < i ensures !After(cursor, names[k]) { NotBoth(names[k], cursor); }
    if cursor != [] && i < |names| && names[i] == cursor {
      LessIrreflexive(cursor);
      i := i + 1;
    }
    forall k | i <= k < |names| ensures After(cursor, names[k]) { LessTotal(names[k], cursor); }
  }

  /** The page limits: as many entries as fit, and at least one. */
  ghost predicate Fits(d: Dir, names: seq<bytes>) {
    |names| <= 1000 && (|names| <= 1 || Encoded(d, names) <= 49152)
  }

  ghost function Encoded(d: Dir, names: seq<bytes>): nat {
    if names == [] then 0
    else
      var n := names[|names| - 1];
      Encoded(d, names[..|names| - 1]) + if d.entry(n).Some? then d.entry(n).value else 0
  }

  /** What a page after cursor must be. */
  ghost predicate IsPage(d: Dir, cursor: bytes, p: Page) {
    && p.names == Select(d, d.names, cursor, p.next)
    && (p.next != [] ==> p.names != [] && p.next == p.names[|p.names| - 1])
    && Fits(d, p.names)
  }

  /** A page ends before the end only when the next entry does not fit. */
  ghost predicate Full(d: Dir, p: Page) {
    exists n | n in d.names && Less(p.next, n) && d.entry(n).Some? ::
      |p.names| >= 1000 || Encoded(d, p.names) + d.entry(n).value > 49152
  }

  /** Looking at one more name. */
  lemma LookAt(d: Dir, i: nat, cursor: bytes)
    requires i < |d.names| && After(cursor, d.names[i])
    ensures Select(d, d.names[..i + 1], cursor, [])
         == Select(d, d.names[..i], cursor, []) + if d.entry(d.names[i]).Some? then [d.names[i]] else []
  {
    assert d.names[..i + 1][..i] == d.names[..i];
  }

  lemma EncodedNext(d: Dir, names: seq<bytes>, n: bytes)
    requires d.entry(n).Some?
    ensures Encoded(d, names + [n]) == Encoded(d, names) + d.entry(n).value
  {
    assert (names + [n])[..|names|] == names;
  }

  /** A page that a limit ended. */
  lemma LimitedPage(d: Dir, i: nat, cursor: bytes, out: seq<bytes>)
    requires Valid(d) && i < |d.names| && out == Select(d, d.names[..i], cursor, []) && out != [] && Fits(d, out)
    requires d.entry(d.names[i]).Some?
    requires |out| >= 1000 || Encoded(d, out) + d.entry(d.names[i]).value > 49152
    ensures IsPage(d, cursor, Page(out, out[|out| - 1])) && Full(d, Page(out, out[|out| - 1]))
  {
    hide Select, Less, Encoded, Valid;
    StoppedPage(d, i, cursor);
    assert d.names[i] in d.names;
  }

  /** A page that goes to the end. */
  lemma LastPage(d: Dir, cursor: bytes, out: seq<bytes>)
    requires out == Select(d, d.names[..|d.names|], cursor, []) && Fits(d, out)
    ensures IsPage(d, cursor, Page(out, []))
  {
    hide Select, Encoded;
    assert d.names[..|d.names|] == d.names;
  }

  /** List: None when the directory has too many names. */
  method List(d: Dir, cursor: bytes) returns (p: Option<Page>)
    requires Valid(d)
    ensures p.Some? <==> |d.names| <= 100000
    ensures p.Some? ==> IsPage(d, cursor, p.value) && (p.value.next != [] ==> Full(d, p.value))
  {
    if |d.names| > MAX_SCAN { return None; }
    var start := Start(d.names, cursor);
    var out: seq<bytes>, size := [], 0;
    SelectNone(d, d.names[..start], cursor, []);
    for i := start to |d.names|
      invariant out == Select(d, d.names[..i], cursor, [])
      invariant size == Encoded(d, out) && Fits(d, out)
    {
      hide Select, Less, Encoded, Valid, After, IsPage, Full;
      var n := d.names[i];
      LookAt(d, i, cursor);
      var e := d.entry(n);
      if e.Some? {
        if |out| >= MAX_ENTRIES || (|out| > 0 && size + e.value > MAX_BYTES) {
          LimitedPage(d, i, cursor, out);
          return Some(Page(out, out[|out| - 1]));
        }
        EncodedNext(d, out, n);
        size := size + e.value;
        out := out + [n];
      }
    }
    LastPage(d, cursor, out);
    p := Some(Page(out, []));
  }

  // ---- The client's loop ----

  lemma AscendingConcat(a: seq<bytes>, b: seq<bytes>, mid: bytes)
    requires Ascending(a) && Ascending(b)
    requires forall i | 0 <= i < |a| :: Upto(a[i], mid) && mid != []
    requires forall i | 0 <= i < |b| :: Less(mid, b[i])
    ensures Ascending(a + b)
  {
    forall i, j | 0 <= i < j < |a + b| ensures Less((a + b)[i], (a + b)[j]) {
      if i < |a| <= j {
        if a[i] != mid { LessTransitive(a[i], mid, b[j - |a|]); }
      }
    }
  }

  /** Everything up to the cursor that every page so far has shown is listed. */
  ghost predicate Covered(dirs: nat -> Dir, pages: nat, cursor: bytes, entries: seq<bytes>) {
    forall n: bytes | n != [] && Upto(n, cursor) && (forall p | 0 <= p < pages :: Shows(dirs(p), n)) :: n in entries
  }

  /** Every name listed was shown by the directory of some page. */
  ghost predicate Shown(dirs: nat -> Dir, pages: nat, entries: seq<bytes>) {
    forall n | n in entries :: exists p | 0 <= p < pages :: Shows(dirs(p), n)
  }

  lemma PageCovers(dirs: nat -> Dir, pages: nat, cursor: bytes, entries: seq<bytes>, p: Page)
    requires pages == 0 ==> cursor == [] && entries == []
    requires pages > 0 ==> cursor != [] && Covered(dirs, pages, cursor, entries)
    requires IsPage(dirs(pages), cursor, p)
    ensures Covered(dirs, pages + 1, p.next, entries + p.names)
  {
    SelectMembers(dirs(pages), dirs(pages).names, cursor, p.next);
    forall n: bytes | n != [] && Upto(n, p.next) && (forall q | 0 <= q < pages + 1 :: Shows(dirs(q), n))
      ensures n in entries + p.names
    {
      assert Shows(dirs(pages), n);
      if After(cursor, n) {
        assert Chosen(dirs(pages), cursor, p.next, n);
      } else {
        LessTotal(cursor, n);
        assert Upto(n, cursor);
        assert forall q | 0 <= q < pages :: Shows(dirs(q), n);
      }
    }
  }

  /**
   fetchList: `dirs(p)` is the directory when page p is read. The names listed are strictly
   ascending, each was shown by the directory of some page, and a name shown by every page's
   directory is listed: exactly once, since the order is strict.
   */
  method FetchList(dirs: nat -> Dir) returns (entries: Option<seq<bytes>>, pages: nat)
    requires forall p :: Valid(dirs(p))
    ensures pages <= MAX_PAGES
    ensures entries.None? ==> pages == 1000 || |dirs(pages).names| > 100000
    ensures entries.Some? ==> Ascending(entries.value)
    ensures entries.Some? ==> Shown(dirs, pages, entries.value)
    ensures entries.Some? ==> forall n | forall p | 0 <= p < pages :: Shows(dirs(p), n) :: n in entries.value
  {
    var all: seq<bytes>, cursor: bytes := [], [];
    pages := 0;
    while true
      invariant pages < MAX_PAGES && Ascending(all)
      invariant pages == 0 ==> cursor == [] && all == []
      invariant pages > 0 ==> cursor != [] && Covered(dirs, pages, cursor, all)
      invariant forall i | 0 <= i < |all| :: Upto(all[i], cursor)
      invariant Shown(dirs, pages, all)
      decreases MAX_PAGES - pages
    {
      var d := dirs(pages);
      var p := List(d, cursor);
      if p.None? { return None, pages; }
      var page := p.value;
      Extends(d, pages == 0, cursor, all, page);
      PageCovers(dirs, pages, cursor, all, page);
      PageBounds(d, cursor, page);
      ShownMore(dirs, pages, all, page.names);
      all, cursor, pages := all + page.names, page.next, pages + 1;
      if cursor == [] {
        forall n | forall q | 0 <= q < pages :: Shows(dirs(q), n) ensures n in all {
          assert Shows(dirs(0), n);
          assert Valid(dirs(0));
        }
        return Some(all), pages;
      }
      if pages >= MAX_PAGES { return None, pages; }
    }
    entries := None;
  }

  lemma PageBounds(d: Dir, cursor: bytes, page: Page)
    requires Valid(d) && IsPage(d, cursor, page)
    ensures Ascending(page.names)
    ensures forall i | 0 <= i < |page.names| ::
              After(cursor, page.names[i]) && Upto(page.names[i], page.next) && Shows(d, page.names[i])
    ensures page.next != [] ==> After(cursor, page.next)
  {
    SelectAscending(d, d.names, cursor, page.next);
    SelectMembers(d, d.names, cursor, page.next);
    var b := page.names;
    forall i | 0 <= i < |b| ensures After(cursor, b[i]) && Upto(b[i], page.next) && Shows(d, b[i]) {
      assert b[i] in b;
    }
  }

  lemma ShownMore(dirs: nat -> Dir, pages: nat, all: seq<bytes>, more: seq<bytes>)
    requires Shown(dirs, pages, all) && forall i | 0 <= i < |more| :: Shows(dirs(pages), more[i])
    ensures Shown(dirs, pages + 1, all + more)
  {
    hide Shows;
    forall n | n in all + more ensures exists p | 0 <= p < pages + 1 :: Shows(dirs(p), n) {
      if n in all {
        var p :| 0 <= p < pages && Shows(dirs(p), n);
        assert Shows(dirs(p), n);
      } else {
        assert Shows(dirs(pages), n);
      }
    }
  }

  /** A page continues the listing: the order goes on and the cursor moves forward. */
  lemma Extends(d: Dir, first: bool, cursor: bytes, all: seq<bytes>, page: Page)
    requires Valid(d) && IsPage(d, cursor, page) && Ascending(all)
    requires if first then cursor == [] && all == [] else cursor != []
    requires forall i | 0 <= i < |all| :: Upto(all[i], cursor)
    ensures Ascending(all + page.names)
    ensures forall i | 0 <= i < |all + page.names| :: Upto((all + page.names)[i], page.next)
  {
    var b := page.names;
    PageBounds(d, cursor, page);
    hide IsPage, Valid;
    if first { assert all + b == b; } else { AscendingConcat(all, b, cursor); }
    if page.next != [] {
      forall i | 0 <= i < |all| ensures Upto(all[i], page.next) {
        if all[i] != cursor { LessTransitive(all[i], cursor, page.next); }
      }
    }
  }
}
