/** What a source directory holds, whatever the order of its entries, and that sorting, laying out
    and walking keep it. */
module XisoSource {
  import opened Bytes
  import opened XisoLayout
  import opened XisoTree
  import opened XisoTable
  import opened XisoDisc
  import opened XisoSort
  import opened XisoReader

  /** One thing there is to know of a tree. */
  datatype Fact =
    | DirAt(path: seq<byte>, depth: nat)
    | FileAt(path: seq<byte>, depth: nat, size: nat)
    | DataAt(path: seq<byte>, data: seq<byte>)

  /** A node with everything below it, as the image keeps it. */
  ghost function Facts(n: Node, base: seq<byte>, depth: nat, np: bool): multiset<Fact>
    decreases n
  {
    var path := PathOf(base, n.name);
    if n.File? then multiset{FileAt(path, depth, FileSize(n)), DataAt(path, Content(n, np))}
    else multiset{DirAt(path, depth)} + FactsTo(n.kids, path, depth + 1, np, |n.kids|)
  }

  ghost function FactsTo(kids: seq<Node>, base: seq<byte>, depth: nat, np: bool, i: nat): multiset<Fact>
    requires i <= |kids|
    decreases kids, i
  {
    if i == 0 then multiset{} else FactsTo(kids, base, depth, np, i - 1) + Facts(kids[i - 1], base, depth, np)
  }

  /** The same with the files' own bytes. */
  ghost function PlainFacts(n: Node, base: seq<byte>, depth: nat): multiset<Fact>
    decreases n
  {
    var path := PathOf(base, n.name);
    if n.File? then multiset{FileAt(path, depth, |n.data|), DataAt(path, n.data)}
    else multiset{DirAt(path, depth)} + PlainFactsTo(n.kids, path, depth + 1, |n.kids|)
  }

  ghost function PlainFactsTo(kids: seq<Node>, base: seq<byte>, depth: nat, i: nat): multiset<Fact>
    requires i <= |kids|
    decreases kids, i
  {
    if i == 0 then multiset{} else PlainFactsTo(kids, base, depth, i - 1) + PlainFacts(kids[i - 1], base, depth)
  }

  /** Every file is read as long as it was scanned, and its size fits 32 bits. */
  ghost predicate Exact(n: Node)
    decreases n
  {
    if n.File? then n.size == |n.data| && |n.data| < 0x1_0000_0000
    else forall i :: 0 <= i < |n.kids| ==> Exact(n.kids[i])
  }

  lemma {:induction false} ExactFacts(n: Node, base: seq<byte>, depth: nat)
    requires Exact(n)
    ensures Facts(n, base, depth, true) == PlainFacts(n, base, depth)
    decreases n
  {
    hide Content, PathOf;
    if n.File? {
      FileExact(n);
      SizeExact(n);
    } else {
      ExactFactsTo(n.kids, PathOf(base, n.name), depth + 1, |n.kids|);
    }
  }

  lemma SizeExact(n: Node)
    requires n.File? && n.size == |n.data| && |n.data| < 0x1_0000_0000
    ensures FileSize(n) == |n.data|
  {
  }

  lemma {:induction false} ExactFactsTo(kids: seq<Node>, base: seq<byte>, depth: nat, i: nat)
    requires i <= |kids| && forall k :: 0 <= k < |kids| ==> Exact(kids[k])
    ensures FactsTo(kids, base, depth, true, i) == PlainFactsTo(kids, base, depth, i)
    decreases kids, i
  {
    hide Exact, Facts, PlainFacts;
    if i > 0 {
      ExactFactsTo(kids, base, depth, i - 1);
      ExactFacts(kids[i - 1], base, depth);
    }
  }

  // ---- Sorting keeps everything ----

  lemma {:induction false} FactsPrefix(a: seq<Node>, b: seq<Node>, base: seq<byte>, depth: nat, np: bool, i: nat)
    requires i <= |a| && i <= |b| && a[..i] == b[..i]
    ensures FactsTo(a, base, depth, np, i) == FactsTo(b, base, depth, np, i)
    decreases i
  {
    hide Facts;
    if i > 0 {
      assert a[..i - 1] == a[..i][..i - 1] == b[..i - 1];
      assert a[i - 1] == a[..i][i - 1] == b[i - 1];
      FactsPrefix(a, b, base, depth, np, i - 1);
    }
  }

  lemma {:induction false} FactsWithout(r: seq<Node>, p: nat, base: seq<byte>, depth: nat, np: bool, i: nat)
    requires p < i <= |r|
    ensures FactsTo(r, base, depth, np, i)
      == FactsTo(Without(r, p), base, depth, np, i - 1) + Facts(r[p], base, depth, np)
    decreases i
  {
    hide Facts;
    if i == p + 1 {
      FactsPrefix(r, Without(r, p), base, depth, np, p);
    } else {
      FactsWithout(r, p, base, depth, np, i - 1);
      assert Without(r, p)[i - 2] == r[i - 1];
    }
  }

  /** A tree whose directories have their entries in another order holds what the tree held. */
  lemma {:induction false} ArrangingKeeps(n: Node, r: Node, base: seq<byte>, depth: nat, np: bool)
    requires Arranges(n, r)
    ensures Facts(r, base, depth, np) == Facts(n, base, depth, np)
    decreases n
  {
    hide PathOf, Content, ArrangesKids;
    if n.Dir? {
      ArrangedSize(n.kids, |n.kids|, r.kids);
      ArrangingKidsKeeps(n.kids, |n.kids|, r.kids, PathOf(base, n.name), depth + 1, np);
    }
  }

  lemma {:induction false} ArrangingKidsKeeps(kids: seq<Node>, i: nat, r: seq<Node>, base: seq<byte>, depth: nat,
                                              np: bool)
    requires i <= |kids| && ArrangesKids(kids, i, r)
    ensures |r| == i && FactsTo(r, base, depth, np, i) == FactsTo(kids, base, depth, np, i)
    decreases kids, i
  {
    hide Facts, Arranges, ArrangesKids;
    ArrangedSize(kids, i, r);
    if i > 0 {
      var p := LastPlace(kids, i, r);
      ArrangingKeeps(kids[i - 1], r[p], base, depth, np);
      ArrangingKidsKeeps(kids, i - 1, Without(r, p), base, depth, np);
      FactsWithout(r, p, base, depth, np, i);
    }
  }

  /** A sorted tree holds what the tree held. */
  lemma SortingKeeps(n: Node, base: seq<byte>, depth: nat, np: bool)
    ensures Facts(SortTree(n), base, depth, np) == Facts(n, base, depth, np)
  {
    hide Facts, SortTree, Arranges;
    SortTreeArranges(n);
    ArrangingKeeps(n, SortTree(n), base, depth, np);
  }

  // ---- What a listing and an extraction show ----

  ghost function FactOf(v: Visit): Fact {
    if v.entry.IsDir() then DirAt(v.path, v.depth) else FileAt(v.path, v.depth, v.entry.fileSize)
  }

  ghost function Listed(visits: seq<Visit>): multiset<Fact> {
    if visits == [] then multiset{} else Listed(visits[..|visits| - 1]) + multiset{FactOf(visits[|visits| - 1])}
  }

  ghost function DataOf(file: (seq<byte>, seq<byte>)): Fact { DataAt(file.0, file.1) }

  ghost function Extracted(files: seq<(seq<byte>, seq<byte>)>): multiset<Fact> {
    if files == [] then multiset{} else Extracted(files[..|files| - 1]) + multiset{DataOf(files[|files| - 1])}
  }

  lemma Associative(a: multiset<Fact>, b: multiset<Fact>, c: multiset<Fact>)
    ensures a + (b + c) == a + b + c
  {
  }

  lemma ListedNext(visits: seq<Visit>, v: Visit)
    ensures Listed([]) == multiset{}
    ensures Listed(visits + [v]) == Listed(visits) + multiset{FactOf(v)}
  {
    hide FactOf;
    assert (visits + [v])[..|visits|] == visits;
  }

  lemma {:induction false} ListedConcat(a: seq<Visit>, b: seq<Visit>)
    ensures Listed(a + b) == Listed(a) + Listed(b)
    decreases |b|
  {
    hide FactOf, Listed;
    if b == [] {
      assert a + b == a;
      NothingShown();
    } else {
      var init, last := b[..|b| - 1], b[|b| - 1];
      ListedConcat(a, init);
      ListedNext(init, last);
      ListedNext(a + init, last);
      assert init + [last] == b && a + init + [last] == a + b;
      Associative(Listed(a), Listed(init), multiset{FactOf(last)});
    }
  }

  lemma ExtractedNext(files: seq<(seq<byte>, seq<byte>)>, file: (seq<byte>, seq<byte>))
    ensures Extracted(files + [file]) == Extracted(files) + multiset{DataOf(file)}
  {
    hide DataOf;
    assert (files + [file])[..|files|] == files;
  }

  lemma {:induction false} ExtractedConcat(a: seq<(seq<byte>, seq<byte>)>, b: seq<(seq<byte>, seq<byte>)>)
    ensures Extracted(a + b) == Extracted(a) + Extracted(b)
    decreases |b|
  {
    hide DataOf, Extracted;
    if b == [] {
      assert a + b == a;
      NothingShown();
    } else {
      var init, last := b[..|b| - 1], b[|b| - 1];
      ExtractedConcat(a, init);
      ExtractedNext(init, last);
      ExtractedNext(a + init, last);
      assert init + [last] == b && a + init + [last] == a + b;
      Associative(Extracted(a), Extracted(init), multiset{DataOf(last)});
    }
  }

  /** What the walk shows of a range of children, and the extraction of its files. */
  ghost function Shown(kids: seq<Node>, s: nat, lo: int, hi: int, path: seq<byte>, depth: nat, np: bool): multiset<Fact>
    requires 0 <= lo <= hi + 1 <= |kids|
  {
    Listed(RangeVisits(kids, s, lo, hi, path, depth)) + Extracted(SourceFiles(kids, lo, hi, path, np))
  }

  ghost function ShownKid(kids: seq<Node>, s: nat, i: nat, path: seq<byte>, depth: nat, np: bool): multiset<Fact>
    requires i < |kids|
  {
    Listed(KidVisits(kids, s, i, path, depth)) + Extracted(KidFiles(kids, i, path, np))
  }

  lemma ShownParts(kids: seq<Node>, s: nat, lo: int, hi: int, path: seq<byte>, depth: nat, np: bool)
    requires 0 <= lo <= hi + 1 <= |kids|
    ensures lo > hi ==> Shown(kids, s, lo, hi, path, depth, np) == multiset{}
    ensures lo <= hi ==>
      Shown(kids, s, lo, hi, path, depth, np) == ShownKid(kids, s, Mid(lo, hi), path, depth, np)
      + Shown(kids, s, lo, Mid(lo, hi) - 1, path, depth, np) + Shown(kids, s, Mid(lo, hi) + 1, hi, path, depth, np)
  {
    hide Listed, Extracted, RangeVisits, KidVisits, SourceFiles, KidFiles, Mid;
    RangeParts(kids, s, lo, hi, path, depth, np);
    if lo > hi {
      NothingShown();
    } else {
      var mid := Mid(lo, hi);
      var left, right := RangeVisits(kids, s, lo, mid - 1, path, depth), RangeVisits(kids, s, mid + 1, hi, path, depth);
      ListedConcat(KidVisits(kids, s, mid, path, depth), left + right);
      ListedConcat(left, right);
      var leftFiles, rightFiles := SourceFiles(kids, lo, mid - 1, path, np), SourceFiles(kids, mid + 1, hi, path, np);
      ExtractedConcat(KidFiles(kids, mid, path, np), leftFiles + rightFiles);
      ExtractedConcat(leftFiles, rightFiles);
    }
  }

  lemma NothingShown()
    ensures Listed([]) == multiset{} && Extracted([]) == multiset{}
  {
  }

  lemma RangeParts(kids: seq<Node>, s: nat, lo: int, hi: int, path: seq<byte>, depth: nat, np: bool)
    requires 0 <= lo <= hi + 1 <= |kids|
    ensures lo > hi ==> RangeVisits(kids, s, lo, hi, path, depth) == [] && SourceFiles(kids, lo, hi, path, np) == []
    ensures lo <= hi ==>
      RangeVisits(kids, s, lo, hi, path, depth) == KidVisits(kids, s, Mid(lo, hi), path, depth)
      + (RangeVisits(kids, s, lo, Mid(lo, hi) - 1, path, depth)
         + RangeVisits(kids, s, Mid(lo, hi) + 1, hi, path, depth))
    ensures lo <= hi ==>
      SourceFiles(kids, lo, hi, path, np) == KidFiles(kids, Mid(lo, hi), path, np)
      + (SourceFiles(kids, lo, Mid(lo, hi) - 1, path, np) + SourceFiles(kids, Mid(lo, hi) + 1, hi, path, np))
  {
  }

  /** What is to be known of children `lo..hi`. */
  ghost function FactsBetween(kids: seq<Node>, base: seq<byte>, depth: nat, np: bool, lo: int, hi: int): multiset<Fact>
    requires 0 <= lo <= hi + 1 <= |kids|
    decreases hi - lo + 1
  {
    if lo > hi then multiset{} else FactsBetween(kids, base, depth, np, lo, hi - 1) + Facts(kids[hi], base, depth, np)
  }

  lemma {:induction false} BetweenSplits(kids: seq<Node>, base: seq<byte>, depth: nat, np: bool, lo: int, mid: int,
                                         hi: int)
    requires 0 <= lo <= mid <= hi < |kids|
    ensures FactsBetween(kids, base, depth, np, lo, hi) == Facts(kids[mid], base, depth, np)
      + FactsBetween(kids, base, depth, np, lo, mid - 1) + FactsBetween(kids, base, depth, np, mid + 1, hi)
    decreases hi
  {
    hide Facts;
    if mid < hi {
      BetweenSplits(kids, base, depth, np, lo, mid, hi - 1);
    }
  }

  lemma {:induction false} BetweenAll(kids: seq<Node>, base: seq<byte>, depth: nat, np: bool, i: nat)
    requires i <= |kids|
    ensures FactsBetween(kids, base, depth, np, 0, i - 1) == FactsTo(kids, base, depth, np, i)
  {
    hide Facts;
    if i > 0 {
      BetweenAll(kids, base, depth, np, i - 1);
    }
  }

  /** The walk and the extraction show everything of the children once, and nothing else. */
  lemma {:induction false} ShownIsAll(kids: seq<Node>, s: nat, lo: int, hi: int, path: seq<byte>, depth: nat, np: bool)
    requires 0 <= lo <= hi + 1 <= |kids|
    ensures Shown(kids, s, lo, hi, path, depth, np) == FactsBetween(kids, path, depth, np, lo, hi)
    decreases kids, 1, hi - lo + 1
  {
    hide Shown, ShownKid, Facts, Mid;
    ShownParts(kids, s, lo, hi, path, depth, np);
    if lo <= hi {
      var mid := Mid(lo, hi);
      BetweenSplits(kids, path, depth, np, lo, mid, hi);
      ShownIsAll(kids, s, lo, mid - 1, path, depth, np);
      ShownIsAll(kids, s, mid + 1, hi, path, depth, np);
      ShownKidIsAll(kids, s, mid, path, depth, np);
    }
  }

  lemma {:induction false} ShownKidIsAll(kids: seq<Node>, s: nat, i: nat, path: seq<byte>, depth: nat, np: bool)
    requires i < |kids|
    ensures ShownKid(kids, s, i, path, depth, np) == Facts(kids[i], path, depth, np)
    decreases kids, 0
  {
    hide Listed, Extracted, Content, PathOf, RangeVisits, SourceFiles, KidSector, FactsTo, Facts, KidVisits, KidFiles,
         FactsBetween;
    hide KidEntry, FactOf;
    var kid, kidPath := kids[i], PathOf(path, kids[i].name);
    var v := Visit(KidEntry(kids, s, i), kidPath, depth);
    KidParts(kids, s, i, path, depth, np);
    ListedOne(v);
    EntryFact(kids, s, i, kidPath, depth);
    if kid.File? {
      ExtractedOne(kidPath, Content(kid, np));
    } else {
      var below := RangeVisits(kid.kids, KidSector(kids, s, i), 0, |kid.kids| - 1, kidPath, depth + 1);
      ListedConcat([v], below);
      ShownIsAll(kid.kids, KidSector(kids, s, i), 0, |kid.kids| - 1, kidPath, depth + 1, np);
      BetweenAll(kid.kids, kidPath, depth + 1, np, |kid.kids|);
      Associative(multiset{FactOf(v)}, Listed(below), Extracted(SourceFiles(kid.kids, 0, |kid.kids| - 1, kidPath, np)));
    }
  }

  lemma KidParts(kids: seq<Node>, s: nat, i: nat, path: seq<byte>, depth: nat, np: bool)
    requires i < |kids|
    ensures var kid, kidPath := kids[i], PathOf(path, kids[i].name);
      var v := Visit(KidEntry(kids, s, i), kidPath, depth);
      if kid.File? then
        && KidVisits(kids, s, i, path, depth) == [v] && KidFiles(kids, i, path, np) == [(kidPath, Content(kid, np))]
        && Facts(kid, path, depth, np) ==
          multiset{FileAt(kidPath, depth, FileSize(kid))} + multiset{DataAt(kidPath, Content(kid, np))}
      else
        && KidVisits(kids, s, i, path, depth)
          == [v] + RangeVisits(kid.kids, KidSector(kids, s, i), 0, |kid.kids| - 1, kidPath, depth + 1)
        && KidFiles(kids, i, path, np) == SourceFiles(kid.kids, 0, |kid.kids| - 1, kidPath, np)
        && Facts(kid, path, depth, np) ==
          multiset{DirAt(kidPath, depth)} + FactsTo(kid.kids, kidPath, depth + 1, np, |kid.kids|)
  {
    hide Content, PathOf, RangeVisits, SourceFiles, KidSector, FactsTo, KidEntry;
  }

  lemma ListedOne(v: Visit)
    ensures Listed([v]) == multiset{FactOf(v)}
  {
    hide FactOf;
    assert [v][..0] == [];
  }

  lemma ExtractedOne(path: seq<byte>, data: seq<byte>)
    ensures Extracted([(path, data)]) == multiset{DataAt(path, data)}
  {
    assert [(path, data)][..0] == [];
  }

  lemma EntryFact(kids: seq<Node>, s: nat, i: nat, path: seq<byte>, depth: nat)
    requires i < |kids|
    ensures FactOf(Visit(KidEntry(kids, s, i), path, depth))
      == if kids[i].Dir? then DirAt(path, depth) else FileAt(path, depth, FileSize(kids[i]))
  {
  }

  /** Listing and extracting the laid-out tree shows exactly what the source holds, in whatever order
      its directories have their entries. */
  lemma SourceShown(src: Node, root: Node, s: nat, np: bool)
    requires src.Dir? && Arranges(src, root)
    ensures root.Dir?
    ensures Listed(Listing(root.kids, s, [], 0)) + Extracted(SourceFiles(root.kids, 0, |root.kids| - 1, [], np))
      == FactsTo(src.kids, [], 0, np, |src.kids|)
  {
    hide Listed, Extracted, RangeVisits, SourceFiles, FactsTo, ArrangesKids;
    var kids := root.kids;
    ShownIsAll(kids, s, 0, |kids| - 1, [], 0, np);
    BetweenAll(kids, [], 0, np, |kids|);
    ArrangingKidsKeeps(src.kids, |src.kids|, kids, [], 0, np);
  }
}
