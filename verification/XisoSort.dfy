/** Sorting the entries of every directory, in any order among names equal ignoring case, and what
    every such order has in common (xiso.cpp: build_tree). */
module XisoSort {
  import opened Bytes
  import opened XisoLayout
  import opened XisoTree

  // ---- Sorting ----

  /** Children with `n` put in after every child that is not greater. */
  function Insert(n: Node, kids: seq<Node>): (r: seq<Node>)
    ensures |r| == |kids| + 1
  {
    if kids == [] || !CiLess(n.name, kids[|kids| - 1].name) then kids + [n]
    else Insert(n, kids[..|kids| - 1]) + [kids[|kids| - 1]]
  }

  /** The host tree with the children of every directory sorted. */
  function SortTree(n: Node): (r: Node)
    ensures r.name == n.name && (r.Dir? <==> n.Dir?) && (n.File? ==> r == n)
    decreases n
  {
    if n.File? then n else Dir(n.name, SortKids(n.kids, |n.kids|))
  }

  function SortKids(kids: seq<Node>, i: nat): (r: seq<Node>)
    requires i <= |kids|
    ensures |r| == i
    decreases kids, i
  {
    if i == 0 then [] else Insert(SortTree(kids[i - 1]), SortKids(kids, i - 1))
  }

  lemma {:induction false} InsertKeeps(n: Node, kids: seq<Node>)
    ensures forall k :: 0 <= k <= |kids| ==> Insert(n, kids)[k] == n || Insert(n, kids)[k] in kids
    ensures multiset(Insert(n, kids)) == multiset(kids) + multiset{n}
    decreases |kids|
  {
    if kids != [] && CiLess(n.name, kids[|kids| - 1].name) {
      InsertKeeps(n, kids[..|kids| - 1]);
      assert kids == kids[..|kids| - 1] + [kids[|kids| - 1]];
    }
  }

  lemma {:induction false} InsertSorted(n: Node, kids: seq<Node>)
    requires SortedKids(kids)
    ensures SortedKids(Insert(n, kids))
    decreases |kids|
  {
    hide CiLess;
    if kids != [] && CiLess(n.name, kids[|kids| - 1].name) {
      var last, rest := kids[|kids| - 1], kids[..|kids| - 1];
      InsertSorted(n, rest);
      InsertKeeps(n, rest);
      CiTrichotomy(n.name, last.name);
      var r := Insert(n, rest);
      forall i | 0 <= i < |r| ensures !CiLess(last.name, r[i].name) {
        if r[i] != n {
          var j :| 0 <= j < |rest| && rest[j] == r[i];
          assert kids[j] == r[i];
        }
      }
    } else if kids != [] {
      AppendSorted(kids, n);
    }
  }

  lemma AppendSorted(kids: seq<Node>, n: Node)
    requires SortedKids(kids) && kids != [] && !CiLess(n.name, kids[|kids| - 1].name)
    ensures SortedKids(kids + [n])
  {
    forall i | 0 <= i < |kids| ensures !CiLess(n.name, kids[i].name) {
      if CiLess(n.name, kids[i].name) {
        NotLessTransitive(n.name, kids[i].name, kids[|kids| - 1].name);
      }
    }
  }

  lemma NotLessTransitive(a: seq<byte>, b: seq<byte>, c: seq<byte>)
    requires CiLess(a, b) && !CiLess(c, b)
    ensures CiLess(a, c)
  {
    CiTrichotomy(b, c);
    if CiLess(b, c) {
      CiTransitive(a, b, c);
    } else {
      CiCongruent(b, c, a);
    }
  }

  /** The first `i` children, each with its own subtree sorted. */
  ghost function EachSorted(kids: seq<Node>, i: nat): seq<Node>
    requires i <= |kids|
  {
    if i == 0 then [] else EachSorted(kids, i - 1) + [SortTree(kids[i - 1])]
  }

  /** Sorting a directory keeps its children, each with its own subtree sorted. */
  lemma {:induction false} SortKidsKeeps(kids: seq<Node>, i: nat)
    requires i <= |kids|
    ensures SortedKids(SortKids(kids, i))
    ensures multiset(SortKids(kids, i)) == multiset(EachSorted(kids, i))
    decreases i
  {
    hide Insert, SortTree, SortedKids;
    if i == 0 {
      NoKidsSorted();
    } else {
      SortKidsKeeps(kids, i - 1);
      InsertSorted(SortTree(kids[i - 1]), SortKids(kids, i - 1));
      InsertKeeps(SortTree(kids[i - 1]), SortKids(kids, i - 1));
    }
  }

  lemma NoKidsSorted()
    ensures SortedKids([])
  {
  }

  /** Sorting orders every directory of the tree. */
  lemma {:induction false} SortTreeSorted(n: Node)
    ensures Sorted(SortTree(n))
    decreases n
  {
    if n.Dir? {
      SortKidsKeeps(n.kids, |n.kids|);
      SortKidsSorted(n.kids, |n.kids|);
    }
  }

  lemma {:induction false} SortKidsSorted(kids: seq<Node>, i: nat)
    requires i <= |kids|
    ensures forall k :: 0 <= k < i ==> Sorted(SortKids(kids, i)[k])
    decreases kids, i
  {
    hide Sorted, SortTree;
    if i > 0 {
      SortTreeSorted(kids[i - 1]);
      SortKidsSorted(kids, i - 1);
      InsertKeeps(SortTree(kids[i - 1]), SortKids(kids, i - 1));
    }
  }

  lemma Resplit(kids: seq<Node>, n: Node, p: nat, m: nat)
    requires p <= m && m + 1 == |kids|
    ensures kids[..m][..p] + [n] + kids[..m][p..] + [kids[m]] == kids[..p] + [n] + kids[p..]
  {
  }

  // ---- Any order the sort may leave ----

  function Without<T>(s: seq<T>, p: nat): (r: seq<T>)
    requires p < |s|
    ensures |r| == |s| - 1
  {
    s[..p] + s[p + 1..]
  }

  /** `r` is the tree `n` with the entries of every directory in some order. */
  ghost predicate Arranges(n: Node, r: Node)
    decreases n
  {
    if n.File? then r == n else r.Dir? && r.name == n.name && ArrangesKids(n.kids, |n.kids|, r.kids)
  }

  /** `r` has the first `i` children, each arranged, in some order. */
  ghost predicate ArrangesKids(kids: seq<Node>, i: nat, r: seq<Node>)
    requires i <= |kids|
    decreases kids, i
  {
    && |r| == i
    && (i == 0
        || exists p :: 0 <= p < i && Arranges(kids[i - 1], r[p]) && ArrangesKids(kids, i - 1, Without(r, p)))
  }

  /** `r` is what a sort may leave of `n`. */
  ghost predicate SortedAs(n: Node, r: Node) {
    Arranges(n, r) && Sorted(r)
  }

  /** Between the nodes that may not come behind `n` and those that may not come before it. */
  ghost predicate FitsAt(n: Node, kids: seq<Node>, p: nat) {
    && p <= |kids|
    && (forall k :: 0 <= k < p ==> !CiLess(n.name, kids[k].name))
    && (forall k :: p <= k < |kids| ==> !CiLess(kids[k].name, n.name))
  }

  lemma FitsBehind(n: Node, kids: seq<Node>, p: nat)
    requires SortedKids(kids) && p <= |kids| && (p > 0 ==> !CiLess(n.name, kids[p - 1].name))
    requires forall k :: p <= k < |kids| ==> CiLess(n.name, kids[k].name)
    ensures FitsAt(n, kids, p)
  {
    hide CiLess;
    forall k | 0 <= k < p ensures !CiLess(n.name, kids[k].name) {
      if CiLess(n.name, kids[k].name) {
        NotLessTransitive(n.name, kids[k].name, kids[p - 1].name);
      }
    }
    forall k | p <= k < |kids| ensures !CiLess(kids[k].name, n.name) {
      CiTrichotomy(n.name, kids[k].name);
    }
  }

  lemma PlacedSorted(n: Node, kids: seq<Node>, p: nat)
    requires SortedKids(kids) && FitsAt(n, kids, p)
    ensures SortedKids(kids[..p] + [n] + kids[p..])
  {
    hide CiLess;
  }

  lemma PlacedArranges(kids: seq<Node>, i: nat, rest: seq<Node>, n: Node, p: nat)
    requires i < |kids| && ArrangesKids(kids, i, rest) && Arranges(kids[i], n) && p <= |rest|
    ensures ArrangesKids(kids, i + 1, rest[..p] + [n] + rest[p..])
  {
    hide Arranges;
    var r := rest[..p] + [n] + rest[p..];
    assert Without(r, p) == rest;
    assert r[p] == n;
  }

  lemma NothingArranged(kids: seq<Node>)
    ensures ArrangesKids(kids, 0, []) && SortedKids([])
  {
  }

  lemma FileSorted(n: Node)
    requires n.File?
    ensures SortedAs(n, n)
  {
  }

  lemma DirSorted(n: Node, kids: seq<Node>)
    requires n.Dir? && ArrangesKids(n.kids, |n.kids|, kids) && SortedKids(kids)
    requires forall k :: 0 <= k < |kids| ==> Sorted(kids[k])
    ensures SortedAs(n, Dir(n.name, kids))
  {
    hide ArrangesKids;
  }

  // ---- The stable order is one of them ----

  lemma {:induction false} InsertPlaces(n: Node, kids: seq<Node>)
    ensures exists p :: 0 <= p <= |kids| && Insert(n, kids) == kids[..p] + [n] + kids[p..]
    decreases |kids|
  {
    hide CiLess;
    if kids == [] || !CiLess(n.name, kids[|kids| - 1].name) {
      assert Insert(n, kids) == kids[..|kids|] + [n] + kids[|kids|..];
    } else {
      var m := |kids| - 1;
      InsertPlaces(n, kids[..m]);
      var p :| 0 <= p <= m && Insert(n, kids[..m]) == kids[..m][..p] + [n] + kids[..m][p..];
      Resplit(kids, n, p, m);
    }
  }

  lemma {:induction false} SortTreeArranges(n: Node)
    ensures SortedAs(n, SortTree(n))
    decreases n
  {
    hide SortKids, ArrangesKids, Sorted;
    SortTreeSorted(n);
    if n.Dir? {
      SortKidsArranges(n.kids, |n.kids|);
    }
  }

  lemma {:induction false} SortKidsArranges(kids: seq<Node>, i: nat)
    requires i <= |kids|
    ensures ArrangesKids(kids, i, SortKids(kids, i))
    decreases kids, i
  {
    hide Arranges, Insert, SortTree, ArrangesKids, Sorted;
    if i == 0 {
      NothingArranged(kids);
    } else {
      SortTreeArranges(kids[i - 1]);
      SortKidsArranges(kids, i - 1);
      var n, rest := SortTree(kids[i - 1]), SortKids(kids, i - 1);
      InsertPlaces(n, rest);
      var p :| 0 <= p <= |rest| && Insert(n, rest) == rest[..p] + [n] + rest[p..];
      PlacedArranges(kids, i - 1, rest, n, p);
    }
  }

  // ---- Name lengths do not depend on the order ----

  /** What is compared of a name. */
  function Key(name: seq<byte>): (r: seq<byte>)
    ensures |r| == |name|
  {
    seq(|name|, i requires 0 <= i < |name| => Upper(name[i]))
  }

  ghost function Keys(kids: seq<Node>): (r: seq<seq<byte>>)
    ensures |r| == |kids|
  {
    if kids == [] then [] else Keys(kids[..|kids| - 1]) + [Key(kids[|kids| - 1].name)]
  }

  lemma {:induction false} KeyAt(kids: seq<Node>, i: nat)
    requires i < |kids|
    ensures Keys(kids)[i] == Key(kids[i].name)
    decreases |kids|
  {
    hide Key;
    if i < |kids| - 1 {
      KeyAt(kids[..|kids| - 1], i);
    }
  }

  lemma {:induction false} KeysConcat(a: seq<Node>, b: seq<Node>)
    ensures Keys(a + b) == Keys(a) + Keys(b)
    decreases |b|
  {
    hide Key;
    if b == [] {
      assert a + b == a;
    } else {
      KeysConcat(a, b[..|b| - 1]);
      assert (a + b)[..|a + b| - 1] == a + b[..|b| - 1];
    }
  }

  lemma Middle(a: seq<seq<byte>>, k: seq<byte>, b: seq<seq<byte>>)
    ensures multiset(a + [k] + b) == multiset(a + b) + multiset{k}
  {
  }

  lemma OneKey(n: Node)
    ensures Keys([n]) == [Key(n.name)]
  {
    hide Key;
    assert [n][..0] == [];
  }

  lemma KeysWithout(r: seq<Node>, p: nat)
    requires p < |r|
    ensures multiset(Keys(r)) == multiset(Keys(Without(r, p))) + multiset{Key(r[p].name)}
  {
    hide Key, Keys, Without;
    var a, b := r[..p], r[p + 1..];
    TakenApart(r, p);
    KeysMiddle(a, r[p], b);
    KeysConcat(a, b);
    Middle(Keys(a), Key(r[p].name), Keys(b));
  }

  lemma TakenApart(r: seq<Node>, p: nat)
    requires p < |r|
    ensures r == r[..p] + [r[p]] + r[p + 1..] && Without(r, p) == r[..p] + r[p + 1..]
  {
  }

  lemma KeysMiddle(a: seq<Node>, n: Node, b: seq<Node>)
    ensures Keys(a + [n] + b) == Keys(a) + [Key(n.name)] + Keys(b)
  {
    hide Key, Keys;
    KeysConcat(a + [n], b);
    KeysConcat(a, [n]);
    OneKey(n);
  }

  /** The place of the last child among the arranged ones. */
  lemma LastPlace(kids: seq<Node>, i: nat, r: seq<Node>) returns (p: nat)
    requires 0 < i <= |kids| && ArrangesKids(kids, i, r)
    ensures p < i == |r| && Arranges(kids[i - 1], r[p]) && ArrangesKids(kids, i - 1, Without(r, p))
  {
    hide Arranges;
    p :| 0 <= p < i && Arranges(kids[i - 1], r[p]) && ArrangesKids(kids, i - 1, Without(r, p));
  }

  lemma ArrangedName(n: Node, r: Node)
    requires Arranges(n, r)
    ensures r.name == n.name && (r.Dir? <==> n.Dir?)
  {
  }

  lemma {:induction false} KeysArranged(kids: seq<Node>, i: nat, r: seq<Node>)
    requires i <= |kids| && ArrangesKids(kids, i, r)
    ensures multiset(Keys(r)) == multiset(Keys(kids[..i]))
    decreases i
  {
    hide Key, Keys, ArrangesKids, Arranges;
    ArrangedSize(kids, i, r);
    if i == 0 {
      assert kids[..0] == r;
    } else {
      var p := LastPlace(kids, i, r);
      ArrangedName(kids[i - 1], r[p]);
      KeysArranged(kids, i - 1, Without(r, p));
      KeysWithout(r, p);
      KeysWithout(kids[..i], i - 1);
      assert Without(kids[..i], i - 1) == kids[..i - 1];
    }
  }

  lemma {:induction false} KeysCompare(a: seq<byte>, b: seq<byte>)
    ensures CiLess(a, b) <==> CiLess(Key(a), Key(b))
    decreases |a|
  {
    if a != [] && b != [] {
      KeysCompare(a[1..], b[1..]);
      assert Key(a)[1..] == Key(a[1..]) && Key(b)[1..] == Key(b[1..]);
    }
  }

  ghost predicate SortedKeys(ks: seq<seq<byte>>) {
    forall i, j :: 0 <= i < j < |ks| ==> !CiLess(ks[j], ks[i])
  }

  ghost predicate IsKey(k: seq<byte>) {
    forall i :: 0 <= i < |k| ==> Upper(k[i]) == k[i]
  }

  ghost predicate AllKeys(ks: seq<seq<byte>>) {
    forall i :: 0 <= i < |ks| ==> IsKey(ks[i])
  }

  lemma KeysSorted(kids: seq<Node>)
    requires SortedKids(kids)
    ensures SortedKeys(Keys(kids)) && AllKeys(Keys(kids))
  {
    hide Keys, CiLess;
    forall i, j | 0 <= i < j < |kids| ensures !CiLess(Keys(kids)[j], Keys(kids)[i]) {
      KeyAt(kids, i);
      KeyAt(kids, j);
      KeysCompare(kids[j].name, kids[i].name);
    }
    forall i | 0 <= i < |kids| ensures IsKey(Keys(kids)[i]) {
      KeyAt(kids, i);
    }
  }

  lemma SameKey(a: seq<byte>, b: seq<byte>)
    requires IsKey(a) && IsKey(b) && !CiLess(a, b) && !CiLess(b, a)
    ensures a == b
  {
    hide CiLess;
    CiTrichotomy(a, b);
  }

  lemma LastOf(a: seq<seq<byte>>, b: seq<seq<byte>>)
    requires multiset(a) == multiset(b) && a != []
    ensures |a| == |b| && exists k :: 0 <= k < |b| && b[k] == a[|a| - 1]
  {
    assert |multiset(a)| == |multiset(b)|;
    assert a[|a| - 1] in multiset(b);
  }

  /** Sorted keys are determined by which they are. */
  lemma {:induction false} SortedUnique(a: seq<seq<byte>>, b: seq<seq<byte>>)
    requires SortedKeys(a) && SortedKeys(b) && multiset(a) == multiset(b)
    requires AllKeys(a) && AllKeys(b)
    ensures a == b
    decreases |a|
  {
    hide AllKeys, SortedKeys, Front;
    if a == [] {
      assert |multiset(b)| == 0;
    } else {
      LastAgree(a, b);
      FrontSorted(a);
      FrontSorted(b);
      SortedUnique(Front(a), Front(b));
      FrontAndLast(a, b);
    }
  }

  function Front(ks: seq<seq<byte>>): seq<seq<byte>>
    requires ks != []
  {
    ks[..|ks| - 1]
  }

  lemma FrontSorted(a: seq<seq<byte>>)
    requires a != [] && SortedKeys(a) && AllKeys(a)
    ensures SortedKeys(Front(a)) && AllKeys(Front(a)) && |Front(a)| < |a|
    ensures multiset(Front(a)) == multiset(a) - multiset{a[|a| - 1]}
  {
    hide CiLess, IsKey;
    assert a == a[..|a| - 1] + [a[|a| - 1]];
  }

  lemma FrontAndLast(a: seq<seq<byte>>, b: seq<seq<byte>>)
    requires a != [] && b != [] && |a| == |b| && Front(a) == Front(b) && a[|a| - 1] == b[|b| - 1]
    ensures a == b
  {
    assert a == Front(a) + [a[|a| - 1]] && b == Front(b) + [b[|b| - 1]];
  }

  lemma LastAgree(a: seq<seq<byte>>, b: seq<seq<byte>>)
    requires SortedKeys(a) && SortedKeys(b) && multiset(a) == multiset(b) && a != []
    requires AllKeys(a) && AllKeys(b)
    ensures |a| == |b| && a[|a| - 1] == b[|b| - 1]
  {
    hide CiLess, IsKey;
    LastOf(a, b);
    LastOf(b, a);
    var n := |a| - 1;
    var k :| 0 <= k < |b| && b[k] == a[n];
    var m :| 0 <= m < |a| && a[m] == b[n];
    CiTrichotomy(a[n], a[n]);
    SameKey(a[n], b[n]);
  }

  ghost predicate SameLengths(a: seq<Name>, b: seq<Name>) {
    |a| == |b| && forall i :: 0 <= i < |a| ==> |a[i]| == |b[i]|
  }

  /** Two sorted orders of the same entries have names of the same lengths. */
  lemma SortedLengths(kids: seq<Node>, r: seq<Node>, r': seq<Node>)
    requires ArrangesKids(kids, |kids|, r) && ArrangesKids(kids, |kids|, r') && SortedKids(r) && SortedKids(r')
    ensures SameLengths(Names(r), Names(r'))
  {
    hide Key, Keys, SortedKids, SortedKeys, AllKeys;
    KeysArranged(kids, |kids|, r);
    KeysArranged(kids, |kids|, r');
    KeysSorted(r);
    KeysSorted(r');
    SortedUnique(Keys(r), Keys(r'));
    forall i | 0 <= i < |r| ensures |r[i].name| == |r'[i].name| {
      KeyAt(r, i);
      KeyAt(r', i);
    }
  }

  lemma {:induction false} SameEnd(a: seq<Name>, b: seq<Name>, lo: int, hi: int, c: Cursor)
    requires SameLengths(a, b) && Range(a, lo, hi) && c.Valid()
    ensures EndOf(a, lo, hi, c) == EndOf(b, lo, hi, c)
    decreases hi - lo + 1
  {
    hide Mid;
    if lo <= hi {
      var mid := Mid(lo, hi);
      assert Dwords(a[mid]) == Dwords(b[mid]);
      var left := c.After(Dwords(a[mid]));
      SameEnd(a, b, lo, mid - 1, left);
      SameEnd(a, b, mid + 1, hi, EndOf(a, lo, mid - 1, left));
    }
  }

  /** A table is as large as its name lengths make it. */
  lemma SameTables(a: seq<Name>, b: seq<Name>)
    requires SameLengths(a, b)
    ensures TableSectors(a) == TableSectors(b)
  {
    hide EndOf;
    if a == [] {
      TableSectorsPositive(a);
      TableSectorsPositive(b);
    } else {
      var lo, hi, c := Whole(a);
      LaidOut(a, lo, hi, c);
      LaidOut(b, lo, hi, c);
      SameEnd(a, b, lo, hi, c);
    }
  }

  // ---- Sizes do not depend on the order ----

  lemma {:induction false} SpanPrefix(a: seq<Node>, b: seq<Node>, i: nat)
    requires i <= |a| && i <= |b| && a[..i] == b[..i]
    ensures SpanTo(a, i) == SpanTo(b, i)
    decreases i
  {
    hide Span;
    if i > 0 {
      assert a[..i - 1] == a[..i][..i - 1] == b[..i - 1];
      assert a[i - 1] == a[..i][i - 1] == b[i - 1];
      SpanPrefix(a, b, i - 1);
    }
  }

  lemma {:induction false} SpanWithout(r: seq<Node>, p: nat, i: nat)
    requires p < i <= |r|
    ensures SpanTo(r, i) == SpanTo(Without(r, p), i - 1) + Span(r[p])
    decreases i
  {
    hide Span;
    if i == p + 1 {
      SpanPrefix(r, Without(r, p), p);
    } else {
      SpanWithout(r, p, i - 1);
      assert Without(r, p)[i - 2] == r[i - 1];
    }
  }

  /** Sectors of the first `i` children, each sorted. */
  ghost function SortedSpan(kids: seq<Node>, i: nat): nat
    requires i <= |kids|
  {
    if i == 0 then 0 else SortedSpan(kids, i - 1) + Span(SortTree(kids[i - 1]))
  }

  /** Every sorted order takes as many sectors as the stable one, and has small tables if it has. */
  lemma {:induction false} SizesArranged(n: Node, r: Node)
    requires SortedAs(n, r)
    ensures Span(r) == Span(SortTree(n)) && (SmallTables(r) <==> SmallTables(SortTree(n)))
    ensures n.Dir? ==>
      && TableSectors(Names(r.kids)) == TableSectors(Names(SortTree(n).kids))
      && SpanTo(r.kids, |r.kids|) == SpanTo(SortTree(n).kids, |n.kids|)
    decreases n
  {
    hide SpanTo, SortTree, ArrangesKids, SortedKids, TableSectors, Sorted;
    if n.Dir? {
      var t := SortTree(n);
      SortTreeArranges(n);
      SortedParts(r);
      SortedParts(t);
      ArrangedSize(n.kids, |n.kids|, r.kids);
      ArrangedSize(n.kids, |n.kids|, t.kids);
      SortedLengths(n.kids, r.kids, t.kids);
      SameTables(Names(r.kids), Names(t.kids));
      KidSizesArranged(n.kids, |n.kids|, r.kids);
      KidSizesArranged(n.kids, |n.kids|, t.kids);
      SpanParts(r);
      SpanParts(t);
      SmallParts(n.kids, r);
      SmallParts(n.kids, t);
    }
  }

  lemma ArrangedSize(kids: seq<Node>, i: nat, r: seq<Node>)
    requires i <= |kids| && ArrangesKids(kids, i, r)
    ensures |r| == i
  {
  }

  lemma SortedParts(r: Node)
    requires Sorted(r) && r.Dir?
    ensures SortedKids(r.kids) && forall k :: 0 <= k < |r.kids| ==> Sorted(r.kids[k])
  {
  }

  lemma SpanParts(r: Node)
    requires r.Dir?
    ensures Span(r) == TableSectors(Names(r.kids)) + SpanTo(r.kids, |r.kids|)
  {
  }

  ghost predicate AllSmall(kids: seq<Node>) {
    forall k :: 0 <= k < |kids| ==> SmallTables(kids[k])
  }

  ghost predicate SortedSmall(kids: seq<Node>, i: nat)
    requires i <= |kids|
  {
    forall k :: 0 <= k < i ==> SmallTables(SortTree(kids[k]))
  }

  lemma SmallParts(kids: seq<Node>, r: Node)
    requires r.Dir? && (AllSmall(r.kids) <==> SortedSmall(kids, |kids|))
    ensures SmallTables(r) <==> TableSize(Names(r.kids)) <= MAX_TABLE && SortedSmall(kids, |kids|)
  {
    hide TableSize;
  }

  lemma AllSmallWithout(r: seq<Node>, p: nat)
    requires p < |r|
    ensures AllSmall(r) <==> SmallTables(r[p]) && AllSmall(Without(r, p))
  {
    hide SmallTables;
    var rest := Without(r, p);
    assert forall k :: 0 <= k < p ==> rest[k] == r[k];
    assert forall k :: p < k < |r| ==> rest[k - 1] == r[k];
    assert forall k :: 0 <= k < |r| ==> k == p || (k < p && r[k] == rest[k]) || (k > p && r[k] == rest[k - 1]);
  }

  lemma {:induction false} KidSizesArranged(kids: seq<Node>, i: nat, r: seq<Node>)
    requires i <= |kids| && ArrangesKids(kids, i, r) && forall k :: 0 <= k < |r| ==> Sorted(r[k])
    ensures SpanTo(r, i) == SortedSpan(kids, i)
    ensures AllSmall(r) <==> SortedSmall(kids, i)
    decreases kids, i
  {
    hide Span, Arranges, SortTree, Sorted, SmallTables, AllSmall, ArrangesKids;
    ArrangedSize(kids, i, r);
    if i == 0 {
      assert AllSmall(r) by { NoneLarge(); }
    } else {
      var p := LastPlace(kids, i, r);
      WithoutSorted(r, p);
      SizesArranged(kids[i - 1], r[p]);
      KidSizesArranged(kids, i - 1, Without(r, p));
      SpanWithout(r, p, i);
      AllSmallWithout(r, p);
    }
  }

  lemma WithoutSorted(r: seq<Node>, p: nat)
    requires p < |r| && forall k :: 0 <= k < |r| ==> Sorted(r[k])
    ensures forall k :: 0 <= k < |r| - 1 ==> Sorted(Without(r, p)[k])
  {
    hide Sorted;
  }

  lemma NoneLarge()
    ensures AllSmall([])
  {
  }
}
