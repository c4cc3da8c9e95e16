/** The path of everything a walk shows: the names from the root down to it, each behind a backslash. */
module XisoPaths {
  import opened Bytes
  import opened XisoLayout
  import opened XisoTree
  import opened XisoTable
  import opened XisoDisc
  import opened XisoReader
  import opened XisoSource

  const SEPARATOR: byte := 0x5C

  // ---- By the names from the root ----

  /** The names in order, each behind a separator. */
  function Joined(names: seq<Name>): seq<byte> {
    if names == [] then [] else [SEPARATOR] + names[0] + Joined(names[1..])
  }

  /** What there is to know of a node below the directories `above`, and of everything below it. */
  ghost function Named(n: Node, above: seq<Name>, np: bool): multiset<Fact>
    decreases n
  {
    var names := above + [n.name];
    if n.File? then multiset{FileAt(Joined(names), |above|, FileSize(n)), DataAt(Joined(names), Content(n, np))}
    else multiset{DirAt(Joined(names), |above|)} + NamedTo(n.kids, names, np, |n.kids|)
  }

  ghost function NamedTo(kids: seq<Node>, above: seq<Name>, np: bool, i: nat): multiset<Fact>
    requires i <= |kids|
    decreases kids, i
  {
    if i == 0 then multiset{} else NamedTo(kids, above, np, i - 1) + Named(kids[i - 1], above, np)
  }

  /** The same with the files' own bytes. */
  ghost function PlainNamed(n: Node, above: seq<Name>): multiset<Fact>
    decreases n
  {
    var names := above + [n.name];
    if n.File? then multiset{FileAt(Joined(names), |above|, |n.data|), DataAt(Joined(names), n.data)}
    else multiset{DirAt(Joined(names), |above|)} + PlainNamedTo(n.kids, names, |n.kids|)
  }

  ghost function PlainNamedTo(kids: seq<Node>, above: seq<Name>, i: nat): multiset<Fact>
    requires i <= |kids|
    decreases kids, i
  {
    if i == 0 then multiset{} else PlainNamedTo(kids, above, i - 1) + PlainNamed(kids[i - 1], above)
  }

  lemma {:induction false} JoinedMore(above: seq<Name>, name: Name)
    ensures Joined(above + [name]) == Joined(above) + [SEPARATOR] + name
    decreases |above|
  {
    if above == [] {
      assert ([name] + [])[1..] == [];
    } else {
      JoinedMore(above[1..], name);
      assert (above + [name])[1..] == above[1..] + [name];
    }
  }

  /** The path a walk builds on the way down is that of the names. */
  lemma PathJoins(above: seq<Name>, name: Name)
    ensures PathOf(Joined(above), name) == Joined(above + [name])
  {
    hide Joined;
    JoinedMore(above, name);
  }

  lemma {:induction false} FactsNamed(n: Node, above: seq<Name>, np: bool)
    ensures Facts(n, Joined(above), |above|, np) == Named(n, above, np)
    decreases n
  {
    hide Joined, PathOf, Content;
    PathJoins(above, n.name);
    if n.Dir? {
      FactsNamedTo(n.kids, above + [n.name], np, |n.kids|);
    }
  }

  /** What is to be known of the children of a directory, by the names above them. */
  lemma {:induction false} FactsNamedTo(kids: seq<Node>, above: seq<Name>, np: bool, i: nat)
    requires i <= |kids|
    ensures FactsTo(kids, Joined(above), |above|, np, i) == NamedTo(kids, above, np, i)
    decreases kids, i
  {
    hide Facts, Named, Joined;
    if i > 0 {
      FactsNamedTo(kids, above, np, i - 1);
      FactsNamed(kids[i - 1], above, np);
    }
  }

  lemma {:induction false} PlainFactsNamed(n: Node, above: seq<Name>)
    ensures PlainFacts(n, Joined(above), |above|) == PlainNamed(n, above)
    decreases n
  {
    hide Joined, PathOf;
    PathJoins(above, n.name);
    if n.Dir? {
      PlainFactsNamedTo(n.kids, above + [n.name], |n.kids|);
    }
  }

  lemma {:induction false} PlainFactsNamedTo(kids: seq<Node>, above: seq<Name>, i: nat)
    requires i <= |kids|
    ensures PlainFactsTo(kids, Joined(above), |above|, i) == PlainNamedTo(kids, above, i)
    decreases kids, i
  {
    hide PlainFacts, PlainNamed, Joined;
    if i > 0 {
      PlainFactsNamedTo(kids, above, i - 1);
      PlainFactsNamed(kids[i - 1], above);
    }
  }

  // ---- By the visit of the directory ----

  /** Visit `j` is that of the directory visit `i` is in: the last visit before it that is less deep. */
  ghost predicate IsParent(visits: seq<Visit>, j: int, i: int) {
    && 0 <= j < i < |visits| && visits[j].entry.IsDir() && visits[j].depth + 1 == visits[i].depth
    && forall k :: j < k < i ==> visits[k].depth >= visits[i].depth
  }

  /** Every visit is in the directory at `base`, whose entries are at `depth`, or in one visited before it;
      its path is that of the directory, a separator and its own name. */
  ghost predicate Nested(visits: seq<Visit>, base: seq<byte>, depth: nat) {
    forall i :: 0 <= i < |visits| ==> NestedAt(visits, base, depth, i)
  }

  ghost predicate NestedAt(visits: seq<Visit>, base: seq<byte>, depth: nat, i: nat)
    requires i < |visits|
  {
    if visits[i].depth == depth then visits[i].path == base + [SEPARATOR] + visits[i].entry.name
    else
      visits[i].depth > depth
      && exists j :: IsParent(visits, j, i) && visits[i].path == visits[j].path + [SEPARATOR] + visits[i].entry.name
  }

  lemma NestedPrefix(a: seq<Visit>, b: seq<Visit>, base: seq<byte>, depth: nat, i: nat)
    requires i < |a| && NestedAt(a, base, depth, i)
    ensures NestedAt(a + b, base, depth, i)
  {
    hide Entry.IsDir;
    if a[i].depth != depth {
      var j :| IsParent(a, j, i) && a[i].path == a[j].path + [SEPARATOR] + a[i].entry.name;
      assert IsParent(a + b, j, i);
    }
  }

  lemma NestedSuffix(a: seq<Visit>, b: seq<Visit>, base: seq<byte>, depth: nat, i: nat)
    requires i < |b| && NestedAt(b, base, depth, i)
    ensures NestedAt(a + b, base, depth, |a| + i)
  {
    hide Entry.IsDir;
    if b[i].depth != depth {
      var j :| IsParent(b, j, i) && b[i].path == b[j].path + [SEPARATOR] + b[i].entry.name;
      assert forall k :: |a| + j < k < |a| + i ==> (a + b)[k] == b[k - |a|];
      assert IsParent(a + b, |a| + j, |a| + i);
    }
  }

  lemma NestedConcat(a: seq<Visit>, b: seq<Visit>, base: seq<byte>, depth: nat)
    requires Nested(a, base, depth) && Nested(b, base, depth)
    ensures Nested(a + b, base, depth)
  {
    hide NestedAt;
    forall i | 0 <= i < |a + b| ensures NestedAt(a + b, base, depth, i) {
      if i < |a| {
        NestedPrefix(a, b, base, depth, i);
      } else {
        NestedSuffix(a, b, base, depth, i - |a|);
      }
    }
  }

  /** A directory with what is below it. */
  lemma NestedBelow(v: Visit, below: seq<Visit>, base: seq<byte>)
    requires v.path == base + [SEPARATOR] + v.entry.name && v.entry.IsDir() && Nested(below, v.path, v.depth + 1)
    ensures Nested([v] + below, base, v.depth)
  {
    hide Entry.IsDir;
    var all := [v] + below;
    forall i | 0 <= i < |all| ensures NestedAt(all, base, v.depth, i) {
      if i > 0 {
        assert NestedAt(below, v.path, v.depth + 1, i - 1);
        if all[i].depth == v.depth + 1 {
          assert forall k :: 0 < k < i ==> NestedAt(below, v.path, v.depth + 1, k - 1) && all[k] == below[k - 1];
          assert IsParent(all, 0, i);
        } else {
          var j :| IsParent(below, j, i - 1)
            && below[i - 1].path == below[j].path + [SEPARATOR] + below[i - 1].entry.name;
          assert forall k :: j + 1 < k < i ==> all[k] == below[k - 1];
          assert IsParent(all, j + 1, i);
        }
      }
    }
  }

  lemma NestedOne(v: Visit, base: seq<byte>)
    requires v.path == base + [SEPARATOR] + v.entry.name
    ensures Nested([v], base, v.depth)
  {
  }

  lemma NestedNone(base: seq<byte>, depth: nat)
    ensures Nested([], base, depth)
  {
  }

  lemma EntryIsDir(kids: seq<Node>, s: nat, i: nat)
    requires i < |kids|
    ensures KidEntry(kids, s, i).IsDir() <==> kids[i].Dir?
  {
  }

  lemma {:induction false} KidNested(kids: seq<Node>, s: nat, i: nat, path: seq<byte>, depth: nat)
    requires i < |kids|
    ensures Nested(KidVisits(kids, s, i, path, depth), path, depth)
    decreases kids, 0
  {
    hide KidEntry, Listing, Nested, KidSector;
    var v := Visit(KidEntry(kids, s, i), path + [SEPARATOR] + kids[i].name, depth);
    UnfoldKid(kids, s, i, path, depth);
    EntryIsDir(kids, s, i);
    if kids[i].Dir? {
      RangeNested(kids[i].kids, KidSector(kids, s, i), 0, |kids[i].kids| - 1, v.path, depth + 1);
      NestedBelow(v, Listing(kids[i].kids, KidSector(kids, s, i), v.path, depth + 1), path);
    } else {
      NestedOne(v, path);
      assert KidVisits(kids, s, i, path, depth) == [v];
    }
  }

  lemma {:induction false} RangeNested(kids: seq<Node>, s: nat, lo: int, hi: int, path: seq<byte>, depth: nat)
    requires 0 <= lo <= hi + 1 <= |kids|
    ensures Nested(RangeVisits(kids, s, lo, hi, path, depth), path, depth)
    ensures lo == 0 && hi == |kids| - 1 ==> Nested(Listing(kids, s, path, depth), path, depth)
    decreases kids, 1, hi - lo + 1
  {
    hide KidVisits, RangeVisits, Nested, Mid, InOrder;
    UnfoldVisits(kids, s, lo, hi, path, depth);
    if lo > hi {
      NestedNone(path, depth);
      UnfoldNoVisits(kids, s, lo, hi, path, depth);
    } else {
      var mid := Mid(lo, hi);
      KidNested(kids, s, mid, path, depth);
      RangeNested(kids, s, lo, mid - 1, path, depth);
      RangeNested(kids, s, mid + 1, hi, path, depth);
      NestedConcat(RangeVisits(kids, s, lo, mid - 1, path, depth), RangeVisits(kids, s, mid + 1, hi, path, depth), path,
                   depth);
      NestedConcat(KidVisits(kids, s, mid, path, depth),
                   RangeVisits(kids, s, lo, mid - 1, path, depth) + RangeVisits(kids, s, mid + 1, hi, path, depth),
                   path, depth);
    }
  }

  /** The path of every entry of a listing is that of the directory it is in, followed by a
      separator and its own name; entries of the root are at depth 0. */
  lemma ListingNested(kids: seq<Node>, s: nat)
    ensures Nested(Listing(kids, s, [], 0), [], 0)
  {
    hide Nested, Listing;
    RangeNested(kids, s, 0, |kids| - 1, [], 0);
  }

  // ---- The order of a walk ----

  /** The visits of child `i` all come before those of child `j`. */
  ghost predicate VisitedBefore(visits: seq<Visit>, kids: seq<Node>, s: nat, path: seq<byte>, depth: nat, i: nat,
                                j: nat)
    requires i < |kids| && j < |kids|
  {
    exists a, b, c ::
      visits == Around(a, KidVisits(kids, s, i, path, depth), b, KidVisits(kids, s, j, path, depth), c)
  }

  ghost function Around(a: seq<Visit>, x: seq<Visit>, b: seq<Visit>, y: seq<Visit>, c: seq<Visit>): seq<Visit> {
    a + x + b + y + c
  }

  lemma {:induction false} KidVisited(kids: seq<Node>, s: nat, lo: int, hi: int, path: seq<byte>, depth: nat, i: nat)
    returns (a: seq<Visit>, c: seq<Visit>)
    requires 0 <= lo <= i <= hi < |kids|
    ensures RangeVisits(kids, s, lo, hi, path, depth) == a + KidVisits(kids, s, i, path, depth) + c
    decreases hi - lo
  {
    hide KidVisits, RangeVisits, InOrder, Mid;
    UnfoldVisits(kids, s, lo, hi, path, depth);
    var mid := Mid(lo, hi);
    var kid := KidVisits(kids, s, mid, path, depth);
    var left := RangeVisits(kids, s, lo, mid - 1, path, depth);
    var right := RangeVisits(kids, s, mid + 1, hi, path, depth);
    var x := KidVisits(kids, s, i, path, depth);
    if i == mid {
      a, c := [], left + right;
      assert a + kid + c == kid + (left + right);
    } else if i < mid {
      var a', c' := KidVisited(kids, s, lo, mid - 1, path, depth, i);
      a, c := kid + a', c' + right;
      assert kid + ((a' + x + c') + right) == a + x + c;
    } else {
      var a', c' := KidVisited(kids, s, mid + 1, hi, path, depth, i);
      a, c := kid + left + a', c';
      assert kid + (left + (a' + x + c')) == a + x + c;
    }
  }

  lemma Wrapped(kid: seq<Visit>, left: seq<Visit>, right: seq<Visit>, a: seq<Visit>, x: seq<Visit>, b: seq<Visit>,
                y: seq<Visit>, c: seq<Visit>)
    ensures left == Around(a, x, b, y, c) ==> kid + (left + right) == Around(kid + a, x, b, y, c + right)
    ensures right == Around(a, x, b, y, c) ==> kid + (left + right) == Around(kid + left + a, x, b, y, c)
  {
  }

  lemma Joint(kid: seq<Visit>, left: seq<Visit>, right: seq<Visit>, a: seq<Visit>, x: seq<Visit>, b: seq<Visit>,
              a': seq<Visit>, y: seq<Visit>, c: seq<Visit>)
    ensures left == a + y + c ==> kid + (left + right) == Around([], kid, a, y, c + right)
    ensures right == a + y + c ==> kid + (left + right) == Around([], kid, left + a, y, c)
    ensures left == a + x + b && right == a' + y + c ==> kid + (left + right) == Around(kid + a, x, b + a', y, c)
  {
  }

  lemma {:induction false} PrefixVisited(kids: seq<Node>, s: nat, lo: int, hi: int, path: seq<byte>, depth: nat, i: nat,
                                         j: nat)
    requires 0 <= lo <= i <= hi < |kids| && lo <= j <= hi && PrefixBefore(lo, hi, i, j)
    ensures VisitedBefore(RangeVisits(kids, s, lo, hi, path, depth), kids, s, path, depth, i, j)
    decreases hi - lo
  {
    hide KidVisits, RangeVisits, InOrder, Mid, Around;
    UnfoldVisits(kids, s, lo, hi, path, depth);
    var mid := Mid(lo, hi);
    var kid := KidVisits(kids, s, mid, path, depth);
    var left := RangeVisits(kids, s, lo, mid - 1, path, depth);
    var right := RangeVisits(kids, s, mid + 1, hi, path, depth);
    var x, y := KidVisits(kids, s, i, path, depth), KidVisits(kids, s, j, path, depth);
    if i == mid && j < mid {
      var a, c := KidVisited(kids, s, lo, mid - 1, path, depth, j);
      Joint(kid, left, right, a, x, [], [], y, c);
    } else if i == mid {
      var a, c := KidVisited(kids, s, mid + 1, hi, path, depth, j);
      Joint(kid, left, right, a, x, [], [], y, c);
    } else if i < mid && j > mid {
      var a, b := KidVisited(kids, s, lo, mid - 1, path, depth, i);
      var a', c := KidVisited(kids, s, mid + 1, hi, path, depth, j);
      Joint(kid, left, right, a, x, b, a', y, c);
    } else if i < mid {
      PrefixVisited(kids, s, lo, mid - 1, path, depth, i, j);
      var a, b, c :| left == Around(a, x, b, y, c);
      Wrapped(kid, left, right, a, x, b, y, c);
    } else {
      PrefixVisited(kids, s, mid + 1, hi, path, depth, i, j);
      var a, b, c :| right == Around(a, x, b, y, c);
      Wrapped(kid, left, right, a, x, b, y, c);
    }
  }

  /** The entries of a directory are visited in the order of their records in its table, each with
      everything below it. */
  lemma VisitedInTableOrder(kids: seq<Node>, s: nat, path: seq<byte>, depth: nat, i: nat, j: nat)
    requires i < |kids| && j < |kids| && RecordOffset(Names(kids), i) < RecordOffset(Names(kids), j)
    ensures VisitedBefore(Listing(kids, s, path, depth), kids, s, path, depth, i, j)
  {
    hide RangeVisits, PrefixBefore, VisitedBefore, RecordOffset;
    PrefixTotal(0, |kids| - 1, i, j);
    if PrefixBefore(0, |kids| - 1, j, i) {
      RecordsAscend(Names(kids), j, i);
    }
    PrefixVisited(kids, s, 0, |kids| - 1, path, depth, i, j);
  }

  /** What is visited of one entry: itself, and behind it everything below it. */
  lemma KidVisitsStart(kids: seq<Node>, s: nat, i: nat, path: seq<byte>, depth: nat)
    requires i < |kids|
    ensures var visits, kid := KidVisits(kids, s, i, path, depth), kids[i];
      var v := visits[0];
      && visits != [] && v.depth == depth && v.path == path + [SEPARATOR] + kid.name
      && v.entry.name == kid.name && v.entry.attributes == (if kid.Dir? then 0x10 else 0x20)
      && visits[1..] == if kid.Dir? then Listing(kid.kids, KidSector(kids, s, i), v.path, depth + 1) else []
  {
    hide Listing, KidSector, SizeOf;
  }
}
