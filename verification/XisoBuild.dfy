/** The builder's tree and the two passes that fill in its fields (xiso.cpp: BuildNode,
    build_tree, calc_dir_size, assign_sectors). */
module XisoBuild {
  import opened Bytes
  import opened XisoLayout
  import opened XisoTree
  import opened XisoSort

  // ---- The builder's nodes ----

  /** A file or directory of the tree under construction. The name, the children and the
      host's data are fixed once the tree is built; the passes fill in the other fields. */
  class BuildNode {
    const name: Name
    const isDir: bool
    const children: seq<BuildNode>
    const data: seq<byte>
    var fileSize: nat
    var startSector: nat
    var recordOffset: nat
    ghost const tree: Node
    ghost const repr: set<BuildNode>

    /** The node and its children, each with nodes of its own, mirror `tree`. */
    ghost predicate Valid()
      decreases tree
    {
      && this in repr && name == tree.name && isDir == tree.Dir?
      && (tree.File? ==> children == [] && data == tree.data)
      && (tree.Dir? ==>
            && |children| == |tree.kids|
            && (forall i :: 0 <= i < |children| ==>
                  && children[i].tree == tree.kids[i]
                  && children[i] in children[i].repr && children[i].repr <= repr - {this}
                  && children[i].Valid())
            && (forall i, j :: 0 <= i < j < |children| ==> children[i].repr !! children[j].repr))
    }

    /** `nodes` mirror `kids`, have disjoint nodes below them, all in `within`. */
    static ghost predicate Mirrors(nodes: seq<BuildNode>, kids: seq<Node>, within: set<BuildNode>) {
      && |nodes| == |kids|
      && (forall i :: 0 <= i < |nodes| ==> nodes[i].tree == kids[i] && nodes[i].repr <= within && nodes[i].Valid())
      && (forall i, j :: 0 <= i < j < |nodes| ==> nodes[i].repr !! nodes[j].repr)
    }

    /** File sizes as the directory scan left them. */
    ghost predicate Scanned()
      requires Valid()
      reads repr`fileSize
      decreases tree
    {
      && (tree.File? ==> fileSize == FileSize(tree))
      && (tree.Dir? ==> forall i :: 0 <= i < |children| ==> children[i].Scanned())
    }

    /** The tree is laid out from sector `s`. The node's own record belongs to its parent. */
    ghost predicate Assigned(s: nat)
      requires Valid()
      reads repr`fileSize, repr`startSector, (repr - {this})`recordOffset
      decreases tree
    {
      && startSector == s && fileSize == SizeOf(tree)
      && (tree.Dir? ==>
            && OffsetsSet(children, tree.kids)
            && forall i :: 0 <= i < |children| ==> children[i].Assigned(KidSector(tree.kids, s, i)))
    }

    static ghost predicate OffsetsSet(nodes: seq<BuildNode>, kids: seq<Node>)
      requires |nodes| == |kids|
      reads nodes`recordOffset
    {
      forall i :: 0 <= i < |nodes| ==> nodes[i].recordOffset == RecordOffset(Names(kids), i)
    }

    constructor File(name: Name, size: nat, data: seq<byte>)
      ensures Valid() && Scanned() && fresh(repr) && tree == Node.File(name, size, data)
    {
      this.name, this.isDir, this.children, this.data := name, false, [], data;
      this.fileSize, this.startSector, this.recordOffset := size % 0x1_0000_0000, 0, 0;
      this.tree, this.repr := Node.File(name, size, data), {this};
    }

    constructor Dir(name: Name, children: seq<BuildNode>, ghost kids: seq<Node>, ghost within: set<BuildNode>)
      requires Mirrors(children, kids, within)
      requires forall i :: 0 <= i < |children| ==> children[i].Scanned()
      ensures Valid() && Scanned() && tree == Node.Dir(name, kids) && repr == {this} + within
    {
      this.name, this.isDir, this.children, this.data := name, true, children, [];
      this.fileSize, this.startSector, this.recordOffset := 0, 0, 0;
      this.tree, this.repr := Node.Dir(name, kids), {this} + within;
    }

    /** Lay out the records of `children[lo..hi]` in prefix order, the first at or after
        `cursor`; return the cursor behind the last one. */
    static method AssignOffsets(children: seq<BuildNode>, lo: int, hi: int, cursor: nat,
                                ghost names: seq<Name>, ghost c: Cursor)
      returns (end: nat)
      requires Range(names, lo, hi) && |children| == |names| && c.Valid() && cursor == c.Pos()
      requires forall i :: 0 <= i < |names| ==> children[i].name == names[i]
      requires forall i, j :: 0 <= i < j < |children| ==> children[i] != children[j]
      modifies children`recordOffset
      ensures end == EndOf(names, lo, hi, c).Pos()
      ensures forall i :: lo <= i <= hi ==> children[i].recordOffset == PlaceIn(names, lo, hi, c, i).Pos()
      ensures forall i :: 0 <= i < |children| && !(lo <= i <= hi) ==>
        children[i].recordOffset == old(children[i].recordOffset)
      decreases hi - lo + 1
    {
      hide RecordLength, Dwords, Mid, Cursor.Skip, Cursor.After, Cursor.Pos, Cursor.Valid;
      end := cursor;
      if lo <= hi {
        var mid := Mid(lo, hi);
        var n := children[mid];
        var rlen := RecordLength(n.name);
        SkipIs(cursor, c, names[mid]);
        var at := if (cursor + rlen) / 2048 > cursor / 2048 then (cursor / 2048 + 1) * 2048 else cursor;
        n.recordOffset := at;
        ghost var left := c.After(Dwords(names[mid]));
        end := AssignOffsets(children, lo, mid - 1, at + rlen, names, left);
        end := AssignOffsets(children, mid + 1, hi, end, names, EndOf(names, lo, mid - 1, left));
      }
    }

    /** Give every child its record offset; return the size of the table in bytes. */
    static method CalcDirSize(children: seq<BuildNode>, ghost kids: seq<Node>) returns (size: nat)
      requires |children| == |kids| && forall i :: 0 <= i < |kids| ==> children[i].name == kids[i].name
      requires forall i, j :: 0 <= i < j < |children| ==> children[i] != children[j]
      modifies children`recordOffset
      ensures size == TableSize(Names(kids))
      ensures OffsetsSet(children, kids)
    {
      hide TableSectors, RecordOffset, EndOf, PlaceIn, Cursor.Pos, Cursor.Sectors;
      ghost var names := Names(kids);
      if children == [] {
        TableSectorsPositive(names);
        size := 2048;
      } else {
        ghost var lo, hi, c := Whole(names);
        StartPos(c);
        LaidOut(names, lo, hi, c);
        var cursor := AssignOffsets(children, 0, |children| - 1, 0, names, c);
        RoundUp(EndOf(names, lo, hi, c));
        size := (cursor + 2047) / 2048 * 2048;
      }
    }

    /** The nodes of children `lo..hi`. */
    ghost function Below(lo: int, hi: int): (r: set<BuildNode>)
      requires Valid() && 0 <= lo <= hi + 1 <= |children|
      ensures r <= repr - {this}
      ensures forall i :: lo <= i <= hi ==> children[i].repr <= r
      ensures forall i :: 0 <= i < |children| && !(lo <= i <= hi) ==> children[i].repr !! r
    {
      set i, o | lo <= i <= hi && o in children[i].repr :: o
    }

    lemma KidsScanned()
      requires Valid() && isDir && Scanned()
      ensures forall i :: 0 <= i < |children| ==> children[i].Valid() && children[i].Scanned()
    {
    }

    lemma KidsDistinct()
      requires Valid() && isDir
      ensures |children| == |tree.kids| && forall i :: 0 <= i < |children| ==> children[i].name == tree.kids[i].name
      ensures forall i, j :: 0 <= i < j < |children| ==> children[i] != children[j]
      ensures tree.Dir? && this in repr
      ensures forall i :: 0 <= i < |children| ==> children[i] in repr - {this} && children[i].repr <= repr - {this}
    {
    }

    lemma KidsDisjoint()
      requires Valid() && isDir
      ensures forall i, j :: 0 <= i < |children| && 0 <= j < |children| && i != j ==>
        children[i].repr !! children[j].repr
    {
    }

    /** A directory is laid out once its own fields, its children's offsets and its
        children are. */
    lemma DirAssigned(s: nat)
      requires Valid() && isDir && startSector == s && fileSize == TableSize(Names(tree.kids))
      requires OffsetsSet(children, tree.kids)
      requires forall i :: 0 <= i < |children| ==> children[i].Assigned(KidSector(tree.kids, s, i))
      ensures Assigned(s)
    {
      hide KidSector, TableSize, RecordOffset;
    }

    /** Lay out this directory and everything below it from sector `next`; return the next
        free sector. */
    method AssignSectors(next: nat) returns (next': nat)
      requires Valid() && isDir && Scanned()
      modifies repr
      ensures Assigned(next)
      ensures next' == next + Span(tree)
      decreases tree, 1
    {
      hide KidSector, TableSize, RecordOffset, Valid, Assigned, Scanned, Span, Below, OffsetsSet;
      KidsDistinct();
      KidsRange(tree, next);
      var tableStart := next;
      next' := ReserveTable(next);
      next' := AssignKids(0, |children| - 1, next', next);
      FinishTable(tableStart);
    }

    /** Reserve the sectors of this directory's own table. */
    method ReserveTable(next: nat) returns (next': nat)
      requires Valid() && isDir && Scanned()
      modifies this`fileSize, this`startSector, children`recordOffset
      ensures next' == KidSector(tree.kids, next, 0)
      ensures forall i :: 0 <= i < |children| ==> children[i].Valid() && children[i].Scanned()
    {
      hide KidSector, TableSize, RecordOffset, Valid, Assigned, Scanned;
      KidsDistinct();
      KidsScanned();
      KidsRange(tree, next);
      fileSize := CalcDirSize(children, tree.kids);
      startSector := next;
      var dirSectors := (fileSize + 2047) / 2048;
      next' := next + dirSectors;
    }

    /** Record the table's place and size once the children have theirs. */
    method FinishTable(tableStart: nat)
      requires Valid() && isDir
      requires forall i :: 0 <= i < |children| ==> children[i].Assigned(KidSector(tree.kids, tableStart, i))
      modifies this`fileSize, this`startSector, children`recordOffset
      ensures Assigned(tableStart)
    {
      hide KidSector, TableSize, RecordOffset, Assigned;
      KidsDistinct();
      KidsDisjoint();
      startSector := tableStart;
      fileSize := CalcDirSize(children, tree.kids);
      DirAssigned(tableStart);
    }

    /** Compute the table size once more; the offsets it sets are the ones already there. */
    method RecalcDirSize(ghost s: nat) returns (size: nat)
      requires Valid() && isDir && Assigned(s)
      modifies children`recordOffset
      ensures Assigned(s) && size == TableSize(Names(tree.kids))
    {
      hide KidSector, TableSize, RecordOffset, Assigned;
      KidsDistinct();
      KidsDisjoint();
      KidsAssigned(s);
      size := CalcDirSize(children, tree.kids);
      DirAssigned(s);
    }

    lemma KidsAssigned(s: nat)
      requires Valid() && isDir && Assigned(s)
      ensures startSector == s && fileSize == TableSize(Names(tree.kids))
      ensures OffsetsSet(children, tree.kids)
      ensures forall i :: 0 <= i < |children| ==> children[i].Assigned(KidSector(tree.kids, s, i))
    {
    }

    /** Lay out the children `lo..hi` in index order, from sector `next` on. */
    method AssignKids(lo: int, hi: int, next: nat, ghost s: nat) returns (next': nat)
      requires Valid() && isDir && 0 <= lo <= hi + 1 <= |children| == |tree.kids|
      requires forall i :: lo <= i <= hi ==> children[i].Valid() && children[i].Scanned()
      requires next == KidSector(tree.kids, s, lo)
      modifies Below(lo, hi)
      ensures next' == KidSector(tree.kids, s, hi + 1)
      ensures forall i :: lo <= i <= hi ==> children[i].Assigned(KidSector(tree.kids, s, i))
      decreases tree, 0, hi - lo + 1
    {
      hide KidSector, Span, Mid, Assigned, Scanned, Valid;
      next' := next;
      if lo <= hi {
        var mid := Mid(lo, hi);
        KidsDisjoint();
        next' := AssignKids(lo, mid - 1, next', s);
        next' := AssignKid(mid, next', s);
        next' := AssignKids(mid + 1, hi, next', s);
      }
    }

    /** Lay out child `i`: a directory with everything below it, or a file's data. */
    method AssignKid(i: nat, next: nat, ghost s: nat) returns (next': nat)
      requires Valid() && isDir && i < |children| == |tree.kids|
      requires children[i].Valid() && children[i].Scanned()
      requires next == KidSector(tree.kids, s, i)
      modifies children[i].repr
      ensures children[i].Assigned(KidSector(tree.kids, s, i))
      ensures next' == KidSector(tree.kids, s, i + 1)
      decreases tree, 0, 0
    {
      hide KidSector;
      var child := children[i];
      KidSectorNext(tree.kids, s, i);
      child.startSector := next;
      if child.isDir {
        next' := child.AssignSectors(next);
      } else {
        var fsectors := (child.fileSize + 2047) / 2048;
        if fsectors == 0 {
          fsectors := 1;
        }
        next' := next + fsectors;
      }
    }
  }

  /** The children of a directory start behind its table and end where its span does. */
  lemma KidsRange(dir: Node, s: nat)
    requires dir.Dir?
    ensures (TableSize(Names(dir.kids)) + 2047) / 2048 == TableSectors(Names(dir.kids))
    ensures KidSector(dir.kids, s, 0) == s + TableSectors(Names(dir.kids))
    ensures KidSector(dir.kids, s, |dir.kids|) == s + Span(dir)
  {
  }

  lemma StartPos(c: Cursor)
    requires c.First()
    ensures c.Pos() <= 0 && c.Valid()
  {
  }

  lemma RoundUp(c: Cursor)
    requires c.Valid()
    ensures (c.Pos() + 2047) / 2048 * 2048 == 2048 * c.Sectors()
  {
    SkipArithmetic(c.sector, c.used, 0);
    if c.used > 0 {
      assert (2048 * c.sector + 4 * c.used + 2047) / 2048 == c.sector + 1;
    } else {
      assert (2048 * c.sector + 2047) / 2048 == c.sector;
    }
  }

  /** The builder's cursor arithmetic is the layout's. */
  lemma SkipIs(cursor: nat, c: Cursor, name: Name)
    requires c.Valid() && cursor == c.Pos()
    ensures var rlen, d := RecordLength(name), Dwords(name);
      var at := if (cursor + rlen) / 2048 > cursor / 2048 then (cursor / 2048 + 1) * 2048 else cursor;
      && at == c.Skip(d).Pos() && at + rlen == c.After(d).Pos() && c.After(d).Valid()
  {
    RecordLengthDwords(name);
    SkipArithmetic(c.sector, c.used, Dwords(name));
  }

  lemma SkipArithmetic(sector: nat, used: nat, d: nat)
    requires used < 512 && d < 512
    ensures (2048 * sector + 4 * used) / 2048 == sector
    ensures (2048 * sector + 4 * used + 4 * d) / 2048 == if used + d >= 512 then sector + 1 else sector
  {
  }

  // ---- Building the tree from the host directory ----

  /** Put a node into a place among sorted siblings that keeps them sorted. Names equal ignoring case
      may come in any order, as the library's sort leaves them. */
  method InsertNode(nodes: seq<BuildNode>, n: BuildNode, ghost kids: seq<Node>, ghost within: set<BuildNode>)
    returns (nodes': seq<BuildNode>, ghost kids': seq<Node>)
    requires BuildNode.Mirrors(nodes, kids, within) && n.Valid() && n.repr !! within && SortedKids(kids)
    ensures BuildNode.Mirrors(nodes', kids', within + n.repr) && SortedKids(kids')
    ensures exists p :: 0 <= p <= |kids| && kids' == kids[..p] + [n.tree] + kids[p..]
    ensures forall k :: 0 <= k < |nodes'| ==> nodes'[k] == n || nodes'[k] in nodes
  {
    hide CiLess, SortedKids, BuildNode.Mirrors;
    NamesMirrored(nodes, kids, within);
    var p := |nodes|;
    while p > 0 && CiLess(n.name, nodes[p - 1].name)
      invariant 0 <= p <= |nodes|
      invariant forall k :: p <= k < |nodes| ==> CiLess(n.name, kids[k].name)
    {
      p := p - 1;
    }
    FitsBehind(n.tree, kids, p);
    while *
      invariant 0 <= p <= |nodes| && FitsAt(n.tree, kids, p)
      decreases p
    {
      if p == 0 || CiLess(nodes[p - 1].name, n.name) {
        break;
      }
      p := p - 1;
    }
    nodes' := nodes[..p] + [n] + nodes[p..];
    kids' := kids[..p] + [n.tree] + kids[p..];
    PlacedSorted(n.tree, kids, p);
    PlacedMirrors(nodes, n, kids, within, p);
  }

  lemma NamesMirrored(nodes: seq<BuildNode>, kids: seq<Node>, within: set<BuildNode>)
    requires BuildNode.Mirrors(nodes, kids, within)
    ensures |nodes| == |kids| && forall k :: 0 <= k < |kids| ==> nodes[k].name == kids[k].name
  {
    forall k | 0 <= k < |kids| ensures nodes[k].name == kids[k].name {
      assert nodes[k].Valid();
    }
  }

  lemma PlacedMirrors(nodes: seq<BuildNode>, n: BuildNode, kids: seq<Node>, within: set<BuildNode>, p: nat)
    requires BuildNode.Mirrors(nodes, kids, within) && n.Valid() && n.repr !! within && p <= |nodes|
    ensures BuildNode.Mirrors(nodes[..p] + [n] + nodes[p..], kids[..p] + [n.tree] + kids[p..], within + n.repr)
    ensures forall m :: m in nodes[..p] + [n] + nodes[p..] ==> m == n || m in nodes
  {
    hide BuildNode.Valid;
  }

  /** Scan a host directory: every entry becomes a node, every directory's entries are sorted. */
  method BuildTree(src: Node) returns (node: BuildNode)
    ensures node.Valid() && node.Scanned() && fresh(node.repr)
    ensures SortedAs(src, node.tree)
    decreases src
  {
    hide CiLess, BuildNode.Scanned, SortedKids, Arranges, ArrangesKids, Sorted;
    if src.File? {
      node := new BuildNode.File(src.name, src.size, src.data);
      FileSorted(src);
    } else {
      var nodes: seq<BuildNode> := [];
      ghost var within: set<BuildNode>, kids: seq<Node> := {}, [];
      NothingArranged(src.kids);
      for i := 0 to |src.kids|
        invariant BuildNode.Mirrors(nodes, kids, within)
        invariant SortedKids(kids) && ArrangesKids(src.kids, i, kids)
        invariant forall k :: 0 <= k < |kids| ==> Sorted(kids[k])
        invariant forall k :: 0 <= k < |nodes| ==> nodes[k].Scanned()
        invariant fresh(within)
      {
        var child := BuildTree(src.kids[i]);
        ghost var before := kids;
        nodes, kids := InsertNode(nodes, child, before, within);
        ghost var p :| 0 <= p <= |before| && kids == before[..p] + [child.tree] + before[p..];
        PlacedArranges(src.kids, i, before, child.tree, p);
        within := within + child.repr;
      }
      node := new BuildNode.Dir(src.name, nodes, kids, within);
      DirSorted(src, kids);
    }
  }
}
