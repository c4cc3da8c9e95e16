/** Creating an image and reading it back. */
module XisoRoundTrip {
  import opened Bytes
  import opened Wrappers
  import opened XisoLayout
  import opened XisoTree
  import opened XisoTable
  import opened XisoDisc
  import opened XisoSort
  import opened XisoReader
  import opened XisoSearch
  import opened XisoSource
  import opened XisoPaths
  import opened XisoWriter

  /** A created image opens, and what it opens as holds the sorted source tree. */
  lemma CreatedHolds(root: Node, np: bool)
    requires Fits(root)
    ensures var disc := DiscImage(root.kids, np);
      var img := Image(disc, 0, ROOT_SECTOR, TableSize(Names(root.kids)));
      && Opened(disc) == Some(img)
      && Partition(img) == disc
      && Holds(disc, root, ROOT_SECTOR, np)
  {
    hide DiscImage, Opened, SectorsFit;
    CreatedOpens(root.kids, np);
    DiscHolds(root.kids, np);
    HoldsRenamed(DiscImage(root.kids, np), root, np);
  }

  lemma HoldsRenamed(disc: seq<byte>, root: Node, np: bool)
    requires root.Dir? && Holds(disc, Dir([0], root.kids), ROOT_SECTOR, np)
    ensures Holds(disc, root, ROOT_SECTOR, np)
  {
    hide TableBytes, KidSector;
  }

  /** What an image file shows that holds an image of the source at one of the probed offsets, with
      the entries of every directory in any order: opening, listing and extracting it gives back
      the source. */
  method ReadBack(file: seq<byte>, ghost src: Node, ghost root: Node, ghost np: bool, ghost k: nat)
    returns (visits: seq<Visit>, files: seq<(seq<byte>, seq<byte>)>)
    requires Arranges(src, root) && Fits(root) && k < |XGD_OFFSETS|
    requires At(file, XGD_OFFSETS[k], DiscImage(root.kids, np))
    requires forall j :: 0 <= j < k ==> !HasMagic(file, XGD_OFFSETS[j])
    ensures src.Dir?
    ensures Listed(visits) + Extracted(files) == FactsTo(src.kids, [], 0, np, |src.kids|)
    ensures np && Exact(src) ==> Listed(visits) + Extracted(files) == PlainFactsTo(src.kids, [], 0, |src.kids|)
    ensures Listed(visits) + Extracted(files) == NamedTo(src.kids, [], np, |src.kids|) && Nested(visits, [], 0)
    ensures np && Exact(src) ==> Listed(visits) + Extracted(files) == PlainNamedTo(src.kids, [], |src.kids|)
    ensures visits == Listing(root.kids, ROOT_SECTOR, [], 0)
    ensures files == SourceFiles(root.kids, 0, |root.kids| - 1, [], np)
  {
    hide DiscImage, Opened, Partition, Holds, Listing, SourceFiles, Arranges, SectorsFit, TableSize, FilesOf;
    hide Listed, Extracted, FactsTo, PlainFactsTo, HasMagic, NamedTo, PlainNamedTo, Nested;
    ArrangedName(src, root);
    EmbeddedOpens(file, k, root.kids, np);
    var result := Open(file);
    var img := result.value;
    EmbeddedHolds(img, root, np);
    visits := Walk(img, img.rootSector, img.rootSize, [], 0, root, np);
    files := Extract(img, root, np);
    ExtractedFiles(img, root, ROOT_SECTOR, np);
    SourceShown(src, root, ROOT_SECTOR, np);
    if np && Exact(src) {
      ExactFactsTo(src.kids, [], 0, |src.kids|);
    }
    FactsNamedTo(src.kids, [], np, |src.kids|);
    PlainFactsNamedTo(src.kids, [], |src.kids|);
    ListingNested(root.kids, ROOT_SECTOR);
  }

  lemma EmbeddedHolds(img: Image, root: Node, np: bool)
    requires Fits(root) && At(img.bytes, img.baseOffset, DiscImage(root.kids, np))
    ensures Holds(Partition(img), root, ROOT_SECTOR, np)
  {
    hide DiscImage, SectorsFit, Holds, Opened;
    var disc := DiscImage(root.kids, np);
    CreatedHolds(root, np);
    StartsWith(img.bytes, img.baseOffset, disc);
    HoldsAfter(disc, Partition(img), 0, root, ROOT_SECTOR, np);
  }

  lemma StartsWith(file: seq<byte>, base: nat, disc: seq<byte>)
    requires At(file, base, disc)
    ensures base <= |file| && |disc| <= |file[base..]|
    ensures forall p :: 0 <= p < |disc| ==> disc[p] == file[base..][p]
  {
    forall p | 0 <= p < |disc|
      ensures disc[p] == file[base..][p]
    {
      assert file[base..base + |disc|][p] == file[base + p];
    }
  }

  /** Creating an image from any directory within the format's limits, opening it, listing
      it and extracting it gives back the source: the listing shows every entry of the source
      once with depth, kind, size and the names from the root as its path, and the extraction
      the bytes written for every file. Without patching, and with files whose sizes fit, these
      are the source's bytes. */
  method RoundTrip(src: Node, noMediaEnable: bool)
    returns (visits: seq<Visit>, files: seq<(seq<byte>, seq<byte>)>, ghost root: Node)
    requires Fits(SortTree(src))
    ensures src.Dir? && SortedAs(src, root) && root.Dir?
    ensures Listed(visits) + Extracted(files) == FactsTo(src.kids, [], 0, noMediaEnable, |src.kids|)
    ensures noMediaEnable && Exact(src) ==>
      Listed(visits) + Extracted(files) == PlainFactsTo(src.kids, [], 0, |src.kids|)
    ensures Listed(visits) + Extracted(files) == NamedTo(src.kids, [], noMediaEnable, |src.kids|)
    ensures noMediaEnable && Exact(src) ==>
      Listed(visits) + Extracted(files) == PlainNamedTo(src.kids, [], |src.kids|)
    ensures Nested(visits, [], 0)
    ensures visits == Listing(root.kids, ROOT_SECTOR, [], 0)
    ensures files == SourceFiles(root.kids, 0, |root.kids| - 1, [], noMediaEnable)
  {
    hide DiscImage, Holds, Listing, SourceFiles, SortTree, Listed, Extracted, FactsTo, PlainFactsTo, HasMagic;
    hide SmallTables, SectorsFit, Arranges, Sorted, NamedTo, PlainNamedTo, Nested;
    var disc;
    disc, root := Create(src, noMediaEnable);
    visits, files := ReadBack(disc, src, root, noMediaEnable, 0);
  }

  // ---- Searching a created image ----

  /** `dir` is the directory `n` laid out from sector `s`, or one below it laid out from `at`. */
  ghost predicate HasDir(n: Node, s: nat, dir: Node, at: nat)
    decreases n
  {
    n.Dir? && ((dir == n && at == s)
               || exists i :: 0 <= i < |n.kids| && HasDir(n.kids[i], KidSector(n.kids, s, i), dir, at))
  }

  /** A directory of a held, sorted tree is held, sorted and small enough itself. */
  lemma {:induction false} HeldDir(img: seq<byte>, n: Node, s: nat, np: bool, dir: Node, at: nat)
    requires HasDir(n, s, dir, at) && Holds(img, n, s, np) && Sorted(n) && SmallTables(n)
    requires n.Dir? ==> SectorsFit(n.kids, s)
    ensures dir.Dir? && Holds(img, dir, at, np) && Sorted(dir) && SmallTables(dir) && SectorsFit(dir.kids, at)
    decreases n
  {
    hide KidSector, TableBytes, SectorsFit, TableSize, Content, SortedKids;
    if dir == n && at == s {
    } else {
      var i :| 0 <= i < |n.kids| && HasDir(n.kids[i], KidSector(n.kids, s, i), dir, at);
      KidFits(n.kids, s, i);
      HeldDir(img, n.kids[i], KidSector(n.kids, s, i), np, dir, at);
    }
  }

  /** On the image of any sorted tree, the table read for any directory whose names differ by more
      than case is a balanced search tree for exactly these names. */
  lemma CreatedSearchTree(root: Node, np: bool, dir: Node, at: nat, key: seq<byte>)
    requires Fits(root) && Sorted(root) && HasDir(root, ROOT_SECTOR, dir, at)
    requires dir.Dir? && dir.kids != [] && DistinctNames(dir.kids)
    ensures at < 0x1_0000_0000 && TableSize(Names(dir.kids)) <= MAX_TABLE
    ensures Opened(DiscImage(root.kids, np)).Some?
    ensures var img := Opened(DiscImage(root.kids, np)).value;
      Searches(ReadDirtable(img, at, TableSize(Names(dir.kids))), dir.kids, key)
  {
    hide DiscImage, Opened, Partition, TableSize, TableBytes, ReadDirtable, Searches, DistinctNames, HasDir;
    hide KidSector, StrictlySorted, SortedKids, TableHolds;
    CreatedHolds(root, np);
    var img := Opened(DiscImage(root.kids, np)).value;
    HeldDir(Partition(img), root, ROOT_SECTOR, np, dir, at);
    DirtableReads(img, dir.kids, at);
    DistinctStrictlySorted(dir.kids);
    SearchTree(dir.kids, at, key);
  }
}
