/** The FAT32 image builder: geometry, allocation and cluster contents (boot/nova_vm.py). */
module FatImage {
  import opened Wrappers

  const SECTOR_SIZE := 512
  const CLUSTER_SIZE := 4096
  const SECTORS_PER_CLUSTER := 8
  const RESERVED_SECTORS := 32
  const FAT_COUNT := 2
  const FAT_EOC := 0x0FFF_FFFF

  type Bytes = seq<bv8>

  /* ---------- geometry ---------- */

  function TotalSectors(sizeMb: int): int {
    sizeMb * 1024 * 1024 / SECTOR_SIZE
  }

  function SectorsPerFat(sizeMb: int): int {
    var sectors := ((TotalSectors(sizeMb) - RESERVED_SECTORS) * 4 + SECTOR_SIZE - 1) / SECTOR_SIZE;
    if sectors < 1 then 1 else sectors
  }

  function FirstDataSector(sizeMb: int): int {
    RESERVED_SECTORS + FAT_COUNT * SectorsPerFat(sizeMb)
  }

  function TotalClusters(sizeMb: int): int {
    (TotalSectors(sizeMb) - FirstDataSector(sizeMb)) / SECTORS_PER_CLUSTER
  }

  function ClusterToSector(sizeMb: int, cluster: int): int {
    FirstDataSector(sizeMb) + (cluster - 2) * SECTORS_PER_CLUSTER
  }

  /** The table is big enough for its two reserved entries exactly for positive sizes. */
  lemma {:induction false} GeometryIsPossibleIff(sizeMb: int)
    ensures TotalClusters(sizeMb) + 2 >= 2 <==> sizeMb >= 1
  {
    assert TotalSectors(sizeMb) == 2048 * sizeMb;
  }

  /** Each copy of the table fits the sectors set aside for it. */
  lemma {:induction false} TableFits(sizeMb: int)
    requires sizeMb >= 1
    ensures 4 * (TotalClusters(sizeMb) + 2) <= SectorsPerFat(sizeMb) * SECTOR_SIZE
    ensures RESERVED_SECTORS + FAT_COUNT * SectorsPerFat(sizeMb) <= FirstDataSector(sizeMb) <= TotalSectors(sizeMb)
  {
    assert TotalSectors(sizeMb) == 2048 * sizeMb;
  }

  /** The sectors of a cluster lie between the tables and the end, and clusters do not share any. */
  lemma {:induction false} ClustersAreDisjoint(sizeMb: int, c: int, d: int)
    requires sizeMb >= 1 && 2 <= c < TotalClusters(sizeMb) + 2 && 2 <= d < TotalClusters(sizeMb) + 2
    ensures FirstDataSector(sizeMb) <= ClusterToSector(sizeMb, c)
    ensures ClusterToSector(sizeMb, c) + SECTORS_PER_CLUSTER <= TotalSectors(sizeMb)
    ensures c < d ==> ClusterToSector(sizeMb, c) + SECTORS_PER_CLUSTER <= ClusterToSector(sizeMb, d)
    ensures c == 2 ==> ClusterToSector(sizeMb, c) == 32 + 2 * SectorsPerFat(sizeMb)
    ensures d == c + 1 ==> ClusterToSector(sizeMb, d) == ClusterToSector(sizeMb, c) + 8
  {
  }

  /** A cluster number can be mistaken for the end of a chain only in images of over a million megabytes. */
  lemma {:induction false} LinksAreBelowEndIff(sizeMb: int)
    requires sizeMb >= 1
    ensures TotalClusters(sizeMb) + 2 <= FAT_EOC <==> sizeMb <= 1_065_220
  {
    assert TotalSectors(sizeMb) == 2048 * sizeMb;
  }

  /* ---------- allocation ---------- */

  /** A file starts at a cluster, or nowhere if it is empty. */
  datatype File = File(start: nat, data: Bytes)

  datatype Disk = Disk(fat: seq<nat>, next: nat, files: map<string, File>)

  function ClustersNeeded(n: nat): nat {
    (n + CLUSTER_SIZE - 1) / CLUSTER_SIZE
  }

  /** The table with clusters start, start + 1, ... chained up as far as it reaches. */
  function Linked(fat: seq<nat>, start: nat, n: nat): (linked: seq<nat>)
    ensures |linked| == |fat|
  {
    seq(|fat|, c requires 0 <= c < |fat| =>
      if start <= c < start + n - 1 then c + 1 else if c == start + n - 1 && n > 0 then FAT_EOC else fat[c])
  }

  predicate Fits(d: Disk, n: nat) {
    d.next + n <= |d.fat|
  }

  /** Allocating n clusters; if they do not fit, the table is left with a chain that has no end. */
  function Alloc(d: Disk, n: nat): Disk {
    var next := if Fits(d, n) then d.next + n else (if d.next <= |d.fat| then |d.fat| else d.next) + 1;
    d.(fat := Linked(d.fat, d.next, n), next := next)
  }

  function AddFile(d: Disk, path: string, data: Bytes): Disk {
    if data == [] then d.(files := d.files[path := File(FAT_EOC, [])])
    else
      var n := ClustersNeeded(|data|);
      var e := Alloc(d, n);
      if Fits(d, n) then e.(files := e.files[path := File(d.next, data)]) else e
  }

  function Empty(entries: nat): Disk
    requires entries >= 2
  {
    Disk([0x0FFF_FFF8, FAT_EOC] + seq(entries - 2, _ => 0), 2, map[])
  }

  datatype Addition = Addition(path: string, data: Bytes)

  function AddAll(d: Disk, items: seq<Addition>): Disk {
    if items == [] then d
    else
      var last := items[|items| - 1];
      AddFile(AddAll(d, items[..|items| - 1]), last.path, last.data)
  }

  /* ---------- chains ---------- */

  predicate LinksTo(fat: seq<nat>, chain: seq<nat>, i: nat)
    requires i + 1 < |chain| && chain[i] < |fat|
  {
    fat[chain[i]] == chain[i + 1] < FAT_EOC
  }

  /** Walking the table from a cluster visits the chain and meets the end marker right after it. */
  ghost predicate IsChain(fat: seq<nat>, start: nat, chain: seq<nat>) {
    && |chain| > 0 && chain[0] == start
    && (forall i | 0 <= i < |chain| :: chain[i] < |fat|)
    && (forall i | 0 <= i < |chain| - 1 :: LinksTo(fat, chain, i))
    && fat[chain[|chain| - 1]] >= FAT_EOC
  }

  function Range(start: nat, n: nat): (r: seq<nat>)
    ensures |r| == n && forall i | 0 <= i < n :: r[i] == start + i
  {
    seq(n, i requires 0 <= i => start + i)
  }

  lemma {:induction false} ChainsAgree(fat: seq<nat>, start: nat, chain: seq<nat>, other: seq<nat>, n: nat)
    requires IsChain(fat, start, chain) && IsChain(fat, start, other) && n <= |chain|
    ensures n <= |other| && chain[..n] == other[..n]
    decreases n
  {
    if n > 0 {
      ChainsAgree(fat, start, chain, other, n - 1);
      if n >= 2 {
        assert chain[n - 2] == chain[..n - 1][n - 2] == other[n - 2];
        assert LinksTo(fat, chain, n - 2);
        if n - 1 < |other| {
          assert LinksTo(fat, other, n - 2);
        }
      }
    }
  }

  /** A cluster starts at most one chain. */
  lemma {:induction false} ChainIsUnique(fat: seq<nat>, start: nat, chain: seq<nat>, other: seq<nat>)
    requires IsChain(fat, start, chain) && IsChain(fat, start, other)
    ensures chain == other
  {
    ChainsAgree(fat, start, chain, other, |chain|);
    ChainsAgree(fat, start, other, chain, |other|);
    assert chain[..|chain|] == chain && other[..|other|] == other;
  }

  predicate HasLinks(fat: seq<nat>, start: nat, n: nat) {
    && n > 0 && start + n <= |fat| && fat[start + n - 1] == FAT_EOC
    && forall c | start <= c < start + n - 1 :: fat[c] == c + 1
  }

  /** An allocated run of clusters is a chain exactly when none of its links looks like the end marker. */
  lemma {:induction false} LinksMakeChainIff(fat: seq<nat>, start: nat, n: nat)
    requires HasLinks(fat, start, n)
    ensures IsChain(fat, start, Range(start, n)) <==> n == 1 || start + n - 1 < FAT_EOC
  {
    var chain := Range(start, n);
    if n > 1 && IsChain(fat, start, chain) {
      assert LinksTo(fat, chain, n - 2);
    }
  }

  /* ---------- every sequence of additions ---------- */

  predicate Placed(d: Disk, f: File) {
    && 2 <= f.start && f.start + ClustersNeeded(|f.data|) <= d.next
    && HasLinks(d.fat, f.start, ClustersNeeded(|f.data|))
  }

  predicate Apart(f: File, g: File) {
    f.start + ClustersNeeded(|f.data|) <= g.start || g.start + ClustersNeeded(|g.data|) <= f.start
  }

  ghost predicate Layout(d: Disk) {
    && |d.fat| >= 2 && d.next >= 2 && d.fat[0] == 0x0FFF_FFF8 && d.fat[1] == 0x0FFF_FFFF
    && (forall p <- d.files :: if d.files[p].data == [] then d.files[p].start == FAT_EOC else Placed(d, d.files[p]))
    && (forall p, q | p in d.files && q in d.files && p != q ::
      d.files[p].data == [] || d.files[q].data == [] || Apart(d.files[p], d.files[q]))
    && forall c | d.next <= c < |d.fat| :: d.fat[c] == 0
  }

  lemma {:induction false} AllocKeepsPlaces(d: Disk, n: nat, f: File)
    requires Placed(d, f)
    ensures Placed(Alloc(d, n), f)
  {
    var e := Alloc(d, n);
    assert forall c: nat | c < d.next && c < |d.fat| :: e.fat[c] == d.fat[c];
  }

  lemma {:induction false} AddKeepsLayout(d: Disk, path: string, data: Bytes)
    requires Layout(d)
    ensures Layout(AddFile(d, path, data))
  {
    if data != [] {
      var n := ClustersNeeded(|data|);
      var e := AddFile(d, path, data);
      forall p | p in e.files && e.files[p].data != []
        ensures Placed(e, e.files[p])
        ensures p == path || !Fits(d, n) || e.files[p].start + ClustersNeeded(|e.files[p].data|) <= d.next
      {
        if p in d.files && d.files[p] == e.files[p] {
          AllocKeepsPlaces(d, n, d.files[p]);
        }
      }
    }
  }

  lemma {:induction false} AdditionsKeepLayout(entries: nat, items: seq<Addition>)
    requires entries >= 2
    ensures Layout(AddAll(Empty(entries), items)) && |AddAll(Empty(entries), items).fat| == entries
    decreases items
  {
    if items != [] {
      var front, last := items[..|items| - 1], items[|items| - 1];
      AdditionsKeepLayout(entries, front);
      AddKeepsLayout(AddAll(Empty(entries), front), last.path, last.data);
    }
  }

  predicate SmallEnough(d: Disk) {
    |d.fat| <= FAT_EOC
  }

  /** After any additions, a file's chain has just the clusters its data needs, and none of another file's. */
  lemma {:induction false} FilesHaveOwnChains(entries: nat, items: seq<Addition>, p: string, chain: seq<nat>)
    requires 2 <= entries <= FAT_EOC
    requires var d := AddAll(Empty(entries), items); p in d.files && d.files[p].data != []
    ensures var d := AddAll(Empty(entries), items);
      && (IsChain(d.fat, d.files[p].start, chain)
          <==> chain == Range(d.files[p].start, ClustersNeeded(|d.files[p].data|)))
      && forall q, other | q in d.files && q != p && d.files[q].data != [] && IsChain(d.fat, d.files[q].start, other) ::
           IsChain(d.fat, d.files[p].start, chain) ==> forall c <- chain :: c !in other
  {
    AdditionsKeepLayout(entries, items);
    var d := AddAll(Empty(entries), items);
    ChainIsRange(d, p, chain);
    forall q, other | q in d.files && q != p && d.files[q].data != [] && IsChain(d.fat, d.files[q].start, other)
      ensures IsChain(d.fat, d.files[p].start, chain) ==> forall c <- chain :: c !in other
    {
      ChainIsRange(d, q, other);
      assert Apart(d.files[p], d.files[q]);
    }
  }

  lemma {:induction false} ChainIsRange(d: Disk, p: string, chain: seq<nat>)
    requires Layout(d) && SmallEnough(d) && p in d.files && d.files[p].data != []
    ensures IsChain(d.fat, d.files[p].start, chain)
      <==> chain == Range(d.files[p].start, ClustersNeeded(|d.files[p].data|))
  {
    var f := d.files[p];
    var range := Range(f.start, ClustersNeeded(|f.data|));
    LinksMakeChainIff(d.fat, f.start, ClustersNeeded(|f.data|));
    if IsChain(d.fat, f.start, chain) {
      ChainIsUnique(d.fat, f.start, chain, range);
    }
  }

  function ClustersOf(items: seq<Addition>): nat {
    if items == [] then 0
    else ClustersOf(items[..|items| - 1]) + ClustersNeeded(|items[|items| - 1].data|)
  }

  /** No addition runs out of clusters exactly when all the data together fits; a later path may replace an earlier. */
  lemma {:induction false} AdditionsFitIff(entries: nat, items: seq<Addition>)
    requires entries >= 2
    ensures |AddAll(Empty(entries), items).fat| == entries
    ensures var d := AddAll(Empty(entries), items);
      if 2 + ClustersOf(items) <= entries then d.next == 2 + ClustersOf(items) && forall a <- items :: a.path in d.files
      else d.next > entries
    decreases items
  {
    if items != [] {
      var front, last := items[..|items| - 1], items[|items| - 1];
      AdditionsFitIff(entries, front);
      assert items == front + [last];
    }
  }

  /* ---------- what the table of files says ---------- */

  /** The k-th addition takes effect: it is empty or finds its clusters. */
  predicate Recorded(entries: nat, items: seq<Addition>, k: nat)
    requires entries >= 2 && k < |items|
  {
    items[k].data == [] || Fits(AddAll(Empty(entries), items[..k]), ClustersNeeded(|items[k].data|))
  }

  /** The k-th addition is the last of the first n that took effect for the path. */
  predicate LastRecorded(entries: nat, items: seq<Addition>, n: nat, p: string, k: nat)
    requires entries >= 2 && n <= |items|
  {
    && k < n && items[k].path == p && Recorded(entries, items, k)
    && forall m | k < m < n && items[m].path == p :: !Recorded(entries, items, m)
  }

  /** The file the k-th addition makes. */
  function FileOf(entries: nat, items: seq<Addition>, k: nat): File
    requires entries >= 2 && k < |items|
  {
    if items[k].data == [] then File(FAT_EOC, []) else File(AddAll(Empty(entries), items[..k]).next, items[k].data)
  }

  /** An addition that takes effect gives its path its file and leaves the other paths as they are. */
  lemma {:induction false} AdditionTakesEffect(entries: nat, items: seq<Addition>, n: nat, p: string)
    requires entries >= 2 && n < |items|
    ensures var before, after := AddAll(Empty(entries), items[..n]).files, AddAll(Empty(entries), items[..n + 1]).files;
      if items[n].path == p && Recorded(entries, items, n) then p in after && after[p] == FileOf(entries, items, n)
      else (p in after <==> p in before) && (p in after ==> after[p] == before[p])
  {
    assert items[..n + 1][..n] == items[..n] && items[..n + 1][n] == items[n];
  }

  lemma {:induction false} LastOfOneMore(entries: nat, items: seq<Addition>, n: nat, p: string, k: nat)
    requires entries >= 2 && n < |items| && k <= n
    ensures LastRecorded(entries, items, n + 1, p, k) <==>
      if items[n].path == p && Recorded(entries, items, n) then k == n
      else LastRecorded(entries, items, n, p, k)
  {
  }

  /** A path stands for the last addition that took effect for it, at the clusters that were next then. */
  lemma {:induction false} FilesAreLastRecorded(entries: nat, items: seq<Addition>, n: nat, p: string)
    requires entries >= 2 && n <= |items|
    ensures var files := AddAll(Empty(entries), items[..n]).files;
      && (p in files <==> exists k :: 0 <= k < n && LastRecorded(entries, items, n, p, k))
      && forall k | 0 <= k < n && LastRecorded(entries, items, n, p, k) ::
           p in files && files[p] == FileOf(entries, items, k)
    decreases n
  {
    if n > 0 {
      FilesAreLastRecorded(entries, items, n - 1, p);
      AdditionTakesEffect(entries, items, n - 1, p);
      forall k: nat | k < n
        ensures LastRecorded(entries, items, n, p, k) <==>
          if items[n - 1].path == p && Recorded(entries, items, n - 1) then k == n - 1
          else LastRecorded(entries, items, n - 1, p, k)
      {
        LastOfOneMore(entries, items, n - 1, p, k);
      }
      if items[n - 1].path == p && Recorded(entries, items, n - 1) {
        assert LastRecorded(entries, items, n, p, n - 1);
      } else if p in AddAll(Empty(entries), items[..n - 1]).files {
        var k :| 0 <= k < n - 1 && LastRecorded(entries, items, n - 1, p, k);
        assert LastRecorded(entries, items, n, p, k);
      }
    }
  }

  /** No cluster is taken, so that the root directory has cluster 2 to itself, exactly if no addition has data. */
  lemma {:induction false} RootClusterIsFreeIff(entries: nat, items: seq<Addition>)
    requires entries >= 2
    ensures AddAll(Empty(entries), items).next == 2 <==> forall a <- items :: a.data == []
    ensures AddAll(Empty(entries), items).next >= 2
    decreases items
  {
    if items != [] {
      var front, last := items[..|items| - 1], items[|items| - 1];
      RootClusterIsFreeIff(entries, front);
      assert items == front + [last];
    }
  }

  /**
   The file at cluster 2, where the root directory is written too, is the first addition with data: a path
   starts there exactly if that addition was to it, fitted, and no later addition to the path took effect.
   */
  lemma {:induction false} FileAtRootClusterIff(entries: nat, items: seq<Addition>, p: string)
    requires entries >= 2
    ensures var files := AddAll(Empty(entries), items).files;
      p in files && files[p].start == 2 <==> exists k ::
        0 <= k < |items| && LastRecorded(entries, items, |items|, p, k) && items[k].data != []
        && forall a <- items[..k] :: a.data == []
  {
    FilesAreLastRecorded(entries, items, |items|, p);
    assert items[..|items|] == items;
    forall k | 0 <= k < |items|
      ensures FileOf(entries, items, k).start == 2 <==> items[k].data != [] && forall a <- items[..k] :: a.data == []
    {
      RootClusterIsFreeIff(entries, items[..k]);
    }
  }

  /* ---------- contents ---------- */

  /** What each cluster holds. */
  type Contents = map<nat, Bytes>

  function Chunk(data: Bytes, offset: nat): Bytes {
    if offset >= |data| then []
    else if offset + CLUSTER_SIZE <= |data| then data[offset..offset + CLUSTER_SIZE]
    else data[offset..]
  }

  function Padded(chunk: Bytes): (padded: Bytes)
    requires |chunk| <= CLUSTER_SIZE
    ensures |padded| == CLUSTER_SIZE && padded[..|chunk|] == chunk
  {
    chunk + seq(CLUSTER_SIZE - |chunk|, _ => 0)
  }

  /** Reading a file of n bytes: follow the table from a cluster, taking what each one holds. */
  function Read(fat: seq<nat>, contents: Contents, cluster: nat, n: nat): Option<Bytes>
    decreases n
  {
    if n == 0 then Some([])
    else if cluster !in contents || |contents[cluster]| != CLUSTER_SIZE then None
    else if n <= CLUSTER_SIZE then Some(contents[cluster][..n])
    else if cluster >= |fat| || fat[cluster] >= FAT_EOC then None
    else
      var rest := Read(fat, contents, fat[cluster], n - CLUSTER_SIZE);
      if rest.None? then None else Some(contents[cluster] + rest.value)
  }

  /** The clusters from start on hold the data from the offset on, chunk by chunk. */
  predicate Holds(contents: Contents, start: nat, data: Bytes, k: nat) {
    forall i: nat | i < k :: HoldsChunk(contents, start, data, i)
  }

  predicate HoldsChunk(contents: Contents, start: nat, data: Bytes, i: nat) {
    start + i in contents && contents[start + i] == Padded(Chunk(data, i * CLUSTER_SIZE))
  }

  lemma {:induction false} ReadFrom(fat: seq<nat>, contents: Contents, f: File, i: nat)
    requires HasLinks(fat, f.start, ClustersNeeded(|f.data|)) && |fat| <= FAT_EOC
    requires Holds(contents, f.start, f.data, ClustersNeeded(|f.data|)) && i * CLUSTER_SIZE < |f.data|
    ensures Read(fat, contents, f.start + i, |f.data| - i * CLUSTER_SIZE) == Some(f.data[i * CLUSTER_SIZE..])
    decreases |f.data| - i * CLUSTER_SIZE
  {
    var offset := i * CLUSTER_SIZE;
    assert i < ClustersNeeded(|f.data|);
    var c := f.start + i;
    assert HoldsChunk(contents, f.start, f.data, i);
    if |f.data| - offset > CLUSTER_SIZE {
      assert (i + 1) * CLUSTER_SIZE == offset + CLUSTER_SIZE;
      assert fat[c] == c + 1;
      assert contents[c] == contents[c][..CLUSTER_SIZE] == Chunk(f.data, offset);
      ReadFrom(fat, contents, f, i + 1);
      assert f.data[offset..] == f.data[offset..offset + CLUSTER_SIZE] + f.data[offset + CLUSTER_SIZE..];
    } else {
      assert Chunk(f.data, offset) == f.data[offset..];
    }
  }

  /** Every placed file's data stands in the clusters of its chain. */
  ghost predicate Written(d: Disk, contents: Contents, paths: set<string>) {
    forall p <- paths ::
      p in d.files && Holds(contents, d.files[p].start, d.files[p].data, ClustersNeeded(|d.files[p].data|))
  }

  lemma {:induction false} FileReadsBack(d: Disk, contents: Contents, p: string)
    requires Layout(d) && SmallEnough(d) && p in d.files && Written(d, contents, {p})
    ensures Read(d.fat, contents, d.files[p].start, |d.files[p].data|) == Some(d.files[p].data)
  {
    var f := d.files[p];
    if f.data != [] {
      ReadFrom(d.fat, contents, f, 0);
      assert f.data[0..] == f.data;
    }
  }

  predicate Elsewhere(f: File, before: Contents, after: Contents) {
    forall c <- before :: c < f.start || f.start + ClustersNeeded(|f.data|) <= c ==> c in after && after[c] == before[c]
  }

  lemma {:induction false} OneMoreChunk(before: Contents, after: Contents, f: File, i: nat)
    requires Holds(before, f.start, f.data, i)
    requires after == before[f.start + i := Padded(Chunk(f.data, i * CLUSTER_SIZE))]
    ensures Holds(after, f.start, f.data, i + 1)
  {
    forall j: nat | j < i + 1
      ensures HoldsChunk(after, f.start, f.data, j)
    {
      if j < i {
        assert HoldsChunk(before, f.start, f.data, j);
      }
    }
  }

  lemma {:induction false} OtherFileStays(f: File, g: File, before: Contents, after: Contents)
    requires Apart(f, g) && Elsewhere(g, before, after)
    requires Holds(before, f.start, f.data, ClustersNeeded(|f.data|))
    ensures Holds(after, f.start, f.data, ClustersNeeded(|f.data|))
  {
    forall i: nat | i < ClustersNeeded(|f.data|)
      ensures HoldsChunk(after, f.start, f.data, i)
    {
      assert HoldsChunk(before, f.start, f.data, i);
    }
  }

  lemma {:induction false} OneMoreWritten(d: Disk, before: Contents, after: Contents, done: set<string>, p: string)
    requires Layout(d) && Written(d, before, done) && p in d.files && p !in done
    requires Elsewhere(d.files[p], before, after)
    requires Holds(after, d.files[p].start, d.files[p].data, ClustersNeeded(|d.files[p].data|))
    requires d.files[p].data == [] ==> after == before
    ensures Written(d, after, done + {p})
  {
    forall q | q in done
      ensures Holds(after, d.files[q].start, d.files[q].data, ClustersNeeded(|d.files[q].data|))
    {
      if d.files[p].data != [] && d.files[q].data != [] {
        OtherFileStays(d.files[q], d.files[p], before, after);
      }
    }
  }

  /* ---------- the raw image ---------- */

  /** Assigning to a slice of a growable byte array replaces the slice, whatever its length. */
  function SliceAssigned(img: Bytes, lo: nat, hi: nat, chunk: Bytes): Bytes {
    var from := if lo <= |img| then lo else |img|;
    var to := if hi < from then from else if hi <= |img| then hi else |img|;
    img[..from] + chunk + img[to..]
  }

  /**
   Clusters are written to a slice that ends at 4096 * (sector + 1) instead of 4096 bytes on, so that the
   image keeps its length exactly when the cluster ends it, and otherwise loses what comes behind.
   */
  lemma {:induction false} ImageKeepsLengthIff(sizeMb: int, img: Bytes, cluster: int, chunk: Bytes)
    requires sizeMb >= 1 && |img| == TotalSectors(sizeMb) * SECTOR_SIZE && |chunk| == CLUSTER_SIZE
    requires 2 <= cluster < TotalClusters(sizeMb) + 2
    ensures var sector := ClusterToSector(sizeMb, cluster);
      var after := SliceAssigned(img, sector * SECTOR_SIZE, (sector + 1) * SECTOR_SIZE * SECTORS_PER_CLUSTER, chunk);
      && |after| <= |img|
      && (|after| == |img| <==> sector + SECTORS_PER_CLUSTER == TotalSectors(sizeMb))
  {
    ClustersAreDisjoint(sizeMb, cluster, cluster);
    TableFits(sizeMb);
  }

  /** What a build writes to a cluster, padded to its size. */
  datatype ClusterWrite = ClusterWrite(cluster: int, chunk: Bytes)

  predicate Possible(sizeMb: int, w: ClusterWrite) {
    sizeMb >= 1 && 2 <= w.cluster < TotalClusters(sizeMb) + 2 && |w.chunk| == CLUSTER_SIZE
  }

  predicate EndsImage(sizeMb: int, cluster: int) {
    ClusterToSector(sizeMb, cluster) + SECTORS_PER_CLUSTER == TotalSectors(sizeMb)
  }

  function AfterWrite(sizeMb: int, img: Bytes, w: ClusterWrite): Bytes
    requires Possible(sizeMb, w)
  {
    ClustersAreDisjoint(sizeMb, w.cluster, w.cluster);
    TableFits(sizeMb);
    var sector := ClusterToSector(sizeMb, w.cluster);
    SliceAssigned(img, sector * SECTOR_SIZE, (sector + 1) * SECTOR_SIZE * SECTORS_PER_CLUSTER, w.chunk)
  }

  function AfterWrites(sizeMb: int, img: Bytes, writes: seq<ClusterWrite>): Bytes
    requires forall w <- writes :: Possible(sizeMb, w)
    decreases writes
  {
    if writes == [] then img
    else
      assert writes[0] in writes;
      AfterWrites(sizeMb, AfterWrite(sizeMb, img, writes[0]), writes[1..])
  }

  /** The image has its full length before and after each of the writes. */
  predicate KeepsLength(sizeMb: int, img: Bytes, writes: seq<ClusterWrite>)
    requires forall w <- writes :: Possible(sizeMb, w)
    decreases writes
  {
    && |img| == TotalSectors(sizeMb) * SECTOR_SIZE
    && (writes == [] || (assert writes[0] in writes;
                         KeepsLength(sizeMb, AfterWrite(sizeMb, img, writes[0]), writes[1..])))
  }

  /**
   A build keeps the image's length throughout exactly if every cluster it writes ends the image, that is, if it
   writes no cluster but the last.
   */
  lemma {:induction false} BuildKeepsLengthIff(sizeMb: int, img: Bytes, writes: seq<ClusterWrite>)
    requires |img| == TotalSectors(sizeMb) * SECTOR_SIZE && forall w <- writes :: Possible(sizeMb, w)
    ensures KeepsLength(sizeMb, img, writes) <==> forall w <- writes :: EndsImage(sizeMb, w.cluster)
    decreases writes
  {
    if writes != [] {
      var w, rest := writes[0], writes[1..];
      assert w in writes && writes == [w] + rest;
      ImageKeepsLengthIff(sizeMb, img, w.cluster, w.chunk);
      if EndsImage(sizeMb, w.cluster) {
        BuildKeepsLengthIff(sizeMb, AfterWrite(sizeMb, img, w), rest);
      } else {
        assert !KeepsLength(sizeMb, AfterWrite(sizeMb, img, w), rest);
      }
    }
  }

  /** A length kept throughout is kept at the end. */
  lemma {:induction false} KeptIsKeptAtEnd(sizeMb: int, img: Bytes, writes: seq<ClusterWrite>)
    requires (forall w <- writes :: Possible(sizeMb, w)) && KeepsLength(sizeMb, img, writes)
    ensures |AfterWrites(sizeMb, img, writes)| == |img|
    decreases writes
  {
    if writes != [] {
      assert writes[0] in writes;
      KeptIsKeptAtEnd(sizeMb, AfterWrite(sizeMb, img, writes[0]), writes[1..]);
    }
  }

  /** At most one cluster ends the image, so a build that writes two different ones changes its length. */
  lemma {:induction false} OneClusterEndsImage(sizeMb: int, c: int, d: int)
    requires sizeMb >= 1 && 2 <= c < TotalClusters(sizeMb) + 2 && 2 <= d < TotalClusters(sizeMb) + 2
    requires EndsImage(sizeMb, c) && EndsImage(sizeMb, d)
    ensures c == d == TotalClusters(sizeMb) + 1
  {
    ClustersAreDisjoint(sizeMb, c, TotalClusters(sizeMb) + 1);
    ClustersAreDisjoint(sizeMb, d, TotalClusters(sizeMb) + 1);
  }

  /* ---------- the builder ---------- */

  class FAT32Builder {
    const sizeMb: int
    const fat: array<nat>
    var nextCluster: nat
    var files: map<string, File>

    ghost function Model(): Disk
      reads this, fat
    {
      Disk(fat[..], nextCluster, files)
    }

    constructor (sizeMb: int)
      requires sizeMb >= 1
      ensures this.sizeMb == sizeMb && fresh(fat) && fat.Length == TotalClusters(sizeMb) + 2
      ensures Model() == Empty(fat.Length)
    {
      GeometryIsPossibleIff(sizeMb);
      this.sizeMb := sizeMb;
      var table := new nat[TotalClusters(sizeMb) + 2](_ => 0);
      table[0] := 0x0FFF_FFF8;
      table[1] := FAT_EOC;
      fat := table;
      nextCluster, files := 2, map[];
      new;
      assert fat[..] == Empty(fat.Length).fat;
    }

    method AllocClusters(n: nat) returns (start: Option<nat>)
      requires n > 0
      modifies this`nextCluster, fat
      ensures Model() == Alloc(old(Model()), n)
      ensures start == if Fits(old(Model()), n) then Some(old(nextCluster)) else None
    {
      ghost var before := Model();
      var first := nextCluster;
      for i := 0 to n
        invariant nextCluster == first + i && (i == 0 || first + i <= fat.Length)
        invariant forall c | 0 <= c < fat.Length ::
          fat[c] == if c < first + i then Linked(before.fat, first, n)[c] else before.fat[c]
      {
        var c := nextCluster;
        nextCluster := nextCluster + 1;
        if c >= fat.Length {
          assert fat[..] == Linked(before.fat, first, n);
          return None;
        }
        fat[c] := if i < n - 1 then c + 1 else FAT_EOC;
      }
      assert fat[..] == Linked(before.fat, first, n);
      return Some(first);
    }

    method AddOne(path: string, data: Bytes) returns (ok: bool)
      modifies this`nextCluster, this`files, fat
      ensures Model() == AddFile(old(Model()), path, data)
      ensures ok <==> data == [] || Fits(old(Model()), ClustersNeeded(|data|))
    {
      if data == [] {
        files := files[path := File(FAT_EOC, [])];
        return true;
      }
      var start := AllocClusters((|data| + CLUSTER_SIZE - 1) / CLUSTER_SIZE);
      if start.None? {
        return false;
      }
      files := files[path := File(start.value, data)];
      return true;
    }

    /**
     Follows the file's chain, padding its last cluster with zeros.  The clusters visited are the whole chain:
     the end marker is met just as the data runs out.
     */
    method WriteFile(f: File, contents: Contents) returns (after: Contents, ghost visited: seq<nat>)
      requires f.data != [] && HasLinks(fat[..], f.start, ClustersNeeded(|f.data|)) && fat.Length <= FAT_EOC
      ensures Holds(after, f.start, f.data, ClustersNeeded(|f.data|)) && Elsewhere(f, contents, after)
      ensures |visited| == ClustersNeeded(|f.data|) && IsChain(fat[..], f.start, visited)
    {
      LinksMakeChainIff(fat[..], f.start, ClustersNeeded(|f.data|));
      after, visited := contents, [];
      var cluster, offset := f.start, 0;
      ghost var i := 0;
      while offset < |f.data|
        invariant offset == i * CLUSTER_SIZE && i <= ClustersNeeded(|f.data|)
        invariant offset < |f.data| ==> cluster == f.start + i
        invariant Holds(after, f.start, f.data, i) && Elsewhere(f, contents, after)
        invariant visited == Range(f.start, i)
      {
        assert i < ClustersNeeded(|f.data|) && fat[cluster] == fat[..][cluster];
        ghost var before := after;
        after := after[cluster := Padded(Chunk(f.data, offset))];
        OneMoreChunk(before, after, f, i);
        visited := visited + [cluster];
        i := i + 1;
        offset := offset + CLUSTER_SIZE;
        cluster := fat[cluster];
        assert cluster >= FAT_EOC <==> offset >= |f.data|;
        if cluster >= FAT_EOC {
          break;
        }
      }
    }

    /** Writes out one more file; an empty one has nothing to write. */
    method WriteNext(p: string, contents: Contents, ghost done: set<string>) returns (after: Contents)
      requires Layout(Model()) && SmallEnough(Model()) && Written(Model(), contents, done) && p in files && p !in done
      ensures Written(Model(), after, done + {p})
    {
      after := contents;
      if files[p].data != [] {
        ghost var visited;
        after, visited := WriteFile(files[p], contents);
      }
      OneMoreWritten(Model(), contents, after, done, p);
    }

    /** Writes out all files, after which each of them reads back. */
    method Build() returns (contents: Contents)
      requires Layout(Model()) && SmallEnough(Model())
      ensures forall p <- files ::
        Read(fat[..], contents, files[p].start, |files[p].data|) == Some(files[p].data)
    {
      contents := map[];
      var todo := files.Keys;
      while todo != {}
        invariant todo <= files.Keys && Written(Model(), contents, files.Keys - todo)
      {
        var p :| p in todo;
        contents := WriteNext(p, contents, files.Keys - todo);
        todo := todo - {p};
        assert files.Keys - todo == files.Keys - (todo + {p}) + {p};
      }
      forall p | p in files
        ensures Read(fat[..], contents, files[p].start, |files[p].data|) == Some(files[p].data)
      {
        FileReadsBack(Model(), contents, p);
      }
    }
  }
}
