/**
 The bump allocator inside `build_esp_image`: it hands out runs of consecutive clusters,
 links them in the FAT and keeps the cluster contents.
 */
module FatAllocator {
  import opened Bytes
  import opened Results
  import opened FatLayout

  const TOTAL_SECTORS := 32768
  const FAT_SECTORS := 127
  const CLUSTER_COUNT := 32481
  const CLUSTER_SIZE := 512
  const FAT_ENTRIES := FAT_SECTORS * SECTOR_SIZE / 2
  const END_OF_CHAIN := 0xFFFF
  const MEDIA_DESCRIPTOR := 0xF8

  /** Every way in which building the ESP image can fail. */
  datatype EspError = ImageTooSmall | MissingFile | EmptyLoader

  datatype Allocator = Allocator(next: nat, fat: seq<nat>, clusters: map<nat, bytes>)

  function FreshAllocator(): (a: Allocator)
    ensures Inv(a)
  {
    Allocator(2, [0xFF00 + MEDIA_DESCRIPTOR, END_OF_CHAIN] + Zeros(FAT_ENTRIES - 2), map[])
  }

  function ClustersFor(len: nat): (n: nat)
    ensures CLUSTER_SIZE * n < len + CLUSTER_SIZE
    ensures len <= CLUSTER_SIZE * n
  {
    CeilDiv(len, CLUSTER_SIZE)
  }

  /** The data followed by zeros up to the end of its last cluster. */
  function Padded(data: bytes): (p: bytes)
    ensures |p| == CLUSTER_SIZE * ClustersFor(|data|)
    ensures data <= p
  {
    data + Zeros(CLUSTER_SIZE * ClustersFor(|data|) - |data|)
  }

  function Block(data: bytes, i: nat): (b: bytes)
    requires i < ClustersFor(|data|)
    ensures |b| == CLUSTER_SIZE
  {
    Padded(data)[CLUSTER_SIZE * i..CLUSTER_SIZE * (i + 1)]
  }

  /** The FAT value of a cluster inside the run that ends before `end`. */
  function Link(cluster: nat, end: nat): nat {
    if cluster + 1 < end then cluster + 1 else END_OF_CHAIN
  }

  function Range(first: nat, n: nat): (r: seq<nat>)
    ensures |r| == n
    ensures forall i | 0 <= i < n :: r[i] == first + i
    ensures forall c :: c in r <==> first <= c < first + n
  {
    if n == 0 then [] else Range(first, n - 1) + [first + n - 1]
  }

  /** The first n blocks of the data, in the clusters from `first` on. */
  function Blocks(data: bytes, first: nat, n: nat): (m: map<nat, bytes>)
    requires n <= ClustersFor(|data|)
    ensures forall c :: c in m <==> first <= c < first + n
    ensures forall c | c in m :: m[c] == Block(data, c - first)
  {
    map c | c in Range(first, n) :: Block(data, c - first)
  }

  lemma BlocksSnoc(m: map<nat, bytes>, data: bytes, first: nat, n: nat)
    requires n < ClustersFor(|data|)
    ensures m + Blocks(data, first, n + 1) == (m + Blocks(data, first, n))[first + n := Block(data, n)]
  {
    hide Blocks, Block;
    var shorter, longer := Blocks(data, first, n), Blocks(data, first, n + 1);
    assert longer == shorter[first + n := Block(data, n)];
  }

  /** The FAT with the clusters from `first` to `end` linked into one chain. */
  function LinkRun(fat: seq<nat>, first: nat, end: nat): (r: seq<nat>)
    ensures |r| == |fat|
    ensures forall c | 0 <= c < |fat| :: r[c] == if first <= c < end then Link(c, end) else fat[c]
  {
    seq(|fat|, c requires 0 <= c < |fat| => if first <= c < end then Link(c, end) else fat[c])
  }

  /** One allocation, as a function of the allocator's state. */
  function Allocate(a: Allocator, data: bytes): Result<(Allocator, seq<nat>), EspError> {
    var n := ClustersFor(|data|);
    if data == [] then Ok((a, []))
    else if a.next + n > CLUSTER_COUNT + 2 then Err(ImageTooSmall)
    else
      Ok((Allocator(a.next + n, LinkRun(a.fat, a.next, a.next + n), a.clusters + Blocks(data, a.next, n)),
          Range(a.next, n)))
  }

  function AllocateAll(a: Allocator, files: seq<bytes>): (r: Result<(Allocator, seq<seq<nat>>), EspError>)
    ensures r.Ok? ==> |r.value.1| == |files|
  {
    if files == [] then Ok((a, []))
    else
      var (b, chains) :- AllocateAll(a, files[..|files| - 1]);
      var (c, chain) :- Allocate(b, files[|files| - 1]);
      Ok((c, chains + [chain]))
  }

  /** Entries below `next` link inside the used range; the entries from `next` on are zero. */
  ghost predicate FatInv(fat: seq<nat>, next: nat) {
    && |fat| == FAT_ENTRIES && 2 <= next <= CLUSTER_COUNT + 2
    && fat[0] == 0xFF00 + MEDIA_DESCRIPTOR && fat[1] == END_OF_CHAIN
    && (forall c | 2 <= c < next :: fat[c] == END_OF_CHAIN || fat[c] == c + 1 < next)
    && (forall c | next <= c < FAT_ENTRIES :: fat[c] == 0)
  }

  /** Exactly the clusters below `next` have content, one cluster's worth each. */
  ghost predicate ClusterInv(clusters: map<nat, bytes>, next: nat) {
    && (forall c :: c in clusters <==> 2 <= c < next)
    && (forall c | c in clusters :: |clusters[c]| == CLUSTER_SIZE)
  }

  ghost predicate Inv(a: Allocator) {
    FatInv(a.fat, a.next) && ClusterInv(a.clusters, a.next)
  }

  /** The run from `first` carries the data, block by block, and is linked to its end. */
  ghost predicate Stores(a: Allocator, first: nat, data: bytes) {
    var n := ClustersFor(|data|);
    && 2 <= first && first + n <= a.next <= |a.fat|
    && (forall c | first <= c < first + n :: a.fat[c] == Link(c, first + n))
    && (forall c | first <= c < first + n :: c in a.clusters && a.clusters[c] == Block(data, c - first))
  }

  /** Nothing that was allocated has changed. */
  ghost predicate Extends(a: Allocator, b: Allocator) {
    && a.next <= b.next && |a.fat| == |b.fat|
    && (forall c | 0 <= c < Min(a.next, |a.fat|) :: b.fat[c] == a.fat[c])
    && (forall c | c in a.clusters :: c in b.clusters && b.clusters[c] == a.clusters[c])
  }

  lemma LinkRunKeepsInv(fat: seq<nat>, next: nat, n: nat)
    requires FatInv(fat, next) && next + n <= CLUSTER_COUNT + 2
    ensures FatInv(LinkRun(fat, next, next + n), next + n)
  {
  }

  lemma AllocateKeepsInv(a: Allocator, data: bytes)
    requires Inv(a)
    ensures var r := Allocate(a, data); r.Ok? ==>
      var (b, chain) := r.value;
      && Inv(b) && Extends(a, b) && Stores(b, a.next, data)
      && chain == Range(a.next, ClustersFor(|data|)) && b.next == a.next + |chain|
  {
    hide Block, Blocks, Padded, LinkRun, Range;
    var n := ClustersFor(|data|);
    if data != [] && a.next + n <= CLUSTER_COUNT + 2 {
      LinkRunKeepsInv(a.fat, a.next, n);
    }
  }

  lemma StoresExtends(a: Allocator, b: Allocator, first: nat, data: bytes)
    requires Stores(a, first, data) && Extends(a, b) && Inv(b)
    ensures Stores(b, first, data)
  {
  }

  function TotalClusters(files: seq<bytes>): nat {
    if files == [] then 0
    else TotalClusters(files[..|files| - 1]) + ClustersFor(|files[|files| - 1]|)
  }

  /** Chain i starts where the chains before it end, and carries file i. */
  ghost predicate ChainAt(a: Allocator, files: seq<bytes>, b: Allocator, chains: seq<seq<nat>>, i: nat)
    requires i < |files| == |chains|
  {
    var first := a.next + TotalClusters(files[..i]);
    && chains[i] == Range(first, ClustersFor(|files[i]|))
    && Stores(b, first, files[i])
  }

  /** What a whole run of allocations keeps, after its last step as after every other. */
  ghost predicate RunOutcome(a: Allocator, files: seq<bytes>, b: Allocator, chains: seq<seq<nat>>) {
    && Inv(b) && Extends(a, b)
    && b.next == a.next + TotalClusters(files)
    && |chains| == |files|
    && forall i | 0 <= i < |files| :: ChainAt(a, files, b, chains, i)
  }

  lemma ChainAtLater(a: Allocator, files: seq<bytes>, b: Allocator, chains: seq<seq<nat>>, i: nat,
                     last: bytes, c: Allocator, chain: seq<nat>)
    requires i < |files| == |chains| && ChainAt(a, files, b, chains, i)
    requires Extends(b, c) && Inv(c)
    ensures ChainAt(a, files + [last], c, chains + [chain], i)
  {
    assert (files + [last])[..i] == files[..i];
    StoresExtends(b, c, a.next + TotalClusters(files[..i]), files[i]);
  }

  lemma RunOutcomeStep(a: Allocator, files: seq<bytes>, b: Allocator, chains: seq<seq<nat>>, last: bytes)
    requires Inv(a) && RunOutcome(a, files, b, chains) && Allocate(b, last).Ok?
    ensures var (c, chain) := Allocate(b, last).value; RunOutcome(a, files + [last], c, chains + [chain])
  {
    var (c, chain) := Allocate(b, last).value;
    AllocateKeepsInv(b, last);
    assert (files + [last])[..|files|] == files;
    forall i | 0 <= i < |files + [last]| ensures ChainAt(a, files + [last], c, chains + [chain], i) {
      if i < |files| {
        ChainAtLater(a, files, b, chains, i, last, c, chain);
      }
    }
  }

  lemma {:induction false} AllocateAllOutcome(a: Allocator, files: seq<bytes>)
    requires Inv(a)
    ensures AllocateAll(a, files).Ok? ==>
      RunOutcome(a, files, AllocateAll(a, files).value.0, AllocateAll(a, files).value.1)
  {
    if files != [] && AllocateAll(a, files).Ok? {
      var init, last := files[..|files| - 1], files[|files| - 1];
      AllocateAllOutcome(a, init);
      var (b, chains) := AllocateAll(a, init).value;
      RunOutcomeStep(a, init, b, chains, last);
      assert files == init + [last];
    }
  }

  /** A run fails exactly when it asks for more clusters than are left. */
  lemma {:induction false} AllocateAllFits(a: Allocator, files: seq<bytes>)
    requires Inv(a)
    ensures AllocateAll(a, files).Ok? <==> a.next + TotalClusters(files) <= CLUSTER_COUNT + 2
    ensures AllocateAll(a, files).Err? ==> AllocateAll(a, files).error == ImageTooSmall
  {
    if files != [] {
      var init := files[..|files| - 1];
      AllocateAllFits(a, init);
      AllocateAllOutcome(a, init);
    }
  }

  lemma {:induction false} AllocateAllFailsEarly(a: Allocator, files: seq<bytes>, k: nat)
    requires k <= |files| && AllocateAll(a, files[..k]).Err?
    ensures AllocateAll(a, files) == Err(AllocateAll(a, files[..k]).error)
    decreases |files| - k
  {
    if k < |files| {
      assert files[..k + 1][..k] == files[..k];
      AllocateAllFailsEarly(a, files, k + 1);
    } else {
      assert files[..k] == files;
    }
  }

  /** No cluster belongs to two chains, and none lies outside the data area. */
  lemma ChainsDisjoint(a: Allocator, files: seq<bytes>, b: Allocator, chains: seq<seq<nat>>, i: nat, j: nat, c: nat)
    requires Inv(a) && AllocateAll(a, files) == Ok((b, chains))
    ensures |chains| == |files|
    ensures i < j < |files| && c in chains[i] ==> c !in chains[j]
    ensures i < |files| && c in chains[i] ==> 2 <= c < CLUSTER_COUNT + 2
  {
    AllocateAllOutcome(a, files);
    if i < j < |files| {
      assert ChainAt(a, files, b, chains, i) && ChainAt(a, files, b, chains, j);
      assert files[..i + 1][..i] == files[..i];
      TotalClustersGrows(files, i + 1, j);
    }
    if i < |files| {
      assert ChainAt(a, files, b, chains, i);
    }
  }

  lemma {:induction false} TotalClustersGrows(files: seq<bytes>, i: nat, j: nat)
    requires i <= j <= |files|
    ensures TotalClusters(files[..i]) <= TotalClusters(files[..j])
    decreases j - i
  {
    if i < j {
      assert files[..j][..j - 1] == files[..j - 1];
      TotalClustersGrows(files, i, j - 1);
    }
  }

  /** The state that `allocate_chain` shares with its enclosing function. */
  class ClusterAllocator {
    var nextCluster: nat
    const fatEntries: array<nat>
    var clusters: map<nat, bytes>

    ghost function State(): Allocator
      reads this, fatEntries
    {
      Allocator(nextCluster, fatEntries[..], clusters)
    }

    constructor ()
      ensures State() == FreshAllocator() && fresh(fatEntries)
    {
      fatEntries := new nat[FAT_ENTRIES](_ => 0);
      clusters := map[];
      nextCluster := 2;
      new;
      fatEntries[0] := 0xFF00 + MEDIA_DESCRIPTOR;
      fatEntries[1] := END_OF_CHAIN;
      assert fatEntries[..] == FreshAllocator().fat;
    }

    /** `allocate_chain`: on failure the cursor has already moved, and nothing else has. */
    method AllocateChain(data: bytes) returns (r: Result<seq<nat>, EspError>)
      requires fatEntries.Length == FAT_ENTRIES
      modifies this, fatEntries
      ensures match Allocate(old(State()), data)
        case Ok((after, chain)) => r == Ok(chain) && State() == after
        case Err(e) =>
          && r == Err(e)
          && State() == old(State()).(next := old(nextCluster) + ClustersFor(|data|))
    {
      if data == [] {
        return Ok([]);
      }
      var count := ClustersFor(|data|);
      var first := nextCluster;
      var chain := Range(first, count);
      nextCluster := nextCluster + count;
      if nextCluster > CLUSTER_COUNT + 2 {
        return Err(ImageTooSmall);
      }
      StoreChain(data, chain);
      r := Ok(chain);
    }

    /** The loop of `allocate_chain` over the clusters of its chain. */
    method StoreChain(data: bytes, chain: seq<nat>)
      requires chain != [] && chain == Range(chain[0], ClustersFor(|data|))
      requires chain[0] + |chain| <= fatEntries.Length
      modifies this`clusters, fatEntries
      ensures fatEntries[..] == LinkRun(old(fatEntries[..]), chain[0], chain[0] + |chain|)
      ensures clusters == old(clusters) + Blocks(data, chain[0], |chain|)
    {
      hide Block, Blocks, Padded, Range, LinkRun;
      ghost var fat, first, end := fatEntries[..], chain[0], chain[0] + |chain|;
      for index := 0 to |chain|
        invariant forall c | 0 <= c < |fat| ::
          fatEntries[c] == if first <= c < first + index then Link(c, end) else fat[c]
        invariant clusters == old(clusters) + Blocks(data, first, index)
      {
        var cluster := chain[index];
        BlocksSnoc(old(clusters), data, first, index);
        clusters := clusters[cluster := Block(data, index)];
        fatEntries[cluster] := if index + 1 < |chain| then chain[index + 1] else END_OF_CHAIN;
      }
      assert fatEntries[..] == LinkRun(fat, first, end);
    }
  }
}
