/**
 How `fat16_layout` sizes the two FATs: the size is a fixed point of "sectors needed
 for the clusters that are left when the FATs have this size", looked for by iteration.
 */
module FatLayout {

  const SECTOR_SIZE := 512
  const RESERVED_SECTORS := 1
  const ROOT_ENTRIES := 512
  const ROOT_DIR_SECTORS := 32

  /** Division rounding up, for operands of either sign. */
  function CeilDiv(x: int, d: int): (q: int)
    requires d > 0
    ensures d * (q - 1) < x <= d * q
  {
    (x + d - 1) / d
  }

  function ClusterCount(total: int, fatSectors: int): int {
    total - RESERVED_SECTORS - ROOT_DIR_SECTORS - 2 * fatSectors
  }

  /** FAT sectors that hold one 16-bit entry per cluster and the two reserved entries. */
  function NeededFatSectors(total: int, fatSectors: int): (n: int)
    ensures 256 * (n - 1) < ClusterCount(total, fatSectors) + 2 <= 256 * n
  {
    CeilDiv((ClusterCount(total, fatSectors) + 2) * 2, SECTOR_SIZE)
  }

  /** The candidate size at the k-th turn of the loop. */
  ghost function Candidate(total: int, k: nat): int {
    if k == 0 then 1 else NeededFatSectors(total, Candidate(total, k - 1))
  }

  /** Some turn of the loop takes the exit. */
  ghost predicate LoopExits(total: int) {
    exists k: nat :: IsFixedPoint(total, Candidate(total, k))
  }

  predicate IsFixedPoint(total: int, fatSectors: int) {
    NeededFatSectors(total, fatSectors) == fatSectors
  }

  /** The sizes that have a fixed point, by a test on the size alone. */
  predicate Sizeable(total: int) {
    (total - 31) % 258 != 1 && (total - 31) % 258 != 2
  }

  function BalancedFatSectors(total: int): (f: int)
    ensures 258 * (f - 1) < total - 31 <= 258 * f
  {
    CeilDiv(total - 31, 258)
  }

  /** There is a fixed point for the sizeable totals only, and only one. */
  lemma FixedPointIffSizeable(total: int, f: int)
    ensures IsFixedPoint(total, f) <==> Sizeable(total) && f == BalancedFatSectors(total)
  {
    var n := total - 31;
    var q, r := n / 258, n % 258;
    var needed := NeededFatSectors(total, f);
    assert needed == f <==> 258 * f - 256 < n <= 258 * f;
    BetweenMultiples(n, q, r, f);
    BetweenMultiples(n, q, r, BalancedFatSectors(total));
  }

  lemma BetweenMultiples(n: int, q: int, r: int, f: int)
    requires n == 258 * q + r && 0 <= r < 258
    ensures 258 * f - 258 < n <= 258 * f <==> f == if r == 0 then q else q + 1
    ensures 258 * f - 256 < n <= 258 * f <==> f == (if r == 0 then q else q + 1) && r != 1 && r != 2
  {
  }

  /** What drives the loop: twice the distance, with a bias for the side that overshoots. */
  function Distance(total: int, f: int): nat {
    var target := BalancedFatSectors(total);
    var overshootsFromBelow := 258 * target - (total - 31) <= 1;
    if f < target then 2 * (target - f) + (if overshootsFromBelow then 1 else 0)
    else if f > target then 2 * (f - target) + (if overshootsFromBelow then 0 else 1)
    else 0
  }

  lemma LoopApproaches(total: int, f: int)
    requires Sizeable(total) && !IsFixedPoint(total, f)
    ensures Distance(total, NeededFatSectors(total, f)) < Distance(total, f)
  {
    FixedPointIffSizeable(total, f);
    var target := BalancedFatSectors(total);
    FixedPointIffSizeable(total, target);
    var n := total - 31;
    var r := 258 * target - n;
    assert 0 <= r < 256;
    var next := NeededFatSectors(total, f);
    assert 256 * (next - 1) < n - 2 * f <= 256 * next;
    var d := f - target;
    assert 256 * (next - target - 1) < -r - 2 * d <= 256 * (next - target);
  }

  lemma {:induction false} LoopReachesBalance(total: int, k: nat)
    requires Sizeable(total)
    ensures LoopExits(total)
    decreases Distance(total, Candidate(total, k))
  {
    if !IsFixedPoint(total, Candidate(total, k)) {
      LoopApproaches(total, Candidate(total, k));
      LoopReachesBalance(total, k + 1);
    }
  }

  /** The loop leaves exactly for the totals outside two residues modulo 258. */
  lemma LoopExitsIffSizeable(total: int)
    ensures LoopExits(total) <==> Sizeable(total)
  {
    if Sizeable(total) {
      LoopReachesBalance(total, 0);
    }
    if LoopExits(total) {
      var k: nat :| IsFixedPoint(total, Candidate(total, k));
      FixedPointIffSizeable(total, Candidate(total, k));
    }
  }

  /** A volume of 32540 sectors, a little under 16 MiB, keeps the loop running for ever. */
  lemma LoopNeverExits()
    ensures !LoopExits(32540)
  {
    LoopExitsIffSizeable(32540);
  }

  /** `fat16_layout`; on the other totals the original never returns. */
  method Fat16Layout(total: int)
    returns (sectorsPerCluster: int, fatSectors: int, rootDirSectors: int, clusterCount: int)
    requires Sizeable(total)
    ensures sectorsPerCluster == 1 && rootDirSectors == ROOT_DIR_SECTORS
    ensures fatSectors == BalancedFatSectors(total)
    ensures clusterCount == ClusterCount(total, fatSectors)
    // one entry per cluster and two reserved ones, with less than a sector to spare
    ensures clusterCount + 2 <= fatSectors * SECTOR_SIZE / 2 < clusterCount + 2 + 256
  {
    sectorsPerCluster := 1;
    rootDirSectors := (ROOT_ENTRIES * 32 + SECTOR_SIZE - 1) / SECTOR_SIZE;
    fatSectors := 1;
    while true
      decreases Distance(total, fatSectors)
    {
      var dataSectors := total - RESERVED_SECTORS - rootDirSectors - 2 * fatSectors;
      clusterCount := dataSectors / sectorsPerCluster;
      var needed := CeilDiv((clusterCount + 2) * 2, SECTOR_SIZE);
      FixedPointIffSizeable(total, fatSectors);
      if needed == fatSectors {
        return;
      }
      LoopApproaches(total, fatSectors);
      fatSectors := needed;
    }
  }
}
