/** Division of a farm's allocated space into plot, metadata and piece cache. */
module SpaceSplit {
  const RESERVED_PLOT_METADATA: nat := 1024 * 1024
  const RESERVED_FARM_INFO: nat := 1024 * 1024
  const DISK_PAGE_SIZE: nat := 4096
  const MAX_SECTORS: nat := 65534

  /** Sizes that are fixed by other components. */
  datatype Sizes = Sizes(sector: nat, sectorMetadata: nat, identity: nat, knownPeers: nat, element: nat)

  predicate ValidSizes(z: Sizes) {
    z.sector > 0 && z.element > 0
  }

  datatype Distribution = Distribution(
    pieceCacheFileSize: nat,
    pieceCacheCapacity: nat,
    plotFileSize: nat,
    targetSectorCount: nat,
    metadataFileSize: nat)

  datatype Outcome =
    | Underflow  // a subtraction below zero, or the division by zero at 100%
    | InsufficientAllocatedSpace(minSpace: nat)
    | FarmTooLarge(allocatedSectors: nat)
    | Success(d: Distribution)

  function DivCeil(a: nat, b: nat): (r: nat)
    requires b > 0
    ensures a <= r * b < a + b
  {
    DivCeilBounds(a, b);
    (a + b - 1) / b
  }

  lemma DivCeilBounds(a: nat, b: nat)
    requires b > 0
    ensures a <= ((a + b - 1) / b) * b < a + b
  {
    var q, m := (a + b - 1) / b, (a + b - 1) % b;
    assert a + b - 1 == b * q + m;
    assert q * b == b * q;
  }

  function Fixed(z: Sizes): nat {
    RESERVED_PLOT_METADATA + RESERVED_FARM_INFO + z.identity + z.knownPeers
  }

  function Overhead(z: Sizes): nat {
    z.sector + z.sectorMetadata
  }

  function SaturatingSub(a: nat, b: nat): nat {
    if a >= b then a - b else 0
  }

  function Plottable(z: Sizes, space: nat, percentage: nat): nat
    requires percentage <= 100
  {
    SaturatingSub(space, Fixed(z)) / 100 * (100 - percentage)
  }

  /** The error for a farm without room for one sector. */
  function Insufficient(z: Sizes, percentage: nat): Outcome {
    if percentage >= 100 then Underflow
    else
      var single := DivCeil(Overhead(z), 100 - percentage) * 100;
      if single < Overhead(z) then Underflow
      else if single - Overhead(z) < z.element then
        // at least one cache element, even if that is more than its share
        InsufficientAllocatedSpace(Fixed(z) + Overhead(z) + z.element)
      else InsufficientAllocatedSpace(Fixed(z) + single)
  }

  function PlotFile(z: Sizes, count: nat): nat {
    DivCeil(count * z.sector, DISK_PAGE_SIZE) * DISK_PAGE_SIZE
  }

  /** What plot and metadata take besides the piece cache. */
  function Used(z: Sizes, count: nat): nat {
    Fixed(z) + PlotFile(z, count) + z.sectorMetadata * count
  }

  function CacheCapacity(z: Sizes, left: nat): nat
    requires z.element > 0
  {
    left / z.element % 0x1_0000_0000
  }

  function SectorCount(z: Sizes, plottable: nat): nat
    requires ValidSizes(z) && plottable >= DISK_PAGE_SIZE
  {
    (plottable - DISK_PAGE_SIZE) / Overhead(z)
  }

  function Files(z: Sizes, count: nat, capacity: nat): Distribution {
    Distribution(capacity * z.element, capacity, PlotFile(z, count), count,
                 RESERVED_PLOT_METADATA + z.sectorMetadata * count)
  }

  function Distribute(z: Sizes, space: nat, percentage: nat): Outcome
    requires ValidSizes(z)
  {
    if percentage > 100 || Plottable(z, space, percentage) < DISK_PAGE_SIZE then Underflow
    else
      var count := SectorCount(z, Plottable(z, space, percentage));
      if count == 0 then Insufficient(z, percentage)
      else if percentage > 0 && Used(z, count) > space then Underflow
      else
        var capacity := if percentage > 0 then CacheCapacity(z, space - Used(z, count)) else 0;
        if count > MAX_SECTORS then FarmTooLarge(count) else Success(Files(z, count, capacity))
  }

  // ---------- arithmetic ----------

  lemma Quotient(a: nat, b: nat)
    requires b > 0
    ensures a / b * b <= a < a / b * b + b
  {
    assert a == b * (a / b) + a % b;
    assert b * (a / b) == a / b * b;
  }

  lemma MulMonotone(a: nat, b: nat, c: nat)
    requires a <= b
    ensures a * c <= b * c
  {
    assert b * c == a * c + (b - a) * c;
  }

  /** The plottable share is part of what is left after the fixed files. */
  lemma PlottableFits(z: Sizes, space: nat, percentage: nat)
    requires percentage <= 100 && Plottable(z, space, percentage) > 0
    ensures Fixed(z) + Plottable(z, space, percentage) <= space && percentage < 100
  {
    var left := SaturatingSub(space, Fixed(z));
    Quotient(left, 100);
    MulMonotone(100 - percentage, 100, left / 100);
  }

  lemma SectorsFit(z: Sizes, plottable: nat)
    requires ValidSizes(z) && plottable >= DISK_PAGE_SIZE
    ensures var count := (plottable - DISK_PAGE_SIZE) / Overhead(z);
            count * z.sector <= PlotFile(z, count) &&
            PlotFile(z, count) + z.sectorMetadata * count < plottable
  {
    var count := (plottable - DISK_PAGE_SIZE) / Overhead(z);
    Quotient(plottable - DISK_PAGE_SIZE, Overhead(z));
    assert count * Overhead(z) == count * z.sector + z.sectorMetadata * count;
  }

  // ---------- results ----------

  lemma SingleCovers(z: Sizes, percentage: nat)
    requires percentage < 100
    ensures Overhead(z) <= DivCeil(Overhead(z), 100 - percentage) * 100
  {
    MulMonotone(100 - percentage, 100, DivCeil(Overhead(z), 100 - percentage));
  }

  /** No subtraction underflows exactly when the cache percentage leaves a plottable share of at least
      one disk page; the checks after the first never fail. */
  lemma UnderflowExactly(z: Sizes, space: nat, percentage: nat)
    requires ValidSizes(z)
    ensures Distribute(z, space, percentage).Underflow? <==>
            percentage >= 100 || Plottable(z, space, percentage) < DISK_PAGE_SIZE
  {
    if percentage <= 100 && Plottable(z, space, percentage) >= DISK_PAGE_SIZE {
      PlottableFits(z, space, percentage);
      SectorsFit(z, Plottable(z, space, percentage));
      SingleCovers(z, percentage);
    }
  }

  lemma CacheFits(left: nat, element: nat)
    requires element > 0
    ensures left / element % 0x1_0000_0000 * element <= left
  {
    Quotient(left, element);
    MulMonotone(left / element % 0x1_0000_0000, left / element, element);
  }

  lemma PlotFileRounds(z: Sizes, count: nat)
    ensures count * z.sector <= PlotFile(z, count) < count * z.sector + DISK_PAGE_SIZE
    ensures PlotFile(z, count) % DISK_PAGE_SIZE == 0
  {
  }

  /** The plot holds all target sectors in whole disk pages, the metadata file its header and the metadata
      of all target sectors, and the cache file all its elements; without a percentage there are none. */
  lemma FilesHold(z: Sizes, space: nat, percentage: nat)
    requires ValidSizes(z) && Distribute(z, space, percentage).Success?
    ensures var d := Distribute(z, space, percentage).d;
            && 1 <= d.targetSectorCount <= MAX_SECTORS
            && d.targetSectorCount * z.sector <= d.plotFileSize < d.targetSectorCount * z.sector + DISK_PAGE_SIZE
            && d.plotFileSize % DISK_PAGE_SIZE == 0
            && d.metadataFileSize - d.targetSectorCount * z.sectorMetadata == RESERVED_PLOT_METADATA
            && d.pieceCacheFileSize == d.pieceCacheCapacity * z.element
            && (percentage == 0 ==> d.pieceCacheCapacity == 0)
  {
    PlotFileRounds(z, Distribute(z, space, percentage).d.targetSectorCount);
  }

  /** All files together fit into the allocated space. */
  lemma EverythingFits(z: Sizes, space: nat, percentage: nat)
    requires ValidSizes(z) && Distribute(z, space, percentage).Success?
    ensures var d := Distribute(z, space, percentage).d;
            d.plotFileSize + d.metadataFileSize + d.pieceCacheFileSize
            + RESERVED_FARM_INFO + z.identity + z.knownPeers <= space
  {
    var d := Distribute(z, space, percentage).d;
    PlottableFits(z, space, percentage);
    SectorsFit(z, Plottable(z, space, percentage));
    assert Used(z, d.targetSectorCount) <= space;
    CacheFits(space - Used(z, d.targetSectorCount), z.element);
  }

  /** One more sector would not fit into the plottable share. */
  lemma NoSectorLeft(z: Sizes, space: nat, percentage: nat)
    requires ValidSizes(z) && Distribute(z, space, percentage).Success?
    ensures var rest := space - (RESERVED_PLOT_METADATA + RESERVED_FARM_INFO + z.identity + z.knownPeers);
            rest / 100 * (100 - percentage)
            < (Distribute(z, space, percentage).d.targetSectorCount + 1) * (z.sector + z.sectorMetadata) + DISK_PAGE_SIZE
  {
    PlottableFits(z, space, percentage);
    Quotient(Plottable(z, space, percentage) - DISK_PAGE_SIZE, Overhead(z));
  }

  lemma CacheTakesWhatIsLeft(left: nat, element: nat)
    requires element > 0
    ensures left < left / element % 0x1_0000_0000 * element + element <==> left / element < 0x1_0000_0000
  {
    Quotient(left, element);
    var q := left / element;
    if q >= 0x1_0000_0000 {
      MulMonotone(q % 0x1_0000_0000 + 1, q, element);
    }
  }

  /** With a cache less than one element is left over, exactly when the capacity does not wrap around. */
  lemma NoElementLeft(z: Sizes, space: nat, percentage: nat)
    requires ValidSizes(z) && percentage > 0 && Distribute(z, space, percentage).Success?
    ensures var d := Distribute(z, space, percentage).d;
            var left := space - (d.plotFileSize + d.metadataFileSize + RESERVED_FARM_INFO + z.identity + z.knownPeers);
            left < d.pieceCacheFileSize + z.element <==> left / z.element < 0x1_0000_0000
  {
    var d := Distribute(z, space, percentage).d;
    CacheTakesWhatIsLeft(space - (Fixed(z) + d.plotFileSize + z.sectorMetadata * d.targetSectorCount), z.element);
  }

  /** The outcome by the largest number of sectors whose files and a disk page fit into the share. */
  lemma OutcomeByCount(z: Sizes, space: nat, percentage: nat, count: nat)
    requires ValidSizes(z) && percentage < 100
    requires count * Overhead(z) + DISK_PAGE_SIZE <= Plottable(z, space, percentage)
             < count * Overhead(z) + Overhead(z) + DISK_PAGE_SIZE
    ensures var r := Distribute(z, space, percentage);
            && (count == 0 <==> r.InsufficientAllocatedSpace?)
            && (1 <= count <= MAX_SECTORS <==> r.Success?)
            && (r.Success? ==> r.d.targetSectorCount == count)
            && (count > MAX_SECTORS <==> r == FarmTooLarge(count))
  {
    var share := Plottable(z, space, percentage) - DISK_PAGE_SIZE;
    Quotient(share, Overhead(z));
    QuotientIs(share / Overhead(z), count, Overhead(z), share);
    UnderflowExactly(z, space, percentage);
  }

  lemma QuotientIs(a: nat, b: nat, d: nat, n: nat)
    requires a * d <= n < a * d + d && b * d <= n < b * d + d
    ensures a == b
  {
    if a < b { MulMonotone(a + 1, b, d); }
    if b < a { MulMonotone(b + 1, a, d); }
  }

  /** The minimum space that the error reports is enough for a sector exactly when the cache element
      decided it and leaves room for the rounding; a minimum that follows the percentage never is. */
  lemma ReportedMinimum(z: Sizes, space: nat, percentage: nat)
    requires ValidSizes(z) && Distribute(z, space, percentage).InsufficientAllocatedSpace?
    ensures var min := Distribute(z, space, percentage).minSpace;
            Distribute(z, min, percentage).Success? || Distribute(z, min, percentage).FarmTooLarge? <==>
            && DivCeil(Overhead(z), 100 - percentage) * 100 - Overhead(z) < z.element
            && (Overhead(z) + z.element) / 100 * (100 - percentage) >= Overhead(z) + DISK_PAGE_SIZE
  {
    var min := Distribute(z, space, percentage).minSpace;
    PlottableFits(z, space, percentage);
    UnderflowExactly(z, min, percentage);
    RoomForOne(z, Plottable(z, min, percentage));
    var q := DivCeil(Overhead(z), 100 - percentage);
    if q * 100 - Overhead(z) >= z.element {
      assert q * 100 / 100 == q;
    }
  }

  /** Four megabytes are asked for, and asked for again when they are there. */
  lemma MinimumNotEnough()
    ensures var z := Sizes(2_000_000, 0, 0, 0, 1_000_000);
            var min := InsufficientAllocatedSpace(Fixed(z) + 4_000_000);
            Distribute(z, Fixed(z) + 10_000, 50) == min && Distribute(z, min.minSpace, 50) == min
  {
    var z := Sizes(2_000_000, 0, 0, 0, 1_000_000);
    assert Plottable(z, Fixed(z) + 10_000, 50) == 5_000;
    assert Plottable(z, Fixed(z) + 4_000_000, 50) == 2_000_000;
    assert DivCeil(2_000_000, 50) == 40_000;
  }

  /** There is a sector exactly when the share covers one and a disk page. */
  lemma RoomForOne(z: Sizes, plottable: nat)
    requires ValidSizes(z)
    ensures plottable >= DISK_PAGE_SIZE ==>
              ((plottable - DISK_PAGE_SIZE) / Overhead(z) > 0 <==> plottable >= Overhead(z) + DISK_PAGE_SIZE)
  {
    if plottable >= DISK_PAGE_SIZE {
      Quotient(plottable - DISK_PAGE_SIZE, Overhead(z));
    }
  }

  /** Disk usage of an existing farm; none of the subtractions goes below zero. */
  method EffectiveDiskUsage(z: Sizes, space: nat, percentage: nat) returns (r: Outcome, usage: nat)
    requires ValidSizes(z)
    ensures r == Distribute(z, space, percentage)
    ensures r.Success? ==>
              usage + z.identity + r.d.metadataFileSize + r.d.plotFileSize + r.d.pieceCacheFileSize == space
    ensures r.Success? ==> usage >= RESERVED_FARM_INFO + z.knownPeers
  {
    r, usage := Distribute(z, space, percentage), 0;
    if r.Success? {
      EverythingFits(z, space, percentage);
      usage := space;
      usage := usage - z.identity;
      usage := usage - r.d.metadataFileSize;
      usage := usage - r.d.plotFileSize;
      usage := usage - r.d.pieceCacheFileSize;
    }
  }
}
