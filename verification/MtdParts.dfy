/** MTD devices, partitions and erase geometry, and what it means for a partition to be valid. */
module MtdParts {
  import opened Common
  import opened Arith
  import opened MtdSize

  const SIZE_REMAINING: nat := 0xFFFF_FFFF
  const OFFSET_NOT_SPECIFIED: nat := 0xFFFF_FFFF
  const MIN_PART_SIZE: nat := 4096

  /** Device type and number, which identify a device. */
  datatype DevKey = DevKey(kind: nat, num: nat)

  datatype MtdId = MtdId(key: DevKey, size: nat, mtdId: string)

  /** Generated names are the size and offset as parsed. */
  datatype PartName = Given(text: string) | Auto(size: nat, offset: nat)

  datatype Part = Part(name: PartName, size: nat, offset: nat, readOnly: bool, sectorSize: nat)

  datatype Device = Device(id: MtdId, parts: seq<Part>, numParts: nat)

  datatype Region = Region(offset: nat, eraseSize: nat, numBlocks: nat)

  /** `regions` is empty for a device with one erase size. */
  datatype Geometry = Geometry(eraseSize: nat, regions: seq<Region>)

  predicate IdOk(id: MtdId) {
    id.size < WRAP
  }

  predicate PartU32(p: Part) {
    p.size < WRAP && p.offset < WRAP
  }

  predicate RegionOk(r: Region) {
    r.eraseSize > 0 && r.offset + r.numBlocks * r.eraseSize < WRAP
  }

  predicate GeometryOk(g: Geometry) {
    g.eraseSize > 0 && forall i :: 0 <= i < |g.regions| ==> RegionOk(g.regions[i])
  }

  // ----- erase-block boundaries

  function BlockStart(r: Region, j: nat): nat {
    r.offset + j * r.eraseSize
  }

  ghost predicate StartsBlockOf(r: Region, a: nat) {
    exists j: nat :: j < r.numBlocks && a == BlockStart(r, j)
  }

  /** `a` is the first byte of an erase block. */
  ghost predicate StartsBlock(g: Geometry, a: nat) {
    if g.regions == [] then g.eraseSize > 0 && a % g.eraseSize == 0
    else exists i :: 0 <= i < |g.regions| && StartsBlockOf(g.regions[i], a)
  }

  /** `a` is an erase-block boundary: the start of a block, or the end of the last one. */
  ghost predicate EndsBlock(g: Geometry, a: nat) {
    StartsBlock(g, a) ||
    (g.regions != [] && a == BlockStart(g.regions[|g.regions| - 1], g.regions[|g.regions| - 1].numBlocks))
  }

  /** What a partition promises: it is a non-empty stretch of the device, as mathematical integers, that
      starts and ends on erase-block boundaries. */
  ghost predicate InDevice(g: Geometry, id: MtdId, p: Part) {
    && 0 < p.size && p.offset + p.size <= id.size
    && StartsBlock(g, p.offset) && EndsBlock(g, p.offset + p.size)
    && p.sectorSize == g.eraseSize
  }

  /** The size a '-' stands for. */
  function Resolved(id: MtdId, p: Part, g: Geometry): Part {
    p.(size := if p.size == SIZE_REMAINING then (id.size - p.offset) % WRAP else p.size, sectorSize := g.eraseSize)
  }

  ghost function Validated(g: Option<Geometry>, id: MtdId, p: Part): Option<Part> {
    if g.Some? && InDevice(g.value, id, Resolved(id, p, g.value)) then Some(Resolved(id, p, g.value)) else None
  }

  lemma EndOfUniform(offset: nat, size: nat, e: nat)
    requires e > 0 && offset % e == 0
    ensures (offset + size) % e == 0 <==> size % e == 0
  {
    assert offset == (offset / e) * e;
    ModShift(size, offset / e, e);
  }

  // ----- part_validate

  /** The nested scan for a block that starts at `a`; `last` is where the scan ends up otherwise. */
  method FindBlockStart(regions: seq<Region>, a: nat) returns (found: bool, last: nat)
    requires regions != [] && forall i :: 0 <= i < |regions| ==> RegionOk(regions[i])
    ensures found <==> exists i :: 0 <= i < |regions| && StartsBlockOf(regions[i], a)
    ensures !found ==> last == BlockStart(regions[|regions| - 1], regions[|regions| - 1].numBlocks)
  {
    last := 0;
    for i := 0 to |regions|
      invariant forall k :: 0 <= k < i ==> !StartsBlockOf(regions[k], a)
      invariant i > 0 ==> last == BlockStart(regions[i - 1], regions[i - 1].numBlocks)
    {
      var start, r := regions[i].offset, regions[i];
      for j := 0 to r.numBlocks
        invariant start == BlockStart(r, j)
        invariant forall k: nat :: k < j ==> a != BlockStart(r, k)
      {
        if a == start {
          assert StartsBlockOf(r, a);
          return true, start;
        }
        start := (start + r.eraseSize) % WRAP;
        BlockStartFits(r, j + 1);
      }
      last := start;
    }
    return false, last;
  }

  lemma BlockStartFits(r: Region, j: nat)
    requires RegionOk(r) && 0 < j <= r.numBlocks
    ensures BlockStart(r, j) == BlockStart(r, j - 1) + r.eraseSize < WRAP
  {
    assert j * r.eraseSize == (j - 1) * r.eraseSize + r.eraseSize;
    assert (r.numBlocks - j) * r.eraseSize >= 0;
    assert r.numBlocks * r.eraseSize == j * r.eraseSize + (r.numBlocks - j) * r.eraseSize;
  }

  /** `part_validate_eraseblock`, without the assignment of `sector_size`. */
  method Aligned(g: Geometry, p: Part) returns (ok: bool)
    requires GeometryOk(g) && p.offset + p.size < WRAP
    ensures ok <==> StartsBlock(g, p.offset) && EndsBlock(g, p.offset + p.size)
  {
    if g.regions == [] {
      if p.offset % g.eraseSize != 0 {
        return false;
      }
      EndOfUniform(p.offset, p.size, g.eraseSize);
      return p.size % g.eraseSize == 0;
    }
    var found, last := FindBlockStart(g.regions, p.offset);
    if !found {
      return false;
    }
    found, last := FindBlockStart(g.regions, p.offset + p.size);
    return found || p.offset + p.size == last;
  }

  /** The 32-bit range tests say what they mean on integers. */
  lemma RangeTests(offset: nat, size: nat, device: nat)
    requires offset < WRAP && size < WRAP && device < WRAP
    ensures offset <= device && (offset + size) % WRAP > offset && (offset + size) % WRAP <= device
      <==> 0 < size && offset + size <= device
  {
    if offset + size >= WRAP {
      DivModUnique(offset + size, WRAP, 1, offset + size - WRAP);
    } else {
      DivModUnique(offset + size, WRAP, 0, offset + size);
    }
  }

  /** `part_validate`, in 32-bit arithmetic: it accepts exactly the partitions that lie in the device. */
  method PartValidate(g: Option<Geometry>, id: MtdId, part: Part) returns (r: Option<Part>)
    requires IdOk(id) && PartU32(part) && (g.Some? ==> GeometryOk(g.value))
    ensures r == Validated(g, id, part)
  {
    hide StartsBlock, EndsBlock, GeometryOk;
    var size := part.size;
    if size == SIZE_REMAINING {
      size := (id.size - part.offset) % WRAP;
    }
    RangeTests(part.offset, size, id.size);
    if part.offset > id.size {
      return None;
    }
    var end := (part.offset + size) % WRAP;
    if end <= part.offset {
      return None;
    }
    if end > id.size {
      return None;
    }
    match g {
      case None => return None;
      case Some(geometry) =>
        var p := part.(size := size, sectorSize := geometry.eraseSize);
        var ok := Aligned(geometry, p);
        return if ok then Some(p) else None;
    }
  }
}
