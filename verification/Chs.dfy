/** The addresses that `biosdisk` (stage2/bios.c) hands to the BIOS in CHS mode. */
module Chs {
  import opened Common

  datatype Geometry = Geometry(cylinders: nat, heads: nat, sectors: nat)

  /** Cylinder and head count from 0, sectors from 1. */
  datatype Address = Address(cylinder: nat, head: nat, sector: nat)

  predicate Within(g: Geometry, a: Address) {
    a.cylinder < g.cylinders && a.head < g.heads && 1 <= a.sector <= g.sectors
  }

  /** The track of an address when the disk is read in order. */
  function Track(g: Geometry, a: Address): nat {
    a.cylinder * g.heads + a.head
  }

  /** The position of a sector when the disk is read in order. */
  function Linear(g: Geometry, a: Address): int {
    Track(g, a) * g.sectors + (a.sector - 1)
  }

  /** A number has one quotient and one remainder. */
  lemma DivisionIsUnique(q: nat, r: nat, q': nat, r': nat, d: nat)
    requires r < d && r' < d && q * d + r == q' * d + r'
    ensures q == q' && r == r'
  {
    if q < q' {
      assert q' * d == q * d + (q' - q) * d;
      Multiple(q' - q, d);
    } else if q' < q {
      assert q * d == q' * d + (q - q') * d;
      Multiple(q - q', d);
    }
  }

  lemma Multiple(k: nat, d: nat)
    requires k >= 1
    ensures k * d >= d
  {
  }

  /** The decomposition, lines 166 to 172; `None` is BIOSDISK_ERROR_GEOMETRY. */
  method Decompose(g: Geometry, sector: nat) returns (a: Option<Address>)
    requires g.heads > 0 && g.sectors > 0
    ensures a.Some? ==> Within(g, a.value) && Linear(g, a.value) == sector
    ensures a.None? <==> sector >= g.cylinders * g.heads * g.sectors
  {
    var sectorOffset := sector % g.sectors + 1;
    var head := sector / g.sectors;
    var headOffset := head % g.heads;
    var cylinderOffset := head / g.heads;
    Decomposed(g, sector, head, Address(cylinderOffset, headOffset, sectorOffset));
    if cylinderOffset >= g.cylinders { return None; }
    return Some(Address(cylinderOffset, headOffset, sectorOffset));
  }

  lemma Divide(n: nat, d: nat)
    requires d > 0
    ensures n == n / d * d + n % d && n % d < d
  {
  }

  lemma Decomposed(g: Geometry, sector: nat, head: nat, a: Address)
    requires g.heads > 0 && g.sectors > 0 && head == sector / g.sectors
    requires a == Address(head / g.heads, head % g.heads, sector % g.sectors + 1)
    ensures Linear(g, a) == sector && a.head < g.heads && 1 <= a.sector <= g.sectors
    ensures a.cylinder < g.cylinders <==> sector < g.cylinders * g.heads * g.sectors
  {
    Divide(sector, g.sectors);
    Divide(head, g.heads);
    InRangeIff(a.cylinder, a.head, g.cylinders, g.heads);
    InRangeIff(head, a.sector - 1, g.cylinders * g.heads, g.sectors);
  }

  lemma InRangeIff(q: nat, r: nat, limit: nat, d: nat)
    requires r < d
    ensures q * d + r < limit * d <==> q < limit
  {
    if q < limit {
      Multiple(limit - q, d);
      assert limit * d == q * d + (limit - q) * d;
    } else {
      assert q * d == limit * d + (q - limit) * d;
    }
  }

  /** Different sectors get different addresses, and every address within the geometry is used. */
  lemma AddressesAreUnique(g: Geometry, a: Address, b: Address)
    requires Within(g, a) && Within(g, b) && Linear(g, a) == Linear(g, b)
    ensures a == b
  {
    hide Track;
    DivisionIsUnique(Track(g, a), a.sector - 1, Track(g, b), b.sector - 1, g.sectors);
    SameTrack(g, a, b);
  }

  lemma SameTrack(g: Geometry, a: Address, b: Address)
    requires a.head < g.heads && b.head < g.heads && Track(g, a) == Track(g, b)
    ensures a.cylinder == b.cylinder && a.head == b.head
  {
    DivisionIsUnique(a.cylinder, a.head, b.cylinder, b.head, g.heads);
  }

  lemma EveryAddressIsUsed(g: Geometry, a: Address)
    requires Within(g, a)
    ensures 0 <= Linear(g, a) < g.cylinders * g.heads * g.sectors
  {
    InRangeIff(a.cylinder, a.head, g.cylinders, g.heads);
    InRangeIff(Track(g, a), a.sector - 1, g.cylinders * g.heads, g.sectors);
  }
}
