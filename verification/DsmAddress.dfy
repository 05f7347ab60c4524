/**
The address arithmetic of HW3P2/s2dsm_P2.c: from a faulting address to a page number, and from
there to the destination that the fault is resolved at. Bits are counted explicitly.
*/
module DsmAddress {
  import opened Division

  function Pow2(k: nat): (r: nat)
    ensures 0 < r
  {
    if k == 0 then 1 else 2 * Pow2(k - 1)
  }

  /** Bitwise `&` of two unsigned words. */
  function And(x: nat, y: nat): nat
    decreases x
  {
    if x == 0 then 0 else 2 * And(x / 2, y / 2) + (x % 2) * (y % 2)
  }

  /** `~(page_size - 1)` for a page of 2^k bytes, as a word of `width` bits. */
  function PageMask(width: nat, k: nat): nat
    requires k <= width
  {
    Pow2Grows(k, width);
    Pow2(width) - Pow2(k)
  }

  lemma {:induction false} Pow2Grows(k: nat, width: nat)
    requires k <= width
    ensures Pow2(k) <= Pow2(width)
    decreases width - k
  {
    if k < width {
      Pow2Grows(k, width - 1);
    }
  }

  lemma {:induction false} AndAllOnes(x: nat, width: nat)
    requires x < Pow2(width)
    ensures And(x, Pow2(width) - 1) == x
    decreases width
  {
    if x > 0 {
      AndAllOnes(x / 2, width - 1);
      assert (Pow2(width) - 1) / 2 == Pow2(width - 1) - 1;
      assert (Pow2(width) - 1) % 2 == 1;
    }
  }

  /** Remainders by a power of two, one bit at a time. */
  lemma RemainderByBits(x: nat, half: nat)
    requires 0 < half
    ensures x % (2 * half) == 2 * ((x / 2) % half) + x % 2
  {
    var q, r := (x / 2) / half, (x / 2) % half;
    assert x / 2 == q * half + r;
    assert x == q * (2 * half) + (2 * r + x % 2);
    Divided(x, q, 2 * r + x % 2, 2 * half);
  }

  lemma MaskByBits(width: nat, k: nat)
    requires 0 < k <= width
    ensures PageMask(width, k) == 2 * PageMask(width - 1, k - 1)
  {
  }

  lemma AndEven(x: nat, half: nat)
    ensures And(x, 2 * half) == 2 * And(x / 2, half)
  {
    assert (2 * half) / 2 == half && (2 * half) % 2 == 0;
  }

  lemma HalfFirst(x: nat, half: nat)
    requires 0 < half
    ensures x / (2 * half) == (x / 2) / half
  {
    var q, r := (x / 2) / half, (x / 2) % half;
    assert x / 2 == q * half + r;
    assert x == q * (2 * half) + (2 * r + x % 2);
    Divided(x, q, 2 * r + x % 2, 2 * half);
  }

  /** Every bit of the result is the product of the two bits. */
  lemma {:induction false} AndBits(x: nat, y: nat, j: nat)
    ensures (And(x, y) / Pow2(j)) % 2 == ((x / Pow2(j)) % 2) * ((y / Pow2(j)) % 2)
  {
    var bit := (x % 2) * (y % 2);
    assert bit == 0 || bit == 1;
    assert x > 0 ==> And(x, y) == 2 * And(x / 2, y / 2) + bit;
    assert And(x, y) / 2 == And(x / 2, y / 2) && And(x, y) % 2 == bit;
    if j > 0 {
      hide And;
      var half := Pow2(j - 1);
      assert Pow2(j) == 2 * half;
      AndBits(x / 2, y / 2, j - 1);
      HalfFirst(x, half);
      HalfFirst(y, half);
      HalfFirst(And(x, y), half);
    }
  }

  /** The mask clears the offset inside the page. */
  lemma {:induction false} MaskRoundsDown(x: nat, width: nat, k: nat)
    requires k <= width && x < Pow2(width)
    ensures And(x, PageMask(width, k)) == x - x % Pow2(k)
    decreases k
  {
    if k == 0 {
      AndAllOnes(x, width);
    } else {
      hide PageMask, And;
      MaskByBits(width, k);
      AndEven(x, PageMask(width - 1, k - 1));
      MaskRoundsDown(x / 2, width - 1, k - 1);
      RemainderByBits(x, Pow2(k - 1));
      assert Pow2(k) == 2 * Pow2(k - 1);
    }
  }

  /** The page number that the fault handler computes. */
  function PageFaulted(base: nat, pageSize: nat, address: nat): nat
    requires base <= address && 0 < pageSize
  {
    (address - base) / pageSize
  }

  /** Where the server and the command loop find page `p`. */
  function AddressLoc(base: nat, pageSize: nat, p: nat): nat {
    base + p * pageSize
  }

  /** The same page seen by division and by rounding down, for any page size. */
  lemma PageOfAddress(base: nat, pages: nat, size: nat, address: nat)
    requires 0 < size && base % size == 0
    requires base <= address < base + pages * size
    ensures
      var p := PageFaulted(base, size, address);
      && p < pages
      && address - address % size == AddressLoc(base, size, p)
      && AddressLoc(base, size, p) <= address < AddressLoc(base, size, p) + size
  {
    var p, offset, b := (address - base) / size, (address - base) % size, base / size;
    assert address - base == p * size + offset && base == b * size;
    if pages < p {
      Below(pages, p, size);
    }
    assert address == (b + p) * size + offset;
    Divided(address, b + p, offset, size);
  }

  /**
  For addresses of any width, a page-aligned region of `pages` pages of 2^k bytes and any
  faulting address in it: the page number is in range, and masking the address gives the first
  byte of that very page.
  */
  lemma FaultIsResolvedInPlace(base: nat, pages: nat, k: nat, address: nat, width: nat)
    requires k <= width && base % Pow2(k) == 0
    requires base <= address < base + pages * Pow2(k) <= Pow2(width)
    ensures
      var p := PageFaulted(base, Pow2(k), address);
      && p < pages
      && And(address, PageMask(width, k)) == AddressLoc(base, Pow2(k), p)
      && AddressLoc(base, Pow2(k), p) <= address < AddressLoc(base, Pow2(k), p) + Pow2(k)
  {
    hide Pow2, And;
    PageOfAddress(base, pages, Pow2(k), address);
    MaskRoundsDown(address, width, k);
  }

  lemma PlacesDiffer(base: nat, size: nat, p: nat, q: nat)
    requires 0 < size && p < q
    ensures AddressLoc(base, size, p) + size <= AddressLoc(base, size, q)
  {
    Below(p, q, size);
  }

  /** Two addresses fault on the same page exactly when the mask sends them to the same place. */
  lemma MaskIdentifiesPage(base: nat, pages: nat, k: nat, a: nat, b: nat, width: nat)
    requires k <= width && base % Pow2(k) == 0
    requires base <= a < base + pages * Pow2(k) <= Pow2(width)
    requires base <= b < base + pages * Pow2(k)
    ensures PageFaulted(base, Pow2(k), a) == PageFaulted(base, Pow2(k), b) <==>
            And(a, PageMask(width, k)) == And(b, PageMask(width, k))
  {
    hide Pow2, And;
    FaultIsResolvedInPlace(base, pages, k, a, width);
    FaultIsResolvedInPlace(base, pages, k, b, width);
    var p, q := PageFaulted(base, Pow2(k), a), PageFaulted(base, Pow2(k), b);
    if p < q {
      PlacesDiffer(base, Pow2(k), p, q);
    } else if q < p {
      PlacesDiffer(base, Pow2(k), q, p);
    }
  }
}
