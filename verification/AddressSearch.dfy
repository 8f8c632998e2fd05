/** The search for free guest address space (src/custommem.c, findBlockHinted): over the map
    of everything that is mapped, whatever is recorded there. The program-break check at the
    start of the source's function only adds to that map. */
module AddressSearch {
  import opened RangeTree

  const LOWEST := 0x10000
  const MEDIAN := 0x4000_0000
  const KERNEL := 0xC000_0000
  const NULL := 0

  /** A mask of low bits, as (x + mask) & ~mask needs to round up. */
  predicate IsMask(mask: int) {
    mask == 0 || (mask > 0 && mask % 2 == 1 && IsMask(mask / 2))
  }

  /** The 32-bit value of (x + mask) & ~mask. */
  function RoundUp(x: int, mask: int): int
    requires mask >= 0
  {
    var y := x + mask;
    (y - Rem(y, mask + 1)) % 0x1_0000_0000
  }

  /** [c, c + size) is below the top of memory and nothing in it, nor c itself, is mapped. */
  ghost predicate Free<T>(runs: seq<Run<T>>, c: int, size: int) {
    c + size <= TOP && At(runs, c) == None && Uniform(runs, c, c + size, None)
  }

  /** The addresses considered: the hint itself and the aligned ones above it. */
  predicate Candidate(hint: int, mask: int, c: int)
    requires mask >= 0
  {
    c == hint || (c > hint && OnPage(c, mask + 1))
  }

  /** No candidate below `limit` is free. */
  ghost predicate NoneBelow<T>(runs: seq<Run<T>>, size: int, hint: int, mask: int, limit: int)
    requires mask >= 0
  {
    forall c | Candidate(hint, mask, c) && c < limit :: !Free(runs, c, size)
  }

  lemma RoundUpIsLeast(x: int, mask: int)
    requires mask >= 0 && 0 <= x && x + mask < TOP
    ensures x <= RoundUp(x, mask) <= x + mask && OnPage(RoundUp(x, mask), mask + 1)
  {
    var m, y := mask + 1, x + mask;
    assert y - Rem(y, m) == y / m * m;
    MultipleOf(y / m, m);
  }

  /** No multiple of the alignment lies between x and x rounded up. */
  lemma NoneBetween(x: int, mask: int, c: int)
    requires mask >= 0 && 0 <= x <= c < RoundUp(x, mask) && x + mask < TOP
    ensures !OnPage(c, mask + 1)
  {
    var m, y := mask + 1, x + mask;
    var q := Quotient(y, m);
    var k := Quotient(c, m);
    hide Rem;
    if OnPage(c, m) { NoMultiple(q, k, m, x); }
  }

  lemma Quotient(y: int, m: int) returns (q: int)
    requires m > 0
    ensures y == q * m + Rem(y, m) && 0 <= Rem(y, m) < m
  {
    q := y / m;
  }

  lemma NoMultiple(q: int, k: int, m: int, x: int)
    requires m > 0 && q * m <= x + m - 1 && x <= k * m
    ensures q * m <= k * m
  {
    assert (k + 1) * m == k * m + m;
    if k < q {
      Scales(k + 1, q, m);
    } else {
      Scales(q, k, m);
    }
  }

  lemma MultipleOf(q: int, m: int)
    requires m > 0
    ensures OnPage(q * m, m)
  {
    var r, k := (q * m) % m, (q * m) / m;
    assert (q - k) * m == r;
    if q - k >= 1 { Scales(1, q - k, m); } else if q - k <= -1 { Scales(q - k, -1, m); }
  }

  lemma Scales(a: int, b: int, m: int)
    requires a <= b && m > 0
    ensures a * m <= b * m
  {}

  /** Within one run: a gap too small, or something mapped, holds no free candidate. */
  lemma RunRefused<T>(runs: seq<Run<T>>, cur: int, bend: int, v: Option<T>, size: int, c: int)
    requires 0 <= cur <= bend <= TOP && v == At(runs, cur) && Uniform(runs, cur, bend, v) && size >= 0
    requires v == None ==> bend - cur < size && (bend < TOP ==> At(runs, bend) != None)
    requires cur <= c < bend || (c == cur && cur == bend)
    ensures !Free(runs, c, size)
  {
    assert At(runs, c) == v;
    if v == None && bend < TOP { assert At(runs, bend) != None; }
  }

  /** The lowest free candidate; NULL is answered only when no candidate is free: from a hint below
      the kernel's space none below it, otherwise none at which the alignment does not wrap. */
  method FindBlockHinted<T>(mapallmem: seq<Run<T>>, hint0: int, size: int, mask0: int) returns (r: int)
    requires Sorted(mapallmem) && 0 <= hint0 <= TOP && 0 <= size <= TOP && 0 <= mask0 <= TOP && IsMask(mask0)
    ensures var (hint, mask) := (if hint0 < 0x1_0000 then 0x1_0000 else hint0, if mask0 == 0 then 0xFFFF else mask0);
            && (r != NULL ==> r >= 0x1_0000 && Candidate(hint, mask, r) && Free(mapallmem, r, size))
            && NoneBelow(mapallmem, size, hint, mask,
                         if r != NULL then r
                         else if hint < 0xC000_0000 && mask < 0x3FFF_FFFF then 0xC000_0000
                         else 0xFFFF_FFFF - mask)
  {
    hide At, Rem;
    var hint, mask := hint0, mask0;
    if hint < LOWEST {
      hint := LOWEST;
    }
    var bend, cur := 0, hint;
    if mask == 0 {
      mask := 0xFFFF;
    }
    var endMem := TOP - mask;
    while bend < endMem
      invariant 0 <= bend <= TOP && (bend == 0 ==> cur == hint)
      invariant 0 < bend < endMem ==> hint < bend && cur == RoundUp(bend, mask)
      invariant NoneBelow(mapallmem, size, hint, mask, bend)
      decreases TOP - bend
    {
      NoneTo(mapallmem, size, hint, mask, bend, cur);
      var v;
      v, bend := GetEnd(mapallmem, cur);
      if v == None {
        if bend - cur >= size {
          return cur;
        }
        SearchedOn(mapallmem, size, hint, mask, cur, bend, v);
        if bend >= KERNEL && hint < KERNEL {
          return NULL;
        }
      } else {
        SearchedOn(mapallmem, size, hint, mask, cur, bend, v);
      }
      cur := RoundUp(bend, mask);
    }
    return NULL;
  }

  /** Skipping to the next aligned address skips no candidate. */
  lemma NoneTo<T>(runs: seq<Run<T>>, size: int, hint: int, mask: int, bend: int, cur: int)
    requires mask >= 0 && 0 <= bend && bend + mask < TOP && NoneBelow(runs, size, hint, mask, bend)
    requires if bend == 0 then cur == hint else hint < bend && cur == RoundUp(bend, mask)
    ensures NoneBelow(runs, size, hint, mask, cur) && Candidate(hint, mask, cur)
    ensures bend > 0 ==> bend <= cur <= bend + mask
  {
    if bend > 0 {
      RoundUpIsLeast(bend, mask);
      forall c | Candidate(hint, mask, c) && c < cur ensures !Free(runs, c, size) {
        if c >= bend { NoneBetween(bend, mask, c); }
      }
    }
  }

  lemma SearchedOn<T>(runs: seq<Run<T>>, size: int, hint: int, mask: int, cur: int, bend: int, v: Option<T>)
    requires mask >= 0 && NoneBelow(runs, size, hint, mask, cur)
    requires 0 <= cur <= bend <= TOP && v == At(runs, cur) && Uniform(runs, cur, bend, v) && size >= 0
    requires v == None ==> bend - cur < size && (bend < TOP ==> At(runs, bend) != None)
    ensures NoneBelow(runs, size, hint, mask, bend)
  {
    forall c | Candidate(hint, mask, c) && c < bend ensures !Free(runs, c, size) {
      if c >= cur { RunRefused(runs, cur, bend, v, size, c); }
    }
  }

  /** No 64K boundary in [lo, hi) is free. */
  ghost predicate NoneWithin<T>(runs: seq<Run<T>>, size: int, lo: int, hi: int) {
    forall c | lo <= c < hi && OnPage(c, 0x10000) :: !Free(runs, c, size)
  }

  /** Searches from the middle of the address space and, failing that, from its start; NULL
      is answered only when no 64K boundary below the kernel's space is free. */
  method Find32bitBlock<T>(mapallmem: seq<Run<T>>, size: int) returns (r: int)
    requires Sorted(mapallmem) && 0 <= size <= TOP
    ensures r != NULL ==> Free(mapallmem, r, size) && r >= LOWEST && OnPage(r, 0x10000)
    ensures r == NULL ==> NoneWithin(mapallmem, size, 0x1_0000, 0xC000_0000)
    ensures r >= 0x4000_0000 ==> NoneWithin(mapallmem, size, 0x4000_0000, r)
    ensures 0 < r < 0x4000_0000 ==>
              NoneWithin(mapallmem, size, 0x4000_0000, 0xC000_0000) && NoneWithin(mapallmem, size, 0x1_0000, r)
  {
    r := FindBlockHinted(mapallmem, MEDIAN, size, 0);
    if r == NULL {
      r := FindBlockHinted(mapallmem, LOWEST, size, 0);
    }
  }
}
