/** The chains of replaced blocks that wait for their release (src/dynarec/dynablock.c): a block
    that is gone is kept by the one that took its place, which may be gone itself by now. A gone
    block that no chain leads to is never released. */
module KeptBlocks {
  import opened BlockTable

  /** A chain of blocks, each keeping the next, that begins at one in use. */
  ghost predicate Chain(b: Blocks, c: seq<Ptr>) {
    && |c| > 0 && c[0] in b && !b[c[0]].gone
    && forall i | 0 < i < |c| :: Keeps(b, c[i - 1], c[i])
  }

  predicate Keeps(b: Blocks, p: Ptr, q: Ptr) {
    p in b && b[p].previous == q && q != NULL && q in b
  }

  ghost predicate Reached(b: Blocks, p: Ptr) {
    exists c :: Chain(b, c) && c[|c| - 1] == p
  }

  /** Every block that is gone can still be released, by way of one in use. */
  ghost predicate NoneLost(b: Blocks) {
    forall p | p in b && b[p].gone :: Reached(b, p)
  }

  lemma ReachedIsKept(b: Blocks, p: Ptr)
    requires p in b && b[p].gone && Reached(b, p)
    ensures exists k :: Keeps(b, k, p)
  {
    var c :| Chain(b, c) && c[|c| - 1] == p;
    assert |c| > 1;
    assert Keeps(b, c[|c| - 2], c[|c| - 1]);
  }

  /** A gone block that none keeps is lost. */
  lemma UnkeptIsLost(b: Blocks, p: Ptr)
    requires p in b && b[p].gone && forall k | k in b :: b[k].previous != p
    ensures !NoneLost(b)
  {
    if Reached(b, p) { ReachedIsKept(b, p); }
  }

  /** All but the first block of a chain are gone. */
  lemma ChainGone(b: Blocks, c: seq<Ptr>, i: nat)
    requires Links(b) && Chain(b, c) && 0 < i < |c|
    ensures c[i] in b && b[c[i]].gone
  {
    assert Keeps(b, c[i - 1], c[i]);
  }

  /** A chain whose blocks keep what they kept is a chain still. */
  lemma ChainStays(b: Blocks, c: seq<Ptr>, now: Blocks)
    requires Chain(b, c) && c[0] in now && !now[c[0]].gone
    requires forall i | 0 <= i < |c| :: c[i] in now && c[i] in b && now[c[i]].previous == b[c[i]].previous
    ensures Chain(now, c)
  {
    forall i | 0 < i < |c| ensures Keeps(now, c[i - 1], c[i]) { assert Keeps(b, c[i - 1], c[i]); }
  }

  /** Freeing a block loses what the block it kept kept: nothing is lost exactly when that kept
      none. */
  lemma FreedLoses(b: Blocks, p: Ptr)
    requires Links(b) && NoneLost(b) && p in b && !b[p].gone
    ensures NoneLost(Freed(b, p)) <==> b[p].previous == NULL || b[b[p].previous].previous == NULL
  {
    var k, now := b[p].previous, Freed(b, p);
    if k == NULL || b[k].previous == NULL {
      forall q | q in now && now[q].gone ensures Reached(now, q) {
        assert Reached(b, q);
        var c :| Chain(b, c) && c[|c| - 1] == q;
        AvoidsFreed(b, p, c);
        forall i | 0 <= i < |c| ensures c[i] in now && c[i] in b { InChain(b, c, i); }
        ChainStays(b, c, now);
      }
    } else {
      var g := b[k].previous;
      assert g in now && now[g].gone;
      UnkeptIsLost(now, g);
    }
  }

  lemma InChain(b: Blocks, c: seq<Ptr>, i: nat)
    requires Chain(b, c) && i < |c|
    ensures c[i] in b
  {
    if i > 0 { assert Keeps(b, c[i - 1], c[i]); }
  }

  /** A chain that ends elsewhere does not go over a block to be freed, nor over the one it
      keeps, when that is the end of its own chain. */
  lemma AvoidsFreed(b: Blocks, p: Ptr, c: seq<Ptr>)
    requires Links(b) && Chain(b, c) && p in b && !b[p].gone
    requires b[p].previous == NULL || b[b[p].previous].previous == NULL
    requires c[|c| - 1] != p && c[|c| - 1] != b[p].previous
    ensures forall i | 0 <= i < |c| :: c[i] != p && c[i] != b[p].previous
  {
    var k := b[p].previous;
    forall i | 0 <= i < |c| ensures c[i] != p && c[i] != k {
      InChain(b, c, i);
      if i + 1 < |c| { assert Keeps(b, c[i], c[i + 1]); }
      if i > 0 {
        ChainGone(b, c, i);
        assert Keeps(b, c[i - 1], c[i]);
      }
      if i + 2 < |c| { assert Keeps(b, c[i + 1], c[i + 2]); }
    }
  }

  /** A block in use that goes without being kept takes what it kept along: nothing is lost
      exactly when it kept none. */
  lemma ReleasedLoses(b: Blocks, p: Ptr)
    requires Links(b) && NoneLost(b) && p in b && !b[p].gone
    ensures NoneLost(b - {p}) <==> b[p].previous == NULL
  {
    var now, k := b - {p}, b[p].previous;
    if k == NULL {
      forall q | q in now && now[q].gone ensures Reached(now, q) {
        assert Reached(b, q);
        var c :| Chain(b, c) && c[|c| - 1] == q;
        forall i | 0 <= i < |c| ensures c[i] in now && c[i] in b {
          InChain(b, c, i);
          if i + 1 < |c| { assert Keeps(b, c[i], c[i + 1]); }
        }
        ChainStays(b, c, now);
      }
    } else {
      assert k in now && now[k].gone;
      UnkeptIsLost(now, k);
    }
  }

  /** A replacement loses nothing: it keeps the block, and what that kept. */
  lemma ReplacedLosesNone(b: Blocks, p: Ptr, r: Ptr, now: Blocks)
    requires Links(b) && NoneLost(b) && Replaced(b, p, r, now)
    requires forall q | q in now && q != r :: q in b
    ensures NoneLost(now)
  {
    forall q | q in now && now[q].gone ensures Reached(now, q) {
      if q == p {
        var c := [r, p];
        assert Keeps(now, r, p);
        assert Chain(now, c);
      } else {
        assert Reached(b, q);
        var c :| Chain(b, c) && c[|c| - 1] == q;
        ChainReplaced(b, p, r, now, c);
      }
    }
  }

  lemma ChainReplaced(b: Blocks, p: Ptr, r: Ptr, now: Blocks, c: seq<Ptr>)
    requires Links(b) && Replaced(b, p, r, now) && Chain(b, c) && c[|c| - 1] != p && |c| > 1
    ensures Reached(now, c[|c| - 1])
  {
    forall i | 0 < i < |c| ensures c[i] != p && c[i] in b && Keeps(b, c[i - 1], c[i]) {
      ChainGone(b, c, i);
    }
    forall i | 0 < i < |c| ensures Keeps(now, c[i - 1], c[i]) {
      assert c[i - 1] in b && c[i - 1] != r by {
        InChain(b, c, i - 1);
        assert Keeps(b, c[i - 1], c[i]);
      }
      if c[i] == r { ChainGone(b, c, i); }
    }
    if c[0] == p {
      var d := [r] + c;
      assert Keeps(now, r, p);
      forall i | 0 < i < |d| ensures Keeps(now, d[i - 1], d[i]) {
        if i > 1 { assert Keeps(now, c[i - 2], c[i - 1]); }
      }
      assert Chain(now, d) && d[|d| - 1] == c[|c| - 1];
    } else {
      assert Chain(now, c);
    }
  }

  /** A block that lost its registration to cur is kept by it, or released; then nothing is lost
      exactly when it kept none. */
  lemma LostLoses(b: Blocks, p: Ptr, cur: Ptr)
    requires Links(b) && NoneLost(b) && p in b && !b[p].gone && cur != p
    requires cur != NULL ==> cur in b && !b[cur].gone
    ensures NoneLost(Lost(b, p, cur)) <==> (cur == NULL || b[cur].previous != NULL ==> b[p].previous == NULL)
  {
    if cur == NULL || b[cur].previous != NULL {
      ReleasedLoses(b, p);
    } else {
      ReplacedLosesNone(b, p, cur, Lost(b, p, cur));
    }
  }

  /** A new block loses nothing. */
  lemma AddedLosesNone(b: Blocks, at: Ptr, d: Dynablock)
    requires NoneLost(b) && at !in b && !d.gone
    ensures NoneLost(b[at := d])
  {
    var now := b[at := d];
    forall q | q in now && now[q].gone ensures Reached(now, q) {
      assert Reached(b, q);
      var c :| Chain(b, c) && c[|c| - 1] == q;
      forall i | 0 <= i < |c| ensures c[i] in now && c[i] in b { InChain(b, c, i); }
      ChainStays(b, c, now);
    }
  }

  /** Freeing many blocks, each with the one it kept, loses what those kept: nothing is lost
      exactly when none of them kept any. */
  lemma FreedAllLoses(b: Blocks, freed: set<Ptr>)
    requires Links(b) && NoneLost(b) && forall p | p in freed :: p in b && !b[p].gone
    ensures NoneLost(FreedAll(b, freed)) <==> forall p | p in freed :: KeptShort(b, p)
  {
    var now := FreedAll(b, freed);
    if p :| p in freed && !KeptShort(b, p) {
      var k := b[p].previous;
      var g := b[k].previous;
      GrandStays(b, freed, p);
      UnkeptIsLost(now, g);
    } else {
      forall q | q in now && now[q].gone ensures Reached(now, q) {
        assert Reached(b, q);
        var c :| Chain(b, c) && c[|c| - 1] == q;
        forall i | 0 <= i < |c| ensures c[i] in now && c[i] in b {
          InChain(b, c, i);
          forall p | p in freed ensures c[i] != p && c[i] != b[p].previous {
            assert b[p].previous in (set x | x in freed && x in b :: b[x].previous);
            AvoidsFreed(b, p, c);
          }
        }
        ChainStays(b, c, now);
      }
    }
  }

  /** The chain behind p ends with the block that p keeps. */
  predicate KeptShort(b: Blocks, p: Ptr)
    requires p in b
  {
    b[p].previous == NULL || (b[p].previous in b && b[b[p].previous].previous == NULL)
  }

  /** The block behind the one that p keeps is not freed, and nobody keeps it any more. */
  lemma GrandStays(b: Blocks, freed: set<Ptr>, p: Ptr)
    requires Links(b) && p in freed && (forall q | q in freed :: q in b && !b[q].gone) && !KeptShort(b, p)
    ensures var g, now := b[b[p].previous].previous, FreedAll(b, freed);
            g in now && now[g].gone && forall k | k in now :: now[k].previous != g
  {
    var k, now := b[p].previous, FreedAll(b, freed);
    var g, gone := b[k].previous, set q | q in freed && q in b :: b[q].previous;
    assert k in gone;
    forall q | q in freed ensures b[q].previous != g && q != g {}
    assert g in now;
  }

  /** What a look-up does not lose: a block in use that it takes away kept none. */
  ghost predicate SparedByLookup(b: Blocks, now: Blocks) {
    forall p | p in b && !b[p].gone && p !in now :: b[p].previous == NULL
  }

  /** What a destruction does not lose: a block in use that it takes away keeps none that keeps
      another. */
  ghost predicate SparedByDestroy(b: Blocks, now: Blocks) {
    forall p | p in b && !b[p].gone && p !in now :: KeptShort(b, p)
  }

  /** Whether anything is lost between b and now, when the look-up is all that happens. */
  ghost predicate LookupKeeps(b: Blocks, now: Blocks) {
    NoneLost(b) ==> (NoneLost(now) <==> SparedByLookup(b, now))
  }

  ghost predicate DestroyKeeps(b: Blocks, now: Blocks) {
    NoneLost(b) ==> (NoneLost(now) <==> SparedByDestroy(b, now))
  }

  lemma RemadeKeeps(b: Blocks, now: Blocks, p: Ptr, r: Ptr)
    requires Links(b) && p in b && !b[p].gone
    requires if r == NULL then now == b - {p} else Replaced(b, p, r, now) && now.Keys == b.Keys + {r}
    ensures LookupKeeps(b, now)
  {
    if NoneLost(b) {
      if r == NULL { ReleasedLoses(b, p); } else { ReplacedLosesNone(b, p, r, now); }
    }
  }

  /** A block was made, and something happened then. */
  lemma MadeThenKeeps(b: Blocks, at: Ptr, mid: Blocks, now: Blocks)
    requires at !in b && at in mid && mid == b[at := mid[at]] && !mid[at].gone && mid[at].previous == NULL
    requires LookupKeeps(mid, now)
    ensures LookupKeeps(b, now) && LookupKeeps(b, mid)
  {
    if NoneLost(b) {
      AddedLosesNone(b, at, mid[at]);
      if SparedByLookup(b, now) {
        forall p | p in mid && !mid[p].gone && p !in now ensures mid[p].previous == NULL {
          if p != at { assert p in b; }
        }
      }
      if SparedByLookup(mid, now) {
        forall p | p in b && !b[p].gone && p !in now ensures b[p].previous == NULL { assert mid[p] == b[p]; }
      }
    }
  }

  lemma DestroyedKeeps(b: Blocks, freed: set<Ptr>)
    requires Links(b) && forall p | p in freed :: p in b && !b[p].gone
    ensures DestroyKeeps(b, FreedAll(b, freed))
  {
    var now, kept := FreedAll(b, freed), set q | q in freed && q in b :: b[q].previous;
    forall p, q | p in b && !b[p].gone && q in freed ensures b[q].previous != p {}
    forall p | p in b && !b[p].gone ensures p !in now <==> p in freed { assert p !in kept; }
    if NoneLost(b) { FreedAllLoses(b, freed); }
  }
}
