/** The live allocations of a list of blocks, seen as values: what the two allocators of
    src/custommem.c promise is said in these terms. */
module Allocations {
  import opened BlockChain

  /** Requests are rounded up to 8 bytes and to a least size. */
  function RoundSize(size: nat): nat {
    if size == 0 then 0
    else
      var s := (size + 7) / 8 * 8;
      if s < THRESHOLD then THRESHOLD else s
  }

  /** The rounded size is the least aligned size that serves the request and can be given
      back, and rounding again changes nothing. */
  lemma RoundSizeLeast(size: nat)
    requires size > 0
    ensures var r := RoundSize(size);
            && r % 8 == 0 && r >= size && r >= THRESHOLD && RoundSize(r) == r
            && forall t | t % 8 == 0 && t >= size && t >= THRESHOLD :: r <= t
  {
    assert (size + 7) / 8 * 8 < size + 8;
    forall t | t % 8 == 0 && t >= size && t >= THRESHOLD ensures RoundSize(size) <= t {
      assert t / 8 * 8 == t;
    }
  }

  /** All live payloads of a list of blocks, by block. */
  ghost function AllOf(lives: seq<set<(int, int)>>): set<(int, int, int)> {
    set i, p | 0 <= i < |lives| && p in lives[i] :: (i, p.0, p.1)
  }

  lemma AllOfAt(lives: seq<set<(int, int)>>, a: (int, int, int))
    ensures a in AllOf(lives) <==> 0 <= a.0 < |lives| && (a.1, a.2) in lives[a.0]
  {
    if 0 <= a.0 < |lives| && (a.1, a.2) in lives[a.0] {
      var i, p := a.0, (a.1, a.2);
      assert 0 <= i < |lives| && p in lives[i] && a == (i, p.0, p.1);
    }
  }

  lemma AllOfGains(lives: seq<set<(int, int)>>, i: int, p: (int, int))
    requires 0 <= i < |lives|
    ensures AllOf(lives[i := lives[i] + {p}]) == AllOf(lives) + {(i, p.0, p.1)}
  {
    forall a ensures a in AllOf(lives[i := lives[i] + {p}]) <==> a in AllOf(lives) + {(i, p.0, p.1)} {
      AllOfAt(lives, a);
      AllOfAt(lives[i := lives[i] + {p}], a);
    }
  }

  lemma AllOfLoses(lives: seq<set<(int, int)>>, i: int, p: (int, int))
    requires 0 <= i < |lives|
    ensures AllOf(lives[i := lives[i] - {p}]) == AllOf(lives) - {(i, p.0, p.1)}
  {
    forall a ensures a in AllOf(lives[i := lives[i] - {p}]) <==> a in AllOf(lives) - {(i, p.0, p.1)} {
      AllOfAt(lives, a);
      AllOfAt(lives[i := lives[i] - {p}], a);
    }
  }

  lemma AllOfGrows(lives: seq<set<(int, int)>>, p: (int, int))
    ensures AllOf(lives + [{p}]) == AllOf(lives) + {(|lives|, p.0, p.1)}
  {
    forall a ensures a in AllOf(lives + [{p}]) <==> a in AllOf(lives) + {(|lives|, p.0, p.1)} {
      AllOfAt(lives, a);
      AllOfAt(lives + [{p}], a);
    }
  }

  /** The live payloads of block i that are not in `gone`. */
  ghost function Staying(lives: seq<set<(int, int)>>, i: int, gone: set<(int, int, int)>): set<(int, int)>
    requires 0 <= i < |lives|
  {
    set p | p in lives[i] && (i, p.0, p.1) !in gone
  }

  /** The memories `now` hold the live contents that `mems` held, but those of `gone`. */
  ghost predicate KeptOver(mems: seq<seq<Cell>>, lives: seq<set<(int, int)>>, gone: set<(int, int, int)>,
                           now: seq<seq<Cell>>)
    requires |mems| == |lives|
  {
    |mems| <= |now| && forall i | 0 <= i < |mems| && Staying(lives, i, gone) != {} ::
      SameCells(mems[i], now[i], Staying(lives, i, gone))
  }

  function CellsOf(mems: seq<seq<Cell>>, a: (int, int, int)): seq<Cell> {
    if 0 <= a.0 < |mems| && 0 <= a.1 && 0 <= a.2 && a.1 + a.2 <= |mems[a.0]| then mems[a.0][a.1..a.1 + a.2] else []
  }

  /** An allocation that stayed has the cells it had. */
  lemma KeptAt(mems: seq<seq<Cell>>, lives: seq<set<(int, int)>>, gone: set<(int, int, int)>, now: seq<seq<Cell>>,
               a: (int, int, int))
    requires |mems| == |lives| && KeptOver(mems, lives, gone, now) && a in AllOf(lives) && a !in gone
    ensures CellsOf(now, a) == CellsOf(mems, a)
  {
    AllOfAt(lives, a);
    var i, p := a.0, (a.1, a.2);
    assert p in Staying(lives, i, gone) && SameCells(mems[i], now[i], Staying(lives, i, gone));
    assert forall j | p.0 <= j < p.0 + p.1 && 0 <= j < |mems[i]| :: now[i][j] == mems[i][j];
  }

  lemma KeptSame(mems: seq<seq<Cell>>, lives: seq<set<(int, int)>>, gone: set<(int, int, int)>, now: seq<seq<Cell>>)
    requires |mems| == |lives| && mems <= now
    ensures KeptOver(mems, lives, gone, now)
  {}

  lemma KeptTrans(m0: seq<seq<Cell>>, l0: seq<set<(int, int)>>, g0: set<(int, int, int)>,
      m1: seq<seq<Cell>>, l1: seq<set<(int, int)>>, g1: set<(int, int, int)>, m2: seq<seq<Cell>>,
        g: set<(int, int, int)>)
    requires |m0| == |l0| && |m1| == |l1| && KeptOver(m0, l0, g0, m1) && KeptOver(m1, l1, g1, m2)
    requires forall x | x in AllOf(l0) && x !in g :: x !in g0 && x in AllOf(l1) && x !in g1
    ensures KeptOver(m0, l0, g, m2)
  {
    forall i | 0 <= i < |m0| && Staying(l0, i, g) != {} ensures i < |m2| && SameCells(m0[i], m2[i], Staying(l0, i, g)) {
      forall p | p in Staying(l0, i, g) ensures p in Staying(l0, i, g0) && i < |l1| && p in Staying(l1, i, g1) {
        AllOfAt(l0, (i, p.0, p.1));
        AllOfAt(l1, (i, p.0, p.1));
      }
      var p :| p in Staying(l0, i, g);
      assert SameCells(m0[i], m1[i], Staying(l0, i, g0)) && SameCells(m1[i], m2[i], Staying(l1, i, g1));
    }
  }
}
