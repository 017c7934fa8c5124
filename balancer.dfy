/** The position balancer: three ordered passes that move players whose second
    choice is the short position from one pool to the other. */
module Balancer {
  import opened Seqs
  import opened Roster

  /** Fewest defence players the first pass tries to reach. */
  const CriticalD: nat := 6

  /** The players of `pool` whose second choice is `pos`, in pool order. */
  function Candidates(pool: seq<Player>, pos: string): seq<Player> {
    Filter(pool, SecondIs(pos))
  }

  /** Walking `pool` in order, the first `needed` candidates for `pos` are
      moved out and everyone else stays, in order. */
  function Split(pool: seq<Player>, pos: string, needed: nat): (r: (seq<Player>, seq<Player>))
    ensures |r.0| <= needed && |r.0| + |r.1| == |pool|
    ensures forall p :: p in r.0 ==> p in pool && p.second == pos
    ensures forall p :: p in r.1 ==> p in pool
    decreases |pool|
  {
    if pool == [] then ([], [])
    else
      var (moved, rest) := Split(pool[..|pool| - 1], pos, needed);
      var p := pool[|pool| - 1];
      if p.second == pos && |moved| < needed then (moved + [p], rest) else (moved, rest + [p])
  }

  /** A pass moves exactly the first `needed` candidates in pool order (all of
      them when there are fewer). */
  lemma {:induction false} SplitMovesFirstCandidates(pool: seq<Player>, pos: string, needed: nat)
    ensures var c := Candidates(pool, pos);
      Split(pool, pos, needed).0 == c[..Min(needed, |c|)]
    decreases |pool|
  {
    if pool != [] {
      var init := pool[..|pool| - 1];
      var p := pool[|pool| - 1];
      assert pool == init + [p];
      SplitMovesFirstCandidates(init, pos, needed);
      FilterSnoc(init, p, SecondIs(pos));
    }
  }

  /** One more player at the end of the pool: moved when a candidate and
      the need is not yet met, otherwise kept. */
  lemma SplitSnoc(init: seq<Player>, p: Player, pos: string, needed: nat)
    ensures var r0 := Split(init, pos, needed);
      Split(init + [p], pos, needed) ==
        if p.second == pos && |r0.0| < needed then (r0.0 + [p], r0.1) else (r0.0, r0.1 + [p])
  {
    assert (init + [p])[..|init|] == init;
  }

  /** A pass over `pool` walks it up to `j`, moving the candidates it meets
      and keeping the others in order; everything from `j` on stays in
      place. When fewer than `needed` move, the walk covered the whole pool. */
  predicate WalkedTo(pool: seq<Player>, pos: string, needed: nat, j: nat) {
    var r := Split(pool, pos, needed);
    j <= |pool| &&
    r.0 == Filter(pool[..j], SecondIs(pos)) &&
    r.1 == Filter(pool[..j], Not(SecondIs(pos))) + pool[j..] &&
    (|r.0| < needed ==> j == |pool|)
  }

  /** Every pass is such a walk: the players it keeps stay in pool order. */
  lemma {:induction false} SplitKeepsOrder(pool: seq<Player>, pos: string, needed: nat) returns (j: nat)
    ensures WalkedTo(pool, pos, needed, j)
    decreases |pool|
  {
    if pool == [] {
      j := 0;
    } else {
      var init, p := pool[..|pool| - 1], pool[|pool| - 1];
      assert pool == init + [p];
      var j' := SplitKeepsOrder(init, pos, needed);
      if |Split(init, pos, needed).0| < needed {
        j := |pool|;
        WalkOn(init, p, pos, needed, j');
      } else {
        j := j';
        WalkStopped(init, p, pos, needed, j');
      }
    }
  }

  /** The walk had not stopped: it goes on over the new player too. */
  lemma WalkOn(init: seq<Player>, p: Player, pos: string, needed: nat, j: nat)
    requires WalkedTo(init, pos, needed, j) && |Split(init, pos, needed).0| < needed
    ensures WalkedTo(init + [p], pos, needed, |init| + 1)
  {
    WalkedAll(init, pos, needed, j);
    SplitWhole(init, p, pos, needed);
    AllWalked(init + [p], pos, needed);
  }

  /** A walk that ran short of candidates covered the whole pool. */
  lemma WalkedAll(pool: seq<Player>, pos: string, needed: nat, j: nat)
    requires WalkedTo(pool, pos, needed, j) && |Split(pool, pos, needed).0| < needed
    ensures Split(pool, pos, needed) == (Filter(pool, SecondIs(pos)), Filter(pool, Not(SecondIs(pos))))
  {
    WholeSlices(pool, j);
    AppendEmpty(Filter(pool, Not(SecondIs(pos))));
  }

  lemma AllWalked(pool: seq<Player>, pos: string, needed: nat)
    requires Split(pool, pos, needed) == (Filter(pool, SecondIs(pos)), Filter(pool, Not(SecondIs(pos))))
    ensures WalkedTo(pool, pos, needed, |pool|)
  {
    WholeSlices(pool, |pool|);
    AppendEmpty(Filter(pool, Not(SecondIs(pos))));
  }

  lemma WholeSlices(s: seq<Player>, j: nat)
    requires j == |s|
    ensures s[..j] == s && s[j..] == []
  {
  }

  lemma AppendEmpty(t: seq<Player>)
    ensures t + [] == t
  {
  }

  /** A pass that took every candidate so far takes the new player too when
      they are one, and otherwise keeps them. */
  lemma SplitWhole(init: seq<Player>, p: Player, pos: string, needed: nat)
    requires |Split(init, pos, needed).0| < needed
    requires Split(init, pos, needed) == (Filter(init, SecondIs(pos)), Filter(init, Not(SecondIs(pos))))
    ensures Split(init + [p], pos, needed) == (Filter(init + [p], SecondIs(pos)), Filter(init + [p], Not(SecondIs(pos))))
  {
    var S, N := SecondIs(pos), Not(SecondIs(pos));
    SplitSnoc(init, p, pos, needed);
    FilterSnoc(init, p, S);
    FilterSnoc(init, p, N);
    if p.second == pos {
      assert Filter(init + [p], N) == Filter(init, N) + [];
    } else {
      assert Filter(init + [p], S) == Filter(init, S) + [];
    }
  }

  /** The walk had stopped: the new player stays, at the end. */
  lemma WalkStopped(init: seq<Player>, p: Player, pos: string, needed: nat, j: nat)
    requires WalkedTo(init, pos, needed, j) && |Split(init, pos, needed).0| >= needed
    ensures WalkedTo(init + [p], pos, needed, j)
  {
    var r0, pool := Split(init, pos, needed), init + [p];
    var kept := Filter(init[..j], Not(SecondIs(pos)));
    SplitFull(init, p, pos, needed);
    assert r0.1 == kept + init[j..];
    SnocSlices(init, p, j);
    assert r0.1 + [p] == kept + (init[j..] + [p]);
  }

  lemma SnocSlices(init: seq<Player>, p: Player, j: nat)
    requires j <= |init|
    ensures (init + [p])[..j] == init[..j] && (init + [p])[j..] == init[j..] + [p]
  {
  }

  /** A pass that has moved all it needs keeps the new player. */
  lemma SplitFull(init: seq<Player>, p: Player, pos: string, needed: nat)
    requires |Split(init, pos, needed).0| >= needed
    ensures Split(init + [p], pos, needed) == (Split(init, pos, needed).0, Split(init, pos, needed).1 + [p])
  {
    SplitSnoc(init, p, pos, needed);
  }

  /** A pass neither loses nor duplicates a player. */
  lemma {:induction false} SplitConserves(pool: seq<Player>, pos: string, needed: nat)
    ensures multiset(Split(pool, pos, needed).0) + multiset(Split(pool, pos, needed).1) == multiset(pool)
    decreases |pool|
  {
    if pool != [] {
      var init := pool[..|pool| - 1];
      assert pool == init + [pool[|pool| - 1]];
      SplitConserves(init, pos, needed);
    }
  }

  /** With no candidate in the pool, a pass changes nothing. */
  lemma {:induction false} SplitWithoutCandidates(pool: seq<Player>, pos: string, needed: nat)
    requires Candidates(pool, pos) == []
    ensures Split(pool, pos, needed) == ([], pool)
    decreases |pool|
  {
    if pool != [] {
      var init := pool[..|pool| - 1];
      var p := pool[|pool| - 1];
      assert pool == init + [p];
      FilterSnoc(init, p, SecondIs(pos));
      SplitWithoutCandidates(init, pos, needed);
    }
  }

  /** One conversion pass (`pool[pool['2nd Choice'] == pos].head(needed)`,
      then dropped from the source pool). */
  method Pass(src: seq<Player>, pos: string, needed: nat) returns (moved: seq<Player>, rest: seq<Player>)
    ensures (moved, rest) == Split(src, pos, needed)
    ensures moved == Candidates(src, pos)[..Min(needed, |Candidates(src, pos)|)]
    ensures multiset(moved) + multiset(rest) == multiset(src)
  {
    moved, rest := [], [];
    var i := 0;
    while i < |src|
      invariant 0 <= i <= |src|
      invariant (moved, rest) == Split(src[..i], pos, needed)
    {
      var p := src[i];
      assert src[..i + 1] == src[..i] + [p];
      if p.second == pos && |moved| < needed {
        moved := moved + [p];
      } else {
        rest := rest + [p];
      }
      i := i + 1;
    }
    assert src[..i] == src;
    SplitMovesFirstCandidates(src, pos, needed);
    SplitConserves(src, pos, needed);
  }

  /** The pools after balancing and the players each pass moved. */
  datatype Balanced = Balanced(
    d: seq<Player>,
    f: seq<Player>,
    lowD: seq<Player>,
    toF: seq<Player>,
    toD: seq<Player>)

  /** The source pool, destination pool and moved players after one pass. */
  datatype Step = Step(src: seq<Player>, dst: seq<Player>, moved: seq<Player>)

  /** A guarded pass from `src` to `dst`: runs only when `dst` is below
      `target`, and then asks for the shortfall. */
  function Transfer(src: seq<Player>, dst: seq<Player>, pos: string, target: nat): (r: Step)
    ensures r.dst == dst + r.moved && |r.src| + |r.moved| == |src|
    ensures |r.dst| <= if |dst| < target then target else |dst|
    ensures |dst| >= target ==> r.moved == [] && r.src == src
    ensures forall p :: p in r.moved ==> p in src && p.second == pos
  {
    if |dst| < target then
      var (moved, rest) := Split(src, pos, target - |dst|);
      Step(rest, dst + moved, moved)
    else Step(src, dst, [])
  }

  /** The three passes in order: forwards to defence up to the critical six,
      defence to forwards up to the forward target, forwards to defence up to
      the defence target. The last two have no floor or surplus guard. */
  function BalanceSpec(d0: seq<Player>, f0: seq<Player>, targetF: nat, targetD: nat): (r: Balanced)
    ensures |r.d| + |r.f| == |d0| + |f0|
    ensures |r.lowD| <= CriticalD && |r.toF| <= targetF && |r.toD| <= targetD
  {
    var s1 := Transfer(f0, d0, "D", CriticalD);
    var s2 := Transfer(s1.dst, s1.src, "F", targetF);
    var s3 := Transfer(s2.dst, s2.src, "D", targetD);
    Balanced(s3.dst, s3.src, s1.moved, s2.moved, s3.moved)
  }

  /** Runs a guarded pass: nothing when `dst` already has `target`
      players, otherwise `Pass` for the shortfall. */
  method RunTransfer(src: seq<Player>, dst: seq<Player>, pos: string, target: nat) returns (s: Step)
    ensures s == Transfer(src, dst, pos, target)
  {
    if |dst| < target {
      var moved, rest := Pass(src, pos, target - |dst|);
      s := Step(rest, dst + moved, moved);
    } else {
      s := Step(src, dst, []);
    }
  }

  /** The balancer block of the script: the three passes in order. */
  method Balance(d0: seq<Player>, f0: seq<Player>, targetF: nat, targetD: nat) returns (b: Balanced)
    ensures b == BalanceSpec(d0, f0, targetF, targetD)
    ensures multiset(b.d + b.f) == multiset(d0 + f0)
    ensures forall p :: p in b.lowD || p in b.toD ==> p.second == "D"
    ensures forall p :: p in b.toF ==> p.second == "F"
  {
    var s1 := RunTransfer(f0, d0, "D", CriticalD);
    var s2 := RunTransfer(s1.dst, s1.src, "F", targetF);
    var s3 := RunTransfer(s2.dst, s2.src, "D", targetD);
    b := Balanced(s3.dst, s3.src, s1.moved, s2.moved, s3.moved);
    BalanceConserves(d0, f0, targetF, targetD);
  }

  /** A pass keeps the union of the two pools and moves only candidates. */
  lemma TransferConserves(src: seq<Player>, dst: seq<Player>, pos: string, target: nat)
    ensures var s := Transfer(src, dst, pos, target);
      multiset(s.src + s.dst) == multiset(src + dst) &&
      forall p :: p in s.moved ==> p.second == pos
  {
    if |dst| < target {
      var n := target - |dst|;
      var sp := Split(src, pos, n);
      SplitConserves(src, pos, n);
      SplitMovesFirstCandidates(src, pos, n);
      var c := Candidates(src, pos);
      assert sp.0 == c[..Min(n, |c|)];
      assert forall p :: p in sp.0 ==> p in c;
      calc {
        multiset(sp.1 + (dst + sp.0));
        multiset(sp.1) + multiset(dst) + multiset(sp.0);
        multiset(src) + multiset(dst);
        multiset(src + dst);
      }
    }
  }

  /** Balancing neither loses nor duplicates a player: the union of the two
      pools is unchanged, and every moved player named the new position as
      second choice. */
  lemma BalanceConserves(d0: seq<Player>, f0: seq<Player>, targetF: nat, targetD: nat)
    ensures var b := BalanceSpec(d0, f0, targetF, targetD);
      multiset(b.d + b.f) == multiset(d0 + f0) &&
      (forall p :: p in b.lowD || p in b.toD ==> p.second == "D") &&
      (forall p :: p in b.toF ==> p.second == "F")
  {
    var s1 := Transfer(f0, d0, "D", CriticalD);
    TransferConserves(f0, d0, "D", CriticalD);
    var s2 := Transfer(s1.dst, s1.src, "F", targetF);
    TransferConserves(s1.dst, s1.src, "F", targetF);
    var s3 := Transfer(s2.dst, s2.src, "D", targetD);
    TransferConserves(s2.dst, s2.src, "D", targetD);
    MultisetSwap(f0, d0);
    MultisetSwap(s1.src, s1.dst);
    MultisetSwap(s2.src, s2.dst);
    MultisetSwap(s3.src, s3.dst);
  }

  /** The first pass lifts defence to six when forwards offer enough
      second-choice defence, and otherwise moves every such forward. */
  lemma CriticalFill(d0: seq<Player>, f0: seq<Player>)
    requires |d0| < CriticalD
    ensures var s := Transfer(f0, d0, "D", CriticalD);
      |s.dst| == Min(CriticalD, |d0| + |Candidates(f0, "D")|) &&
      s.moved == Candidates(f0, "D")[..Min(CriticalD - |d0|, |Candidates(f0, "D")|)]
  {
    SplitMovesFirstCandidates(f0, "D", CriticalD - |d0|);
  }

  /** When every player of a pool is a candidate and no more are needed
      than there are, the pass moves the whole pool. */
  lemma {:induction false} SplitAllCandidates(pool: seq<Player>, pos: string, needed: nat)
    requires forall p :: p in pool ==> p.second == pos
    requires |pool| <= needed
    ensures Split(pool, pos, needed) == (pool, [])
    decreases |pool|
  {
    if pool != [] {
      var init := pool[..|pool| - 1];
      assert pool == init + [pool[|pool| - 1]];
      SplitAllCandidates(init, pos, needed);
    }
  }

  lemma NoCandidates(pool: seq<Player>, pos: string)
    requires forall p :: p in pool ==> p.second != pos
    ensures Candidates(pool, pos) == []
  {
    var c := Candidates(pool, pos);
    assert forall x :: x !in c;
    assert |c| == 0 by {
      assert forall i :: 0 <= i < |c| ==> c[i] in c;
    }
  }

  /** A pass over a pool without candidates changes nothing. */
  lemma TransferNothing(src: seq<Player>, dst: seq<Player>, pos: string, target: nat)
    requires Candidates(src, pos) == []
    ensures Transfer(src, dst, pos, target) == Step(src, dst, [])
  {
    if |dst| < target {
      SplitWithoutCandidates(src, pos, target - |dst|);
      assert dst + [] == dst;
    }
  }

  /** A pass that needs every player of a pool of candidates moves them all. */
  lemma TransferAll(src: seq<Player>, pos: string, target: nat)
    requires forall p :: p in src ==> p.second == pos
    requires |src| <= target
    ensures Transfer(src, [], pos, target) == Step([], src, src)
  {
    var t := Transfer(src, [], pos, target);
    if |src| > 0 {
      SplitAllCandidates(src, pos, target);
      assert t.moved == src && t.src == [];
      assert t.dst == [] + src == src;
    } else {
      assert t.moved == [] && t.src == [] && t.dst == [];
    }
  }

  /** The second pass may take defence below the critical six: when no
      forwards signed up and every one of six to twelve defence players would
      rather play forward, they all move and no defence is left. */
  lemma DefenceFillHasNoFloor(d0: seq<Player>)
    requires CriticalD <= |d0| <= BaseF
    requires forall p :: p in d0 ==> p.second == "F"
    ensures var b := BalanceSpec(d0, [], BaseF, BaseD);
      b.d == [] && b.f == d0 && b.toF == d0
  {
    TransferNothing([], d0, "D", CriticalD);
    TransferAll(d0, "F", BaseF);
    NoCandidates(d0, "D");
    TransferNothing(d0, [], "D", BaseD);
  }
}
