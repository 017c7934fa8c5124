/** The snake draft: walking a ranked list, picks 0 and 3 of every block of
    four go to team A and picks 1 and 2 to team B (A, B, B, A, A, B, B, A, ...). */
module Draft {
  /** Whether pick `i` goes to team A. */
  predicate ToA(i: nat) {
    i % 4 == 0 || i % 4 == 3
  }

  /** The two teams the draft deals `s` into, each in pick order. */
  function Snake<T>(s: seq<T>): (r: (seq<T>, seq<T>))
    ensures |r.0| + |r.1| == |s|
    decreases |s|
  {
    if s == [] then ([], [])
    else
      var (a, b) := Snake(s[..|s| - 1]);
      if ToA(|s| - 1) then (a + [s[|s| - 1]], b) else (a, b + [s[|s| - 1]])
  }

  /** How many of the first `n` picks go to team A. */
  function CountA(n: nat): nat {
    2 * (n / 4) + (if n % 4 == 0 then 0 else 1)
  }

  lemma CountAStep(n: nat)
    ensures CountA(n + 1) == CountA(n) + (if ToA(n) then 1 else 0)
  {
    var q, m := n / 4, n % 4;
    assert n == 4 * q + m;
    if m == 3 {
      assert (n + 1) / 4 == q + 1 && (n + 1) % 4 == 0;
    } else {
      assert (n + 1) / 4 == q && (n + 1) % 4 == m + 1;
    }
  }

  /** Pick index of team A's `k`-th player. */
  function PickA(k: nat): nat {
    4 * (k / 2) + (if k % 2 == 0 then 0 else 3)
  }

  /** Pick index of team B's `k`-th player. */
  function PickB(k: nat): nat {
    4 * (k / 2) + 1 + k % 2
  }

  /** The draft deals every player exactly once: team A gets `CountA` of them,
      team B the rest, and team A's `k`-th player is pick `PickA(k)`, team
      B's is pick `PickB(k)`. */
  lemma {:induction false} SnakePicks<T>(s: seq<T>)
    ensures var (a, b) := Snake(s);
      |a| == CountA(|s|) && |b| == |s| - CountA(|s|) &&
      (forall k :: 0 <= k < |a| ==> PickA(k) < |s| && a[k] == s[PickA(k)]) &&
      (forall k :: 0 <= k < |b| ==> PickB(k) < |s| && b[k] == s[PickB(k)])
    decreases |s|
  {
    if s != [] {
      var n := |s| - 1;
      var init := s[..n];
      SnakePicks(init);
      var (a0, b0) := Snake(init);
      assert forall k :: 0 <= k < n ==> init[k] == s[k];
      SnakeCount(init);
      CountAStep(n);
      PickAtCount(n);
    }
  }

  /** Pick `n` is team A's pick number `CountA(n)` or team B's pick number
      `n - CountA(n)`. */
  lemma PickAtCount(n: nat)
    ensures ToA(n) ==> PickA(CountA(n)) == n
    ensures !ToA(n) ==> PickB(n - CountA(n)) == n
  {
    var q, m := n / 4, n % 4;
    assert n == 4 * q + m;
    if m == 0 {
      assert CountA(n) == 2 * q && (2 * q) / 2 == q && (2 * q) % 2 == 0;
    } else {
      assert CountA(n) == 2 * q + 1 && (2 * q + 1) / 2 == q && (2 * q + 1) % 2 == 1;
      if m == 2 {
        assert n - CountA(n) == 2 * q + 1;
      }
    }
  }

  /** Team A receives `CountA` of the picks and team B the rest. */
  lemma {:induction false} SnakeCount<T>(s: seq<T>)
    ensures |Snake(s).0| == CountA(|s|) && |Snake(s).1| == |s| - CountA(|s|)
    decreases |s|
  {
    if s != [] {
      SnakeCount(s[..|s| - 1]);
      CountAStep(|s| - 1);
    }
  }

  /** The two teams differ by at most one player: A has the extra one when
      the count leaves remainder 1 by four, B when it leaves 3. */
  lemma SnakeSizes<T>(s: seq<T>)
    ensures var (a, b) := Snake(s);
      |a| + |b| == |s| && |a| <= |b| + 1 && |b| <= |a| + 1 &&
      (|a| > |b| <==> |s| % 4 == 1) &&
      (|b| > |a| <==> |s| % 4 == 3)
  {
    SnakeCount(s);
    var n := |s|;
    assert n == 4 * (n / 4) + n % 4;
  }

  /** Neither team gains, loses or duplicates a player. */
  lemma {:induction false} SnakeConserves<T>(s: seq<T>)
    ensures multiset(Snake(s).0) + multiset(Snake(s).1) == multiset(s)
    decreases |s|
  {
    if s != [] {
      assert s == s[..|s| - 1] + [s[|s| - 1]];
      SnakeConserves(s[..|s| - 1]);
    }
  }

  /** `snake_draft`. */
  method SnakeDraft<T>(players: seq<T>) returns (a: seq<T>, b: seq<T>)
    ensures (a, b) == Snake(players)
    ensures multiset(a) + multiset(b) == multiset(players)
    ensures |a| <= |b| + 1 && |b| <= |a| + 1
  {
    a, b := [], [];
    var i := 0;
    while i < |players|
      invariant 0 <= i <= |players|
      invariant (a, b) == Snake(players[..i])
    {
      assert players[..i + 1][..i] == players[..i];
      if i % 4 == 0 || i % 4 == 3 {
        a := a + [players[i]];
      } else {
        b := b + [players[i]];
      }
      i := i + 1;
    }
    assert players[..i] == players;
    SnakeConserves(players);
    SnakeSizes(players);
  }

  /** Eight ranked players are dealt A, B, B, A, A, B, B, A. */
  lemma SnakeEight<T>(s: seq<T>)
    requires |s| == 8
    ensures Snake(s) == ([s[0], s[3], s[4], s[7]], [s[1], s[2], s[5], s[6]])
  {
    SnakePicks(s);
    var a, b := Snake(s).0, Snake(s).1;
    assert PickA(1) == 3 && PickA(2) == 4 && PickA(3) == 7;
    assert PickB(1) == 2 && PickB(2) == 5 && PickB(3) == 6;
    assert |a| == 4 && a[0] == s[0] && a[1] == s[3] && a[2] == s[4] && a[3] == s[7];
    assert |b| == 4 && b[0] == s[1] && b[1] == s[2] && b[2] == s[5] && b[3] == s[6];
    assert a == [s[0], s[3], s[4], s[7]];
    assert b == [s[1], s[2], s[5], s[6]];
  }
}
