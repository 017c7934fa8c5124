/** The rival separator: each configured pair of names is looked up in the
    pools; a pair found in full is pinned to opposite teams, a partial match is
    put back. */
module Rivals {
  import opened Wrappers
  import opened Seqs
  import opened Text
  import opened Roster

  /** The pairs the script keeps apart, in the order it handles them. */
  const RivalPairs: seq<(string, string)> := [("Mike Tonietto", "Jamie Devin"), ("Mark Hicks", "Gary Fera")]

  /** The key a configured name or a player's name is matched by. */
  function NameKeyOf(name: string): string {
    CleanNameKey(Some(name))
  }

  function NameKey(p: Player): string {
    NameKeyOf(p.name)
  }

  function KeyIs(k: string): Player -> bool {
    (p: Player) => NameKey(p) == k
  }

  /** The players of `s` whose name key is `k`, in order. */
  function Matching(s: seq<Player>, k: string): seq<Player> {
    Filter(s, KeyIs(k))
  }

  /** `s` without any player whose name key is `k`. */
  function Others(s: seq<Player>, k: string): seq<Player> {
    Filter(s, Not(KeyIs(k)))
  }

  /** No two pool entries share a name key, and no entry is repeated. */
  ghost predicate UniqueKeys(m: multiset<Player>) {
    forall p, q | p in m && q in m && NameKey(p) == NameKey(q) :: p == q && m[p] == 1
  }

  lemma UniqueKeysSub(m: multiset<Player>, m': multiset<Player>)
    requires UniqueKeys(m) && m' <= m
    ensures UniqueKeys(m')
  {
  }

  /** What `extract` returns: the player found, if any, and both pools. */
  datatype Extraction = Extraction(found: Option<Player>, d: seq<Player>, f: seq<Player>)

  /** `extract`: looks the cleaned name up in the defence pool first, then in
      the forward pool. On a hit it returns the first match and drops every
      entry with that key from the pool it was found in. */
  function Extract(name: string, d: seq<Player>, f: seq<Player>): (r: Extraction)
    ensures var k := CleanNameKey(Some(name));
      (r.found.None? <==> forall p :: p in d + f ==> NameKey(p) != k) &&
      (r.found.None? ==> r.d == d && r.f == f) &&
      (Matching(d, k) != [] ==> r == Extraction(Some(Matching(d, k)[0]), Others(d, k), f)) &&
      (Matching(d, k) == [] && Matching(f, k) != [] ==> r == Extraction(Some(Matching(f, k)[0]), d, Others(f, k)))
    ensures r.found.Some? ==> NameKey(r.found.value) == CleanNameKey(Some(name)) && r.found.value in d + f
  {
    var k := CleanNameKey(Some(name));
    var md, mf := Matching(d, k), Matching(f, k);
    assert md == [] ==> forall p :: p in d ==> NameKey(p) != k by {
      assert forall p :: p in d && NameKey(p) == k ==> p in md;
    }
    assert mf == [] ==> forall p :: p in f ==> NameKey(p) != k by {
      assert forall p :: p in f && NameKey(p) == k ==> p in mf;
    }
    assert md != [] ==> md[0] in md;
    assert mf != [] ==> mf[0] in mf;
    if md != [] then Extraction(Some(md[0]), Others(d, k), f)
    else if mf != [] then Extraction(Some(mf[0]), d, Others(f, k))
    else Extraction(None, d, f)
  }

  lemma {:induction false} AllSameCount(s: seq<Player>, x: Player)
    requires forall i :: 0 <= i < |s| ==> s[i] == x
    ensures multiset(s)[x] == |s|
    decreases |s|
  {
    if s != [] {
      assert s == s[..|s| - 1] + [x];
      AllSameCount(s[..|s| - 1], x);
    }
  }

  /** Under unique keys, at most one entry carries a given key. */
  lemma OneMatch(s: seq<Player>, k: string, m: multiset<Player>)
    requires UniqueKeys(m) && multiset(s) <= m
    requires Matching(s, k) != []
    ensures |Matching(s, k)| == 1
  {
    var c := Matching(s, k);
    var o := c[0];
    assert o in c;
    assert o in multiset(s);
    forall i | 0 <= i < |c| ensures c[i] == o {
      assert c[i] in c;
      assert c[i] in multiset(s);
      UniqueKeysAt(m, c[i], o);
    }
    AllSameCount(c, o);
    UniqueKeysAt(m, o, o);
    assert multiset(c)[o] <= multiset(s)[o] <= m[o];
  }

  lemma UniqueKeysAt(m: multiset<Player>, p: Player, q: Player)
    requires UniqueKeys(m) && p in m && q in m && NameKey(p) == NameKey(q)
    ensures p == q && m[p] == 1
  {
  }

  /** Under unique keys, removing every entry with a key removes exactly the
      one entry returned. */
  lemma SingleMatch(s: seq<Player>, k: string, m: multiset<Player>)
    requires UniqueKeys(m) && multiset(s) <= m
    requires Matching(s, k) != []
    ensures multiset(Others(s, k)) + multiset{Matching(s, k)[0]} == multiset(s)
  {
    OneMatch(s, k, m);
    FilterSingle(s, KeyIs(k));
  }

  /** The player an extraction returned, as a multiset of zero or one. */
  function Found(o: Option<Player>): multiset<Player> {
    if o.Some? then multiset{o.value} else multiset{}
  }

  lemma OthersShrink(s: seq<Player>, k: string)
    requires Matching(s, k) != []
    ensures multiset(Others(s, k)) + multiset{Matching(s, k)[0]} <= multiset(s)
  {
    FilterHeadShrinks(s, KeyIs(k));
  }

  /** Extraction never adds a player: the pools that remain and the player
      returned are part of the pools it started from. */
  lemma ExtractShrinks(name: string, d: seq<Player>, f: seq<Player>)
    ensures var r := Extract(name, d, f);
      multiset(r.d) + multiset(r.f) + Found(r.found) <= multiset(d) + multiset(f)
  {
    var k := CleanNameKey(Some(name));
    if Matching(d, k) != [] {
      OthersShrink(d, k);
    } else if Matching(f, k) != [] {
      OthersShrink(f, k);
    }
  }

  /** Under unique keys, extraction removes exactly the player it returns. */
  lemma ExtractExact(name: string, d: seq<Player>, f: seq<Player>)
    requires UniqueKeys(multiset(d) + multiset(f))
    ensures var r := Extract(name, d, f);
      multiset(r.d) + multiset(r.f) + Found(r.found) == multiset(d) + multiset(f)
  {
    var k := CleanNameKey(Some(name));
    if Matching(d, k) != [] {
      SingleMatch(d, k, multiset(d) + multiset(f));
    } else if Matching(f, k) != [] {
      SingleMatch(f, k, multiset(d) + multiset(f));
    }
  }

  /** The state the rivals loop carries: both pools, the players pinned to
      each team, the separation notes and the count of separated pairs. */
  datatype Separation = Separation(
    d: seq<Player>,
    f: seq<Player>,
    preA: seq<Player>,
    preB: seq<Player>,
    logs: seq<string>,
    pidx: nat)

  /** Puts an extracted player back at the end of the pool of their first
      choice: defence for `D`, forwards for anything else. */
  function Restore(o: Option<Player>, d: seq<Player>, f: seq<Player>): (r: (seq<Player>, seq<Player>))
    ensures o.None? ==> r == (d, f)
    ensures o.Some? && o.value.first == "D" ==> r == (d + [o.value], f)
    ensures o.Some? && o.value.first != "D" ==> r == (d, f + [o.value])
  {
    match o
    case None => (d, f)
    case Some(p) => if p.first == "D" then (d + [p], f) else (d, f + [p])
  }

  /** Putting a player back adds exactly that player to the pools. */
  lemma RestoreAdds(o: Option<Player>, d: seq<Player>, f: seq<Player>)
    ensures var r := Restore(o, d, f);
      multiset(r.0) + multiset(r.1) == multiset(d) + multiset(f) + Found(o)
  {
  }

  function Note(pair: (string, string)): string {
    "Separated " + pair.0 + " & " + pair.1
  }

  /** `a` went to team A and `b` to team B as the `k`-th separated pair:
      under the name key `key` they carry the pair's two keys, and the
      higher scorer is on team A exactly when `k` is even. The key is a
      parameter so that proofs about many pairs need not unfold it; the
      model always passes `NameKeyOf`. */
  predicate SeparatedAs(key: string -> string, a: Player, b: Player, pair: (string, string), k: nat) {
    var k1, k2 := key(pair.0), key(pair.1);
    ((key(a.name) == k1 && key(b.name) == k2) || (key(a.name) == k2 && key(b.name) == k1)) &&
    (k % 2 == 0 ==> a.score >= b.score) &&
    (k % 2 == 1 ==> b.score >= a.score)
  }

  /** `a` and `b` are the two players `x` and `y` in some order, and the
      higher scorer is `a` exactly when `k` is even. */
  predicate Paired(a: Player, b: Player, x: Player, y: Player, k: nat) {
    ((a == x && b == y) || (a == y && b == x)) &&
    (k % 2 == 0 ==> a.score >= b.score) &&
    (k % 2 == 1 ==> b.score >= a.score)
  }

  /** Both rivals found: the higher scorer of `x` and `y` (`x` on a tie)
      goes to team A on an even pair count and to team B on an odd one, the
      other to the other team, and a note is logged. */
  function Pin(st: Separation, pair: (string, string), x: Player, y: Player,
               d: seq<Player>, f: seq<Player>): (r: Separation)
    ensures r.d == d && r.f == f && r.pidx == st.pidx + 1 && r.logs == st.logs + [Note(pair)]
    ensures |r.preA| == |st.preA| + 1 && r.preA[..|st.preA|] == st.preA
    ensures |r.preB| == |st.preB| + 1 && r.preB[..|st.preB|] == st.preB
    ensures Paired(r.preA[|st.preA|], r.preB[|st.preB|], x, y, st.pidx)
  {
    var hi := if y.score > x.score then y else x;
    var lo := if y.score > x.score then x else y;
    if st.pidx % 2 == 0 then
      Separation(d, f, st.preA + [hi], st.preB + [lo], st.logs + [Note(pair)], st.pidx + 1)
    else
      Separation(d, f, st.preA + [lo], st.preB + [hi], st.logs + [Note(pair)], st.pidx + 1)
  }

  /** The second half of a turn, once both names were looked up: with both
      players found they are pinned; otherwise whoever was found is put
      back. */
  function Settle(st: Separation, pair: (string, string), o1: Option<Player>, o2: Option<Player>,
                  d: seq<Player>, f: seq<Player>): (r: Separation)
    ensures o1.Some? && o2.Some? ==>
      r.d == d && r.f == f && r.pidx == st.pidx + 1 && r.logs == st.logs + [Note(pair)] &&
      |r.preA| == |st.preA| + 1 && r.preA[..|st.preA|] == st.preA &&
      |r.preB| == |st.preB| + 1 && r.preB[..|st.preB|] == st.preB &&
      Paired(r.preA[|st.preA|], r.preB[|st.preB|], o1.value, o2.value, st.pidx)
    ensures !(o1.Some? && o2.Some?) ==>
      r.pidx == st.pidx && r.preA == st.preA && r.preB == st.preB && r.logs == st.logs
  {
    if o1.Some? && o2.Some? then Pin(st, pair, o1.value, o2.value, d, f)
    else
      var (d1, f1) := Restore(o1, d, f);
      var (d2, f2) := Restore(o2, d1, f1);
      Separation(d2, f2, st.preA, st.preB, st.logs, st.pidx)
  }

  /** A rival found without their partner goes back to the pool of their
      first choice, whichever pool they were taken from. */
  lemma SettleRestoresByFirstChoice(st: Separation, pair: (string, string), o1: Option<Player>, o2: Option<Player>,
                                    d: seq<Player>, f: seq<Player>)
    requires !(o1.Some? && o2.Some?)
    ensures var r := Settle(st, pair, o1, o2, d, f);
      (forall p :: p in r.d && p !in d ==> p.first == "D") &&
      (forall p :: p in r.f && p !in f ==> p.first != "D")
  {
    var (d1, f1) := Restore(o1, d, f);
    assert forall p :: p in d1 && p !in d ==> p.first == "D";
    assert forall p :: p in f1 && p !in f ==> p.first != "D";
  }

  /** One turn of the rivals loop: look both names up, then settle. A
      separated pair carries the pair's two name keys. */
  function SeparatePair(st: Separation, pair: (string, string)): (r: Separation)
    ensures r.pidx == st.pidx + 1 ==>
      |r.preA| == |st.preA| + 1 && r.preA[..|st.preA|] == st.preA &&
      |r.preB| == |st.preB| + 1 && r.preB[..|st.preB|] == st.preB &&
      r.logs == st.logs + [Note(pair)] &&
      SeparatedAs(NameKeyOf, r.preA[|st.preA|], r.preB[|st.preB|], pair, st.pidx)
    ensures r.pidx != st.pidx + 1 ==>
      r.pidx == st.pidx && r.preA == st.preA && r.preB == st.preB && r.logs == st.logs
  {
    var e1 := Extract(pair.0, st.d, st.f);
    var e2 := Extract(pair.1, e1.d, e1.f);
    Settle(st, pair, e1.found, e2.found, e2.d, e2.f)
  }

  /** The players in the two pools. */
  function Pool(st: Separation): multiset<Player> {
    multiset(st.d) + multiset(st.f)
  }

  /** The players pinned to either team. */
  function Pins(st: Separation): multiset<Player> {
    multiset(st.preA) + multiset(st.preB)
  }

  /** With both rivals found, the pools stay and both join the pins. */
  lemma SettlePinned(st: Separation, pair: (string, string), x: Player, y: Player,
                     d: seq<Player>, f: seq<Player>)
    ensures var r := Pin(st, pair, x, y, d, f);
      Pool(r) == multiset(d) + multiset(f) && Pins(r) == Pins(st) + multiset{x} + multiset{y}
  {
    var r := Pin(st, pair, x, y, d, f);
    var (a, b) := (r.preA[|st.preA|], r.preB[|st.preB|]);
    assert r.preA == st.preA + [a] && r.preB == st.preB + [b];
    assert multiset{a} + multiset{b} == multiset{x} + multiset{y};
    PinsGrow(st.preA, st.preB, a, b);
  }

  /** Appending one player to each team adds both to the pins. */
  lemma PinsGrow(preA: seq<Player>, preB: seq<Player>, a: Player, b: Player)
    ensures multiset(preA + [a]) + multiset(preB + [b]) == multiset(preA) + multiset(preB) + multiset{a} + multiset{b}
  {
  }

  /** With a rival missing, the pins stay and whoever was found is put back. */
  lemma SettleRestored(st: Separation, pair: (string, string), o1: Option<Player>, o2: Option<Player>,
                       d: seq<Player>, f: seq<Player>)
    requires !(o1.Some? && o2.Some?)
    ensures var r := Settle(st, pair, o1, o2, d, f);
      Pool(r) == multiset(d) + multiset(f) + Found(o1) + Found(o2) && Pins(r) == Pins(st)
  {
    var (d1, f1) := Restore(o1, d, f);
    RestoreAdds(o1, d, f);
    RestoreAdds(o2, d1, f1);
  }

  /** Where the players of a turn end up: whoever was looked up is either
      pinned (both found) or put back (otherwise). */
  lemma SettleAccount(st: Separation, pair: (string, string), o1: Option<Player>, o2: Option<Player>,
                      d: seq<Player>, f: seq<Player>)
    ensures var r := Settle(st, pair, o1, o2, d, f);
      Pool(r) + Pins(r) == multiset(d) + multiset(f) + Found(o1) + Found(o2) + Pins(st)
    ensures Pool(Settle(st, pair, o1, o2, d, f)) <= multiset(d) + multiset(f) + Found(o1) + Found(o2)
  {
    if o1.Some? && o2.Some? {
      SettlePinned(st, pair, o1.value, o2.value, d, f);
    } else {
      SettleRestored(st, pair, o1, o2, d, f);
    }
  }

  /** A turn never adds a player to the pools or the pins. */
  lemma SeparatePairShrinks(st: Separation, pair: (string, string))
    ensures var r := SeparatePair(st, pair);
      Pool(r) <= Pool(st) && Pool(r) + Pins(r) <= Pool(st) + Pins(st)
  {
    var e1 := Extract(pair.0, st.d, st.f);
    var e2 := Extract(pair.1, e1.d, e1.f);
    ExtractShrinks(pair.0, st.d, st.f);
    ExtractShrinks(pair.1, e1.d, e1.f);
    SettleAccount(st, pair, e1.found, e2.found, e2.d, e2.f);
  }

  /** Under unique keys, looking up both names of a pair removes exactly the
      players found. */
  lemma ExtractBothExact(pair: (string, string), d: seq<Player>, f: seq<Player>)
    requires UniqueKeys(multiset(d) + multiset(f))
    ensures var e1 := Extract(pair.0, d, f);
      var e2 := Extract(pair.1, e1.d, e1.f);
      multiset(e2.d) + multiset(e2.f) + Found(e1.found) + Found(e2.found) == multiset(d) + multiset(f)
  {
    var e1 := Extract(pair.0, d, f);
    var e2 := Extract(pair.1, e1.d, e1.f);
    ExtractExact(pair.0, d, f);
    UniqueKeysSub(multiset(d) + multiset(f), multiset(e1.d) + multiset(e1.f));
    ExtractExact(pair.1, e1.d, e1.f);
    RemovedTwice(multiset(d) + multiset(f), multiset(e1.d) + multiset(e1.f), Found(e1.found),
                 multiset(e2.d), multiset(e2.f), Found(e2.found));
  }

  lemma RemovedTwice(m: multiset<Player>, m1: multiset<Player>, x1: multiset<Player>,
                     d2: multiset<Player>, f2: multiset<Player>, x2: multiset<Player>)
    requires m1 + x1 == m && d2 + f2 + x2 == m1
    ensures d2 + f2 + x1 + x2 == m
  {
  }

  /** Under unique keys, a turn moves players between the pools and the pins
      without losing or duplicating one. */
  lemma SeparatePairExact(st: Separation, pair: (string, string))
    requires UniqueKeys(Pool(st))
    ensures var r := SeparatePair(st, pair);
      Pool(r) + Pins(r) == Pool(st) + Pins(st)
  {
    var e1 := Extract(pair.0, st.d, st.f);
    var e2 := Extract(pair.1, e1.d, e1.f);
    ExtractBothExact(pair, st.d, st.f);
    SettleAccount(st, pair, e1.found, e2.found, e2.d, e2.f);
  }

  /** Pools and pins hold players of `m` only, and under unique keys all of
      them exactly once. */
  ghost predicate Accounted(r: Separation, m: multiset<Player>) {
    Pool(r) <= m && Pool(r) + Pins(r) <= m && (UniqueKeys(m) ==> Pool(r) + Pins(r) == m)
  }

  lemma AccountedStep(r: Separation, pair: (string, string), m: multiset<Player>)
    requires Accounted(r, m)
    ensures Accounted(SeparatePair(r, pair), m)
  {
    SeparatePairShrinks(r, pair);
    if UniqueKeys(m) {
      UniqueKeysSub(m, Pool(r));
      SeparatePairExact(r, pair);
    }
  }

  /** The `k`-th pinned pair is the pair `rivals[which[k]]`: its note is
      logged and its two players are placed as `SeparatedAs` says. */
  predicate PinsFrom(key: string -> string, r: Separation, rivals: seq<(string, string)>, which: seq<nat>) {
    |r.preA| == r.pidx && |r.preB| == r.pidx && |r.logs| == r.pidx && |which| == r.pidx &&
    forall k :: 0 <= k < r.pidx ==>
      which[k] < |rivals| && r.logs[k] == Note(rivals[which[k]]) &&
      SeparatedAs(key, r.preA[k], r.preB[k], rivals[which[k]], k)
  }

  /** The `k`-th pinned pair is one of `rivals`, logged and placed as
      `SeparatedAs` says. */
  predicate PinnedFrom(key: string -> string, r: Separation, rivals: seq<(string, string)>, k: nat)
    requires k < r.pidx && |r.preA| == r.pidx && |r.preB| == r.pidx && |r.logs| == r.pidx
  {
    exists j :: 0 <= j < |rivals| && r.logs[k] == Note(rivals[j]) && SeparatedAs(key, r.preA[k], r.preB[k], rivals[j], k)
  }

  /** Every pinned pair so far is one of `rivals`, logged and placed as
      `SeparatedAs` says. */
  predicate PinsFromRivals(key: string -> string, r: Separation, rivals: seq<(string, string)>) {
    |r.preA| == r.pidx && |r.preB| == r.pidx && |r.logs| == r.pidx &&
    forall k :: 0 <= k < r.pidx ==> PinnedFrom(key, r, rivals, k)
  }

  lemma PinsWitnessed(key: string -> string, r: Separation, rivals: seq<(string, string)>, which: seq<nat>)
    requires PinsFrom(key, r, rivals, which)
    ensures PinsFromRivals(key, r, rivals)
  {
    forall k | 0 <= k < r.pidx
      ensures PinnedFrom(key, r, rivals, k)
    {
      var j := which[k];
      assert 0 <= j < |rivals| && r.logs[k] == Note(rivals[j]) && SeparatedAs(key, r.preA[k], r.preB[k], rivals[j], k);
    }
  }

  /** Appending a separated `rivals[i]` keeps `PinsFrom`, recording `i`. */
  lemma PinsExtend(key: string -> string, r: Separation, next: Separation, rivals: seq<(string, string)>, which: seq<nat>, i: nat)
    requires PinsFrom(key, r, rivals, which) && i < |rivals|
    requires next.pidx == r.pidx + 1 && next.logs == r.logs + [Note(rivals[i])]
    requires |next.preA| == |r.preA| + 1 && next.preA[..|r.preA|] == r.preA
    requires |next.preB| == |r.preB| + 1 && next.preB[..|r.preB|] == r.preB
    requires SeparatedAs(key, next.preA[r.pidx], next.preB[r.pidx], rivals[i], r.pidx)
    ensures PinsFrom(key, next, rivals, which + [i])
  {
    var w := which + [i];
    forall k | 0 <= k < next.pidx
      ensures w[k] < |rivals| && next.logs[k] == Note(rivals[w[k]]) &&
        SeparatedAs(key, next.preA[k], next.preB[k], rivals[w[k]], k)
    {
      if k < r.pidx {
        assert next.preA[k] == next.preA[..|r.preA|][k];
        assert next.preB[k] == next.preB[..|r.preB|][k];
      }
    }
  }

  /** One turn of the rivals loop, as `SeparatePair` specifies it; it keeps
      the loop's invariants, extending the record of separated pairs. */
  method Turn(r: Separation, rivals: seq<(string, string)>, i: nat, ghost which: seq<nat>, ghost m: multiset<Player>)
    returns (next: Separation, ghost which': seq<nat>)
    requires i < |rivals| && PinsFrom(NameKeyOf, r, rivals, which) && Accounted(r, m)
    ensures next == SeparatePair(r, rivals[i])
    ensures PinsFrom(NameKeyOf, next, rivals, which') && Accounted(next, m) && next.pidx <= r.pidx + 1
  {
    var e1 := Extract(rivals[i].0, r.d, r.f);
    var e2 := Extract(rivals[i].1, e1.d, e1.f);
    next := Settle(r, rivals[i], e1.found, e2.found, e2.d, e2.f);
    AccountedStep(r, rivals[i], m);
    which' := which;
    if next.pidx == r.pidx + 1 {
      PinsExtend(NameKeyOf, r, next, rivals, which, i);
      which' := which + [i];
    }
  }

  /** Some player of `s` satisfies `P`. */
  ghost predicate Holds(s: seq<Player>, P: Player -> bool) {
    exists p :: p in s && P(p)
  }

  /** Some player of `s` has the name key `k`. */
  ghost predicate HasKey(s: seq<Player>, k: string) {
    Holds(s, KeyIs(k))
  }

  lemma HoldsAppend(a: seq<Player>, b: seq<Player>, P: Player -> bool)
    ensures Holds(a + b, P) <==> Holds(a, P) || Holds(b, P)
  {
    if Holds(a + b, P) {
      var p :| p in a + b && P(p);
      assert p in a || p in b;
    }
    if Holds(a, P) {
      var p :| p in a && P(p);
      assert p in a + b;
    }
    if Holds(b, P) {
      var p :| p in b && P(p);
      assert p in a + b;
    }
  }

  /** Filtering by `keep` loses no player satisfying `P` when `P` implies `keep`. */
  lemma FilterKeeps(s: seq<Player>, keep: Player -> bool, P: Player -> bool)
    requires forall p :: P(p) ==> keep(p)
    ensures Holds(Filter(s, keep), P) <==> Holds(s, P)
  {
    if Holds(s, P) {
      var p :| p in s && P(p);
      assert p in Filter(s, keep);
    }
  }

  /** Looking a name up finds someone exactly when a pooled player has its key. */
  lemma ExtractFinds(name: string, d: seq<Player>, f: seq<Player>)
    ensures Extract(name, d, f).found.Some? <==> HasKey(d + f, CleanNameKey(Some(name)))
  {
    var k1 := CleanNameKey(Some(name));
    if HasKey(d + f, k1) {
      var p :| p in d + f && KeyIs(k1)(p);
      assert NameKey(p) == k1;
    }
  }

  /** Looking a name up leaves every other key where it was. */
  lemma ExtractKeeps(name: string, d: seq<Player>, f: seq<Player>, k: string)
    requires k != CleanNameKey(Some(name))
    ensures HasKey(Extract(name, d, f).d + Extract(name, d, f).f, k) <==> HasKey(d + f, k)
  {
    var k1 := CleanNameKey(Some(name));
    var e := Extract(name, d, f);
    assert forall p :: KeyIs(k)(p) ==> Not(KeyIs(k1))(p);
    FilterKeeps(d, Not(KeyIs(k1)), KeyIs(k));
    FilterKeeps(f, Not(KeyIs(k1)), KeyIs(k));
    HoldsAppend(d, f, KeyIs(k));
    HoldsAppend(e.d, e.f, KeyIs(k));
  }

  /** Both of the above. */
  lemma ExtractKeys(name: string, d: seq<Player>, f: seq<Player>, k: string)
    ensures Extract(name, d, f).found.Some? <==> HasKey(d + f, CleanNameKey(Some(name)))
    ensures k != CleanNameKey(Some(name)) ==>
      (HasKey(Extract(name, d, f).d + Extract(name, d, f).f, k) <==> HasKey(d + f, k))
  {
    ExtractFinds(name, d, f);
    if k != CleanNameKey(Some(name)) {
      ExtractKeeps(name, d, f, k);
    }
  }

  /** The two name keys of a pair. */
  function KeyA(pair: (string, string)): string { NameKeyOf(pair.0) }
  function KeyB(pair: (string, string)): string { NameKeyOf(pair.1) }

  /** A turn separates a pair with two different keys exactly when both
      keys are among the pooled players. */
  lemma SeparatePairWhen(st: Separation, pair: (string, string))
    requires KeyA(pair) != KeyB(pair)
    ensures SeparatePair(st, pair).pidx == st.pidx + 1 <==>
      HasKey(st.d + st.f, KeyA(pair)) && HasKey(st.d + st.f, KeyB(pair))
  {
    var e1 := Extract(pair.0, st.d, st.f);
    ExtractKeys(pair.0, st.d, st.f, KeyB(pair));
    ExtractKeys(pair.1, e1.d, e1.f, KeyB(pair));
  }

  /** Putting back a player with another key does not change whether the
      key `k` is pooled. */
  lemma RestoreKeys(o: Option<Player>, d: seq<Player>, f: seq<Player>, k: string)
    requires o.Some? ==> NameKey(o.value) != k
    ensures HasKey(Restore(o, d, f).0 + Restore(o, d, f).1, k) <==> HasKey(d + f, k)
  {
    RestoreKeeps(o, d, f, KeyIs(k));
  }

  lemma RestoreKeeps(o: Option<Player>, d: seq<Player>, f: seq<Player>, P: Player -> bool)
    requires o.Some? ==> !P(o.value)
    ensures Holds(Restore(o, d, f).0 + Restore(o, d, f).1, P) <==> Holds(d + f, P)
  {
    var r := Restore(o, d, f);
    if Holds(r.0 + r.1, P) {
      var p :| p in r.0 + r.1 && P(p);
      assert p in d + f;
    }
    if Holds(d + f, P) {
      var p :| p in d + f && P(p);
      assert p in r.0 + r.1;
    }
  }

  lemma SettleKeepsKeys(st: Separation, pair: (string, string), o1: Option<Player>, o2: Option<Player>,
                        d: seq<Player>, f: seq<Player>, k: string)
    requires o1.Some? ==> NameKey(o1.value) != k
    requires o2.Some? ==> NameKey(o2.value) != k
    ensures HasKey(Settle(st, pair, o1, o2, d, f).d + Settle(st, pair, o1, o2, d, f).f, k) <==> HasKey(d + f, k)
  {
    if !(o1.Some? && o2.Some?) {
      var (d1, f1) := Restore(o1, d, f);
      RestoreKeys(o1, d, f, k);
      RestoreKeys(o2, d1, f1, k);
    }
  }

  /** A player whose key is not the pair's stays findable through a turn. */
  lemma SeparatePairKeepsKeys(st: Separation, pair: (string, string), k: string)
    requires k != KeyA(pair) && k != KeyB(pair)
    ensures HasKey(SeparatePair(st, pair).d + SeparatePair(st, pair).f, k) <==> HasKey(st.d + st.f, k)
  {
    var e1 := Extract(pair.0, st.d, st.f);
    var e2 := Extract(pair.1, e1.d, e1.f);
    ExtractKeys(pair.0, st.d, st.f, k);
    ExtractKeys(pair.1, e1.d, e1.f, k);
    SettleKeepsKeys(st, pair, e1.found, e2.found, e2.d, e2.f, k);
  }

  /** A turn for a pair of which nobody is pooled changes nothing. */
  lemma SeparatePairAbsent(st: Separation, pair: (string, string))
    requires !HasKey(st.d + st.f, KeyA(pair)) && !HasKey(st.d + st.f, KeyB(pair))
    ensures SeparatePair(st, pair) == st
  {
    var e1 := Extract(pair.0, st.d, st.f);
    ExtractKeys(pair.0, st.d, st.f, KeyB(pair));
    ExtractKeys(pair.1, e1.d, e1.f, KeyB(pair));
  }

  /** With unique keys, a turn that separates nobody keeps exactly the
      pooled players (whoever was found alone is put back). */
  lemma SeparatePairKeepsPool(st: Separation, pair: (string, string))
    requires UniqueKeys(Pool(st)) && SeparatePair(st, pair).pidx == st.pidx
    ensures Pool(SeparatePair(st, pair)) == Pool(st)
  {
    var r := SeparatePair(st, pair);
    SeparatePairExact(st, pair);
    assert Pins(r) == Pins(st);
    CancelCommon(Pool(r), Pool(st), Pins(st));
  }

  lemma CancelCommon(a: multiset<Player>, b: multiset<Player>, c: multiset<Player>)
    requires a + c == b + c
    ensures a == b
  {
    assert forall p :: a[p] == (a + c)[p] - c[p];
  }

  /** The rivals loop as a fold: each pair of `rivals` in turn, from `st`. */
  function SeparateAll(rivals: seq<(string, string)>, st: Separation): Separation
    decreases |rivals|
  {
    if rivals == [] then st else SeparateAll(rivals[1..], SeparatePair(st, rivals[0]))
  }

  /** The loop's starting state for the pools `d` and `f`. */
  function Start(d: seq<Player>, f: seq<Player>): Separation {
    Separation(d, f, [], [], [], 0)
  }

  /** Both teams have one pin per separated pair. */
  predicate Aligned(st: Separation) {
    |st.preA| == st.pidx && |st.preB| == st.pidx
  }

  /** Later turns only append pins: earlier ones stay where they are. */
  lemma {:induction false} SeparateAllKeepsPins(rivals: seq<(string, string)>, st: Separation)
    requires Aligned(st)
    ensures var r := SeparateAll(rivals, st);
      Aligned(r) && st.pidx <= r.pidx && r.preA[..st.pidx] == st.preA && r.preB[..st.pidx] == st.preB
    decreases |rivals|
  {
    if rivals != [] {
      var s1 := SeparatePair(st, rivals[0]);
      SeparateAllKeepsPins(rivals[1..], s1);
      var r := SeparateAll(rivals[1..], s1);
      PrefixAt(r.preA, s1.preA, st.pidx);
      PrefixAt(r.preB, s1.preB, st.pidx);
      PrefixAt(s1.preA, st.preA, st.pidx);
      PrefixAt(s1.preB, st.preB, st.pidx);
    }
  }

  /** No two names of the configured pairs share a `key`. */
  ghost predicate KeysApart(key: string -> string, rivals: seq<(string, string)>) {
    (forall i :: 0 <= i < |rivals| ==> key(rivals[i].0) != key(rivals[i].1)) &&
    (forall i, j :: 0 <= i < j < |rivals| ==>
      key(rivals[i].0) != key(rivals[j].0) && key(rivals[i].0) != key(rivals[j].1) &&
      key(rivals[i].1) != key(rivals[j].0) && key(rivals[i].1) != key(rivals[j].1))
  }

  /** The configured names give four keys of different lengths, so no two
      of them clash. */
  lemma RivalPairsApart()
    ensures KeysApart(NameKeyOf, RivalPairs)
  {
    KeyLengthTonietto();
    KeyLengthDevin();
    KeyLengthHicks();
    KeyLengthFera();
    KeysApartTwo(NameKeyOf, RivalPairs[0], RivalPairs[1]);
  }

  /** Two pairs whose four keys all differ keep their keys apart. */
  lemma KeysApartTwo(key: string -> string, p: (string, string), q: (string, string))
    requires key(p.0) != key(p.1) && key(q.0) != key(q.1)
    requires key(p.0) != key(q.0) && key(p.0) != key(q.1) && key(p.1) != key(q.0) && key(p.1) != key(q.1)
    ensures KeysApart(key, [p, q])
  {
  }

  lemma KeyLengthTonietto()
    ensures |NameKeyOf("Mike Tonietto")| == 12
  {
    assert "Mike Tonietto" == "Mike" + " " + "Tonietto";
    TwoWordsKeyLength("Mike", "Tonietto");
  }

  lemma KeyLengthDevin()
    ensures |NameKeyOf("Jamie Devin")| == 10
  {
    assert "Jamie Devin" == "Jamie" + " " + "Devin";
    TwoWordsKeyLength("Jamie", "Devin");
  }

  lemma KeyLengthHicks()
    ensures |NameKeyOf("Mark Hicks")| == 9
  {
    assert "Mark Hicks" == "Mark" + " " + "Hicks";
    TwoWordsKeyLength("Mark", "Hicks");
  }

  lemma KeyLengthFera()
    ensures |NameKeyOf("Gary Fera")| == 8
  {
    assert "Gary Fera" == "Gary" + " " + "Fera";
    TwoWordsKeyLength("Gary", "Fera");
  }

  /** The key of a two-word name is as long as its two words together. */
  lemma TwoWordsKeyLength(first: string, last: string)
    requires Blankless(first) && Blankless(last)
    ensures |NameKeyOf(first + " " + last)| == |first| + |last|
  {
    CleanNameKeyTwoWords(first, last);
  }

  /** Neither name key of `pair` is `ka` or `kb`. */
  predicate KeysOther(key: string -> string, pair: (string, string), ka: string, kb: string) {
    key(pair.0) != ka && key(pair.0) != kb && key(pair.1) != ka && key(pair.1) != kb
  }

  /** A pair with the keys `ka` and `kb`, pooled when the loop starts and
      sharing no key with an earlier pair, is separated: some pin index
      carries its two keys, one on each team. */
  lemma {:induction false} SeparateAllSeparatesAt(rivals: seq<(string, string)>, st: Separation, i: nat, ka: string, kb: string)
      returns (k: nat)
    requires Aligned(st) && i < |rivals| && ka == KeyA(rivals[i]) && kb == KeyB(rivals[i]) && ka != kb
    requires forall j :: 0 <= j < i ==> KeysOther(NameKeyOf, rivals[j], ka, kb)
    requires HasKey(st.d + st.f, ka) && HasKey(st.d + st.f, kb)
    ensures Aligned(SeparateAll(rivals, st))
    ensures st.pidx <= k < SeparateAll(rivals, st).pidx
    ensures SeparatedAs(NameKeyOf, SeparateAll(rivals, st).preA[k], SeparateAll(rivals, st).preB[k], rivals[i], k)
    decreases i, 1
  {
    if i == 0 {
      k := SeparatesFirst(rivals, st);
    } else {
      k := SeparatesLater(rivals, st, i, ka, kb);
    }
  }

  /** A later pair is still pooled after the first turn and is separated by
      the turns that follow. */
  lemma SeparatesLater(rivals: seq<(string, string)>, st: Separation, i: nat, ka: string, kb: string)
      returns (k: nat)
    requires Aligned(st) && 0 < i < |rivals| && ka == KeyA(rivals[i]) && kb == KeyB(rivals[i]) && ka != kb
    requires forall j :: 0 <= j < i ==> KeysOther(NameKeyOf, rivals[j], ka, kb)
    requires HasKey(st.d + st.f, ka) && HasKey(st.d + st.f, kb)
    ensures Aligned(SeparateAll(rivals, st))
    ensures st.pidx <= k < SeparateAll(rivals, st).pidx
    ensures SeparatedAs(NameKeyOf, SeparateAll(rivals, st).preA[k], SeparateAll(rivals, st).preB[k], rivals[i], k)
    decreases i, 0
  {
    var s1 := SeparatePair(st, rivals[0]);
    StepKeeps(st, rivals[0], ka, kb);
    TailOthers(NameKeyOf, rivals, i, ka, kb);
    k := SeparateAllSeparatesAt(rivals[1..], s1, i - 1, ka, kb);
  }

  /** The first pair, when both its players are pooled, takes the next pin. */
  lemma SeparatesFirst(rivals: seq<(string, string)>, st: Separation) returns (k: nat)
    requires Aligned(st) && rivals != [] && KeyA(rivals[0]) != KeyB(rivals[0])
    requires HasKey(st.d + st.f, KeyA(rivals[0])) && HasKey(st.d + st.f, KeyB(rivals[0]))
    ensures Aligned(SeparateAll(rivals, st))
    ensures st.pidx <= k < SeparateAll(rivals, st).pidx
    ensures SeparatedAs(NameKeyOf, SeparateAll(rivals, st).preA[k], SeparateAll(rivals, st).preB[k], rivals[0], k)
  {
    var s1 := SeparatePair(st, rivals[0]);
    SeparatePairWhen(st, rivals[0]);
    k := st.pidx;
    assert s1.pidx == k + 1 && SeparatedAs(NameKeyOf, s1.preA[k], s1.preB[k], rivals[0], k);
    assert SeparateAll(rivals, st) == SeparateAll(rivals[1..], s1);
    PinSurvives(rivals[1..], s1, k);
  }

  /** A pair sharing no key with `ka` and `kb` leaves both pooled. */
  lemma StepKeeps(st: Separation, pair: (string, string), ka: string, kb: string)
    requires Aligned(st) && KeysOther(NameKeyOf, pair, ka, kb)
    requires HasKey(st.d + st.f, ka) && HasKey(st.d + st.f, kb)
    ensures var s1 := SeparatePair(st, pair);
      Aligned(s1) && st.pidx <= s1.pidx && HasKey(s1.d + s1.f, ka) && HasKey(s1.d + s1.f, kb)
  {
    SeparatePairKeepsKeys(st, pair, ka);
    SeparatePairKeepsKeys(st, pair, kb);
  }

  lemma TailOthers(key: string -> string, rivals: seq<(string, string)>, i: nat, ka: string, kb: string)
    requires 0 < i < |rivals|
    requires forall j :: 0 <= j < i ==> KeysOther(key, rivals[j], ka, kb)
    ensures KeysOther(key, rivals[0], ka, kb) && rivals[1..][i - 1] == rivals[i]
    ensures forall j :: 0 <= j < i - 1 ==> KeysOther(key, rivals[1..][j], ka, kb)
  {
    forall j | 0 <= j < i - 1 ensures KeysOther(key, rivals[1..][j], ka, kb) {
      assert rivals[1..][j] == rivals[j + 1];
    }
  }

  /** A pin recorded before the remaining pairs run stays where it is. */
  lemma PinSurvives(rivals: seq<(string, string)>, st: Separation, k: nat)
    requires Aligned(st) && k < st.pidx
    ensures var r := SeparateAll(rivals, st);
      Aligned(r) && k < r.pidx && r.preA[k] == st.preA[k] && r.preB[k] == st.preB[k]
  {
    var r := SeparateAll(rivals, st);
    SeparateAllKeepsPins(rivals, st);
    PrefixAt(r.preA, st.preA, k);
    PrefixAt(r.preB, st.preB, k);
  }

  /** Every configured pair whose two players are pooled when the loop
      starts is separated, when no two configured names share a key. */
  lemma SeparateAllSeparates(rivals: seq<(string, string)>, st: Separation, i: nat)
    requires KeysApart(NameKeyOf, rivals) && Aligned(st) && i < |rivals|
    requires HasKey(st.d + st.f, KeyA(rivals[i])) && HasKey(st.d + st.f, KeyB(rivals[i]))
    ensures var r := SeparateAll(rivals, st);
      Aligned(r) &&
      exists k :: st.pidx <= k < r.pidx && SeparatedAs(NameKeyOf, r.preA[k], r.preB[k], rivals[i], k)
  {
    var k := SeparateAllSeparatesAt(rivals, st, i, KeyA(rivals[i]), KeyB(rivals[i]));
  }

  /** The rivals loop: every configured pair in order, starting with no
      pinned players, no notes and no separated pairs. */
  method SeparateRivals(rivals: seq<(string, string)>, d0: seq<Player>, f0: seq<Player>) returns (r: Separation)
    ensures r == SeparateAll(rivals, Start(d0, f0))
    ensures PinsFromRivals(NameKeyOf, r, rivals) && r.pidx <= |rivals|
    ensures multiset(r.d) + multiset(r.f) <= multiset(d0) + multiset(f0)
    ensures multiset(r.d) + multiset(r.f) + multiset(r.preA) + multiset(r.preB) <= multiset(d0) + multiset(f0)
    ensures UniqueKeys(multiset(d0) + multiset(f0)) ==>
      multiset(r.d) + multiset(r.f) + multiset(r.preA) + multiset(r.preB) == multiset(d0) + multiset(f0)
    ensures KeysApart(NameKeyOf, rivals) ==> forall i :: 0 <= i < |rivals| ==>
      HasKey(d0 + f0, KeyA(rivals[i])) && HasKey(d0 + f0, KeyB(rivals[i])) ==>
      exists k :: 0 <= k < r.pidx && SeparatedAs(NameKeyOf, r.preA[k], r.preB[k], rivals[i], k)
  {
    r := Separation(d0, f0, [], [], [], 0);
    ghost var which: seq<nat> := [];
    var i := 0;
    while i < |rivals|
      invariant 0 <= i <= |rivals|
      invariant PinsFrom(NameKeyOf, r, rivals, which) && r.pidx <= i
      invariant Accounted(r, multiset(d0) + multiset(f0))
      invariant SeparateAll(rivals[i..], r) == SeparateAll(rivals, Start(d0, f0))
    {
      assert rivals[i..][1..] == rivals[i + 1..];
      var next;
      next, which := Turn(r, rivals, i, which, multiset(d0) + multiset(f0));
      r := next;
      i := i + 1;
    }
    assert rivals[i..] == [];
    PinsWitnessed(NameKeyOf, r, rivals, which);
    if KeysApart(NameKeyOf, rivals) {
      forall j | 0 <= j < |rivals| && HasKey(d0 + f0, KeyA(rivals[j])) && HasKey(d0 + f0, KeyB(rivals[j]))
        ensures exists k :: 0 <= k < r.pidx && SeparatedAs(NameKeyOf, r.preA[k], r.preB[k], rivals[j], k)
      {
        SeparateAllSeparates(rivals, Start(d0, f0), j);
      }
    }
  }
}
