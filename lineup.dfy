/** The lineup composer: from the balanced pools and the pinned rivals, picks
    the players that fill the targets, deals them by snake draft, and sorts
    each team by position and name. Players left over are the cuts. */
module Lineup {
  import opened Seqs
  import opened Roster
  import opened Draft

  /** Python's string order: code point by code point, a proper prefix first. */
  predicate StrLe(a: string, b: string)
    decreases |a|
  {
    if a == [] then true
    else if b == [] then false
    else if a[0] != b[0] then a[0] < b[0]
    else StrLe(a[1..], b[1..])
  }

  lemma {:induction false} StrLeTotal(a: string, b: string)
    ensures StrLe(a, b) || StrLe(b, a)
    decreases |a|
  {
    if a != [] && b != [] && a[0] == b[0] {
      StrLeTotal(a[1..], b[1..]);
    }
  }

  lemma {:induction false} StrLeAntisymmetric(a: string, b: string)
    requires StrLe(a, b) && StrLe(b, a)
    ensures a == b
    decreases |a|
  {
    if a != [] {
      StrLeAntisymmetric(a[1..], b[1..]);
      assert a == [a[0]] + a[1..] && b == [b[0]] + b[1..];
    }
  }

  lemma {:induction false} StrLeTransitive(a: string, b: string, c: string)
    requires StrLe(a, b) && StrLe(b, c)
    ensures StrLe(a, c)
    decreases |a|
  {
    if a != [] && b != [] && c != [] && a[0] == b[0] && b[0] == c[0] {
      StrLeTransitive(a[1..], b[1..], c[1..]);
    }
  }

  /** One line of a team sheet: the player and the position they play. */
  datatype Entry = Entry(player: Player, pos: string)

  /** The team sheet order: by position, then by full name. */
  predicate EntryLe(x: Entry, y: Entry) {
    (StrLe(x.pos, y.pos) && x.pos != y.pos) || (x.pos == y.pos && StrLe(x.player.name, y.player.name))
  }

  lemma EntryLeTransitive(x: Entry, y: Entry, z: Entry)
    requires EntryLe(x, y) && EntryLe(y, z)
    ensures EntryLe(x, z)
  {
    if x.pos == y.pos && y.pos == z.pos {
      StrLeTransitive(x.player.name, y.player.name, z.player.name);
    } else if x.pos != y.pos && y.pos != z.pos {
      StrLeTransitive(x.pos, y.pos, z.pos);
      if x.pos == z.pos {
        StrLeAntisymmetric(y.pos, z.pos);
      }
    }
  }

  lemma EntryLeIsPreorder()
    ensures TotalPreorder(EntryLe)
  {
    forall x: Entry, y: Entry ensures EntryLe(x, y) || EntryLe(y, x) {
      StrLeTotal(x.pos, y.pos);
      StrLeTotal(x.player.name, y.player.name);
    }
    forall x: Entry, y: Entry, z: Entry | EntryLe(x, y) && EntryLe(y, z) ensures EntryLe(x, z) {
      EntryLeTransitive(x, y, z);
    }
  }

  /** A team sorted into sheet order. Like the source's multi-column sort,
      the sort is stable: entries with equal position and name keep their
      drafted order. */
  function SheetOrder(t: seq<Entry>): (r: seq<Entry>)
    ensures SortedBy(r, EntryLe) && multiset(r) == multiset(t)
  {
    EntryLeIsPreorder();
    SortBy(t, EntryLe)
  }

  /** The players of `s`, each tagged with position `pos`. */
  function Tag(s: seq<Player>, pos: string): (r: seq<Entry>)
    ensures |r| == |s| && forall i :: 0 <= i < |s| ==> r[i] == Entry(s[i], pos)
  {
    seq(|s|, i requires 0 <= i < |s| => Entry(s[i], pos))
  }

  /** Pinned players, each playing their first choice. */
  function PinEntries(s: seq<Player>): (r: seq<Entry>)
    ensures |r| == |s| && forall i :: 0 <= i < |s| ==> r[i] == Entry(s[i], s[i].first)
  {
    seq(|s|, i requires 0 <= i < |s| => Entry(s[i], s[i].first))
  }

  function PlayerOf(e: Entry): Player { e.player }

  /** The players of a team sheet. */
  function Players(t: seq<Entry>): seq<Player> {
    Map(t, PlayerOf)
  }

  /** How many pinned players have first choice `pos`. */
  function PinnedCount(pins: seq<Player>, pos: string): nat {
    |Filter(pins, FirstIs(pos))|
  }

  /** `head(max(0, target - pinned))` of a pool of `avail` players: how many
      are kept so that, with the pinned players, the position reaches its
      target; the whole pool when it falls short, none when the pinned
      players already fill it. */
  function Keep(target: nat, pinned: nat, avail: nat): (r: nat)
    ensures r <= avail
    ensures pinned <= target <= pinned + avail ==> pinned + r == target
    ensures target > pinned + avail ==> r == avail
    ensures target <= pinned ==> r == 0
  {
    if target <= pinned then 0 else Min(target - pinned, avail)
  }

  /** The two team sheets and the cut players. */
  datatype Lineups = Lineups(red: seq<Entry>, white: seq<Entry>, cutsD: seq<Player>, cutsF: seq<Player>)

  /** Dealing the heads `rd[..kd]` and `rf[..kf]` of two ranked pools: each
      team holds its pinned rivals, then its defence picks, then its forward
      picks; the pools' tails are the cuts. */
  function Deal(rd: seq<Player>, rf: seq<Player>, kd: nat, kf: nat, preA: seq<Player>, preB: seq<Player>): (r: Lineups)
    requires kd <= |rd| && kf <= |rf|
    ensures |r.red| >= |preA| && r.red[..|preA|] == PinEntries(preA)
    ensures |r.white| >= |preB| && r.white[..|preB|] == PinEntries(preB)
    ensures |r.red| + |r.white| == |preA| + |preB| + kd + kf
    ensures r.cutsD == rd[kd..] && r.cutsF == rf[kf..]
    ensures |r.red| >= |preA| && |r.white| >= |preB|
    ensures PlayingAt(r.red[|preA|..], "D") == Snake(rd[..kd]).0 && PlayingAt(r.white[|preB|..], "D") == Snake(rd[..kd]).1
    ensures PlayingAt(r.red[|preA|..], "F") == Snake(rf[..kf]).0 && PlayingAt(r.white[|preB|..], "F") == Snake(rf[..kf]).1
  {
    var (da, db) := Snake(rd[..kd]);
    var (fa, fb) := Snake(rf[..kf]);
    var red := PinEntries(preA) + Tag(da, "D") + Tag(fa, "F");
    var white := PinEntries(preB) + Tag(db, "D") + Tag(fb, "F");
    assert red[..|preA|] == PinEntries(preA) && white[..|preB|] == PinEntries(preB);
    SharesAtPositions(preA, preB, da, db, fa, fb);
    Lineups(red, white, rd[kd..], rf[kf..])
  }

  /** The composer before the final sort: re-rank both pools and deal the
      players that fill the targets. */
  function Drafted(d: seq<Player>, f: seq<Player>, preA: seq<Player>, preB: seq<Player>,
                   targetF: nat, targetD: nat): (r: Lineups)
    ensures |r.red| >= |preA| && r.red[..|preA|] == PinEntries(preA)
    ensures |r.white| >= |preB| && r.white[..|preB|] == PinEntries(preB)
    ensures |r.cutsD| + Keep(targetD, PinnedCount(preA + preB, "D"), |d|) == |d|
    ensures |r.cutsF| + Keep(targetF, PinnedCount(preA + preB, "F"), |f|) == |f|
    ensures r.cutsD == Ranked(d)[Keep(targetD, PinnedCount(preA + preB, "D"), |Ranked(d)|)..]
    ensures r.cutsF == Ranked(f)[Keep(targetF, PinnedCount(preA + preB, "F"), |Ranked(f)|)..]
    ensures var kd := Keep(targetD, PinnedCount(preA + preB, "D"), |Ranked(d)|);
      PlayingAt(r.red[|preA|..], "D") == Snake(Ranked(d)[..kd]).0 && PlayingAt(r.white[|preB|..], "D") == Snake(Ranked(d)[..kd]).1
    ensures var kf := Keep(targetF, PinnedCount(preA + preB, "F"), |Ranked(f)|);
      PlayingAt(r.red[|preA|..], "F") == Snake(Ranked(f)[..kf]).0 && PlayingAt(r.white[|preB|..], "F") == Snake(Ranked(f)[..kf]).1
  {
    var rd, rf := Ranked(d), Ranked(f);
    assert |rd| == |multiset(rd)| == |d| && |rf| == |multiset(rf)| == |f|;
    Deal(rd, rf, Keep(targetD, PinnedCount(preA + preB, "D"), |rd|),
         Keep(targetF, PinnedCount(preA + preB, "F"), |rf|), preA, preB)
  }

  /** The composer block of the script: re-rank both pools, keep their heads,
      deal them by snake draft, add the pinned rivals and sort each team. */
  method Compose(d: seq<Player>, f: seq<Player>, preA: seq<Player>, preB: seq<Player>,
                 targetF: nat, targetD: nat) returns (l: Lineups)
    ensures var u := Drafted(d, f, preA, preB, targetF, targetD);
      multiset(l.red) == multiset(u.red) && multiset(l.white) == multiset(u.white) &&
      l.cutsD == u.cutsD && l.cutsF == u.cutsF
    ensures SortedBy(l.red, EntryLe) && SortedBy(l.white, EntryLe)
  {
    var rd, rf := Ranked(d), Ranked(f);
    var pdCnt := PinnedCount(preA + preB, "D");
    var pfCnt := PinnedCount(preA + preB, "F");
    var kd := Keep(targetD, pdCnt, |rd|);
    var kf := Keep(targetF, pfCnt, |rf|);
    var da, db := SnakeDraft(rd[..kd]);
    var fa, fb := SnakeDraft(rf[..kf]);
    var ta := PinEntries(preA) + Tag(da, "D") + Tag(fa, "F");
    var tb := PinEntries(preB) + Tag(db, "D") + Tag(fb, "F");
    assert Lineups(ta, tb, rd[kd..], rf[kf..]) == Deal(rd, rf, kd, kf, preA, preB);
    l := Lineups(SheetOrder(ta), SheetOrder(tb), rd[kd..], rf[kf..]);
  }

  lemma TagPlayers(s: seq<Player>, pos: string)
    ensures Players(Tag(s, pos)) == s
  {
  }

  lemma PinPlayers(s: seq<Player>)
    ensures Players(PinEntries(s)) == s
  {
  }

  lemma DealConserves(rd: seq<Player>, rf: seq<Player>, kd: nat, kf: nat, preA: seq<Player>, preB: seq<Player>)
    requires kd <= |rd| && kf <= |rf|
    ensures var u := Deal(rd, rf, kd, kf, preA, preB);
      multiset(Players(u.red)) + multiset(Players(u.white)) + multiset(u.cutsD) + multiset(u.cutsF) ==
      multiset(rd) + multiset(rf) + multiset(preA) + multiset(preB)
  {
    var (da, db) := Snake(rd[..kd]);
    var (fa, fb) := Snake(rf[..kf]);
    SnakeConserves(rd[..kd]);
    SnakeConserves(rf[..kf]);
    assert rd == rd[..kd] + rd[kd..];
    assert rf == rf[..kf] + rf[kf..];
    MapAppend(PinEntries(preA) + Tag(da, "D"), Tag(fa, "F"), PlayerOf);
    MapAppend(PinEntries(preA), Tag(da, "D"), PlayerOf);
    MapAppend(PinEntries(preB) + Tag(db, "D"), Tag(fb, "F"), PlayerOf);
    MapAppend(PinEntries(preB), Tag(db, "D"), PlayerOf);
    PinPlayers(preA);
    PinPlayers(preB);
    TagPlayers(da, "D");
    TagPlayers(db, "D");
    TagPlayers(fa, "F");
    TagPlayers(fb, "F");
  }

  /** The composer neither loses nor duplicates a player: the two teams and
      the cuts hold exactly the pools and the pinned rivals. */
  lemma DraftedConserves(d: seq<Player>, f: seq<Player>, preA: seq<Player>, preB: seq<Player>,
                         targetF: nat, targetD: nat)
    ensures var u := Drafted(d, f, preA, preB, targetF, targetD);
      multiset(Players(u.red)) + multiset(Players(u.white)) + multiset(u.cutsD) + multiset(u.cutsF) ==
      multiset(d) + multiset(f) + multiset(preA) + multiset(preB)
  {
    var rd, rf := Ranked(d), Ranked(f);
    DealConserves(rd, rf, Keep(targetD, PinnedCount(preA + preB, "D"), |rd|),
                  Keep(targetF, PinnedCount(preA + preB, "F"), |rf|), preA, preB);
  }

  /** The sorted teams hold the same players as the drafted ones, so the
      composer's output conserves players too. */
  lemma ComposeConserves(l: Lineups, d: seq<Player>, f: seq<Player>, preA: seq<Player>, preB: seq<Player>,
                         targetF: nat, targetD: nat)
    requires var u := Drafted(d, f, preA, preB, targetF, targetD);
      multiset(l.red) == multiset(u.red) && multiset(l.white) == multiset(u.white) &&
      l.cutsD == u.cutsD && l.cutsF == u.cutsF
    ensures multiset(Players(l.red)) + multiset(Players(l.white)) + multiset(l.cutsD) + multiset(l.cutsF) ==
      multiset(d) + multiset(f) + multiset(preA) + multiset(preB)
  {
    var u := Drafted(d, f, preA, preB, targetF, targetD);
    MapPermutation(l.red, u.red, PlayerOf);
    MapPermutation(l.white, u.white, PlayerOf);
    DraftedConserves(d, f, preA, preB, targetF, targetD);
  }

  /** A pinned rival plays on the team they were pinned to, at their first
      choice, whatever order the final sort puts the team in. */
  lemma PinnedOnTheirTeam(red: seq<Entry>, white: seq<Entry>, u: Lineups, preA: seq<Player>, preB: seq<Player>)
    requires |u.red| >= |preA| && u.red[..|preA|] == PinEntries(preA)
    requires |u.white| >= |preB| && u.white[..|preB|] == PinEntries(preB)
    requires multiset(red) == multiset(u.red) && multiset(white) == multiset(u.white)
    ensures forall p :: p in preA ==> Entry(p, p.first) in red
    ensures forall p :: p in preB ==> Entry(p, p.first) in white
  {
    forall p | p in preA ensures Entry(p, p.first) in red {
      var i :| 0 <= i < |preA| && preA[i] == p;
      assert u.red[..|preA|][i] == Entry(p, p.first);
      assert Entry(p, p.first) in multiset(u.red);
    }
    forall p | p in preB ensures Entry(p, p.first) in white {
      var i :| 0 <= i < |preB| && preB[i] == p;
      assert u.white[..|preB|][i] == Entry(p, p.first);
      assert Entry(p, p.first) in multiset(u.white);
    }
  }

  /** Cutting the tail of a sorted pool cuts only the lowest-ranked: every
      kept player ranks at or above every cut one. */
  lemma CutsRankLast(r: seq<Player>, k: nat)
    requires SortedBy(r, RankLe) && k <= |r|
    ensures forall x, y :: x in r[..k] && y in r[k..] ==> RankLe(x, y)
  {
    forall x, y | x in r[..k] && y in r[k..] ensures RankLe(x, y) {
      var i :| 0 <= i < k && r[..k][i] == x;
      var j :| 0 <= j < |r| - k && r[k..][j] == y;
      assert r[i] == x && r[k + j] == y;
    }
  }

  /** Whether an entry plays position `pos`. */
  function PosIs(pos: string): Entry -> bool {
    (e: Entry) => e.pos == pos
  }

  /** The players of a team sheet listed at position `pos`, in sheet order. */
  function PlayingAt(t: seq<Entry>, pos: string): seq<Player> {
    Players(Filter(t, PosIs(pos)))
  }

  /** Among players all tagged `pos`, those at `q` are all of them when
      `q == pos` and none otherwise. */
  lemma {:induction false} FilterTag(s: seq<Player>, pos: string, q: string)
    ensures Filter(Tag(s, pos), PosIs(q)) == if pos == q then Tag(s, pos) else []
    decreases |s|
  {
    if s != [] {
      var init := s[..|s| - 1];
      assert Tag(s, pos) == Tag(init, pos) + [Entry(s[|s| - 1], pos)];
      FilterSnoc(Tag(init, pos), Entry(s[|s| - 1], pos), PosIs(q));
      FilterTag(init, pos, q);
    }
  }

  /** The drafted part of a dealt team at one position: the team's share of
      that position's snake draft. */
  lemma DraftedPart(x: seq<Player>, y: seq<Player>)
    ensures PlayingAt(Tag(x, "D") + Tag(y, "F"), "D") == x
    ensures PlayingAt(Tag(x, "D") + Tag(y, "F"), "F") == y
  {
    assert "D" != "F" by { assert "D"[0] != "F"[0]; }
    FilterAppend(Tag(x, "D"), Tag(y, "F"), PosIs("D"));
    FilterAppend(Tag(x, "D"), Tag(y, "F"), PosIs("F"));
    FilterTag(x, "D", "D");
    FilterTag(y, "F", "D");
    FilterTag(x, "D", "F");
    FilterTag(y, "F", "F");
    assert Tag(x, "D") + [] == Tag(x, "D");
    assert [] + Tag(y, "F") == Tag(y, "F");
    TagPlayers(x, "D");
    TagPlayers(y, "F");
  }

  /** After its pinned rivals, a dealt team is its share of the defence
      draft followed by its share of the forward draft. */
  lemma DealtAfterPins(pins: seq<Player>, x: seq<Player>, y: seq<Player>)
    ensures var t := PinEntries(pins) + Tag(x, "D") + Tag(y, "F");
      |t| >= |pins| && t[|pins|..] == Tag(x, "D") + Tag(y, "F")
  {
    var t := PinEntries(pins) + Tag(x, "D") + Tag(y, "F");
    assert t == PinEntries(pins) + (Tag(x, "D") + Tag(y, "F"));
  }

  /** Two team sheets built from pins and draft shares list, after the pins,
      each team's own share at each position, and so together the two
      teams' shares of that position. */
  lemma SharesAtPositions(preA: seq<Player>, preB: seq<Player>, da: seq<Player>, db: seq<Player>,
                          fa: seq<Player>, fb: seq<Player>)
    ensures var (red, white) := (PinEntries(preA) + Tag(da, "D") + Tag(fa, "F"), PinEntries(preB) + Tag(db, "D") + Tag(fb, "F"));
      |red| >= |preA| && |white| >= |preB| &&
      PlayingAt(red[|preA|..], "D") == da && PlayingAt(white[|preB|..], "D") == db &&
      PlayingAt(red[|preA|..], "F") == fa && PlayingAt(white[|preB|..], "F") == fb &&
      multiset(PlayingAt(red[|preA|..], "D")) + multiset(PlayingAt(white[|preB|..], "D")) == multiset(da) + multiset(db) &&
      multiset(PlayingAt(red[|preA|..], "F")) + multiset(PlayingAt(white[|preB|..], "F")) == multiset(fa) + multiset(fb)
  {
    DealtAfterPins(preA, da, fa);
    DealtAfterPins(preB, db, fb);
    DraftedPart(da, fa);
    DraftedPart(db, fb);
  }

  /** A deal keeps exactly the heads of the two ranked pools: after the
      pinned rivals, the defence players of both teams together are
      `rd[..kd]` and the forwards `rf[..kf]`; the tails are the cuts. */
  lemma DealKeepsHeads(rd: seq<Player>, rf: seq<Player>, kd: nat, kf: nat, preA: seq<Player>, preB: seq<Player>)
    requires kd <= |rd| && kf <= |rf|
    ensures var u := Deal(rd, rf, kd, kf, preA, preB);
      multiset(PlayingAt(u.red[|preA|..], "D")) + multiset(PlayingAt(u.white[|preB|..], "D")) == multiset(rd[..kd]) &&
      multiset(PlayingAt(u.red[|preA|..], "F")) + multiset(PlayingAt(u.white[|preB|..], "F")) == multiset(rf[..kf]) &&
      rd[..kd] + u.cutsD == rd && rf[..kf] + u.cutsF == rf
  {
    var sd, sf := Snake(rd[..kd]), Snake(rf[..kf]);
    var red := PinEntries(preA) + Tag(sd.0, "D") + Tag(sf.0, "F");
    var white := PinEntries(preB) + Tag(sd.1, "D") + Tag(sf.1, "F");
    assert Deal(rd, rf, kd, kf, preA, preB) == Lineups(red, white, rd[kd..], rf[kf..]);
    SharesAtPositions(preA, preB, sd.0, sd.1, sf.0, sf.1);
    SnakeConserves(rd[..kd]);
    SnakeConserves(rf[..kf]);
    assert rd[..kd] + rd[kd..] == rd;
    assert rf[..kf] + rf[kf..] == rf;
  }

  /** The composer's selection: each ranked pool splits into the kept head,
      `head(max(0, target - pinned))`, and the cut tail; the kept players are
      exactly those drafted at that position, and every one of them ranks at
      or above every cut player. */
  lemma DraftedSelects(d: seq<Player>, f: seq<Player>, preA: seq<Player>, preB: seq<Player>,
                       targetF: nat, targetD: nat)
    ensures var (u, rd, rf) := (Drafted(d, f, preA, preB, targetF, targetD), Ranked(d), Ranked(f));
      var kd := Keep(targetD, PinnedCount(preA + preB, "D"), |rd|);
      var kf := Keep(targetF, PinnedCount(preA + preB, "F"), |rf|);
      rd[..kd] + u.cutsD == rd && rf[..kf] + u.cutsF == rf &&
      multiset(PlayingAt(u.red[|preA|..], "D")) + multiset(PlayingAt(u.white[|preB|..], "D")) == multiset(rd[..kd]) &&
      multiset(PlayingAt(u.red[|preA|..], "F")) + multiset(PlayingAt(u.white[|preB|..], "F")) == multiset(rf[..kf]) &&
      (forall x, y :: x in rd[..kd] && y in u.cutsD ==> RankLe(x, y)) &&
      (forall x, y :: x in rf[..kf] && y in u.cutsF ==> RankLe(x, y))
  {
    var rd, rf := Ranked(d), Ranked(f);
    assert |rd| == |d| by { assert |multiset(rd)| == |multiset(d)|; }
    assert |rf| == |f| by { assert |multiset(rf)| == |multiset(f)|; }
    var kd := Keep(targetD, PinnedCount(preA + preB, "D"), |rd|);
    var kf := Keep(targetF, PinnedCount(preA + preB, "F"), |rf|);
    assert Drafted(d, f, preA, preB, targetF, targetD) == Deal(rd, rf, kd, kf, preA, preB);
    DealKeepsHeads(rd, rf, kd, kf, preA, preB);
    CutsRankLast(rd, kd);
    CutsRankLast(rf, kf);
  }

  /** Team sizes: each team holds its pinned rivals and its share of the two
      snake drafts; with equally many rivals per side, the red team has at
      most two players more or fewer than the white team. */
  lemma TeamSizes(d: seq<Player>, f: seq<Player>, preA: seq<Player>, preB: seq<Player>,
                  targetF: nat, targetD: nat)
    requires |preA| == |preB|
    ensures var u := Drafted(d, f, preA, preB, targetF, targetD);
      |u.red| <= |u.white| + 2 && |u.white| <= |u.red| + 2
  {
    var rd, rf := Ranked(d), Ranked(f);
    var kd := Keep(targetD, PinnedCount(preA + preB, "D"), |rd|);
    var kf := Keep(targetF, PinnedCount(preA + preB, "F"), |rf|);
    SnakeSizes(rd[..kd]);
    SnakeSizes(rf[..kf]);
    assert Drafted(d, f, preA, preB, targetF, targetD) == Deal(rd, rf, kd, kf, preA, preB);
  }

  /** Players selected for a position, with the pinned players of that first
      choice, reach the position's target when the pool is large enough and
      the pinned players do not already exceed it. */
  lemma TargetsFilled(d: seq<Player>, f: seq<Player>, preA: seq<Player>, preB: seq<Player>,
                      targetF: nat, targetD: nat)
    ensures var pd := PinnedCount(preA + preB, "D");
      pd <= targetD <= pd + |d| ==> pd + (|d| - |Drafted(d, f, preA, preB, targetF, targetD).cutsD|) == targetD
    ensures var pf := PinnedCount(preA + preB, "F");
      pf <= targetF <= pf + |f| ==> pf + (|f| - |Drafted(d, f, preA, preB, targetF, targetD).cutsF|) == targetF
  {
    assert |Ranked(d)| == |d| by { assert |multiset(Ranked(d))| == |multiset(d)|; }
    assert |Ranked(f)| == |f| by { assert |multiset(Ranked(f))| == |multiset(f)|; }
  }

  function ScoreOf(e: Entry): int { e.player.score }

  /** A team's total score, as shown above each team. */
  function TeamScore(t: seq<Entry>): int {
    Sum(Map(t, ScoreOf))
  }

  /** Sorting a team does not change its score. */
  lemma TeamScoreOrderFree(a: seq<Entry>, b: seq<Entry>)
    requires multiset(a) == multiset(b)
    ensures TeamScore(a) == TeamScore(b)
  {
    MapPermutation(a, b, ScoreOf);
    SumPermutation(Map(a, ScoreOf), Map(b, ScoreOf));
  }

  predicate IntGe(a: int, b: int) { a >= b }

  lemma IntGeIsPreorder()
    ensures TotalPreorder(IntGe)
  {
  }

  /** The scores from highest to lowest. */
  function Descending(scores: seq<int>): (r: seq<int>)
    ensures SortedBy(r, IntGe) && multiset(r) == multiset(scores) && |r| == |scores|
  {
    IntGeIsPreorder();
    var r := SortBy(scores, IntGe);
    assert |r| == |scores| by { assert |multiset(r)| == |multiset(scores)|; }
    r
  }

  /** `get_top_n_score`: the sum of the `n` highest scores; 0 for an empty
      team or a non-positive `n`. */
  function TopNScore(scores: seq<int>, n: int): (r: int)
    ensures scores == [] || n <= 0 ==> r == 0
  {
    if scores == [] || n <= 0 then 0
    else Sum(Descending(scores)[..Min(n, |scores|)])
  }

  /** Asking for at least as many scores as there are gives the plain sum. */
  lemma TopNScoreAll(scores: seq<int>, n: int)
    requires n >= |scores|
    ensures TopNScore(scores, n) == Sum(scores)
  {
    if scores != [] {
      var sorted := Descending(scores);
      assert sorted[..Min(n, |scores|)] == sorted;
      SumPermutation(sorted, scores);
    }
  }

  /** The head of a list sorted high to low is the maximum of its elements. */
  lemma SortedHeadIsMax(sorted: seq<int>, scores: seq<int>)
    requires scores != [] && SortedBy(sorted, IntGe) && multiset(sorted) == multiset(scores)
    ensures sorted != [] && sorted[0] == Max(scores)
  {
    MaxIsGreatest(scores);
    assert sorted != [] by { assert Max(scores) in multiset(sorted); }
    assert sorted[0] in multiset(scores);
    var m := Max(scores);
    assert m in multiset(sorted);
    var i :| 0 <= i < |sorted| && sorted[i] == m;
    assert i == 0 || IntGe(sorted[0], sorted[i]);
    assert sorted[0] >= m;
    assert sorted[0] in scores;
    assert sorted[0] <= m;
  }

  /** The top score alone is the maximum. */
  lemma TopNScoreOne(scores: seq<int>)
    requires scores != []
    ensures TopNScore(scores, 1) == Max(scores)
  {
    var sorted := Descending(scores);
    SortedHeadIsMax(sorted, scores);
    assert sorted[..1] == [sorted[0]];
    assert Sum([sorted[0]]) == sorted[0] by { assert [sorted[0]][..0] == []; }
  }

  /** The top-`n` score depends only on the scores, not on their order. */
  lemma TopNScoreOrderFree(a: seq<int>, b: seq<int>, n: int)
    requires multiset(a) == multiset(b)
    ensures TopNScore(a, n) == TopNScore(b, n)
  {
    if a != [] && n > 0 {
      IntGeIsPreorder();
      assert |a| == |b| by { assert |multiset(a)| == |multiset(b)|; }
      SortedUnique(Descending(a), Descending(b), IntGe);
    } else if n > 0 {
      assert |b| == |multiset(b)| == 0;
    }
  }
}
