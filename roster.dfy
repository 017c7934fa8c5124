/** The player record of the roster sheet, the availability filter, the rank
    order of a pool and the position quota. */
module Roster {
  import opened Wrappers
  import opened Seqs
  import opened Text

  /** One row of the daily sheet once its columns are normalised: the
      availability, first and second choice are stripped and upper-cased, the
      e-mail is stripped, a missing or unreadable score is 0. */
  datatype Player = Player(
    name: string,
    availability: string,
    first: string,
    second: string,
    score: int,
    status: string,
    email: string)

  /** A row is available when its availability starts with `Y`. */
  predicate IsAvailable(p: Player) {
    |p.availability| > 0 && p.availability[0] == 'Y'
  }

  function Available(rows: seq<Player>): (r: seq<Player>)
    ensures forall p :: p in r <==> p in rows && IsAvailable(p)
    ensures multiset(r) <= multiset(rows)
  {
    Filter(rows, IsAvailable)
  }

  /** 0 for a regular (`R`, in any case, with surrounding blanks), 1 for anyone else. */
  function StatusRank(p: Player): (r: nat)
    ensures r <= 1
  {
    if Upper(Strip(p.status)) == "R" then 0 else 1
  }

  /** `s` is one `r` or `R` with nothing but whitespace around it. */
  ghost predicate IsRegular(s: string) {
    exists i :: 0 <= i < |s| && (s[i] == 'r' || s[i] == 'R') &&
      forall j :: 0 <= j < |s| && j != i ==> IsSpace(s[j])
  }

  /** The rank is 0 exactly for a regular's status. */
  lemma StatusRankRegular(p: Player)
    ensures StatusRank(p) == 0 <==> IsRegular(p.status)
  {
    if StatusRank(p) == 0 {
      StrippedRIsRegular(p.status);
    }
    if IsRegular(p.status) {
      RegularStripsToR(p.status);
    }
  }

  lemma StrippedRIsRegular(s: string)
    requires Upper(Strip(s)) == "R"
    ensures IsRegular(s)
  {
    var lo := StripBounds(s);
    var r := Strip(s);
    assert |r| == 1 && UpperChar(r[0]) == 'R';
    assert r[0] == s[lo];
    assert forall j :: 0 <= j < |s| && j != lo ==> IsSpace(s[j]);
  }

  lemma RegularStripsToR(s: string)
    requires IsRegular(s)
    ensures Upper(Strip(s)) == "R"
  {
    var i :| 0 <= i < |s| && (s[i] == 'r' || s[i] == 'R') &&
      forall j :: 0 <= j < |s| && j != i ==> IsSpace(s[j]);
    StripSingle(s, i);
    assert Upper([s[i]]) == [UpperChar(s[i])];
  }

  lemma StatusRankExamples()
    ensures StatusRank(Player("", "", "", "", 0, " r ", "")) == 0
    ensures StatusRank(Player("", "", "", "", 0, "S", "")) == 1
    ensures StatusRank(Player("", "", "", "", 0, "", "")) == 1
  {
    RegularPadded();
    SpareLetter();
    assert |Strip("")| == 0;
  }

  lemma RegularPadded()
    ensures Upper(Strip(" r ")) == "R"
  {
    var s := " r ";
    assert IsSpace(s[0]) && !IsSpace(s[1]) && IsSpace(s[2]);
    assert TrimLeft(s) == TrimLeft(s[1..]) == s[1..];
    assert s[1..][..1] == "r" && TrimRight(s[1..]) == TrimRight("r") == "r";
    assert Upper("r")[0] == 'R';
  }

  lemma SpareLetter()
    ensures Upper(Strip("S")) != "R"
  {
    var s := "S";
    assert !IsSpace(s[0]);
    assert TrimLeft(s) == s && TrimRight(s) == s;
    assert Upper(s)[0] == 'S';
  }

  /** The pool order: regulars before spares, then higher score first. */
  predicate RankLe(a: Player, b: Player) {
    StatusRank(a) < StatusRank(b) || (StatusRank(a) == StatusRank(b) && a.score >= b.score)
  }

  lemma RankLeIsPreorder()
    ensures TotalPreorder(RankLe)
  {
  }

  /** A pool sorted by (status rank ascending, score descending). Like the
      source's multi-column sort, the sort is stable: players with equal rank
      and score keep their shuffled order. */
  function Ranked(s: seq<Player>): (r: seq<Player>)
    ensures SortedBy(r, RankLe)
    ensures multiset(r) == multiset(s)
  {
    RankLeIsPreorder();
    SortBy(s, RankLe)
  }

  /** A rank-sorted pool lists every regular before every spare, and among
      players of one status a higher score first. */
  lemma RankedRegularsFirst(s: seq<Player>, i: nat, j: nat)
    requires i < j < |Ranked(s)|
    ensures StatusRank(Ranked(s)[i]) <= StatusRank(Ranked(s)[j])
    ensures StatusRank(Ranked(s)[i]) == StatusRank(Ranked(s)[j]) ==> Ranked(s)[i].score >= Ranked(s)[j].score
  {
  }

  function FirstIs(pos: string): Player -> bool {
    (p: Player) => p.first == pos
  }

  function SecondIs(pos: string): Player -> bool {
    (p: Player) => p.second == pos
  }

  /** The players of a ranked list whose first choice is `pos`, in rank order. */
  function PoolOf(ranked: seq<Player>, pos: string): (r: seq<Player>)
    ensures forall p :: p in r <==> p in ranked && p.first == pos
    ensures SortedBy(ranked, RankLe) ==> SortedBy(r, RankLe)
  {
    var r := Filter(ranked, FirstIs(pos));
    if SortedBy(ranked, RankLe) then
      FilterSorted(ranked, FirstIs(pos), RankLe);
      r
    else r
  }

  const BaseF: nat := 12
  const BaseD: nat := 8

  function Min(a: int, b: int): int { if a <= b then a else b }

  /** Target forward and defence counts for `total` available players: the
      base 12/8 up to 20 players; beyond that up to 6 more forwards first,
      then up to 4 more defence; anyone past 30 is left to the cuts. */
  function Quota(total: nat): (r: (nat, nat))
    ensures total <= 20 ==> r == (BaseF, BaseD)
    ensures BaseF <= r.0 <= BaseF + 6 && BaseD <= r.1 <= BaseD + 4
    ensures r.0 + r.1 == Min(if total < 20 then 20 else total, 30)
    ensures r.1 > BaseD ==> r.0 == BaseF + 6
  {
    if total <= 20 then (BaseF, BaseD)
    else
      var ex := total - 20;
      var addF := Min(ex, 6);
      (BaseF + addF, BaseD + Min(ex - addF, 4))
  }

  /** The quota is the only split that fills forwards before defence and
      stays within the bounds: any pair with those properties is `Quota`. */
  lemma QuotaCharacterised(total: nat, f: nat, d: nat)
    requires BaseF <= f <= BaseF + 6 && BaseD <= d <= BaseD + 4
    requires f + d == Min(if total < 20 then 20 else total, 30)
    requires d > BaseD ==> f == BaseF + 6
    ensures (f, d) == Quota(total)
  {
  }

  lemma QuotaExamples()
    ensures Quota(18) == (12, 8) && Quota(20) == (12, 8)
    ensures Quota(22) == (14, 8) && Quota(26) == (18, 8) && Quota(30) == (18, 12)
    ensures Quota(40) == (18, 12)
  {
  }
}
