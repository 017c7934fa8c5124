/** One run of the team generator on a normalised daily sheet: keep the
    available players, set the position quota, rank the shuffled players into
    a defence and a forward pool, balance the pools, separate the rivals,
    compose the two teams and collect the e-mail recipients. */
module Pipeline {
  import opened Wrappers
  import opened Seqs
  import opened Roster
  import opened Balancer
  import opened Rivals
  import opened Lineup
  import opened Mail

  /** What a run shows: the quota, the balancer's moves, the rival notes,
      the teams and cuts, and the recipients when anyone was placed. */
  datatype Outcome = Outcome(
    targetF: nat,
    targetD: nat,
    balanced: Balanced,
    logs: seq<string>,
    teams: Lineups,
    recipients: Option<seq<string>>)

  /** The available players whose first choice is defence or forward: the
      only ones the pools are made of. */
  ghost function Eligible(rows: seq<Player>): multiset<Player> {
    multiset(Filter(Available(rows), FirstIs("D"))) + multiset(Filter(Available(rows), FirstIs("F")))
  }

  /** Everyone a run places: both teams and both cut lists. */
  ghost function Placed(l: Lineups): multiset<Player> {
    multiset(Players(l.red)) + multiset(Players(l.white)) + multiset(l.cutsD) + multiset(l.cutsF)
  }

  /** A row counts towards the pools exactly when it is available and its
      first choice is `D` or `F`; anyone else is never placed. */
  lemma EligibleCount(rows: seq<Player>, p: Player)
    ensures Eligible(rows)[p] ==
      if IsAvailable(p) && (p.first == "D" || p.first == "F") then multiset(rows)[p] else 0
  {
    FilterCount(Available(rows), FirstIs("D"), p);
    FilterCount(Available(rows), FirstIs("F"), p);
    FilterCount(rows, IsAvailable, p);
  }

  function EmailOf(p: Player): string {
    p.email
  }

  /** The addresses of both teams, red first, in sheet order. */
  function Emails(l: Lineups): seq<string> {
    Map(Players(l.red) + Players(l.white), EmailOf)
  }

  /** The ranked pools hold the eligible players, whatever the shuffle. */
  lemma PoolsAreEligible(rows: seq<Player>, shuffled: seq<Player>)
    requires multiset(shuffled) == multiset(Available(rows))
    ensures multiset(PoolOf(Ranked(shuffled), "D")) + multiset(PoolOf(Ranked(shuffled), "F")) == Eligible(rows)
  {
    var ranked := Ranked(shuffled);
    FilterMultiset(ranked, Available(rows), FirstIs("D"));
    FilterMultiset(ranked, Available(rows), FirstIs("F"));
  }

  /** Some player of `m` has the name key `k`. */
  ghost predicate Listed(m: multiset<Player>, k: string) {
    exists p :: p in m && NameKey(p) == k
  }

  /** The two players of `pair` are on the sheets, one in red and one in
      white, the higher scorer in red for an even pin index. */
  ghost predicate OnOppositeTeams(l: Lineups, pair: (string, string)) {
    exists a: Player, b: Player, k: nat :: Entry(a, a.first) in l.red && Entry(b, b.first) in l.white && SeparatedAs(NameKeyOf, a, b, pair, k)
  }

  /** The pools the balancer hands to the rivals pass. */
  function BalancedPools(shuffled: seq<Player>, targetF: nat, targetD: nat): Balanced {
    var ranked := Ranked(shuffled);
    BalanceSpec(PoolOf(ranked, "D"), PoolOf(ranked, "F"), targetF, targetD)
  }

  /** The state the rivals pass leaves. */
  function Separated(shuffled: seq<Player>, targetF: nat, targetD: nat): Separation {
    var b := BalancedPools(shuffled, targetF, targetD);
    SeparateAll(RivalPairs, Start(b.d, b.f))
  }

  /** The teams as drafted before sorting. */
  function DraftedTeams(shuffled: seq<Player>, targetF: nat, targetD: nat): Lineups {
    var sep := Separated(shuffled, targetF, targetD);
    Drafted(sep.d, sep.f, sep.preA, sep.preB, targetF, targetD)
  }

  /** Whenever both players of a configured pair are available with a first
      choice of defence or forward, they play on different teams. */
  lemma RivalsOnOppositeTeams(rows: seq<Player>, shuffled: seq<Player>, l: Lineups, targetF: nat, targetD: nat, i: nat)
    requires multiset(shuffled) == multiset(Available(rows))
    requires i < |RivalPairs| && Listed(Eligible(rows), KeyA(RivalPairs[i])) && Listed(Eligible(rows), KeyB(RivalPairs[i]))
    requires var u := DraftedTeams(shuffled, targetF, targetD);
      multiset(l.red) == multiset(u.red) && multiset(l.white) == multiset(u.white)
    ensures OnOppositeTeams(l, RivalPairs[i])
  {
    var ranked := Ranked(shuffled);
    var b := BalancedPools(shuffled, targetF, targetD);
    PoolsAreEligible(rows, shuffled);
    BalanceConserves(PoolOf(ranked, "D"), PoolOf(ranked, "F"), targetF, targetD);
    assert multiset(b.d + b.f) == Eligible(rows);
    ListedHasKey(Eligible(rows), b.d + b.f, KeyA(RivalPairs[i]));
    ListedHasKey(Eligible(rows), b.d + b.f, KeyB(RivalPairs[i]));
    RivalPairsApart();
    SeparateAllSeparates(RivalPairs, Start(b.d, b.f), i);
    var sep := Separated(shuffled, targetF, targetD);
    var k :| 0 <= k < sep.pidx && SeparatedAs(NameKeyOf, sep.preA[k], sep.preB[k], RivalPairs[i], k);
    var u := DraftedTeams(shuffled, targetF, targetD);
    PinnedOnTheirTeam(l.red, l.white, u, sep.preA, sep.preB);
    assert sep.preA[k] in sep.preA && sep.preB[k] in sep.preB;
    assert Entry(sep.preA[k], sep.preA[k].first) in l.red;
    assert Entry(sep.preB[k], sep.preB[k].first) in l.white;
  }

  /** `RivalsOnOppositeTeams` for every configured pair at once. */
  lemma AllRivalsOnOppositeTeams(rows: seq<Player>, shuffled: seq<Player>, l: Lineups, targetF: nat, targetD: nat)
    requires multiset(shuffled) == multiset(Available(rows))
    requires var u := DraftedTeams(shuffled, targetF, targetD);
      multiset(l.red) == multiset(u.red) && multiset(l.white) == multiset(u.white)
    ensures forall i :: 0 <= i < |RivalPairs| ==>
      Listed(Eligible(rows), KeyA(RivalPairs[i])) && Listed(Eligible(rows), KeyB(RivalPairs[i])) ==>
      OnOppositeTeams(l, RivalPairs[i])
  {
    forall i | 0 <= i < |RivalPairs| &&
        Listed(Eligible(rows), KeyA(RivalPairs[i])) && Listed(Eligible(rows), KeyB(RivalPairs[i]))
      ensures OnOppositeTeams(l, RivalPairs[i])
    {
      RivalsOnOppositeTeams(rows, shuffled, l, targetF, targetD, i);
    }
  }

  lemma ListedHasKey(m: multiset<Player>, s: seq<Player>, k: string)
    requires multiset(s) == m && Listed(m, k)
    ensures HasKey(s, k)
  {
    var p :| p in m && NameKey(p) == k;
    assert p in multiset(s);
    assert p in s && KeyIs(k)(p);
  }

  /** The script from the availability filter to the e-mail recipients.
      `shuffled` is the random order the available players are put in. */
  method Run(rows: seq<Player>, shuffled: seq<Player>) returns (r: Result<Outcome, string>)
    requires multiset(shuffled) == multiset(Available(rows))
    ensures r.Err? <==> Available(rows) == []
    ensures r.Ok? ==> (r.value.targetF, r.value.targetD) == Quota(|Available(rows)|)
    ensures r.Ok? ==> Placed(r.value.teams) <= Eligible(rows)
    ensures r.Ok? && UniqueKeys(Eligible(rows)) ==> Placed(r.value.teams) == Eligible(rows)
    ensures r.Ok? ==> SortedBy(r.value.teams.red, EntryLe) && SortedBy(r.value.teams.white, EntryLe)
    ensures r.Ok? ==> r.value.balanced == BalancedPools(shuffled, r.value.targetF, r.value.targetD)
    ensures r.Ok? ==> r.value.logs == Separated(shuffled, r.value.targetF, r.value.targetD).logs
    ensures r.Ok? ==>
              var (l, u) := (r.value.teams, DraftedTeams(shuffled, r.value.targetF, r.value.targetD));
              multiset(l.red) == multiset(u.red) && multiset(l.white) == multiset(u.white) &&
              l.cutsD == u.cutsD && l.cutsF == u.cutsF
    ensures r.Ok? ==> forall i :: 0 <= i < |RivalPairs| ==>
              Listed(Eligible(rows), KeyA(RivalPairs[i])) && Listed(Eligible(rows), KeyB(RivalPairs[i])) ==>
              OnOppositeTeams(r.value.teams, RivalPairs[i])
    ensures r.Ok? ==>
              r.value.recipients == (if Emails(r.value.teams) == [] then None else Some(RecipientsOf(Emails(r.value.teams))))
  {
    var available := Available(rows);
    if available == [] {
      return Err("No players marked 'Yes'.");
    }
    var (targetF, targetD) := Quota(|available|);
    var ranked := Ranked(shuffled);
    var poolD, poolF := PoolOf(ranked, "D"), PoolOf(ranked, "F");
    PoolsAreEligible(rows, shuffled);
    var b := Balance(poolD, poolF, targetF, targetD);
    var sep := SeparateRivals(RivalPairs, b.d, b.f);
    var teams := Compose(sep.d, sep.f, sep.preA, sep.preB, targetF, targetD);
    ComposeConserves(teams, sep.d, sep.f, sep.preA, sep.preB, targetF, targetD);
    AllRivalsOnOppositeTeams(rows, shuffled, teams, targetF, targetD);
    var emails := Emails(teams);
    var recipients := None;
    if emails != [] {
      var unique := Recipients(emails);
      recipients := Some(unique);
    }
    r := Ok(Outcome(targetF, targetD, b, sep.logs, teams, recipients));
  }
}
