/** The birthday greeting: which players have a birthday in the current
    Monday-to-Sunday week (a Sunday looks ahead to the week that starts the
    next day), and the sentence that congratulates them. Dates are proleptic
    Gregorian calendar dates counted by ordinal day, day 1 being 1 January
    of year 1, a Monday. */
module Birthday {
  import opened Wrappers
  import opened Seqs

  datatype Date = Date(year: int, month: int, day: int)

  predicate IsLeap(y: int) {
    y % 4 == 0 && (y % 100 != 0 || y % 400 == 0)
  }

  function DaysInMonth(y: int, m: int): (n: int)
    requires 1 <= m <= 12
    ensures 28 <= n <= 31
  {
    if m == 2 then (if IsLeap(y) then 29 else 28)
    else if m == 4 || m == 6 || m == 9 || m == 11 then 30
    else 31
  }

  predicate ValidDate(d: Date) {
    1 <= d.month <= 12 && 1 <= d.day <= DaysInMonth(d.year, d.month)
  }

  /** Days in the months of year `y` before month `m`. */
  function DaysBeforeMonth(y: int, m: int): int
    requires 1 <= m <= 12
  {
    [0, 31, 59, 90, 120, 151, 181, 212, 243, 273, 304, 334][m - 1] + (if m > 2 && IsLeap(y) then 1 else 0)
  }

  /** Days in the years before year `y`. */
  function DaysBeforeYear(y: int): int {
    var p := y - 1;
    365 * p + p / 4 - p / 100 + p / 400
  }

  function Ordinal(d: Date): int
    requires ValidDate(d)
  {
    DaysBeforeYear(d.year) + DaysBeforeMonth(d.year, d.month) + d.day
  }

  /** Day of the week of ordinal day `n`, Monday being 0 and Sunday 6. */
  function WeekdayOf(n: int): (w: int)
    ensures 0 <= w < 7
  {
    (n + 6) % 7
  }

  /** The day after `d`. */
  function NextDay(d: Date): (r: Date)
    requires ValidDate(d)
    ensures ValidDate(r)
  {
    if d.day < DaysInMonth(d.year, d.month) then Date(d.year, d.month, d.day + 1)
    else if d.month < 12 then Date(d.year, d.month + 1, 1)
    else Date(d.year + 1, 1, 1)
  }

  /** Moving on one day adds one to a count of whole 4-, 100- or 400-year
      spans exactly when a span closes. */
  lemma SpanSteps(p: int)
    ensures (p + 1) / 4 - p / 4 == if (p + 1) % 4 == 0 then 1 else 0
    ensures (p + 1) / 100 - p / 100 == if (p + 1) % 100 == 0 then 1 else 0
    ensures (p + 1) / 400 - p / 400 == if (p + 1) % 400 == 0 then 1 else 0
    ensures (p + 1) % 100 == 0 ==> (p + 1) % 4 == 0
    ensures (p + 1) % 400 == 0 ==> (p + 1) % 100 == 0
  {
  }

  /** A year has 366 days when it is a leap year and 365 otherwise. */
  lemma YearLength(y: int)
    ensures DaysBeforeYear(y + 1) - DaysBeforeYear(y) == if IsLeap(y) then 366 else 365
  {
    SpanSteps(y - 1);
  }

  /** Consecutive days have consecutive ordinals: `Ordinal` counts days. */
  lemma OrdinalNextDay(d: Date)
    requires ValidDate(d)
    ensures Ordinal(NextDay(d)) == Ordinal(d) + 1
  {
    if d.day == DaysInMonth(d.year, d.month) && d.month == 12 {
      YearLength(d.year);
    }
  }

  /** Ordinal day 1 is 1 January of year 1, a Monday. */
  lemma OrdinalEpoch()
    ensures Ordinal(Date(1, 1, 1)) == 1
    ensures WeekdayOf(Ordinal(Date(1, 1, 1))) == 0
  {
    assert DaysBeforeYear(1) == 0;
    assert DaysBeforeMonth(1, 1) == 0;
  }

  /** 1 January 2024 is a Monday. */
  lemma OrdinalNewYear2024()
    ensures WeekdayOf(Ordinal(Date(2024, 1, 1))) == 0
  {
    assert Ordinal(Date(2024, 1, 1)) == 738886;
  }

  lemma OrdinalLastDay()
    ensures Ordinal(Date(9999, 12, 31)) == MaxOrdinal
  {
  }

  /** Ordinal of 31 December 9999, the last day a clock date can hold. */
  const MaxOrdinal := 3652059

  /** The first day of the week that ordinal day `n` celebrates: the Monday
      on or before it, or the next day when it is a Sunday. */
  function WeekStart(n: int): (r: int)
    ensures WeekdayOf(r) == 0 && n - 6 <= r <= n + 1
  {
    if WeekdayOf(n) == 6 then n + 1 else n - WeekdayOf(n)
  }

  /** The week is Monday to Sunday and holds the day unless it is a Sunday,
      in which case it is the week that starts the day after. */
  lemma WeekIsMondayToSunday(n: int)
    ensures var start := WeekStart(n);
      WeekdayOf(start) == 0 &&
      (start <= n <= start + 6 <==> WeekdayOf(n) != 6) &&
      (WeekdayOf(n) == 6 ==> start == n + 1)
  {
    var w := WeekdayOf(n);
    var q := (n + 6) / 7;
    assert n + 6 == 7 * q + w;
    if w == 6 {
      assert WeekStart(n) + 6 == 7 * (q + 1) + 0;
    } else {
      assert WeekStart(n) + 6 == 7 * q + 0;
    }
  }

  /** The first day of the week `today` falls in, or `None` when the week
      runs past the last representable day. */
  function Week(today: Date): (r: Option<int>)
    requires ValidDate(today)
    ensures r.Some? ==> WeekdayOf(r.value) == 0 && r.value + 6 <= MaxOrdinal
    ensures r.Some? ==> Ordinal(today) - 6 <= r.value <= Ordinal(today) + 1
    ensures r.None? <==> WeekStart(Ordinal(today)) + 6 > MaxOrdinal
  {
    var start := WeekStart(Ordinal(today));
    if start + 6 > MaxOrdinal then None else Some(start)
  }

  /** Earliest and latest days a nanosecond timestamp can hold at midnight. */
  const FirstStamp := Date(1677, 9, 22)
  const LastStamp := Date(2262, 4, 11)

  predicate DateLe(a: Date, b: Date) {
    a.year < b.year || (a.year == b.year && (a.month < b.month || (a.month == b.month && a.day <= b.day)))
  }

  predicate Representable(d: Date) {
    DateLe(FirstStamp, d) && DateLe(d, LastStamp)
  }

  /** The birthday `b` moved to year `y`; a day the year lacks (29 February
      outside a leap year) falls back to 1 March. `None` when the date
      cannot be held as a timestamp, which skips the player. */
  function Candidate(b: Date, y: int): (r: Option<Date>)
    ensures r.Some? ==> ValidDate(r.value) && Representable(r.value) && r.value.year == y
    ensures ValidDate(Date(y, b.month, b.day)) && Representable(Date(y, b.month, b.day)) ==>
      r == Some(Date(y, b.month, b.day))
  {
    var c := Date(y, b.month, b.day);
    if ValidDate(c) && Representable(c) then Some(c)
    else if Representable(Date(y, 3, 1)) then Some(Date(y, 3, 1))
    else None
  }

  /** A leap-day birthday is celebrated on 1 March in other years. */
  lemma LeapDayFallsOnMarchFirst(b: Date, y: int)
    requires b.month == 2 && b.day == 29 && !IsLeap(y)
    requires Representable(Date(y, 3, 1))
    ensures Candidate(b, y) == Some(Date(y, 3, 1))
  {
  }

  /** The years whose birthday falls are checked: this one, the last, the next. */
  function Years(y: int): seq<int> {
    [y, y - 1, y + 1]
  }

  /** The birthday in each of `years`, or `None` as soon as one year fails. */
  function Candidates(b: Date, years: seq<int>): (r: Option<seq<Date>>)
    ensures r.Some? ==> |r.value| == |years| &&
                        forall i :: 0 <= i < |years| ==> Candidate(b, years[i]) == Some(r.value[i])
    ensures r.None? ==> exists i :: 0 <= i < |years| && Candidate(b, years[i]).None?
    decreases |years|
  {
    if years == [] then Some([])
    else
      var y := years[|years| - 1];
      match Candidates(b, years[..|years| - 1])
      case None => None
      case Some(cs) =>
        match Candidate(b, y)
        case None => None
        case Some(c) => Some(cs + [c])
  }

  lemma {:induction false} CandidatesNoneExtends(b: Date, years: seq<int>, i: nat)
    requires i <= |years| && Candidates(b, years[..i]).None?
    ensures Candidates(b, years).None?
    decreases |years| - i
  {
    if i < |years| {
      assert years[..i + 1][..i] == years[..i];
      CandidatesNoneExtends(b, years, i + 1);
    } else {
      assert years[..i] == years;
    }
  }

  /** The birthday in each year, giving up on the first year that fails. */
  method BirthdayCandidates(b: Date, years: seq<int>) returns (r: Option<seq<Date>>)
    ensures r == Candidates(b, years)
  {
    var cs := [];
    var i := 0;
    while i < |years|
      invariant 0 <= i <= |years|
      invariant Candidates(b, years[..i]) == Some(cs)
    {
      assert years[..i + 1][..i] == years[..i];
      var c := Candidate(b, years[i]);
      if c.None? {
        CandidatesNoneExtends(b, years, i + 1);
        return None;
      }
      cs := cs + [c.value];
      i := i + 1;
    }
    assert years[..i] == years;
    r := Some(cs);
  }

  datatype BirthdayRow = BirthdayRow(name: string, birthday: Option<Date>)

  function RowName(row: BirthdayRow): string {
    row.name
  }

  predicate InWeek(c: Date, start: int)
    requires ValidDate(c)
  {
    start <= Ordinal(c) <= start + 6
  }

  /** Whether any of the dates `cs` falls in the week starting on `start`. */
  predicate AnyInWeek(cs: seq<Date>, start: int)
    requires forall c :: c in cs ==> ValidDate(c)
    ensures AnyInWeek(cs, start) <==> exists c :: c in cs && InWeek(c, start)
    decreases |cs|
  {
    cs != [] && (AnyInWeek(cs[..|cs| - 1], start) || InWeek(cs[|cs| - 1], start))
  }

  /** Whether the player of `row` has a birthday in the week starting on
      ordinal day `start`, looking at year `y` and the years either side. */
  predicate Celebrates(row: BirthdayRow, y: int, start: int) {
    row.birthday.Some? &&
    var cs := Candidates(row.birthday.value, Years(y));
    cs.Some? && AnyInWeek(cs.value, start)
  }

  function CelebratesIn(y: int, start: int): BirthdayRow -> bool {
    (row: BirthdayRow) => Celebrates(row, y, start)
  }

  /** The names to congratulate, each once, in the order the rows list them. */
  function Celebrants(rows: seq<BirthdayRow>, y: int, start: int): seq<string> {
    Distinct(Map(Filter(rows, CelebratesIn(y, start)), RowName))
  }

  /** A name is congratulated exactly when one of its rows has a birthday in
      the week, and no name twice. */
  lemma CelebrantsAreThoseInTheWeek(rows: seq<BirthdayRow>, y: int, start: int, name: string)
    ensures NoDup(Celebrants(rows, y, start))
    ensures name in Celebrants(rows, y, start) <==>
      exists row :: row in rows && Celebrates(row, y, start) && row.name == name
  {
    var f := Filter(rows, CelebratesIn(y, start));
    var m := Map(f, RowName);
    if name in m {
      var k :| 0 <= k < |m| && m[k] == name;
      assert f[k] in f;
    }
    if row :| row in rows && Celebrates(row, y, start) && row.name == name {
      assert row in f;
      var k :| 0 <= k < |f| && f[k] == row;
      assert m[k] == name;
    }
  }

  /** The names joined by commas, the last two by "and". */
  function JoinNames(names: seq<string>): (r: string)
    ensures names == [] ==> r == ""
    ensures |names| == 1 ==> r == names[0]
    ensures |names| >= 2 ==> r == Join(", ", names[..|names| - 1]) + " and " + names[|names| - 1]
  {
    if |names| > 2 then
      var init := Join(", ", names[..|names| - 1]);
      assert [init, names[|names| - 1]][..1] == [init];
      assert Join(" and ", [init]) == init;
      Join(" and ", [init, names[|names| - 1]])
    else if |names| == 2 then
      assert names[..1] == [names[0]];
      assert Join(", ", names[..1]) == names[0] == Join(" and ", names[..1]);
      Join(" and ", names)
    else Join(" and ", names)
  }

  lemma JoinNamesExamples()
    ensures JoinNames(["Ann"]) == "Ann"
    ensures JoinNames(["Ann", "Bob"]) == "Ann and Bob"
    ensures JoinNames(["Ann", "Bob", "Cy"]) == "Ann, Bob and Cy"
  {
    assert ["Ann", "Bob"][..1] == ["Ann"];
    assert Join(", ", ["Ann", "Bob"]) == "Ann, Bob";
    assert ["Ann", "Bob", "Cy"][..2] == ["Ann", "Bob"];
    assert ["Ann, Bob", "Cy"][..1] == ["Ann, Bob"];
  }

  /** Four names: commas between the first three, "and" before the last. */
  lemma JoinNamesFour()
    ensures JoinNames(["Ann", "Bob", "Cy", "Di"]) == "Ann, Bob, Cy and Di"
  {
    assert ["Ann", "Bob"][..1] == ["Ann"];
    assert Join(", ", ["Ann", "Bob"]) == "Ann, Bob";
    assert ["Ann", "Bob", "Cy"][..2] == ["Ann", "Bob"];
    assert Join(", ", ["Ann", "Bob", "Cy"]) == "Ann, Bob, Cy";
    assert ["Ann", "Bob", "Cy", "Di"][..3] == ["Ann", "Bob", "Cy"];
    assert ["Ann, Bob, Cy", "Di"][..1] == ["Ann, Bob, Cy"];
  }

  /** Every name appears in the joined names. */
  lemma JoinNamesMentions(names: seq<string>, k: nat)
    requires k < |names|
    ensures Occurs(names[k], JoinNames(names))
  {
    var n := |names| - 1;
    if |names| > 2 {
      var init := Join(", ", names[..n]);
      assert [init, names[n]][..1] == [init];
      assert Join(" and ", [init, names[n]]) == Join(" and ", [init]) + " and " + names[n];
      if k == n {
        OccursSelf(names[k]);
        OccursIn(names[k], init + " and ", names[k]);
      } else {
        JoinMentions(", ", names[..n], k);
        OccursIn(names[k], " and " + names[n], init);
        assert init + " and " + names[n] == init + (" and " + names[n]);
      }
    } else {
      JoinMentions(" and ", names, k);
    }
  }

  const Opening := "\U{1F389} Congratulations to "

  function Closing(one: bool): string {
    " who " + (if one then "is" else "are") + " celebrating their " +
    (if one then "birthday" else "birthdays") + " this week!\n\n"
  }

  /** The congratulation sentence; empty when nobody celebrates. */
  function Greeting(names: seq<string>): (r: string)
    ensures r == "" <==> names == []
    ensures names != [] ==> |r| > |Opening| && r[..|Opening|] == Opening
  {
    if names == [] then ""
    else
      var r := Opening + JoinNames(names) + Closing(|names| == 1);
      assert r[..|Opening|] == Opening;
      r
  }

  /** `s` ends with `t`. */
  predicate EndsWith(s: string, t: string) {
    |t| <= |s| && s[|s| - |t|..] == t
  }

  /** A sentence about one celebrant says "is ... birthday", one about several
      says "are ... birthdays". */
  lemma GreetingGrammar(names: seq<string>)
    requires names != []
    ensures EndsWith(Greeting(names), Closing(true)) <==> |names| == 1
    ensures EndsWith(Greeting(names), Closing(false)) <==> |names| > 1
  {
    var x := Opening + JoinNames(names);
    ClosingsDiffer();
    SuffixOfAppend(x, Closing(|names| == 1), |Closing(true)|);
    SuffixOfAppend(x, Closing(|names| == 1), |Closing(false)|);
  }

  lemma SuffixOfAppend(x: string, c: string, n: nat)
    ensures n <= |c| ==> (x + c)[|x + c| - n..] == c[|c| - n..]
    ensures n <= |c| && n == |c| ==> (x + c)[|x + c| - n..] == c
  {
  }

  /** The plural closing is longer and does not end with the singular one. */
  lemma ClosingsDiffer()
    ensures |Closing(true)| < |Closing(false)|
    ensures Closing(false)[|Closing(false)| - |Closing(true)|..] != Closing(true)
  {
    var one, many := Closing(true), Closing(false);
    assert one[5] == 'i';
    assert many[|many| - |one| + 5] != 'i';
  }

  /** The sentence is empty exactly when nobody celebrates, and otherwise
      names every celebrant. */
  lemma GreetingNamesEveryone(names: seq<string>, k: nat)
    requires k < |names|
    ensures Greeting(names) != ""
    ensures Occurs(names[k], Greeting(names))
  {
    var j := JoinNames(names);
    var head, tail := Opening, Closing(|names| == 1);
    assert Greeting(names) == head + (j + tail);
    JoinNamesMentions(names, k);
    OccursIn(names[k], tail, j);
    OccursIn(names[k], head, j + tail);
  }

  lemma GreetingOfNobody()
    ensures Greeting([]) == ""
  {
  }

  /** Adding a row to those that celebrate adds its name unless already there. */
  lemma DistinctNamesSnoc(hits: seq<BirthdayRow>, row: BirthdayRow)
    ensures var names := Distinct(Map(hits, RowName));
      Distinct(Map(hits + [row], RowName)) == if row.name in names then names else names + [row.name]
  {
    MapAppend(hits, [row], RowName);
    var m := Map(hits, RowName);
    assert Map(hits + [row], RowName) == m + [row.name];
    assert (m + [row.name])[..|m|] == m;
  }

  /** One row of the loop: its birthday in each year, then whether any of
      them falls in the week. */
  method RowCelebrates(row: BirthdayRow, y: int, start: int) returns (hit: bool)
    ensures hit == Celebrates(row, y, start)
  {
    hit := false;
    if row.birthday.Some? {
      var cs := BirthdayCandidates(row.birthday.value, Years(y));
      if cs.Some? {
        var j := 0;
        while j < |cs.value|
          invariant 0 <= j <= |cs.value|
          invariant hit == AnyInWeek(cs.value[..j], start)
        {
          assert cs.value[..j + 1] == cs.value[..j] + [cs.value[j]];
          hit := hit || InWeek(cs.value[j], start);
          j := j + 1;
        }
        assert cs.value[..j] == cs.value;
      }
    }
  }

  /** The row loop of `get_birthday_message`: the names of the rows whose
      birthday falls in the week, each once, in row order. */
  method CollectCelebrants(rows: seq<BirthdayRow>, y: int, start: int) returns (celebrants: seq<string>)
    ensures celebrants == Celebrants(rows, y, start)
  {
    var p := CelebratesIn(y, start);
    celebrants := [];
    ghost var hits := [];
    var i := 0;
    while i < |rows|
      invariant 0 <= i <= |rows|
      invariant hits == Filter(rows[..i], p)
      invariant celebrants == Distinct(Map(hits, RowName))
    {
      var row := rows[i];
      assert rows[..i + 1] == rows[..i] + [row];
      FilterSnoc(rows[..i], row, p);
      var hit := RowCelebrates(row, y, start);
      assert p(row) == hit;
      if hit {
        DistinctNamesSnoc(hits, row);
        if row.name !in celebrants {
          celebrants := celebrants + [row.name];
        }
        hits := hits + [row];
      }
      i := i + 1;
    }
    assert rows[..i] == rows;
  }

  /** `get_birthday_message`: without a birthday column nothing is said; a
      week past the last representable day fails; otherwise the greeting
      and the names of the players whose birthday falls in the week. */
  method BirthdayMessage(rows: seq<BirthdayRow>, hasColumn: bool, today: Date)
    returns (r: Result<(string, seq<string>), string>)
    requires ValidDate(today)
    ensures !hasColumn ==> r == Ok(("", []))
    ensures hasColumn && Week(today).None? ==> r.Err?
    ensures hasColumn && Week(today).Some? ==>
      var names := Celebrants(rows, today.year, Week(today).value);
      r == Ok((Greeting(names), names))
  {
    if !hasColumn {
      return Ok(("", []));
    }
    var week := Week(today);
    if week.None? {
      return Err("OverflowError: date value out of range");
    }
    var celebrants := CollectCelebrants(rows, today.year, week.value);
    r := Ok((Greeting(celebrants), celebrants));
  }
}
