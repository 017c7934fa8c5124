/** The e-mail recipients: the distinct addresses of the players on the two
    teams, in the order they first appear, without blank ones, and the BCC
    line that lists them. */
module Mail {
  import opened Seqs
  import opened Text

  predicate NonBlank(e: string) {
    Strip(e) != ""
  }

  function NonBlankP(): string -> bool {
    (e: string) => NonBlank(e)
  }

  /** The recipients of the addresses `emails`: each distinct non-blank
      address once, in first-seen order. */
  function RecipientsOf(emails: seq<string>): seq<string> {
    Filter(Distinct(emails), NonBlankP())
  }

  /** First-seen order of the addresses in `emails`. */
  function SeenBefore(emails: seq<string>): (string, string) -> bool {
    (x: string, y: string) => x in emails && y in emails && FirstIndex(emails, x) < FirstIndex(emails, y)
  }

  /** Every non-blank address is mailed exactly once, nothing else is, and
      the addresses keep the order in which they first appear. */
  lemma RecipientsOfProperties(emails: seq<string>)
    ensures forall e :: e in RecipientsOf(emails) <==> e in emails && NonBlank(e)
    ensures NoDup(RecipientsOf(emails))
    ensures SortedBy(RecipientsOf(emails), SeenBefore(emails))
  {
    var d := Distinct(emails);
    DistinctFirstSeenOrder(emails);
    assert SortedBy(d, SeenBefore(emails));
    FilterSorted(d, NonBlankP(), SeenBefore(emails));
    var r := RecipientsOf(emails);
    forall i, j | 0 <= i < j < |r| ensures r[i] != r[j] {
      assert SeenBefore(emails)(r[i], r[j]);
    }
  }

  /** The distinct elements of `s` that `keep` accepts, in first-seen order. */
  method UniqueKept<T(==,!new)>(s: seq<T>, keep: T -> bool) returns (r: seq<T>)
    ensures r == Filter(Distinct(s), keep)
  {
    var unique := [];
    r := [];
    var i := 0;
    assert s[..0] == [];
    while i < |s|
      invariant 0 <= i <= |s|
      invariant unique == Distinct(s[..i])
      invariant r == Filter(unique, keep)
    {
      var x := s[i];
      DistinctStep(s, i);
      if x !in unique {
        FilterSnoc(unique, x, keep);
        unique := unique + [x];
        if keep(x) {
          r := r + [x];
        }
      }
      i := i + 1;
    }
    assert s[..i] == s;
  }

  /** `recipients`: the unique addresses that are not blank. */
  method Recipients(emails: seq<string>) returns (r: seq<string>)
    ensures r == RecipientsOf(emails)
  {
    r := UniqueKept(emails, NonBlankP());
  }

  /** The BCC line: the recipients separated by commas. */
  function Bcc(emails: seq<string>): string {
    Join(",", RecipientsOf(emails))
  }

  /** Every recipient appears in the BCC line. */
  lemma BccListsEveryone(emails: seq<string>, e: string)
    requires e in emails && NonBlank(e)
    ensures Occurs(e, Bcc(emails))
  {
    RecipientsOfProperties(emails);
    var r := RecipientsOf(emails);
    var k :| 0 <= k < |r| && r[k] == e;
    JoinMentions(",", r, k);
  }
}
