/** String helpers of the roster script: ASCII case mapping, whitespace
    stripping, the cleaned name key used to match players by name, and the
    case-insensitive column lookup. */
module Text {
  import opened Wrappers
  import opened Seqs

  /** The ASCII characters Python's `str.strip()` removes: the space, tab,
      line feed, vertical tab, form feed, carriage return and the four
      information separators. */
  predicate IsSpace(c: char) {
    c == ' ' || '\t' <= c <= '\r' || '\U{1C}' <= c <= '\U{1F}'
  }

  predicate IsUpper(c: char) { 'A' <= c <= 'Z' }
  predicate IsLower(c: char) { 'a' <= c <= 'z' }

  function LowerChar(c: char): (r: char)
    ensures !IsUpper(r)
    ensures IsSpace(r) <==> IsSpace(c)
    ensures r == ' ' <==> c == ' '
  {
    if IsUpper(c) then (c as int - 'A' as int + 'a' as int) as char else c
  }

  function UpperChar(c: char): (r: char)
    ensures !IsLower(r)
  {
    if IsLower(c) then (c as int - 'a' as int + 'A' as int) as char else c
  }

  function Lower(s: string): (r: string)
    ensures |r| == |s|
    ensures forall i :: 0 <= i < |s| ==> r[i] == LowerChar(s[i])
  {
    seq(|s|, i requires 0 <= i < |s| => LowerChar(s[i]))
  }

  function Upper(s: string): (r: string)
    ensures |r| == |s|
    ensures forall i :: 0 <= i < |s| ==> r[i] == UpperChar(s[i])
  {
    seq(|s|, i requires 0 <= i < |s| => UpperChar(s[i]))
  }

  function TrimLeft(s: string): (r: string)
    ensures |r| <= |s| && r == s[|s| - |r|..]
    ensures r == [] || !IsSpace(r[0])
  {
    if s != [] && IsSpace(s[0]) then TrimLeft(s[1..]) else s
  }

  /** What `TrimLeft` drops is whitespace. */
  lemma {:induction false} TrimLeftDropsBlanks(s: string)
    ensures forall i :: 0 <= i < |s| - |TrimLeft(s)| ==> IsSpace(s[i])
    decreases |s|
  {
    if s != [] && IsSpace(s[0]) {
      TrimLeftDropsBlanks(s[1..]);
    }
  }

  function TrimRight(s: string): (r: string)
    ensures |r| <= |s| && r == s[..|r|]
    ensures r == [] || !IsSpace(r[|r| - 1])
  {
    if s != [] && IsSpace(s[|s| - 1]) then TrimRight(s[..|s| - 1]) else s
  }

  /** What `TrimRight` drops is whitespace. */
  lemma {:induction false} TrimRightDropsBlanks(s: string)
    ensures forall i :: |TrimRight(s)| <= i < |s| ==> IsSpace(s[i])
    decreases |s|
  {
    if s != [] && IsSpace(s[|s| - 1]) {
      TrimRightDropsBlanks(s[..|s| - 1]);
    }
  }

  /** Python's `str.strip()`: the longest middle part of `s` that neither
      starts nor ends with whitespace. */
  function Strip(s: string): (r: string)
    ensures |r| <= |s|
    ensures r == [] || (!IsSpace(r[0]) && !IsSpace(r[|r| - 1]))
  {
    var t := TrimLeft(s);
    var r := TrimRight(t);
    assert r == [] || r[0] == t[0];
    r
  }

  /** `Strip(s)` is the slice `s[lo..lo + |Strip(s)|]` with only whitespace
      before and after it. */
  lemma StripBounds(s: string) returns (lo: nat)
    ensures lo + |Strip(s)| <= |s| && Strip(s) == s[lo..lo + |Strip(s)|]
    ensures forall i :: 0 <= i < lo ==> IsSpace(s[i])
    ensures forall i :: lo + |Strip(s)| <= i < |s| ==> IsSpace(s[i])
  {
    lo := |s| - |TrimLeft(s)|;
    TrimLeftDropsBlanks(s);
    StripSlice(s, lo);
  }

  lemma StripSlice(s: string, lo: nat)
    requires lo == |s| - |TrimLeft(s)|
    ensures lo + |Strip(s)| <= |s| && Strip(s) == s[lo..lo + |Strip(s)|]
    ensures forall i :: lo + |Strip(s)| <= i < |s| ==> IsSpace(s[i])
  {
    var t := TrimLeft(s);
    var r := TrimRight(t);
    TrimRightDropsBlanks(t);
    BlanksAfter(s, t, r);
    assert r == Strip(s);
  }

  /** A prefix `r` of a suffix `t` of `s`, with only whitespace after `r`
      in `t`, has only whitespace after it in `s`. */
  lemma BlanksAfter(s: string, t: string, r: string)
    requires |t| <= |s| && t == s[|s| - |t|..]
    requires |r| <= |t| && r == t[..|r|]
    requires forall i :: |r| <= i < |t| ==> IsSpace(t[i])
    ensures var lo := |s| - |t|; s[lo..lo + |r|] == r
    ensures forall i :: |s| - |t| + |r| <= i < |s| ==> IsSpace(s[i])
  {
    var lo := |s| - |t|;
    assert s[lo..lo + |r|] == t[..|r|];
    forall i | lo + |r| <= i < |s| ensures IsSpace(s[i]) {
      assert s[i] == t[i - lo];
    }
  }

  /** A single non-blank character among blanks is what stripping keeps. */
  lemma StripSingle(s: string, i: nat)
    requires i < |s| && !IsSpace(s[i])
    requires forall j :: 0 <= j < |s| && j != i ==> IsSpace(s[j])
    ensures Strip(s) == [s[i]]
  {
    var lo := StripBounds(s);
    var r := Strip(s);
    assert lo <= i < lo + |r|;
    assert r[0] == s[lo] && r[|r| - 1] == s[lo + |r| - 1];
  }

  /** `s.replace(" ", "")`. */
  function RemoveSpaces(s: string): (r: string)
    ensures ' ' !in r
    ensures forall c :: c in r <==> c in s && c != ' '
  {
    if s == [] then []
    else (if s[0] == ' ' then [] else [s[0]]) + RemoveSpaces(s[1..])
  }

  /** Removing spaces works piece by piece and keeps every other character
      in place: with `RemoveSpaces([c])` being `[]` for a space and `[c]`
      otherwise, this fixes the result and its order. */
  lemma {:induction false} RemoveSpacesAppend(a: string, b: string)
    ensures RemoveSpaces(a + b) == RemoveSpaces(a) + RemoveSpaces(b)
    decreases |a|
  {
    if a != [] {
      assert (a + b)[1..] == a[1..] + b;
      RemoveSpacesAppend(a[1..], b);
    } else {
      assert a + b == b;
    }
  }

  lemma {:induction false} TrimLeftStripped(s: string)
    requires s == [] || !IsSpace(s[0])
    ensures TrimLeft(s) == s
  {
  }

  lemma TrimRightStripped(s: string)
    requires s == [] || !IsSpace(s[|s| - 1])
    ensures TrimRight(s) == s
  {
  }

  /** Stripping a string that is already stripped changes nothing. */
  lemma StripStripped(s: string)
    requires s == [] || (!IsSpace(s[0]) && !IsSpace(s[|s| - 1]))
    ensures Strip(s) == s
  {
    TrimLeftStripped(s);
    TrimRightStripped(s);
  }

  lemma {:induction false} RemoveSpacesNone(s: string)
    requires ' ' !in s
    ensures RemoveSpaces(s) == s
  {
    if s != [] {
      assert ' ' !in s[1..] by { assert forall c :: c in s[1..] ==> c in s; }
      RemoveSpacesNone(s[1..]);
    }
  }

  /** `clean_name_key`: a missing name gives the empty key; otherwise the
      lower-cased name with every space removed, then stripped. */
  function CleanNameKey(name: Option<string>): (r: string)
    ensures name.None? ==> r == ""
    ensures ' ' !in r
    ensures forall c :: c in r ==> !IsUpper(c)
    ensures r == [] || (!IsSpace(r[0]) && !IsSpace(r[|r| - 1]))
  {
    match name
    case None => ""
    case Some(s) =>
      var lowered := Lower(s);
      assert forall c :: c in lowered ==> !IsUpper(c);
      Strip(RemoveSpaces(lowered))
  }

  /** A key of a name is its own key: cleaning twice is cleaning once. */
  lemma CleanNameKeyIdempotent(name: Option<string>)
    ensures CleanNameKey(Some(CleanNameKey(name))) == CleanNameKey(name)
  {
    var k := CleanNameKey(name);
    assert Lower(k) == k by {
      forall i | 0 <= i < |k| ensures Lower(k)[i] == k[i] {
        assert k[i] in k;
      }
    }
    RemoveSpacesNone(k);
    StripStripped(k);
  }

  /** For a name whose only blanks are spaces, the key is the lower-cased
      name with its spaces removed: stripping has nothing left to do. */
  lemma CleanNameKeyOfName(s: string)
    requires forall i :: 0 <= i < |s| ==> IsSpace(s[i]) ==> s[i] == ' '
    ensures CleanNameKey(Some(s)) == RemoveSpaces(Lower(s))
  {
    var t := RemoveSpaces(Lower(s));
    forall i | 0 <= i < |t| ensures !IsSpace(t[i]) {
      assert t[i] in Lower(s);
      var j :| 0 <= j < |s| && Lower(s)[j] == t[i];
    }
    StripStripped(t);
  }

  /** Names whose lower-cased, space-free forms differ get different keys,
      so distinct players are told apart. */
  lemma CleanNameKeyDistinguishes(a: string, b: string)
    requires forall i :: 0 <= i < |a| ==> IsSpace(a[i]) ==> a[i] == ' '
    requires forall i :: 0 <= i < |b| ==> IsSpace(b[i]) ==> b[i] == ' '
    requires RemoveSpaces(Lower(a)) != RemoveSpaces(Lower(b))
    ensures CleanNameKey(Some(a)) != CleanNameKey(Some(b))
  {
    CleanNameKeyOfName(a);
    CleanNameKeyOfName(b);
  }

  lemma LowerAppend(a: string, b: string)
    ensures Lower(a + b) == Lower(a) + Lower(b)
  {
  }

  /** `s` has no blank character. */
  predicate Blankless(s: string)
    decreases |s|
  {
    s == [] || (!IsSpace(s[0]) && Blankless(s[1..]))
  }

  lemma {:induction false} BlanklessAt(s: string, i: nat)
    requires Blankless(s) && i < |s|
    ensures !IsSpace(s[i])
    decreases i
  {
    if i > 0 {
      BlanklessAt(s[1..], i - 1);
    }
  }

  lemma BlanklessNoSpace(s: string)
    requires Blankless(s)
    ensures ' ' !in Lower(s)
  {
    forall i | 0 <= i < |s| ensures Lower(s)[i] != ' ' {
      BlanklessAt(s, i);
    }
  }

  lemma TwoWordsBlanks(first: string, last: string)
    requires Blankless(first) && Blankless(last)
    ensures var s := first + " " + last;
      forall i :: 0 <= i < |s| ==> IsSpace(s[i]) ==> s[i] == ' '
  {
    var s := first + " " + last;
    forall i | 0 <= i < |s| && i != |first| ensures !IsSpace(s[i]) {
      if i < |first| {
        BlanklessAt(first, i);
        assert s[i] == first[i];
      } else {
        BlanklessAt(last, i - |first| - 1);
        assert s[i] == last[i - |first| - 1];
      }
    }
  }

  lemma TwoWordsSpaceless(first: string, last: string)
    requires Blankless(first) && Blankless(last)
    ensures RemoveSpaces(Lower(first + " " + last)) == Lower(first) + Lower(last)
  {
    LowerAppend(first + " ", last);
    LowerAppend(first, " ");
    var lf, ll := Lower(first), Lower(last);
    BlanklessNoSpace(first);
    BlanklessNoSpace(last);
    assert Lower(" ") == " ";
    RemoveSpacesAppend(lf + " ", ll);
    RemoveSpacesAppend(lf, " ");
    RemoveSpacesNone(lf);
    RemoveSpacesNone(ll);
    assert RemoveSpaces(" ") == [];
    assert lf + [] == lf;
  }

  /** A name made of two words without blanks has as key the two words
      lower-cased and run together. */
  lemma CleanNameKeyTwoWords(first: string, last: string)
    requires Blankless(first) && Blankless(last)
    ensures CleanNameKey(Some(first + " " + last)) == Lower(first) + Lower(last)
  {
    TwoWordsBlanks(first, last);
    CleanNameKeyOfName(first + " " + last);
    TwoWordsSpaceless(first, last);
  }

  /** A leading space does not change a key. */
  lemma CleanNameKeyLeadingSpace(s: string)
    ensures CleanNameKey(Some(" " + s)) == CleanNameKey(Some(s))
  {
    LowerAppend(" ", s);
    assert Lower(" ") == " ";
    RemoveSpacesAppend(" ", Lower(s));
    assert RemoveSpaces(" ") == [];
    assert [] + RemoveSpaces(Lower(s)) == RemoveSpaces(Lower(s));
  }

  lemma CleanNameKeyExample()
    ensures CleanNameKey(Some(" Mike Tonietto")) == "miketonietto"
  {
    MikeTonietto();
    CleanNameKeyLeadingSpace("Mike" + " " + "Tonietto");
    CleanNameKeyTwoWords("Mike", "Tonietto");
  }

  lemma MikeTonietto()
    ensures " Mike Tonietto" == " " + ("Mike" + " " + "Tonietto")
    ensures Blankless("Mike") && Blankless("Tonietto")
    ensures Lower("Mike") + Lower("Tonietto") == "miketonietto"
  {
    LowerMike();
    LowerTonietto();
  }

  lemma LowerMike()
    ensures Lower("Mike") == "mike"
  {
  }

  lemma LowerTonietto()
    ensures Lower("Tonietto") == "tonietto"
  {
  }

  /** Two names that differ only in letter case and spaces share a key. */
  lemma CleanNameKeyIgnoresCase(a: string, b: string)
    requires RemoveSpaces(Lower(a)) == RemoveSpaces(Lower(b))
    ensures CleanNameKey(Some(a)) == CleanNameKey(Some(b))
  {
  }

  function LowerAll(targets: seq<string>): (r: seq<string>)
    ensures |r| == |targets|
    ensures forall i :: 0 <= i < |targets| ==> r[i] == Lower(targets[i])
  {
    seq(|targets|, i requires 0 <= i < |targets| => Lower(targets[i]))
  }

  /** The match test of `find_col_case_insensitive`: the stripped,
      lower-cased header is one of the lower-cased targets. */
  predicate ColumnMatches(col: string, targets: seq<string>) {
    Lower(Strip(col)) in LowerAll(targets)
  }

  function MatchesTargets(targets: seq<string>): string -> bool {
    col => ColumnMatches(col, targets)
  }

  /** `find_col_case_insensitive`: the header of the first matching column,
      or none when no header matches. */
  function FindColumn(columns: seq<string>, targets: seq<string>): (r: Option<string>)
    ensures r.None? <==> forall c :: c in columns ==> !ColumnMatches(c, targets)
    ensures r.Some? ==> r.value in columns && ColumnMatches(r.value, targets)
    ensures r.Some? ==>
      exists i :: 0 <= i < |columns| && columns[i] == r.value && forall j :: 0 <= j < i ==> !ColumnMatches(columns[j], targets)
  {
    match FirstMatch(columns, MatchesTargets(targets))
    case None => None
    case Some(i) => Some(columns[i])
  }
}
