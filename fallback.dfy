/** get_fallback_image: pick one picture of the images directory for a calendar
    date, the same one for the same date as long as the directory holds the same
    pictures. */
module Fallback {
  import opened Wrappers
  import opened PathNames
  import opened StringOrder

  /** Gregorian leap years. */
  predicate IsLeap(year: int) {
    year % 4 == 0 && (year % 100 != 0 || year % 400 == 0)
  }

  function DaysInMonth(year: int, month: int): int
    requires 1 <= month <= 12
  {
    if month == 2 then (if IsLeap(year) then 29 else 28)
    else if month in {4, 6, 9, 11} then 30
    else 31
  }

  /** A calendar date as datetime.date holds it. */
  datatype Date = Date(year: int, month: int, day: int) {
    predicate Valid() {
      1 <= year <= 9999 && 1 <= month <= 12 && 1 <= day <= DaysInMonth(year, month)
    }
  }

  /** The dates datetime.date can represent: years 1 to 9999. */
  type CalendarDate = d: Date | d.Valid() witness Date(1, 1, 1)

  function Pow10(n: nat): nat {
    if n == 0 then 1 else 10 * Pow10(n - 1)
  }

  predicate IsDigit(c: char) {
    '0' <= c <= '9'
  }

  /** The last `width` decimal digits of n, zero-padded on the left. */
  function Digits(n: nat, width: nat): (s: string)
    ensures |s| == width
    ensures forall k :: 0 <= k < |s| ==> IsDigit(s[k])
  {
    if width == 0 then ""
    else Digits(n / 10, width - 1) + [('0' as int + n % 10) as char]
  }

  /** The number a string of decimal digits spells. */
  function Value(s: string): nat
    requires forall k :: 0 <= k < |s| ==> IsDigit(s[k])
  {
    if s == [] then 0
    else
      assert IsDigit(s[|s| - 1]);
      10 * Value(s[..|s| - 1]) + (s[|s| - 1] as int - '0' as int)
  }

  /** Zero-padding loses nothing when the number has at most `width` digits. */
  lemma {:induction false} ValueOfDigits(n: nat, width: nat)
    requires n < Pow10(width)
    ensures Value(Digits(n, width)) == n
  {
    if width > 0 {
      ValueOfDigits(n / 10, width - 1);
      var s := Digits(n, width);
      assert s[..|s| - 1] == Digits(n / 10, width - 1);
    }
  }

  /** date.isoformat(): "YYYY-MM-DD", each field zero-padded to its width. */
  function IsoFormat(d: CalendarDate): (s: string)
    ensures |s| == 10 && s[4] == '-' && s[7] == '-'
    ensures forall k :: 0 <= k < 10 && k != 4 && k != 7 ==> IsDigit(s[k])
    ensures Value(s[..4]) == d.year && Value(s[5..7]) == d.month && Value(s[8..]) == d.day
  {
    var year, month, day := Digits(d.year, 4), Digits(d.month, 2), Digits(d.day, 2);
    ValueOfDigits(d.year, 4);
    ValueOfDigits(d.month, 2);
    ValueOfDigits(d.day, 2);
    var s := year + "-" + month + "-" + day;
    assert s[..4] == year && s[5..7] == month && s[8..] == day;
    s
  }

  /** Different dates have different ISO strings, so the hash sees the date
      itself. */
  lemma IsoFormatInjective(a: CalendarDate, b: CalendarDate)
    requires IsoFormat(a) == IsoFormat(b)
    ensures a == b
  {
  }

  /** The directory entries offered as fallback pictures, in listing order. */
  function Candidates(names: seq<string>): (c: seq<string>)
    ensures forall n :: multiset(c)[n] == if HasFallbackSuffix(n) then multiset(names)[n] else 0
    ensures forall n :: n in c <==> n in names && HasFallbackSuffix(n)
  {
    if names == [] then []
    else
      assert names == [names[0]] + names[1..];
      (if HasFallbackSuffix(names[0]) then [names[0]] else []) + Candidates(names[1..])
  }

  /** get_fallback_image.  `target` None means today's date, which is passed in
      as `today`; `library` None means the images directory does not exist; the
      MD5 digest of the ISO date, read as an integer, is `hash`. */
  function GetFallbackImage(target: Option<CalendarDate>, today: CalendarDate,
                            library: Option<seq<string>>, hash: string -> nat): (r: Option<string>)
    ensures library.None? ==> r.None?
    ensures library.Some? ==> (r.None? <==> forall n :: n in library.value ==> !HasFallbackSuffix(n))
    ensures r.Some? ==> library.Some? && r.value in library.value && HasFallbackSuffix(r.value)
  {
    var date := if target.Some? then target.value else today;
    match library
    case None => None
    case Some(names) =>
      var images := Sort(Candidates(names));
      if images == [] then None
      else
        assert images[hash(IsoFormat(date)) % |images|] in multiset(images);
        Some(images[hash(IsoFormat(date)) % |images|])
  }

  lemma CandidatesIgnoreOrder(a: seq<string>, b: seq<string>)
    requires multiset(a) == multiset(b)
    ensures multiset(Candidates(a)) == multiset(Candidates(b))
  {
    forall n
      ensures multiset(Candidates(a))[n] == multiset(Candidates(b))[n]
    {
    }
  }

  /** Listing the same entries in another order changes nothing. */
  lemma FallbackIgnoresOrder(target: Option<CalendarDate>, today: CalendarDate,
                             a: seq<string>, b: seq<string>, hash: string -> nat)
    requires multiset(a) == multiset(b)
    ensures GetFallbackImage(target, today, Some(a), hash) == GetFallbackImage(target, today, Some(b), hash)
  {
    CandidatesIgnoreOrder(a, b);
    SortIgnoresOrder(Candidates(a), Candidates(b));
  }

  /** No name occurs twice, as in a directory listing. */
  predicate Distinct(s: seq<string>) {
    forall i, j :: 0 <= i < j < |s| ==> s[i] != s[j]
  }

  /** In a sequence without repetitions each name occurs once. */
  lemma {:induction false} DistinctCounts(s: seq<string>)
    requires Distinct(s)
    ensures forall n :: multiset(s)[n] == if n in s then 1 else 0
  {
    if s != [] {
      assert s == [s[0]] + s[1..];
      DistinctCounts(s[1..]);
    }
  }

  /** A sequence in which every name occurs at most once has no repetitions. */
  lemma CountsDistinct(s: seq<string>)
    requires forall n :: multiset(s)[n] <= 1
    ensures Distinct(s)
  {
    forall i, j | 0 <= i < j < |s|
      ensures s[i] != s[j]
    {
      assert s == s[..j] + s[j..];
      assert s[i] in s[..j];
      assert s[j] in s[j..];
      assert multiset(s)[s[j]] == multiset(s[..j])[s[j]] + multiset(s[j..])[s[j]];
    }
  }

  /** Listing the same set of entries, each once, in any order changes nothing:
      the pick depends on the directory's member set. */
  lemma FallbackDependsOnMemberSet(target: Option<CalendarDate>, today: CalendarDate,
                                   a: seq<string>, b: seq<string>, hash: string -> nat)
    requires Distinct(a) && Distinct(b)
    requires forall n :: n in a <==> n in b
    ensures GetFallbackImage(target, today, Some(a), hash) == GetFallbackImage(target, today, Some(b), hash)
  {
    DistinctCounts(a);
    DistinctCounts(b);
    assert multiset(a) == multiset(b);
    FallbackIgnoresOrder(target, today, a, b, hash);
  }

  /** The names a sequence holds. */
  function Members(s: seq<string>): set<string> {
    set n | n in s
  }

  /** The names of `names` strictly before y in name order. */
  function Before(y: string, names: set<string>): set<string> {
    set n | n in names && Le(n, y) && n != y
  }

  /** The names of a sequence without repetitions are as many as its length. */
  lemma {:induction false} DistinctCardinality(s: seq<string>)
    requires Distinct(s)
    ensures |Members(s)| == |s|
  {
    if s != [] {
      var init := s[..|s| - 1];
      DistinctCardinality(init);
      assert Members(s) == Members(init) + {s[|s| - 1]};
      assert s[|s| - 1] !in init;
    }
  }

  /** In a sorted sequence without repetitions, the names strictly before the
      k-th one are exactly the first k. */
  lemma SortedRank(s: seq<string>, k: nat)
    requires Sorted(s) && Distinct(s) && k < |s|
    ensures Before(s[k], Members(s)) == Members(s[..k])
    ensures |Before(s[k], Members(s))| == k
  {
    forall c | c in Before(s[k], Members(s))
      ensures c in s[..k]
    {
      var i :| 0 <= i < |s| && s[i] == c;
      if i > k {
        LeAntisymmetric(c, s[k]);
      }
    }
    forall c | c in s[..k]
      ensures c in Before(s[k], Members(s))
    {
      var i :| 0 <= i < k && s[i] == c;
    }
    assert Distinct(s[..k]);
    DistinctCardinality(s[..k]);
  }

  /** The entries of the listing offered as fallback pictures. */
  function CandidateSet(names: seq<string>): set<string> {
    set n | n in names && HasFallbackSuffix(n)
  }

  /** Sequences with the same members have the same member sets. */
  lemma SameMembers(p: seq<string>, q: seq<string>)
    requires multiset(p) == multiset(q)
    ensures Members(p) == Members(q)
  {
    assert forall x :: x in p <==> x in multiset(q);
  }

  /** A sorted rearrangement of a sequence without repetitions has as many
      names as its member set, and its k-th name has k members before it. */
  lemma SortedCopyRank(c: seq<string>, images: seq<string>, k: nat)
    requires forall n :: multiset(c)[n] <= 1
    requires multiset(images) == multiset(c) && Sorted(images) && k < |images|
    ensures |Members(c)| == |images|
    ensures |Before(images[k], Members(c))| == k
  {
    CountsDistinct(images);
    SortedRank(images, k);
    SameMembers(c, images);
    DistinctCardinality(images);
  }

  /** Position k of the sorted candidates of a directory listing has exactly k
      candidates before it in name order. */
  lemma SortedCandidateRank(names: seq<string>, k: nat)
    requires Distinct(names) && k < |Sort(Candidates(names))|
    ensures |CandidateSet(names)| == |Sort(Candidates(names))|
    ensures |Before(Sort(Candidates(names))[k], CandidateSet(names))| == k
  {
    CandidatesOnce(names);
    CandidateSetMembers(names);
    SortedCopyRank(Candidates(names), Sort(Candidates(names)), k);
  }

  /** Filtering a listing without repetitions leaves none. */
  lemma CandidatesOnce(names: seq<string>)
    requires Distinct(names)
    ensures forall n :: multiset(Candidates(names))[n] <= 1
  {
    DistinctCounts(names);
  }

  /** The candidate set is the member set of the filtered listing. */
  lemma CandidateSetMembers(names: seq<string>)
    ensures CandidateSet(names) == Members(Candidates(names))
  {
  }

  /** Without sorting: for a directory listing, the pick is the candidate that
      exactly hash mod (number of candidates) other candidates precede in name
      order. */
  lemma FallbackRank(target: Option<CalendarDate>, today: CalendarDate,
                     names: seq<string>, hash: string -> nat)
    requires Distinct(names)
    ensures var r := GetFallbackImage(target, today, Some(names), hash);
            var date := if target.Some? then target.value else today;
            r.Some? ==> |CandidateSet(names)| > 0 &&
                        |Before(r.value, CandidateSet(names))| == hash(IsoFormat(date)) % |CandidateSet(names)|
  {
    var date := if target.Some? then target.value else today;
    var images := Sort(Candidates(names));
    var h := hash(IsoFormat(date));
    assert GetFallbackImage(target, today, Some(names), hash) ==
           if images == [] then None else Some(images[h % |images|]);
    if images != [] {
      SortedCandidateRank(names, h % |images|);
    }
  }

  /** The same date always gives the same picture for a fixed directory. */
  lemma SameDateSameImage(d1: CalendarDate, d2: CalendarDate, today: CalendarDate,
                          library: Option<seq<string>>, hash: string -> nat)
    requires IsoFormat(d1) == IsoFormat(d2)
    ensures d1 == d2
    ensures GetFallbackImage(Some(d1), today, library, hash) == GetFallbackImage(Some(d2), today, library, hash)
  {
    IsoFormatInjective(d1, d2);
  }
}
