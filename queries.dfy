/** The local functions of `Main` that read the sorted list: three ways of
    writing one filter, the map to display strings, and pagination. */
module Queries {
  import opened Text
  import opened Seqs
  import opened Persons

  /** The filter condition shared by the three formulations. */
  predicate AdultOutsideFrance(p: PersonData) {
    p.age > 32 && p.country != "France"
  }

  /** `ListPersonWithYield1`: a `foreach` over the list with an `if` around the
      `yield return`. */
  function ListPersonWithYield1(xs: seq<PersonData>): (r: seq<PersonData>)
    ensures |r| <= |xs|
    ensures forall i :: 0 <= i < |r| ==> AdultOutsideFrance(r[i])
  {
    if xs == [] then []
    else if AdultOutsideFrance(xs[0]) then [xs[0]] + ListPersonWithYield1(xs[1..])
    else ListPersonWithYield1(xs[1..])
  }

  /** `ListPersonWithYield2`: every element of `Where(...)` yielded in turn. */
  function ListPersonWithYield2(xs: seq<PersonData>): (r: seq<PersonData>)
    ensures |r| <= |xs|
    ensures forall i :: 0 <= i < |r| ==> AdultOutsideFrance(r[i])
  {
    Where(xs, AdultOutsideFrance)
  }

  /** `ListPersonWithSelectMany`: `Where(...)` followed by
      `SelectMany(item => Enumerable.Repeat(item, 1))`. */
  function ListPersonWithSelectMany(xs: seq<PersonData>): (r: seq<PersonData>)
    ensures forall x :: x in r ==> AdultOutsideFrance(x)
  {
    SelectMany(Where(xs, AdultOutsideFrance), x => [x])
  }

  /** Replacing every element by a one-element sequence and flattening gives
      the sequence back. */
  lemma {:induction false} SelectManySingleton<T(!new)>(s: seq<T>)
    ensures SelectMany(s, x => [x]) == s
  {
    if s != [] {
      SelectManySingleton(s[1..]);
      assert Select(s, x => [x]) == [[s[0]]] + Select(s[1..], x => [x]);
    }
  }

  /** The explicit `foreach`/`if` filter is `Where`. */
  lemma {:induction false} Yield1IsWhere(xs: seq<PersonData>)
    ensures ListPersonWithYield1(xs) == Where(xs, AdultOutsideFrance)
  {
    if xs != [] {
      Yield1IsWhere(xs[1..]);
    }
  }

  /** The three formulations return the same sequence for every input. */
  lemma FiltersAgree(xs: seq<PersonData>)
    ensures ListPersonWithYield1(xs) == ListPersonWithYield2(xs)
    ensures ListPersonWithYield2(xs) == ListPersonWithSelectMany(xs)
  {
    Yield1IsWhere(xs);
    SelectManySingleton(Where(xs, AdultOutsideFrance));
  }

  /** The filter keeps, in input order, every element over 32 that is not from
      France, each as often as it occurs, and nothing else. */
  lemma FilterKeepsExactly(xs: seq<PersonData>)
    ensures IsSubsequence(ListPersonWithYield1(xs), xs)
    ensures forall x :: multiset(ListPersonWithYield1(xs))[x]
                        == if AdultOutsideFrance(x) then multiset(xs)[x] else 0
  {
    Yield1IsWhere(xs);
    WhereKeepsExactly(xs, AdultOutsideFrance);
  }

  /** `$"{item.FirstName.Trim() + " " + item.SurName,-19} ({item.Age} years)"`:
      the name left-aligned in at least 19 columns, then the age. */
  function DisplayName(p: PersonData): (r: string)
    ensures |r| >= 29
  {
    DisplayLine(Trim(p.firstName) + " " + p.surName, IntToString(p.age))
  }

  /** The interpolated line for a name and the text of an age. */
  function DisplayLine(name: string, ageText: string): (r: string)
  {
    PadRight(name, 19) + " (" + ageText + " years)"
  }

  /** The line starts with `name`, padded with spaces (never cut) to 19
      columns, and ends with the age text in parentheses. */
  lemma DisplayLineLayout(name: string, ageText: string)
    ensures var r, w := DisplayLine(name, ageText), if |name| < 19 then 19 else |name|;
            && |r| == w + 9 + |ageText|
            && r[..|name|] == name
            && (forall i :: |name| <= i < w ==> r[i] == ' ')
            && r[w..] == " (" + ageText + " years)"
  {
    var padded := PadRight(name, 19);
    var tail := " (" + ageText + " years)";
    assert DisplayLine(name, ageText) == padded + tail;
    assert (padded + tail)[..|name|] == padded[..|name|];
    assert (padded + tail)[|padded|..] == tail;
  }

  /** The line starts with the trimmed first name, a space and the surname,
      padded with spaces (never cut) to 19 columns, and ends with the age in
      parentheses. */
  lemma DisplayNameLayout(p: PersonData)
    ensures var name, r := Trim(p.firstName) + " " + p.surName, DisplayName(p);
            var w := if |name| < 19 then 19 else |name|;
            && |r| == w + 9 + |IntToString(p.age)|
            && r[..|name|] == name
            && (forall i :: |name| <= i < w ==> r[i] == ' ')
            && r[w..] == " (" + IntToString(p.age) + " years)"
  {
    DisplayLineLayout(Trim(p.firstName) + " " + p.surName, IntToString(p.age));
  }

  /** `ListPersonNamesWithYield`: one display line per person, in order. */
  function ListPersonNamesWithYield(xs: seq<PersonData>): (r: seq<string>)
    ensures |r| == |xs|
    ensures forall i :: 0 <= i < |xs| ==> r[i] == DisplayName(xs[i])
  {
    if xs == [] then [] else [DisplayName(xs[0])] + ListPersonNamesWithYield(xs[1..])
  }

  /** The number of pages of `pageSize` needed for `n` elements. */
  function PageCount(n: int, pageSize: int): (r: nat)
    requires pageSize >= 1
    decreases n
  {
    if n <= 0 then 0 else 1 + PageCount(n - pageSize, pageSize)
  }

  /** The page count is `n / pageSize` rounded up. */
  lemma {:induction false} PageCountIsCeiling(n: nat, pageSize: int)
    requires pageSize >= 1
    ensures PageCount(n, pageSize) == (n + pageSize - 1) / pageSize
    decreases n
  {
    if n > 0 {
      if n <= pageSize {
        DivisionBounds(n + pageSize - 1, pageSize, 1);
      } else {
        PageCountIsCeiling(n - pageSize, pageSize);
        var q := (n - 1) / pageSize;
        DivisionBounds(n - 1, pageSize, q);
        DivisionBounds(n + pageSize - 1, pageSize, q + 1);
      }
    }
  }

  /** `a / d` is the `q` with `q * d <= a < (q + 1) * d`. */
  lemma DivisionBounds(a: nat, d: int, q: int)
    requires d >= 1
    requires q == a / d || q * d <= a < q * d + d
    ensures q == a / d && q * d <= a < q * d + d
  {
    var q' := a / d;
    assert q' * d <= a < q' * d + d;
    if q * d <= a < q * d + d {
      assert (q - q') * d == q * d - q' * d;
      assert (q' - q) * d == q' * d - q * d;
      if q - q' >= 1 {
        AtLeastOnce(q - q', d);
      } else if q' - q >= 1 {
        AtLeastOnce(q' - q, d);
      }
    }
  }

  lemma AtLeastOnce(k: int, d: int)
    requires k >= 1 && d >= 1
    ensures k * d >= d
  {
    assert k * d == (k - 1) * d + d;
  }

  /** `PaginatePersons`: `Skip(i).Take(pageSize)` for `i` = 0, `pageSize`,
      `2 * pageSize`, ... while `i` is below the count. The pages concatenate
      to the input; each is non-empty and all but the last hold exactly
      `pageSize` elements; there are `ceil(|xs| / pageSize)` of them. */
  method PaginatePersons(xs: seq<PersonData>, pageSize: int) returns (pages: seq<seq<PersonData>>)
    requires pageSize >= 1
    ensures Flatten(pages) == xs
    ensures forall k :: 0 <= k < |pages| ==> 0 < |pages[k]| <= pageSize
    ensures forall k :: 0 <= k < |pages| - 1 ==> |pages[k]| == pageSize
    ensures |pages| == PageCount(|xs|, pageSize) == (|xs| + pageSize - 1) / pageSize
  {
    pages := [];
    var i := 0;
    while i < |xs|
      invariant 0 <= i
      invariant i <= |xs| ==> Flatten(pages) == xs[..i] && |pages| + PageCount(|xs| - i, pageSize) == PageCount(|xs|, pageSize)
      invariant i <= |xs| && |pages| > 0 ==> |pages[|pages| - 1]| == pageSize
      invariant i > |xs| ==> Flatten(pages) == xs && |pages| == PageCount(|xs|, pageSize)
      invariant forall k :: 0 <= k < |pages| ==> 0 < |pages[k]| <= pageSize
      invariant forall k :: 0 <= k < |pages| - 1 ==> |pages[k]| == pageSize
      decreases |xs| - i
    {
      var end := if i + pageSize < |xs| then i + pageSize else |xs|;
      var page := xs[i..end];
      FlattenAppend(pages, page);
      assert xs[..i] + page == xs[..end];
      pages := pages + [page];
      i := i + pageSize;
    }
    PageCountIsCeiling(|xs|, pageSize);
  }

  /** With `pageSize <= 0` the index never grows, so on a non-empty list the
      loop condition `i < xList.Count` holds after every number of steps. */
  lemma PaginateNeverEnds(n: nat, pageSize: int, k: nat)
    requires pageSize <= 0 && n > 0
    ensures k * pageSize < n
  {
  }
}
