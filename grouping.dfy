/** `GroupPersonsByCountry`: `xList.GroupBy(p => p.Country)`, each group
    yielded as its key and its elements. `GroupBy` walks the input once,
    appending each element to the group of its key and opening a new group,
    after the existing ones, the first time a key is seen. */
module Grouping {
  import opened Seqs
  import opened Persons

  datatype Group = Group(country: string, people: seq<PersonData>)

  /** One step of `GroupBy`: `x` joins the group of its country, or starts a
      new last group. */
  function AddToGroups(gs: seq<Group>, x: PersonData): (r: seq<Group>)
    ensures |gs| <= |r| <= |gs| + 1 && r != []
  {
    if gs == [] then [Group(x.country, [x])]
    else if gs[0].country == x.country then [gs[0].(people := gs[0].people + [x])] + gs[1..]
    else [gs[0]] + AddToGroups(gs[1..], x)
  }

  /** The groups of `xs`, one element at a time from the first. */
  function GroupPersonsByCountry(xs: seq<PersonData>): (r: seq<Group>)
    ensures r == [] <==> xs == []
  {
    if xs == [] then []
    else AddToGroups(GroupPersonsByCountry(xs[..|xs| - 1]), xs[|xs| - 1])
  }

  /** All the elements of a sequence of groups, group after group. */
  function AllPeople(gs: seq<Group>): seq<PersonData> {
    if gs == [] then [] else gs[0].people + AllPeople(gs[1..])
  }

  /** `AddToGroups` adds exactly `x`. */
  lemma {:induction false} AddToGroupsAddsOne(gs: seq<Group>, x: PersonData)
    ensures multiset(AllPeople(AddToGroups(gs, x))) == multiset(AllPeople(gs)) + multiset{x}
  {
    if gs != [] {
      if gs[0].country == x.country {
        assert AddToGroups(gs, x)[1..] == gs[1..];
      } else {
        AddToGroupsAddsOne(gs[1..], x);
        assert AddToGroups(gs, x)[1..] == AddToGroups(gs[1..], x);
      }
    }
  }

  /** Every input element is in the groups, as often as in the input, and
      nothing else is. */
  lemma {:induction false} GroupingKeepsAll(xs: seq<PersonData>)
    ensures multiset(AllPeople(GroupPersonsByCountry(xs))) == multiset(xs)
  {
    if xs != [] {
      var init, last := xs[..|xs| - 1], xs[|xs| - 1];
      assert xs == init + [last];
      assert multiset(xs) == multiset(init) + multiset{last};
      assert GroupPersonsByCountry(xs) == AddToGroups(GroupPersonsByCountry(init), last);
      GroupingKeepsAll(init);
      AddToGroupsAddsOne(GroupPersonsByCountry(init), last);
    }
  }

  /** No key occurs twice. */
  predicate Distinct(ks: seq<string>) {
    forall i, j :: 0 <= i < j < |ks| ==> ks[i] != ks[j]
  }

  /** The countries of `xs`, each once, in order of first occurrence. */
  function Countries(xs: seq<PersonData>): (r: seq<string>)
    ensures Distinct(r)
    ensures forall c :: c in r <==> exists i :: 0 <= i < |xs| && xs[i].country == c
  {
    if xs == [] then []
    else
      var init, last := xs[..|xs| - 1], xs[|xs| - 1];
      var ks := Countries(init);
      assert forall i :: 0 <= i < |init| ==> init[i] == xs[i];
      if last.country in ks then ks else ks + [last.country]
  }

  /** Each key of `ks` comes before the later ones in `xs`: some element with
      an earlier key precedes every element with a later key. */
  predicate FirstOccurrenceOrder(ks: seq<string>, xs: seq<PersonData>) {
    forall i, j, m :: 0 <= i < j < |ks| && 0 <= m < |xs| && xs[m].country == ks[j] ==>
      exists n :: 0 <= n < m && xs[n].country == ks[i]
  }

  lemma {:induction false} CountriesInOrder(xs: seq<PersonData>)
    ensures FirstOccurrenceOrder(Countries(xs), xs)
  {
    if xs != [] {
      var init, last := xs[..|xs| - 1], xs[|xs| - 1];
      var ks, r := Countries(init), Countries(xs);
      CountriesInOrder(init);
      forall i, j, m | 0 <= i < j < |r| && 0 <= m < |xs| && xs[m].country == r[j]
        ensures exists n :: 0 <= n < m && xs[n].country == r[i]
      {
        assert r[i] == ks[i] && r[i] in ks;
        var n :| 0 <= n < |init| && init[n].country == r[i];
        if m < |init| {
          assert init[m] == xs[m];
          assert j < |ks|;
          var n' :| 0 <= n' < m && init[n'].country == ks[i];
          assert xs[n'] == init[n'];
        } else {
          assert xs[n] == init[n];
        }
      }
      assert FirstOccurrenceOrder(r, xs);
    }
  }

  /** Whether a person lives in `c`. */
  function InCountry(c: string): PersonData -> bool {
    (p: PersonData) => p.country == c
  }

  /** The group of each key in `ks`: the elements of `xs` of that country, in
      input order. */
  function GroupsOf(ks: seq<string>, xs: seq<PersonData>): (r: seq<Group>)
    ensures |r| == |ks|
    ensures forall i :: 0 <= i < |ks| ==> r[i] == Group(ks[i], Where(xs, InCountry(ks[i])))
  {
    if ks == [] then [] else [Group(ks[0], Where(xs, InCountry(ks[0])))] + GroupsOf(ks[1..], xs)
  }

  /** Appending `x` to the input extends the filter of its own country by `x`
      and leaves the others alone. */
  lemma WhereSnoc(xs: seq<PersonData>, x: PersonData, c: string)
    ensures Where(xs + [x], InCountry(c)) == Where(xs, InCountry(c)) + if x.country == c then [x] else []
  {
    WhereAppend(xs, [x], InCountry(c));
  }

  /** A country no element has gets an empty filter. */
  lemma {:induction false} WhereAbsent(xs: seq<PersonData>, c: string)
    requires forall i :: 0 <= i < |xs| ==> xs[i].country != c
    ensures Where(xs, InCountry(c)) == []
  {
    if xs != [] {
      WhereAbsent(xs[1..], c);
    }
  }

  /** One step of `GroupBy` on the groups of distinct keys is the groups of
      the extended input, with `x`'s country added as a last key when new. */
  lemma {:induction false} AddToGroupsOf(ks: seq<string>, xs: seq<PersonData>, x: PersonData)
    requires Distinct(ks)
    requires x.country !in ks ==> forall i :: 0 <= i < |xs| ==> xs[i].country != x.country
    ensures AddToGroups(GroupsOf(ks, xs), x)
            == GroupsOf(if x.country in ks then ks else ks + [x.country], xs + [x])
  {
    if ks == [] {
      WhereAbsent(xs, x.country);
      WhereSnoc(xs, x, x.country);
      assert Where(xs + [x], InCountry(x.country)) == [x];
    } else if ks[0] == x.country {
      AddToFirstGroup(ks, xs, x);
    } else {
      assert Distinct(ks[1..]);
      assert x.country in ks ==> x.country in ks[1..];
      AddToGroupsOf(ks[1..], xs, x);
      AddPastFirstGroup(ks, xs, x);
    }
  }

  /** `x` belongs to the first group: that group grows by `x`, the others
      stay as they are. */
  lemma AddToFirstGroup(ks: seq<string>, xs: seq<PersonData>, x: PersonData)
    requires Distinct(ks) && ks != [] && ks[0] == x.country
    ensures AddToGroups(GroupsOf(ks, xs), x) == GroupsOf(ks, xs + [x])
  {
    var lhs, rhs := AddToGroups(GroupsOf(ks, xs), x), GroupsOf(ks, xs + [x]);
    var gs := GroupsOf(ks, xs);
    WhereSnoc(xs, x, ks[0]);
    assert lhs == [gs[0].(people := gs[0].people + [x])] + gs[1..];
    forall i | 1 <= i < |ks| ensures lhs[i] == rhs[i] {
      WhereSnoc(xs, x, ks[i]);
    }
  }

  /** `x` does not belong to the first group: that group is kept and the step
      happens on the rest, as the induction hypothesis describes it. */
  lemma AddPastFirstGroup(ks: seq<string>, xs: seq<PersonData>, x: PersonData)
    requires ks != [] && ks[0] != x.country
    requires AddToGroups(GroupsOf(ks[1..], xs), x)
             == GroupsOf(if x.country in ks[1..] then ks[1..] else ks[1..] + [x.country], xs + [x])
    ensures AddToGroups(GroupsOf(ks, xs), x)
            == GroupsOf(if x.country in ks then ks else ks + [x.country], xs + [x])
  {
    var ks' := if x.country in ks then ks else ks + [x.country];
    var lhs, rhs := AddToGroups(GroupsOf(ks, xs), x), GroupsOf(ks', xs + [x]);
    var gs := GroupsOf(ks, xs);
    WhereSnoc(xs, x, ks[0]);
    assert gs[1..] == GroupsOf(ks[1..], xs);
    var tail := if x.country in ks[1..] then ks[1..] else ks[1..] + [x.country];
    assert ks'[1..] == tail;
    assert lhs == [gs[0]] + GroupsOf(tail, xs + [x]);
    assert rhs[0] == gs[0];
    assert rhs[1..] == GroupsOf(tail, xs + [x]);
  }

  /** The groups are those of the countries in first-occurrence order, each
      holding exactly the elements of its country in input order. */
  lemma {:induction false} GroupingIsGroupsOfCountries(xs: seq<PersonData>)
    ensures GroupPersonsByCountry(xs) == GroupsOf(Countries(xs), xs)
  {
    if xs != [] {
      var init, last := xs[..|xs| - 1], xs[|xs| - 1];
      var ks := Countries(init);
      assert init + [last] == xs;
      assert Countries(xs) == if last.country in ks then ks else ks + [last.country];
      assert GroupPersonsByCountry(xs) == AddToGroups(GroupPersonsByCountry(init), last);
      GroupingIsGroupsOfCountries(init);
      NewCountryAbsent(init, last.country);
      AddToGroupsOf(ks, init, last);
    }
  }

  /** A country missing from the keys occurs nowhere in the input. */
  lemma NewCountryAbsent(xs: seq<PersonData>, c: string)
    ensures c !in Countries(xs) ==> forall i :: 0 <= i < |xs| ==> xs[i].country != c
  {
  }

  /** What `GroupPersonsByCountry` promises: distinct keys in order of first
      occurrence, one per country of the input; each group non-empty and
      holding exactly the elements of its country, in input order. */
  lemma GroupingSpec(xs: seq<PersonData>)
    ensures var gs := GroupPersonsByCountry(xs);
            && Distinct(Keys(gs))
            && FirstOccurrenceOrder(Keys(gs), xs)
            && (forall c :: c in Keys(gs) <==> exists i :: 0 <= i < |xs| && xs[i].country == c)
            && (forall k :: 0 <= k < |gs| ==> gs[k].people == Where(xs, InCountry(gs[k].country)))
            && (forall k :: 0 <= k < |gs| ==> gs[k].people != [])
  {
    var gs := GroupPersonsByCountry(xs);
    var ks := Countries(xs);
    GroupingIsGroupsOfCountries(xs);
    CountriesInOrder(xs);
    assert Keys(gs) == ks;
    forall k | 0 <= k < |gs| ensures gs[k].people != [] {
      assert ks[k] in ks;
      var i :| 0 <= i < |xs| && xs[i].country == ks[k];
      WhereKeepsExactly(xs, InCountry(ks[k]));
      assert xs[i] in multiset(xs);
    }
  }

  /** The keys of a sequence of groups. */
  function Keys(gs: seq<Group>): (r: seq<string>)
    ensures |r| == |gs| && forall k :: 0 <= k < |gs| ==> r[k] == gs[k].country
  {
    if gs == [] then [] else [gs[0].country] + Keys(gs[1..])
  }
}
