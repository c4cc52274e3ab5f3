/** `OrderBy(x => x.Age).ThenBy(x => x.Country)`: a stable sort by age, then
    by country. Modelled as an insertion sort that places each element after
    every element whose key is not greater, which is what makes it stable. */
module Sorting {
  import opened Text
  import opened Seqs
  import opened Persons

  /** The sort key of a person: age first, then country. */
  datatype Key = Key(age: int, country: string)

  function KeyOf(p: PersonData): Key {
    Key(p.age, p.country)
  }

  /** `a` sorts strictly before `b`: a smaller age, or the same age and a
      country that is smaller in ordinal order. */
  predicate KeyLess(a: PersonData, b: PersonData) {
    a.age < b.age || (a.age == b.age && StringLess(a.country, b.country))
  }

  lemma KeyLessIrreflexive(a: PersonData)
    ensures !KeyLess(a, a)
  {
    StringLessIrreflexive(a.country);
  }

  lemma KeyLessTransitive(a: PersonData, b: PersonData, c: PersonData)
    requires KeyLess(a, b) && KeyLess(b, c)
    ensures KeyLess(a, c)
  {
    if a.age == b.age == c.age {
      StringLessTransitive(a.country, b.country, c.country);
    }
  }

  /** Two persons are either ordered one way or the other, or have the same key. */
  lemma KeyLessTotal(a: PersonData, b: PersonData)
    ensures KeyLess(a, b) || KeyLess(b, a) || KeyOf(a) == KeyOf(b)
  {
    if a.age == b.age && a.country != b.country {
      StringLessTotal(a.country, b.country);
    }
  }

  /** No element is followed by one with a smaller key. */
  predicate Sorted(s: seq<PersonData>) {
    forall i, j :: 0 <= i < j < |s| ==> !KeyLess(s[j], s[i])
  }

  /** `x` placed in `s` just before the first element with a greater key. */
  function Insert(s: seq<PersonData>, x: PersonData): (r: seq<PersonData>)
    ensures multiset(r) == multiset(s) + multiset{x}
  {
    if s == [] then [x]
    else if KeyLess(x, s[0]) then [x] + s
    else
      assert s == [s[0]] + s[1..];
      [s[0]] + Insert(s[1..], x)
  }

  /** The stable sort: each element in turn, from the first, inserted into the
      sorted prefix before it. */
  function Sort(s: seq<PersonData>): (r: seq<PersonData>)
    ensures multiset(r) == multiset(s)
  {
    if s == [] then []
    else
      assert s == s[..|s| - 1] + [s[|s| - 1]];
      Insert(Sort(s[..|s| - 1]), s[|s| - 1])
  }

  /** Inserting into a sorted sequence keeps it sorted. */
  lemma {:induction false} InsertSorted(s: seq<PersonData>, x: PersonData)
    requires Sorted(s)
    ensures Sorted(Insert(s, x))
  {
    var r := Insert(s, x);
    if s == [] {
    } else if KeyLess(x, s[0]) {
      forall j | 0 < j < |r| ensures !KeyLess(r[j], x) {
        assert r[j] == s[j - 1];
        if KeyLess(s[j - 1], x) {
          KeyLessTransitive(s[j - 1], x, s[0]);
          KeyLessIrreflexive(s[0]);
        }
      }
    } else {
      var t := Insert(s[1..], x);
      InsertSorted(s[1..], x);
      forall j | 0 <= j < |t| ensures !KeyLess(t[j], s[0]) {
        assert t[j] in multiset(t);
        if t[j] != x {
          var k :| 1 <= k < |s| && s[k] == t[j];
        }
      }
    }
  }

  /** The result of the sort is in order of age, then country. */
  lemma {:induction false} SortSorted(s: seq<PersonData>)
    ensures Sorted(Sort(s))
  {
    if s != [] {
      SortSorted(s[..|s| - 1]);
      InsertSorted(Sort(s[..|s| - 1]), s[|s| - 1]);
    }
  }

  /** Whether a person has the key `k`. */
  function WithKey(k: Key): PersonData -> bool {
    p => KeyOf(p) == k
  }

  /** Inserting into a sorted sequence puts `x` after every element with its
      key: the elements of any one key keep their order, `x` last among them. */
  lemma {:induction false} InsertStable(s: seq<PersonData>, x: PersonData, k: Key)
    requires Sorted(s)
    ensures Where(Insert(s, x), WithKey(k)) == Where(s, WithKey(k)) + Where([x], WithKey(k))
  {
    var p := WithKey(k);
    if s == [] {
    } else if KeyLess(x, s[0]) {
      if p(x) {
        forall j | 0 <= j < |s| ensures !p(s[j]) {
          if p(s[j]) {
            KeyLessIrreflexive(s[j]);
            if j > 0 { KeyLessTransitive(x, s[0], s[j]); }
          }
        }
        WhereNone(s, p);
      }
      assert Where([x] + s, p) == Where([x], p) + Where(s, p) by { WhereAppend([x], s, p); }
    } else {
      InsertStable(s[1..], x, k);
      assert s == [s[0]] + s[1..];
      WhereAppend([s[0]], s[1..], p);
      WhereAppend([s[0]], Insert(s[1..], x), p);
    }
  }

  /** A filter that rejects every element keeps nothing. */
  lemma {:induction false} WhereNone(s: seq<PersonData>, p: PersonData -> bool)
    requires forall j :: 0 <= j < |s| ==> !p(s[j])
    ensures Where(s, p) == []
  {
    if s != [] {
      WhereNone(s[1..], p);
    }
  }

  /** Stability: the persons of any one key appear in the sorted sequence in
      the order they had in the input. */
  lemma {:induction false} SortStable(s: seq<PersonData>, k: Key)
    ensures Where(Sort(s), WithKey(k)) == Where(s, WithKey(k))
  {
    if s != [] {
      var init, last, p := s[..|s| - 1], s[|s| - 1], WithKey(k);
      assert s == init + [last];
      calc {
        Where(Sort(s), p);
        Where(Insert(Sort(init), last), p);
        { SortSorted(init); InsertStable(Sort(init), last, k); }
        Where(Sort(init), p) + Where([last], p);
        { SortStable(init, k); }
        Where(init, p) + Where([last], p);
        { WhereAppend(init, [last], p); }
        Where(s, p);
      }
    }
  }

  /** An element whose key is not smaller than any key in `s` is inserted at
      the end. */
  lemma {:induction false} InsertAtEnd(s: seq<PersonData>, x: PersonData)
    requires forall j :: 0 <= j < |s| ==> !KeyLess(x, s[j])
    ensures Insert(s, x) == s + [x]
  {
    if s != [] {
      InsertAtEnd(s[1..], x);
      assert s == [s[0]] + s[1..];
    }
  }

  /** Sorting a sorted sequence changes nothing. */
  lemma {:induction false} SortIdempotent(s: seq<PersonData>)
    requires Sorted(s)
    ensures Sort(s) == s
  {
    if s != [] {
      var init, last := s[..|s| - 1], s[|s| - 1];
      SortIdempotent(init);
      InsertAtEnd(init, last);
      assert init + [last] == s;
    }
  }

  /** Sorting twice is sorting once. */
  lemma SortTwice(s: seq<PersonData>)
    ensures Sort(Sort(s)) == Sort(s)
  {
    SortSorted(s);
    SortIdempotent(Sort(s));
  }
}
