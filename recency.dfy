/**
 * The ordering used by the list endpoint: `sorted(values, key=updated_at,
 * reverse=True)` (notes_backend/src/api/routes_notes.py, list_notes).
 *
 * Python's sort is stable, also with `reverse=True`, so notes with equal
 * `updated_at` keep the order they had in the input. The sort is modelled as an
 * insertion sort with the same tie behaviour.
 */
module Recency {
  import opened Models

  /** Every note is at least as recent as each note after it. */
  predicate NewestFirst(s: seq<Note>) {
    forall i, j :: 0 <= i < j < |s| ==> s[i].updatedAt >= s[j].updatedAt
  }

  /** Identifiers strictly increase along the sequence. */
  predicate IdsAscending(s: seq<Note>) {
    forall i, j :: 0 <= i < j < |s| ==> s[i].id < s[j].id
  }

  /** `a` is listed before `b`: updated later, or at the same time and with a smaller id. */
  predicate Before(a: Note, b: Note) {
    a.updatedAt > b.updatedAt || (a.updatedAt == b.updatedAt && a.id < b.id)
  }

  /** Each note is listed before every note after it. */
  predicate Ordered(s: seq<Note>) {
    forall i, j :: 0 <= i < j < |s| ==> Before(s[i], s[j])
  }

  /**
   * Puts `x` in front of the first note of `t` that is not strictly more
   * recent than `x`, so that `x` precedes the notes of equal recency already in `t`.
   */
  function Insert(x: Note, t: seq<Note>): (r: seq<Note>)
    ensures multiset(r) == multiset(t) + multiset{x}
  {
    if t == [] || t[0].updatedAt <= x.updatedAt then [x] + t
    else
      assert t == [t[0]] + t[1..];
      [t[0]] + Insert(x, t[1..])
  }

  /** Insert keeps a sequence newest-first. */
  lemma {:induction false} InsertNewestFirst(x: Note, t: seq<Note>)
    requires NewestFirst(t)
    ensures NewestFirst(Insert(x, t))
  {
    if !(t == [] || t[0].updatedAt <= x.updatedAt) {
      InsertNewestFirst(x, t[1..]);
      var rest := Insert(x, t[1..]);
      forall j | 0 <= j < |rest| ensures rest[j].updatedAt <= t[0].updatedAt {
        assert rest[j] in multiset(rest);
        if rest[j] != x {
          var k :| 0 <= k < |t[1..]| && t[1..][k] == rest[j];
          assert t[k + 1] == rest[j];
        }
      }
    }
  }

  /** The stable sort on `updatedAt`, most recent first. */
  function SortNewestFirst(s: seq<Note>): (r: seq<Note>)
    ensures multiset(r) == multiset(s)
    ensures NewestFirst(r)
  {
    if s == [] then []
    else
      assert s == [s[0]] + s[1..];
      InsertNewestFirst(s[0], SortNewestFirst(s[1..]));
      Insert(s[0], SortNewestFirst(s[1..]))
  }

  /** Inserting a note with a smaller id than all of `t` keeps `t` ordered. */
  lemma {:induction false} InsertOrdered(x: Note, t: seq<Note>)
    requires Ordered(t)
    requires forall y :: y in t ==> x.id < y.id
    ensures Ordered(Insert(x, t))
  {
    if t == [] || t[0].updatedAt <= x.updatedAt {
      var r := [x] + t;
      forall i, j | 0 <= i < j < |r| ensures Before(r[i], r[j]) {
        if i == 0 {
          assert r[j] == t[j - 1];
          if j > 1 {
            assert Before(t[0], t[j - 1]);
          }
        }
      }
    } else {
      assert t == [t[0]] + t[1..];
      InsertOrdered(x, t[1..]);
      var rest := Insert(x, t[1..]);
      var r := [t[0]] + rest;
      forall j | 0 < j < |r| ensures Before(r[0], r[j]) {
        assert r[j] in multiset(rest);
        if r[j] != x {
          var k :| 0 <= k < |t[1..]| && t[1..][k] == r[j];
          assert Before(t[0], t[k + 1]);
        }
      }
    }
  }

  /**
   * Sorting a sequence whose ids ascend yields the order by recency with
   * ties broken by ascending id: the stable sort keeps equally recent notes
   * in their input order.
   */
  lemma {:induction false} SortOrdered(s: seq<Note>)
    requires IdsAscending(s)
    ensures Ordered(SortNewestFirst(s))
  {
    if s != [] {
      assert s == [s[0]] + s[1..];
      SortOrdered(s[1..]);
      var t := SortNewestFirst(s[1..]);
      forall y | y in t ensures s[0].id < y.id {
        assert y in multiset(s[1..]);
        var k :| 0 <= k < |s[1..]| && s[1..][k] == y;
        assert s[k + 1] == y;
      }
      InsertOrdered(s[0], t);
    }
  }

  /** The head of an ordered sequence comes before each of its other notes. */
  lemma HeadFirst(a: seq<Note>, x: Note)
    requires Ordered(a)
    requires x in multiset(a)
    ensures x == a[0] || Before(a[0], x)
  {
  }

  /** Two ordered arrangements of the same notes start with the same note. */
  lemma SameHead(a: seq<Note>, b: seq<Note>)
    requires Ordered(a) && Ordered(b) && |a| > 0
    requires multiset(a) == multiset(b)
    ensures |b| > 0 && a[0] == b[0]
  {
    assert |b| == |multiset(b)| == |a|;
    assert b[0] in multiset(b) && a[0] in multiset(a);
    HeadFirst(a, b[0]);
    HeadFirst(b, a[0]);
  }

  /** Dropping the same head from two arrangements of the same notes leaves the same notes. */
  lemma SameTailNotes(a: seq<Note>, b: seq<Note>)
    requires |a| > 0 && |b| > 0 && a[0] == b[0]
    requires multiset(a) == multiset(b)
    ensures multiset(a[1..]) == multiset(b[1..])
  {
    assert a == [a[0]] + a[1..] && b == [b[0]] + b[1..];
    calc {
      multiset(a[1..]);
      multiset(a) - multiset{a[0]};
      multiset(b) - multiset{b[0]};
      multiset(b[1..]);
    }
  }

  /**
   * There is one ordered arrangement of a given multiset of notes, so
   * `Ordered` together with "same notes" determines a listing completely.
   */
  lemma {:induction false} OrderedUnique(a: seq<Note>, b: seq<Note>)
    requires Ordered(a) && Ordered(b)
    requires multiset(a) == multiset(b)
    ensures a == b
  {
    if a == [] {
      assert |b| == |multiset(b)| == 0;
    } else {
      SameHead(a, b);
      SameTailNotes(a, b);
      OrderedUnique(a[1..], b[1..]);
      assert a == [a[0]] + a[1..] && b == [b[0]] + b[1..];
    }
  }

  /** In an ordered sequence every note occurs at most once. */
  lemma {:induction false} OrderedOnce(a: seq<Note>, x: Note)
    requires Ordered(a)
    ensures multiset(a)[x] == if x in a then 1 else 0
  {
    if a != [] {
      assert a == [a[0]] + a[1..];
      assert Ordered(a[1..]);
      OrderedOnce(a[1..], x);
      assert a[0] !in a[1..] by {
        forall j | 0 <= j < |a[1..]| ensures a[1..][j] != a[0] {
          assert Before(a[0], a[j + 1]);
        }
      }
    }
  }

  /** Two ordered sequences with the same members are the same sequence. */
  lemma SameMembersSame(a: seq<Note>, b: seq<Note>)
    requires Ordered(a) && Ordered(b)
    requires forall x :: x in a <==> x in b
    ensures a == b
  {
    forall x ensures multiset(a)[x] == multiset(b)[x] {
      OrderedOnce(a, x);
      OrderedOnce(b, x);
    }
    assert multiset(a) == multiset(b);
    OrderedUnique(a, b);
  }
}
