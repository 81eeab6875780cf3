/** Sequence helpers behind the deduplicating merge: concatenation of a list
    of lists and removal of repeated elements keeping the first occurrence,
    which is what building a JavaScript `Set` from an array and reading it
    back in insertion order does. */
module Distinct {

  /** The elements of a sequence, as a set. */
  function Elems<T>(s: seq<T>): set<T> {
    set x | x in s
  }

  /** No element occurs twice. */
  ghost predicate NoDuplicates<T>(s: seq<T>) {
    forall i, j :: 0 <= i < j < |s| ==> s[i] != s[j]
  }

  /** Position of the first occurrence of `x` in `s`. */
  function IndexOf<T(==)>(s: seq<T>, x: T): (k: nat)
    requires x in s
    ensures k < |s| && s[k] == x
    ensures x !in s[..k]
  {
    if s[0] == x then 0 else 1 + IndexOf(s[1..], x)
  }

  /** Every element of `r` occurs in `s`, and the elements of `r` appear in
      the order of their first occurrences in `s`. */
  ghost predicate FirstOccurrenceOrder<T>(r: seq<T>, s: seq<T>) {
    && (forall i :: 0 <= i < |r| ==> r[i] in s)
    && (forall i, j :: 0 <= i < j < |r| && r[i] in s && r[j] in s ==>
          IndexOf(s, r[i]) < IndexOf(s, r[j]))
  }

  /** Concatenation of a list of lists, in list order. */
  function Concat<T>(lists: seq<seq<T>>): (r: seq<T>)
    ensures |lists| == 0 ==> r == []
    ensures |lists| == 1 ==> r == lists[0]
  {
    if |lists| == 0 then [] else lists[0] + Concat(lists[1..])
  }

  /** The elements of `s` that are not in `seen`, each kept at its first
      occurrence only. */
  function DedupFrom<T(==)>(s: seq<T>, seen: set<T>): (r: seq<T>)
    ensures Elems(r) == Elems(s) - seen
    ensures NoDuplicates(r)
    ensures |r| <= |s|
  {
    if |s| == 0 then []
    else if s[0] in seen then DedupFrom(s[1..], seen)
    else
      var rest := DedupFrom(s[1..], seen + {s[0]});
      assert Elems([s[0]] + rest) == {s[0]} + Elems(rest);
      [s[0]] + rest
  }

  /** `s` with repeated elements removed, keeping first occurrences. */
  function Dedup<T(==)>(s: seq<T>): (r: seq<T>)
    ensures Elems(r) == Elems(s)
    ensures NoDuplicates(r)
  {
    DedupFrom(s, {})
  }

  lemma {:induction false} ConcatAppend<T>(lists: seq<seq<T>>, last: seq<T>)
    ensures Concat(lists + [last]) == Concat(lists) + last
  {
    if |lists| == 0 {
      assert lists + [last] == [last];
    } else {
      assert (lists + [last])[1..] == lists[1..] + [last];
      ConcatAppend(lists[1..], last);
    }
  }

  lemma {:induction false} ConcatOfAppend<T>(xs: seq<seq<T>>, ys: seq<seq<T>>)
    ensures Concat(xs + ys) == Concat(xs) + Concat(ys)
  {
    if |xs| == 0 {
      assert xs + ys == ys;
    } else {
      assert (xs + ys)[1..] == xs[1..] + ys;
      ConcatOfAppend(xs[1..], ys);
    }
  }

  /** An element is in the concatenation exactly when it is in one of the lists. */
  lemma {:induction false} ConcatMembers<T>(lists: seq<seq<T>>, x: T)
    ensures x in Concat(lists) <==> exists i :: 0 <= i < |lists| && x in lists[i]
  {
    if |lists| > 0 {
      ConcatMembers(lists[1..], x);
      if x in Concat(lists[1..]) {
        var i :| 0 <= i < |lists[1..]| && x in lists[1..][i];
        assert x in lists[i + 1];
      }
      forall i | 0 <= i < |lists| && x in lists[i] && i > 0
        ensures x in Concat(lists[1..])
      {
        assert lists[1..][i - 1] == lists[i];
      }
    }
  }

  /** The kept elements appear in the order of their first occurrence in `s`. */
  lemma {:induction false} DedupFromOrder<T>(s: seq<T>, seen: set<T>)
    ensures FirstOccurrenceOrder(DedupFrom(s, seen), s)
  {
    if |s| > 0 {
      var r := DedupFrom(s, seen);
      if s[0] in seen {
        DedupFromOrder(s[1..], seen);
        forall i | 0 <= i < |r| ensures r[i] != s[0] && IndexOf(s, r[i]) == 1 + IndexOf(s[1..], r[i]) {
        }
      } else {
        var rest := DedupFrom(s[1..], seen + {s[0]});
        DedupFromOrder(s[1..], seen + {s[0]});
        assert r == [s[0]] + rest;
        forall i | 0 <= i < |rest| ensures rest[i] != s[0] && IndexOf(s, rest[i]) == 1 + IndexOf(s[1..], rest[i]) {
        }
        forall i, j | 0 <= i < j < |r| && r[i] in s && r[j] in s
          ensures IndexOf(s, r[i]) < IndexOf(s, r[j])
        {
          assert r[j] == rest[j - 1];
          if i > 0 {
            assert r[i] == rest[i - 1];
          }
        }
      }
    }
  }

  /** Merging two lists and then deduplicating equals deduplicating the first
      and appending what is new in the second. */
  lemma {:induction false} DedupFromAppend<T>(p: seq<T>, q: seq<T>, seen: set<T>)
    ensures DedupFrom(p + q, seen) == DedupFrom(p, seen) + DedupFrom(q, seen + Elems(p))
  {
    if |p| == 0 {
      assert p + q == q;
      assert Elems(p) == {};
      assert seen + Elems(p) == seen;
    } else {
      assert (p + q)[0] == p[0];
      assert (p + q)[1..] == p[1..] + q;
      if p[0] in seen {
        DedupFromAppend(p[1..], q, seen);
        assert seen + Elems(p[1..]) == seen + Elems(p);
      } else {
        DedupFromAppend(p[1..], q, seen + {p[0]});
        assert seen + {p[0]} + Elems(p[1..]) == seen + Elems(p);
      }
    }
  }

  /** Appending one element to the merged list. */
  lemma DedupSnoc<T>(p: seq<T>, e: T)
    ensures Dedup(p + [e]) == Dedup(p) + (if e in p then [] else [e])
  {
    DedupFromAppend(p, [e], {});
    assert ({} + Elems(p)) == Elems(p);
    assert [e][1..] == [];
  }

  /** Deduplicating twice with two seen sets is deduplicating once with their union. */
  lemma {:induction false} DedupFromTwice<T>(q: seq<T>, s1: set<T>, s2: set<T>)
    ensures DedupFrom(DedupFrom(q, s1), s2) == DedupFrom(q, s1 + s2)
  {
    if |q| > 0 {
      if q[0] in s1 {
        DedupFromTwice(q[1..], s1, s2);
      } else {
        var inner := DedupFrom(q[1..], s1 + {q[0]});
        assert DedupFrom(q, s1) == [q[0]] + inner;
        assert ([q[0]] + inner)[1..] == inner;
        DedupFromTwice(q[1..], s1 + {q[0]}, s2);
        if q[0] in s2 {
          DedupFromTwice(q[1..], s1 + {q[0]}, s2);
          assert s1 + {q[0]} + s2 == s1 + s2;
          // the inner result never repeats q[0], so skipping it in the outer pass
          // is the same as having it in the outer seen set
          assert DedupFrom(inner, s2) == DedupFrom(q[1..], s1 + s2);
        } else {
          assert DedupFrom(inner, s2 + {q[0]}) == DedupFrom(inner, s2) by {
            DedupFromIgnoresAbsent(inner, s2, q[0]);
          }
          assert s1 + {q[0]} + s2 == s1 + s2 + {q[0]};
        }
      }
    }
  }

  /** Adding an element that does not occur to the seen set changes nothing. */
  lemma {:induction false} DedupFromIgnoresAbsent<T>(s: seq<T>, seen: set<T>, x: T)
    requires x !in s
    ensures DedupFrom(s, seen + {x}) == DedupFrom(s, seen)
  {
    if |s| > 0 {
      if s[0] in seen {
        DedupFromIgnoresAbsent(s[1..], seen, x);
      } else {
        DedupFromIgnoresAbsent(s[1..], seen + {s[0]}, x);
        assert seen + {x} + {s[0]} == seen + {s[0]} + {x};
      }
    }
  }

  /** The three properties -- same elements as `s`, no repetition, order of
      first occurrence in `s` -- leave only one possible sequence. */
  lemma {:induction false} DedupFromUnique<T>(r: seq<T>, s: seq<T>, seen: set<T>)
    requires forall x :: x in r <==> x in s && x !in seen
    requires NoDuplicates(r)
    requires FirstOccurrenceOrder(r, s)
    ensures r == DedupFrom(s, seen)
  {
    if |s| == 0 {
      HeadIsElement(r);
    } else if s[0] in seen {
      UniqueSkipsSeenHead(r, s, seen);
      DedupFromUnique(r, s[1..], seen);
    } else {
      UniqueStartsWithHead(r, s, seen);
      DedupFromUnique(r[1..], s[1..], seen + {s[0]});
    }
  }

  lemma HeadIsElement<T>(r: seq<T>)
    ensures |r| > 0 ==> r[0] in r
  {
  }

  /** When the head of `s` is already seen, `r` has the three properties
      with respect to the tail of `s`. */
  lemma UniqueSkipsSeenHead<T>(r: seq<T>, s: seq<T>, seen: set<T>)
    requires |s| > 0 && s[0] in seen
    requires forall x :: x in r <==> x in s && x !in seen
    requires FirstOccurrenceOrder(r, s)
    ensures forall x :: x in r <==> x in s[1..] && x !in seen
    ensures FirstOccurrenceOrder(r, s[1..])
  {
    forall i | 0 <= i < |r| ensures r[i] != s[0] && IndexOf(s, r[i]) == 1 + IndexOf(s[1..], r[i]) {
    }
  }

  /** When the head of `s` is not seen, `r` starts with it, and the rest of
      `r` has the three properties with respect to the tail of `s`. */
  lemma UniqueStartsWithHead<T>(r: seq<T>, s: seq<T>, seen: set<T>)
    requires |s| > 0 && s[0] !in seen
    requires forall x :: x in r <==> x in s && x !in seen
    requires NoDuplicates(r)
    requires FirstOccurrenceOrder(r, s)
    ensures |r| > 0 && r == [s[0]] + r[1..]
    ensures forall x :: x in r[1..] <==> x in s[1..] && x !in seen + {s[0]}
    ensures NoDuplicates(r[1..])
    ensures FirstOccurrenceOrder(r[1..], s[1..])
  {
    assert s[0] in r;
    var k := IndexOf(r, s[0]);
    // r[k] is s[0], whose first index in s is 0, so nothing can precede it in r
    assert IndexOf(s, r[k]) == 0;
    assert IndexOf(s, r[0]) >= 0;
    assert k == 0;
    var rest := r[1..];
    assert r == [s[0]] + rest;
    forall i | 0 <= i < |rest| ensures rest[i] != s[0] && IndexOf(s, rest[i]) == 1 + IndexOf(s[1..], rest[i]) {
      assert rest[i] == r[i + 1];
    }
    forall x ensures x in rest <==> x in s[1..] && x !in seen + {s[0]} {
      if x in rest {
        var i :| 0 <= i < |rest| && rest[i] == x;
        assert x == r[i + 1];
      }
      if x in s[1..] && x !in seen + {s[0]} {
        assert x in r;
        var i :| 0 <= i < |r| && r[i] == x;
        assert i != 0;
        assert rest[i - 1] == x;
      }
    }
    forall i, j | 0 <= i < j < |rest| && rest[i] in s[1..] && rest[j] in s[1..]
      ensures IndexOf(s[1..], rest[i]) < IndexOf(s[1..], rest[j])
    {
      assert rest[i] == r[i + 1] && rest[j] == r[j + 1];
    }
  }

  /** Deduplicating each list before merging changes nothing: the merge of
      the deduplicated lists equals the merge of the lists themselves. */
  lemma {:induction false} DedupFromConcatOfDedups<T>(lists: seq<seq<T>>, deduped: seq<seq<T>>, seen: set<T>)
    requires |deduped| == |lists|
    requires forall i :: 0 <= i < |lists| ==> deduped[i] == Dedup(lists[i])
    ensures DedupFrom(Concat(deduped), seen) == DedupFrom(Concat(lists), seen)
  {
    if |lists| > 0 {
      var none: set<T> := {};
      DedupFromAppend(deduped[0], Concat(deduped[1..]), seen);
      DedupFromAppend(lists[0], Concat(lists[1..]), seen);
      DedupFromTwice(lists[0], none, seen);
      assert none + seen == seen;
      DedupFromConcatOfDedups(lists[1..], deduped[1..], seen + Elems(lists[0]));
    }
  }

  /** Concatenating groups of lists flattens one level at a time. */
  lemma {:induction false} ConcatOfConcats<T>(groups: seq<seq<seq<T>>>, joined: seq<seq<T>>)
    requires |joined| == |groups|
    requires forall i :: 0 <= i < |groups| ==> joined[i] == Concat(groups[i])
    ensures Concat(joined) == Concat(Concat(groups))
  {
    if |groups| > 0 {
      ConcatOfConcats(groups[1..], joined[1..]);
      ConcatOfAppend(groups[0], Concat(groups[1..]));
    }
  }

  /** Deduplicating merged groups equals deduplicating all their lists at once. */
  lemma DedupOfMergedGroups<T>(groups: seq<seq<seq<T>>>, merged: seq<seq<T>>)
    requires |merged| == |groups|
    requires forall i :: 0 <= i < |groups| ==> merged[i] == Dedup(Concat(groups[i]))
    ensures Dedup(Concat(merged)) == Dedup(Concat(Concat(groups)))
  {
    var joined := seq(|groups|, i requires 0 <= i < |groups| => Concat(groups[i]));
    DedupFromConcatOfDedups(joined, merged, {});
    ConcatOfConcats(groups, joined);
  }
}
