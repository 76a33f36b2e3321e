/**
  Ordering the leaderboard: `entries.sort((a, b) => b.score - a.score)`.
  `Array.prototype.sort` is stable, so the entries come out by score, highest
  first, with equal scores in their input order. `SortByScore` is a stable
  insertion sort; the lemmas show that it returns a descending permutation of
  its input that keeps the order within each score, and that it is the only
  sequence with those properties, so any stable sort by this comparator
  returns the same sequence.
*/
module Ranking {
  import opened Records

  ghost predicate SortedDesc(s: seq<Entry>)
  {
    forall i, j :: 0 <= i < j < |s| ==> s[i].score >= s[j].score
  }

  /** The entries of `s` whose score is `v`, in their order in `s`. */
  function WithScore(s: seq<Entry>, v: real): seq<Entry>
  {
    if s == [] then []
    else (if s[0].score == v then [s[0]] else []) + WithScore(s[1..], v)
  }

  /** Inserts `e` before the first entry whose score is not above its own. */
  function Insert(e: Entry, s: seq<Entry>): (r: seq<Entry>)
  {
    if s == [] || e.score >= s[0].score then [e] + s
    else [s[0]] + Insert(e, s[1..])
  }

  function SortByScore(s: seq<Entry>): (r: seq<Entry>)
  {
    if s == [] then [] else Insert(s[0], SortByScore(s[1..]))
  }

  lemma {:induction false} InsertPermutes(e: Entry, s: seq<Entry>)
    ensures multiset(Insert(e, s)) == multiset(s) + multiset{e}
  {
    if s != [] && e.score < s[0].score {
      InsertPermutes(e, s[1..]);
      assert s == [s[0]] + s[1..];
    }
  }

  lemma {:induction false} InsertSorted(e: Entry, s: seq<Entry>)
    requires SortedDesc(s)
    ensures SortedDesc(Insert(e, s))
  {
    if s != [] && e.score < s[0].score {
      InsertSorted(e, s[1..]);
      InsertPermutes(e, s[1..]);
      var t := Insert(e, s[1..]);
      forall x | x in t ensures x.score <= s[0].score {
        assert x in multiset(t);
        assert x == e || x in multiset(s[1..]);
      }
      assert Insert(e, s) == [s[0]] + t;
    }
  }

  /** Inserting `e` puts it in front of every equal-scored entry and moves no other entry within its score. */
  lemma {:induction false} InsertWithScore(e: Entry, s: seq<Entry>, v: real)
    requires SortedDesc(s)
    ensures WithScore(Insert(e, s), v) == if e.score == v then [e] + WithScore(s, v) else WithScore(s, v)
  {
    if s != [] && e.score < s[0].score {
      InsertWithScore(e, s[1..], v);
      assert Insert(e, s)[1..] == Insert(e, s[1..]);
    } else {
      assert ([e] + s)[1..] == s;
    }
  }

  /** The result is ordered by score, highest first, and holds exactly the input entries. */
  lemma {:induction false} SortByScoreSorted(s: seq<Entry>)
    ensures SortedDesc(SortByScore(s))
    ensures multiset(SortByScore(s)) == multiset(s)
  {
    if s != [] {
      SortByScoreSorted(s[1..]);
      InsertSorted(s[0], SortByScore(s[1..]));
      InsertPermutes(s[0], SortByScore(s[1..]));
      assert s == [s[0]] + s[1..];
    }
  }

  /** Stability: the entries of each score keep their input order. */
  lemma {:induction false} SortByScoreStable(s: seq<Entry>, v: real)
    ensures WithScore(SortByScore(s), v) == WithScore(s, v)
  {
    if s != [] {
      SortByScoreStable(s[1..], v);
      SortByScoreSorted(s[1..]);
      InsertWithScore(s[0], SortByScore(s[1..]), v);
    }
  }

  lemma {:induction false} WithScoreHead(t: seq<Entry>)
    requires t != []
    ensures WithScore(t, t[0].score) != [] && WithScore(t, t[0].score)[0] == t[0]
  {
  }

  lemma {:induction false} WithScoreMember(t: seq<Entry>, v: real, x: Entry)
    requires x in WithScore(t, v)
    ensures x in t && x.score == v
  {
    if t != [] && !(t[0].score == v && x == t[0]) {
      WithScoreMember(t[1..], v, x);
    }
  }

  /**
    Two descending sequences that agree on the entries of every score are equal:
    a stable descending sort has exactly one possible outcome.
  */
  lemma {:induction false} SortedUnique(t: seq<Entry>, u: seq<Entry>)
    requires SortedDesc(t) && SortedDesc(u)
    requires forall v :: WithScore(t, v) == WithScore(u, v)
    ensures t == u
    decreases |t| + |u|
  {
    if t == [] && u == [] {
    } else if t == [] {
      WithScoreHead(u);
      assert false;
    } else if u == [] {
      WithScoreHead(t);
      assert false;
    } else {
      WithScoreHead(t);
      WithScoreHead(u);
      var m, n := t[0].score, u[0].score;
      WithScoreMember(t, n, WithScore(t, n)[0]);
      WithScoreMember(u, m, WithScore(u, m)[0]);
      assert m >= n by {
        var x := WithScore(t, n)[0];
        var i :| 0 <= i < |t| && t[i] == x;
      }
      assert n >= m by {
        var x := WithScore(u, m)[0];
        var i :| 0 <= i < |u| && u[i] == x;
      }
      assert t[0] == u[0];
      forall v ensures WithScore(t[1..], v) == WithScore(u[1..], v) {
        var h := if t[0].score == v then [t[0]] else [];
        assert WithScore(t, v) == h + WithScore(t[1..], v);
        assert WithScore(u, v) == h + WithScore(u[1..], v);
        assert (h + WithScore(t[1..], v))[|h|..] == WithScore(t[1..], v);
        assert (h + WithScore(u[1..], v))[|h|..] == WithScore(u[1..], v);
      }
      SortedUnique(t[1..], u[1..]);
      assert t == [t[0]] + t[1..];
      assert u == [u[0]] + u[1..];
    }
  }

  /** Any descending sequence that keeps each score's entries in input order is `SortByScore` of the input. */
  lemma StableSortIsSortByScore(s: seq<Entry>, t: seq<Entry>)
    requires SortedDesc(t)
    requires forall v :: WithScore(t, v) == WithScore(s, v)
    ensures t == SortByScore(s)
  {
    SortByScoreSorted(s);
    forall v ensures WithScore(t, v) == WithScore(SortByScore(s), v) {
      SortByScoreStable(s, v);
    }
    SortedUnique(t, SortByScore(s));
  }
}
