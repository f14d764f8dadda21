/**
 Ranking of candidate offers by the key (date, distance). The allocation agent
 takes the first element of its candidates stably sorted by that key.

 `FirstMin` is the selector the engine uses: the leftmost candidate whose key
 no other candidate beats. `Sort` is a reference stable sort (insertion sort
 that places an element after every element with an equal key), and
 `SortHeadIsFirstMin` shows that the head of the sorted list is exactly the
 candidate `FirstMin` picks, so ties resolve the way a stable sort resolves
 them.
 */
module Ranking {

  /** One offer under consideration: its row in the offer table, date and distance. */
  datatype Candidate = Candidate(row: nat, date: int, dist: real)

  /** Tuple order on (date, distance): strictly earlier, or same date and strictly nearer. */
  predicate Less(a: Candidate, b: Candidate) {
    a.date < b.date || (a.date == b.date && a.dist < b.dist)
  }

  /** `k` is the leftmost candidate that no candidate strictly precedes. */
  predicate IsFirstMin(cs: seq<Candidate>, k: int) {
    && 0 <= k < |cs|
    && (forall j :: 0 <= j < |cs| ==> !Less(cs[j], cs[k]))
    && (forall j :: 0 <= j < k ==> Less(cs[k], cs[j]))
  }

  /** Index of the best candidate; ties go to the earliest position. */
  function FirstMin(cs: seq<Candidate>): (k: nat)
    requires |cs| > 0
    ensures k < |cs|
    ensures forall j :: 0 <= j < |cs| ==> !Less(cs[j], cs[k])
    ensures forall j :: 0 <= j < k ==> Less(cs[k], cs[j])
    decreases |cs|
  {
    if |cs| == 1 then 0
    else
      var k := FirstMin(cs[..|cs| - 1]);
      if Less(cs[|cs| - 1], cs[k]) then |cs| - 1 else k
  }

  /** There is only one leftmost minimum, so `FirstMin` is characterised by `IsFirstMin`. */
  lemma FirstMinCharacterised(cs: seq<Candidate>, k: int)
    requires |cs| > 0
    ensures IsFirstMin(cs, k) <==> k == FirstMin(cs)
  {
  }

  /** Sorted by key: no later element strictly precedes an earlier one. */
  predicate Sorted(t: seq<Candidate>) {
    forall i, j :: 0 <= i < j < |t| ==> !Less(t[j], t[i])
  }

  /** Inserts `x` after every element whose key does not exceed its own. */
  function Insert(t: seq<Candidate>, x: Candidate): (r: seq<Candidate>)
    ensures |r| == |t| + 1
    ensures multiset(r) == multiset(t) + multiset{x}
    ensures |t| > 0 ==> r[0] == (if Less(x, t[0]) then x else t[0])
  {
    if |t| == 0 then [x]
    else if Less(x, t[0]) then [x] + t
    else
      assert t == [t[0]] + t[1..];
      [t[0]] + Insert(t[1..], x)
  }

  /** Stable insertion sort by key. */
  function Sort(s: seq<Candidate>): (r: seq<Candidate>)
    ensures |r| == |s|
    ensures multiset(r) == multiset(s)
  {
    if |s| == 0 then []
    else
      assert s == s[..|s| - 1] + [s[|s| - 1]];
      Insert(Sort(s[..|s| - 1]), s[|s| - 1])
  }

  /** Insertion keeps a list sorted. */
  lemma {:induction false} InsertSorted(t: seq<Candidate>, x: Candidate)
    requires Sorted(t)
    ensures Sorted(Insert(t, x))
    decreases |t|
  {
    if |t| == 0 || Less(x, t[0]) {
      var r := Insert(t, x);
      if |t| > 0 {
        forall i, j | 0 <= i < j < |r|
          ensures !Less(r[j], r[i])
        {
          if i == 0 {
            assert r[j] == t[j - 1];
            assert !Less(t[j - 1], t[0]);
          } else {
            assert r[i] == t[i - 1] && r[j] == t[j - 1];
          }
        }
      }
    } else {
      var rest := Insert(t[1..], x);
      InsertSorted(t[1..], x);
      var r := Insert(t, x);
      assert r == [t[0]] + rest;
      forall i, j | 0 <= i < j < |r|
        ensures !Less(r[j], r[i])
      {
        if i == 0 {
          assert r[j] == rest[j - 1];
          assert rest[j - 1] in multiset(rest);
          assert rest[j - 1] in multiset(t[1..]) + multiset{x};
          if rest[j - 1] == x {
          } else {
            assert rest[j - 1] in multiset(t[1..]);
            var m :| 0 <= m < |t[1..]| && t[1..][m] == rest[j - 1];
            assert t[m + 1] == rest[j - 1];
          }
        } else {
          assert r[i] == rest[i - 1] && r[j] == rest[j - 1];
        }
      }
    }
  }

  /** The reference sort returns a sorted permutation of its input. */
  lemma {:induction false} SortSorted(s: seq<Candidate>)
    ensures Sorted(Sort(s))
    decreases |s|
  {
    if |s| > 0 {
      SortSorted(s[..|s| - 1]);
      InsertSorted(Sort(s[..|s| - 1]), s[|s| - 1]);
    }
  }

  /** The head of the stably sorted list is the candidate `FirstMin` picks. */
  lemma {:induction false} SortHeadIsFirstMin(s: seq<Candidate>)
    requires |s| > 0
    ensures Sort(s)[0] == s[FirstMin(s)]
    decreases |s|
  {
    if |s| > 1 {
      var p := s[..|s| - 1];
      SortHeadIsFirstMin(p);
      assert s[FirstMin(p)] == p[FirstMin(p)];
    }
  }
}
