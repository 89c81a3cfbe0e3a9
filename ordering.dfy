/** Python's ordering of strings and of (string, string) pairs, and `sorted` on a list of
    pairs, as the cache writer uses them. */
module Ordering {

  /** Python's `a < b` on strings: code point by code point, a proper prefix first. */
  predicate Below(a: string, b: string)
    decreases |a|
  {
    if a == [] then b != []
    else b != [] && (a[0] < b[0] || (a[0] == b[0] && Below(a[1..], b[1..])))
  }

  lemma {:induction false} BelowIrreflexive(a: string)
    ensures !Below(a, a)
    decreases |a|
  {
    if a != [] {
      BelowIrreflexive(a[1..]);
    }
  }

  lemma {:induction false} BelowTransitive(a: string, b: string, c: string)
    requires Below(a, b) && Below(b, c)
    ensures Below(a, c)
    decreases |a|
  {
    if a != [] && a[0] == b[0] && b[0] == c[0] {
      BelowTransitive(a[1..], b[1..], c[1..]);
    }
  }

  /** Two different strings are ordered one way or the other. */
  lemma {:induction false} BelowTotal(a: string, b: string)
    requires a != b
    ensures Below(a, b) || Below(b, a)
    decreases |a|
  {
    if a != [] && b != [] && a[0] == b[0] {
      assert a == [a[0]] + a[1..] && b == [b[0]] + b[1..];
      BelowTotal(a[1..], b[1..]);
    }
  }

  lemma BelowAsymmetric(a: string, b: string)
    requires Below(a, b)
    ensures !Below(b, a)
  {
    if Below(b, a) {
      BelowTransitive(a, b, a);
      BelowIrreflexive(a);
    }
  }

  /** Python's `p <= q` on pairs of strings: by first component, then by second. */
  predicate PairAtMost(p: (string, string), q: (string, string))
  {
    Below(p.0, q.0) || (p.0 == q.0 && !Below(q.1, p.1))
  }

  lemma PairTotal(p: (string, string), q: (string, string))
    ensures PairAtMost(p, q) || PairAtMost(q, p)
  {
    if p.0 != q.0 {
      BelowTotal(p.0, q.0);
    } else if Below(q.1, p.1) {
      BelowAsymmetric(q.1, p.1);
    }
  }

  lemma PairTransitive(p: (string, string), q: (string, string), r: (string, string))
    requires PairAtMost(p, q) && PairAtMost(q, r)
    ensures PairAtMost(p, r)
  {
    if Below(p.0, q.0) && Below(q.0, r.0) {
      BelowTransitive(p.0, q.0, r.0);
    } else if p.0 == q.0 && q.0 == r.0 && Below(r.1, p.1) {
      if p.1 == q.1 {
      } else {
        BelowTotal(p.1, q.1);
        if Below(p.1, q.1) {
          BelowTransitive(r.1, p.1, q.1);
        } else {
          BelowAsymmetric(q.1, p.1);
        }
      }
    }
  }

  /** Ordered pairs with different first components have ordered first components. */
  lemma PairFirstBelow(p: (string, string), q: (string, string))
    requires PairAtMost(p, q) && p.0 != q.0
    ensures Below(p.0, q.0)
  {
  }

  /** Each pair is at most every later one. */
  predicate Ascending(s: seq<(string, string)>)
  {
    forall i, j :: 0 <= i < j < |s| ==> PairAtMost(s[i], s[j])
  }

  /** x placed before the first pair of s above it. */
  function Insert(x: (string, string), s: seq<(string, string)>): seq<(string, string)>
  {
    if s == [] then [x]
    else if PairAtMost(x, s[0]) then [x] + s
    else [s[0]] + Insert(x, s[1..])
  }

  /** A pair at most every pair of an ascending list can head it. */
  lemma AscendingCons(a: (string, string), t: seq<(string, string)>)
    requires Ascending(t) && forall y :: y in multiset(t) ==> PairAtMost(a, y)
    ensures Ascending([a] + t)
  {
    forall i, j | 0 <= i < j < |[a] + t| ensures PairAtMost(([a] + t)[i], ([a] + t)[j]) {
      assert t[j - 1] in multiset(t);
    }
  }

  /** Inserting into an ascending list keeps it ascending and adds exactly x. */
  lemma {:induction false} InsertAscending(x: (string, string), s: seq<(string, string)>)
    requires Ascending(s)
    ensures Ascending(Insert(x, s)) && multiset(Insert(x, s)) == multiset(s) + multiset{x}
  {
    if s == [] {
    } else if PairAtMost(x, s[0]) {
      forall y | y in multiset(s) ensures PairAtMost(x, y) {
        var j :| 0 <= j < |s| && s[j] == y;
        if j > 0 {
          PairTransitive(x, s[0], s[j]);
        }
      }
      AscendingCons(x, s);
    } else {
      PairTotal(x, s[0]);
      var t := s[1..];
      assert s == [s[0]] + t;
      assert Ascending(t);
      InsertAscending(x, t);
      forall y | y in multiset(Insert(x, t)) ensures PairAtMost(s[0], y) {
        if y != x {
          var j :| 0 <= j < |t| && t[j] == y;
          assert s[j + 1] == y;
        }
      }
      AscendingCons(s[0], Insert(x, t));
    }
  }

  /** Python's `sorted` on a list of pairs: the same pairs, in ascending order. */
  function Sorted(s: seq<(string, string)>): (r: seq<(string, string)>)
    ensures Ascending(r) && multiset(r) == multiset(s)
  {
    if s == [] then []
    else
      var front := Sorted(s[..|s| - 1]);
      InsertAscending(s[|s| - 1], front);
      assert s == s[..|s| - 1] + [s[|s| - 1]];
      Insert(s[|s| - 1], front)
  }

  /** The first components of a list of pairs. */
  function Firsts<A, B>(s: seq<(A, B)>): (r: seq<A>)
    ensures |r| == |s| && forall i :: 0 <= i < |s| ==> r[i] == s[i].0
  {
    seq(|s|, i requires 0 <= i < |s| => s[i].0)
  }

  lemma FirstsCons<A, B>(s: seq<(A, B)>)
    requires s != []
    ensures Firsts(s) == [s[0].0] + Firsts(s[1..])
  {
  }

  /** The second components of a list of pairs. */
  function Seconds<A, B>(s: seq<(A, B)>): (r: seq<B>)
    ensures |r| == |s| && forall i :: 0 <= i < |s| ==> r[i] == s[i].1
  {
    seq(|s|, i requires 0 <= i < |s| => s[i].1)
  }

  /** Python's `zip(a, b)`: pairs up to the shorter length. */
  function Zip(a: seq<string>, b: seq<string>): (r: seq<(string, string)>)
    ensures |r| == if |a| <= |b| then |a| else |b|
    ensures forall i :: 0 <= i < |r| ==> r[i] == (a[i], b[i])
  {
    var n := if |a| <= |b| then |a| else |b|;
    seq(n, i requires 0 <= i < n => (a[i], b[i]))
  }
}
