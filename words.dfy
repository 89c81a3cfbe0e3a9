/** The solver's globals: the word length, the alphabet, and letter counting over words. */
module Words {

  /** Length of every word the solver handles (`word_length`). */
  const L: nat := 5

  /** The alphabet (`letters`). */
  const Letters: string := "abcdefghijklmnopqrstuvwxyz"

  /** A letter of the alphabet (LettersAreAtoZ shows these are the characters of Letters). */
  predicate IsLetter(c: char)
  {
    'a' <= c <= 'z'
  }

  /** The alphabet as a set of characters. */
  const LetterSet: set<char> := set c: char | IsLetter(c)

  type Word = string

  datatype Option<T> = None | Some(value: T)

  /** A word the indices can hold: L characters, each a lower-case letter. */
  predicate IsWord(w: string)
  {
    |w| == L && forall i :: 0 <= i < |w| ==> IsLetter(w[i])
  }

  /** Every member of ws is a word. */
  predicate AllWords(ws: set<string>)
  {
    forall w :: w in ws ==> IsWord(w)
  }

  /** Number of occurrences of c among the first n characters of s. */
  function CountTo(s: string, c: char, n: nat): nat
    requires n <= |s|
  {
    if n == 0 then 0 else CountTo(s, c, n - 1) + (if s[n - 1] == c then 1 else 0)
  }

  /** Python's `s.count(c)` for a single character c. */
  function Count(s: string, c: char): nat
  {
    CountTo(s, c, |s|)
  }

  lemma {:induction false} CountToBounds(s: string, c: char, n: nat)
    requires n <= |s|
    ensures CountTo(s, c, n) <= n
    ensures CountTo(s, c, n) == 0 <==> forall j :: 0 <= j < n ==> s[j] != c
  {
    if n > 0 {
      CountToBounds(s, c, n - 1);
    }
  }

  /** A character occurs in s exactly when its count is positive, and never more than |s| times. */
  lemma CountBounds(s: string, c: char)
    ensures Count(s, c) <= |s|
    ensures Count(s, c) == 0 <==> c !in s
  {
    CountToBounds(s, c, |s|);
  }

  /** Every character of the alphabet string is a lower-case letter. */
  lemma LettersInRange(i: nat)
    requires i < |Letters|
    ensures IsLetter(Letters[i])
  {
  }

  /** The alphabet is exactly the characters 'a' to 'z'. */
  lemma LettersAreAtoZ(c: char)
    ensures c in Letters <==> IsLetter(c)
  {
    if IsLetter(c) {
      assert Letters[(c as int) - ('a' as int)] == c;
    }
    if c in Letters {
      var i :| 0 <= i < |Letters| && Letters[i] == c;
      LettersInRange(i);
    }
  }

  /** `all(c in letters for c in w)`: every character of w is in the alphabet string. */
  function InAlphabet(w: string): (b: bool)
    ensures b <==> forall i :: 0 <= i < |w| ==> IsLetter(w[i])
  {
    if w == [] then true
    else
      LettersAreAtoZ(w[0]);
      assert forall i :: 0 < i < |w| ==> w[i] == w[1..][i - 1];
      w[0] in Letters && InAlphabet(w[1..])
  }

  /** Every character of every string in ws is a letter of the alphabet. */
  predicate AllInAlphabet(ws: seq<string>)
  {
    forall w, i :: w in ws && 0 <= i < |w| ==> IsLetter(w[i])
  }

  /** The set of elements of a sequence (Python's `set(list)`). */
  function Elements<T>(s: seq<T>): set<T>
  {
    set x | x in s
  }

  /** No element occurs twice in s. */
  predicate Distinct<T(==)>(s: seq<T>)
  {
    forall i, j :: 0 <= i < j < |s| ==> s[i] != s[j]
  }

  /** Appending a new element keeps a sequence free of repeats. */
  lemma DistinctAppend<T>(s: seq<T>, x: T)
    requires Distinct(s) && x !in s
    ensures Distinct(s + [x]) && Elements(s + [x]) == Elements(s) + {x}
  {
    forall i, j | 0 <= i < j < |s + [x]| ensures (s + [x])[i] != (s + [x])[j] {
      if j == |s| {
        assert (s + [x])[i] == s[i];
      } else {
        assert (s + [x])[i] == s[i] && (s + [x])[j] == s[j];
      }
    }
  }

  /** Converting a list to a set keeps its length exactly when the list has no duplicates
      (the test `len(set(xs)) != len(xs)` the validators use). */
  lemma {:induction false} ElementsSize<T>(s: seq<T>)
    ensures |Elements(s)| <= |s|
    ensures |Elements(s)| == |s| <==> Distinct(s)
  {
    if s != [] {
      var t := s[..|s| - 1];
      var x := s[|s| - 1];
      ElementsSize(t);
      assert s == t + [x];
      assert Elements(s) == Elements(t) + {x};
      if x in t {
        assert Elements(s) == Elements(t);
        var k :| 0 <= k < |t| && t[k] == x;
        assert s[k] == s[|s| - 1];
      } else {
        assert |Elements(s)| == |Elements(t)| + 1;
        if Distinct(t) {
          forall i, j | 0 <= i < j < |s| ensures s[i] != s[j] {
            if j < |s| - 1 {
              assert s[i] == t[i] && s[j] == t[j];
            } else {
              assert s[i] == t[i];
            }
          }
        }
        if Distinct(s) {
          forall i, j | 0 <= i < j < |t| ensures t[i] != t[j] {
            assert s[i] == t[i] && s[j] == t[j];
          }
        }
      }
    }
  }

  /** The alphabet has at most 26 letters. */
  lemma LetterSetSize()
    ensures |LetterSet| <= 26
  {
    ElementsSize(Letters);
    forall c ensures c in LetterSet <==> c in Elements(Letters) {
      LettersAreAtoZ(c);
    }
    assert LetterSet == Elements(Letters);
  }

  /** A subset as large as its superset is the superset. */
  lemma SubsetOfSameSize<T>(s: set<T>, t: set<T>)
    requires s <= t && |t| <= |s|
    ensures s == t
  {
    assert |t - s| == |t| - |s|;
  }
}
