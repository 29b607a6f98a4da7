/** The two string relations the catalog's queries rely on: contiguous
    substring containment (the title filter) and the lexicographic order on
    code points (the ordering of results by title). */
module Strings {

  /** `term` occurs in `s` starting at index `i`. */
  predicate OccursAt(term: string, s: string, i: int) {
    0 <= i && i + |term| <= |s| && s[i..i + |term|] == term
  }

  /** Case-sensitive contiguous substring test: the meaning given to the
      title filter `title LIKE '%term%'`. */
  function Contains(s: string, term: string): (r: bool)
    ensures r <==> exists i :: OccursAt(term, s, i)
    decreases |s|
  {
    if |term| <= |s| && s[..|term|] == term then
      assert OccursAt(term, s, 0);
      true
    else if |term| >= |s| then
      assert forall i :: !OccursAt(term, s, i);
      false
    else
      var r := Contains(s[1..], term);
      assert forall i :: OccursAt(term, s[1..], i) <==> OccursAt(term, s, i + 1) by {
        forall i ensures OccursAt(term, s[1..], i) <==> OccursAt(term, s, i + 1) {
          if 0 <= i && i + |term| <= |s| - 1 {
            assert s[1..][i..i + |term|] == s[i + 1..i + 1 + |term|];
          }
        }
      }
      assert !OccursAt(term, s, 0);
      assert r ==> exists i :: OccursAt(term, s, i) by {
        if r {
          var i :| OccursAt(term, s[1..], i);
          assert OccursAt(term, s, i + 1);
        }
      }
      assert (exists i :: OccursAt(term, s, i)) ==> r by {
        if exists i :: OccursAt(term, s, i) {
          var i :| OccursAt(term, s, i);
          assert i >= 1;
          assert OccursAt(term, s[1..], i - 1);
        }
      }
      r
  }

  /** The empty term occurs in every string. (An empty title filter adds no
      condition at all, so it also keeps documents without a title.) */
  lemma EmptyTermOccurs(s: string)
    ensures Contains(s, "")
  {
  }

  /** Lexicographic order on code points (`a` sorts no later than `b`); for
      UTF-8 text this agrees with a byte-wise comparison. */
  predicate LexLe(a: string, b: string) {
    |a| == 0 || (|b| != 0 && (a[0] < b[0] || (a[0] == b[0] && LexLe(a[1..], b[1..]))))
  }

  lemma {:induction false} LexLeReflexive(a: string)
    ensures LexLe(a, a)
  {
    if |a| != 0 {
      LexLeReflexive(a[1..]);
    }
  }

  lemma {:induction false} LexLeTotal(a: string, b: string)
    ensures LexLe(a, b) || LexLe(b, a)
  {
    if |a| != 0 && |b| != 0 && a[0] == b[0] {
      LexLeTotal(a[1..], b[1..]);
    }
  }

  lemma {:induction false} LexLeAntisymmetric(a: string, b: string)
    requires LexLe(a, b) && LexLe(b, a)
    ensures a == b
  {
    if |a| != 0 && |b| != 0 {
      LexLeAntisymmetric(a[1..], b[1..]);
      assert a == [a[0]] + a[1..];
      assert b == [b[0]] + b[1..];
    }
  }

  lemma {:induction false} LexLeTransitive(a: string, b: string, c: string)
    requires LexLe(a, b) && LexLe(b, c)
    ensures LexLe(a, c)
  {
    if |a| != 0 && |b| != 0 && |c| != 0 && a[0] == b[0] && b[0] == c[0] {
      LexLeTransitive(a[1..], b[1..], c[1..]);
    }
  }

  /** A term whose first character does not occur in `s` is not contained in
      it. */
  lemma FirstCharAbsent(s: string, term: string)
    requires |term| > 0 && term[0] !in s
    ensures !Contains(s, term)
  {
  }

  /** Prefixing both strings with the same text keeps their order. */
  lemma {:induction false} LexLeCommonPrefix(p: string, a: string, b: string)
    requires LexLe(a, b)
    ensures LexLe(p + a, p + b)
  {
    if |p| != 0 {
      LexLeCommonPrefix(p[1..], a, b);
      assert (p + a)[1..] == p[1..] + a;
      assert (p + b)[1..] == p[1..] + b;
    } else {
      assert p + a == a && p + b == b;
    }
  }
}
