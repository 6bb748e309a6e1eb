/**
 * `Array.prototype.sort()` on strings with no comparator: ascending order of the
 * strings' UTF-16 code-unit sequences.
 */
module JsOrder {

  /**
   * The first UTF-16 code unit of `c`: the code point itself inside the Basic
   * Multilingual Plane, the high surrogate (0xD800 to 0xDBFF) above it.
   */
  function FirstCodeUnit(c: char): int
  {
    if c as int < 0x1_0000 then c as int else 0xD800 + (c as int - 0x1_0000) / 0x400
  }

  /**
   * `a` comes before `b` in code-unit order. Characters with the same first code
   * unit are both outside the Basic Multilingual Plane, and their low surrogates
   * are ordered as their code points are.
   */
  predicate CharBefore(a: char, b: char)
  {
    FirstCodeUnit(a) < FirstCodeUnit(b) || (FirstCodeUnit(a) == FirstCodeUnit(b) && a < b)
  }

  /** `a <= b` in the order the default sort uses (a prefix comes first). */
  predicate StrLe(a: string, b: string)
    decreases |a|
  {
    a == [] || (b != [] && if a[0] == b[0] then StrLe(a[1..], b[1..]) else CharBefore(a[0], b[0]))
  }

  lemma CharBeforeTotal(a: char, b: char)
    requires a != b
    ensures CharBefore(a, b) != CharBefore(b, a)
  {
  }

  lemma {:induction false} StrLeReflexive(a: string)
    ensures StrLe(a, a)
    decreases |a|
  {
    if a != [] {
      StrLeReflexive(a[1..]);
    }
  }

  lemma {:induction false} StrLeTotal(a: string, b: string)
    ensures StrLe(a, b) || StrLe(b, a)
    decreases |a|
  {
    if a != [] && b != [] {
      if a[0] == b[0] {
        StrLeTotal(a[1..], b[1..]);
      } else {
        CharBeforeTotal(a[0], b[0]);
      }
    }
  }

  lemma {:induction false} StrLeAntisymmetric(a: string, b: string)
    requires StrLe(a, b) && StrLe(b, a)
    ensures a == b
    decreases |a|
  {
    if a != [] {
      if a[0] == b[0] {
        StrLeAntisymmetric(a[1..], b[1..]);
        assert a == [a[0]] + a[1..] && b == [b[0]] + b[1..];
      } else {
        CharBeforeTotal(a[0], b[0]);
      }
    }
  }

  lemma {:induction false} StrLeTransitive(a: string, b: string, c: string)
    requires StrLe(a, b) && StrLe(b, c)
    ensures StrLe(a, c)
    decreases |a|
  {
    if a != [] && a[0] == b[0] && b[0] == c[0] {
      StrLeTransitive(a[1..], b[1..], c[1..]);
    }
  }

  /** Every earlier element is at most every later one. */
  predicate Sorted(s: seq<string>)
  {
    forall i, j :: 0 <= i < j < |s| ==> StrLe(s[i], s[j])
  }

  /** `x` inserted into `s` before the first element it does not follow. */
  function Insert(x: string, s: seq<string>): seq<string>
  {
    if s == [] || StrLe(x, s[0]) then [x] + s
    else [s[0]] + Insert(x, s[1..])
  }

  lemma {:induction false} InsertPermutation(x: string, s: seq<string>)
    ensures multiset(Insert(x, s)) == multiset(s) + multiset{x}
  {
    if s != [] && !StrLe(x, s[0]) {
      InsertPermutation(x, s[1..]);
      assert s == [s[0]] + s[1..];
    }
  }

  lemma {:induction false} InsertSortedPermutation(x: string, s: seq<string>)
    requires Sorted(s)
    ensures Sorted(Insert(x, s))
    ensures multiset(Insert(x, s)) == multiset(s) + multiset{x}
  {
    InsertPermutation(x, s);
    if s == [] || StrLe(x, s[0]) {
      forall j | 0 <= j < |s| ensures StrLe(x, s[j]) {
        if j > 0 {
          StrLeTransitive(x, s[0], s[j]);
        }
      }
    } else {
      StrLeTotal(x, s[0]);
      var t := Insert(x, s[1..]);
      InsertSortedPermutation(x, s[1..]);
      forall j | 0 <= j < |t| ensures StrLe(s[0], t[j]) {
        assert t[j] in multiset(t);
        if t[j] != x {
          assert t[j] in multiset(s[1..]);
        }
      }
    }
  }

  /** `entries.sort()`: the same strings, in ascending order. */
  function SortStrings(s: seq<string>): (r: seq<string>)
    ensures Sorted(r)
    ensures multiset(r) == multiset(s)
  {
    if s == [] then []
    else
      var rest := SortStrings(s[1..]);
      InsertSortedPermutation(s[0], rest);
      assert s == [s[0]] + s[1..];
      Insert(s[0], rest)
  }

  /** Sorting a list that is already in order leaves it as it is. */
  lemma {:induction false} SortStringsOfSorted(s: seq<string>)
    requires Sorted(s)
    ensures SortStrings(s) == s
  {
    if s != [] {
      SortStringsOfSorted(s[1..]);
      assert s == [s[0]] + s[1..];
    }
  }
}
