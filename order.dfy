/**
 * Byte-wise ascending order on strings, as Go's `<` on strings and
 * `sort.Strings` use it, together with the sorted sequence of a finite set
 * of keys that request signing is defined over.
 *
 * Dafny strings are sequences of Unicode scalar values; comparing them
 * character by character gives the same order as comparing their UTF-8
 * encodings byte by byte, which is what Go does.
 */
module StringOrder {

  /** `a` comes no later than `b` in lexicographic order. */
  predicate Le(a: string, b: string)
  {
    |a| == 0 || (|b| != 0 && (a[0] < b[0] || (a[0] == b[0] && Le(a[1..], b[1..]))))
  }

  lemma {:induction false} LeReflexive(a: string)
    ensures Le(a, a)
  {
    if |a| != 0 {
      LeReflexive(a[1..]);
    }
  }

  lemma {:induction false} LeAntisymmetric(a: string, b: string)
    requires Le(a, b) && Le(b, a)
    ensures a == b
  {
    if |a| != 0 {
      LeAntisymmetric(a[1..], b[1..]);
      assert a == [a[0]] + a[1..];
      assert b == [b[0]] + b[1..];
    }
  }

  lemma {:induction false} LeTransitive(a: string, b: string, c: string)
    requires Le(a, b) && Le(b, c)
    ensures Le(a, c)
  {
    if |a| != 0 && a[0] == b[0] && b[0] == c[0] {
      LeTransitive(a[1..], b[1..], c[1..]);
    }
  }

  lemma {:induction false} LeTotal(a: string, b: string)
    ensures Le(a, b) || Le(b, a)
  {
    if |a| != 0 && |b| != 0 && a[0] == b[0] {
      LeTotal(a[1..], b[1..]);
    }
  }

  /** Every element is no later than every element after it. */
  ghost predicate Sorted(s: seq<string>)
  {
    forall i, j :: 0 <= i < j < |s| ==> Le(s[i], s[j])
  }

  lemma SortedCons(x: string, s: seq<string>)
    requires Sorted(s)
    requires forall y :: y in s ==> Le(x, y)
    ensures Sorted([x] + s)
  {
    var r := [x] + s;
    forall i, j | 0 <= i < j < |r| ensures Le(r[i], r[j]) {
      if i == 0 {
        assert r[j] in s;
      } else {
        assert r[i] == s[i - 1] && r[j] == s[j - 1];
      }
    }
  }

  /** A sorted sequence whose head is at least `x` only holds elements at least `x`. */
  lemma SortedBelowHead(x: string, s: seq<string>)
    requires Sorted(s) && s != [] && Le(x, s[0])
    ensures forall y :: y in s ==> Le(x, y)
  {
    forall y | y in s ensures Le(x, y) {
      var j :| 0 <= j < |s| && s[j] == y;
      if j != 0 {
        LeTransitive(x, s[0], y);
      }
    }
  }

  /** Places `x` before the first element it does not follow. */
  function Insert(x: string, s: seq<string>): seq<string>
  {
    if s == [] then [x]
    else if Le(x, s[0]) then [x] + s
    else [s[0]] + Insert(x, s[1..])
  }

  /** Inserting into a sorted sequence keeps it sorted and adds exactly `x`. */
  lemma {:induction false} InsertSorted(x: string, s: seq<string>)
    requires Sorted(s)
    ensures Sorted(Insert(x, s))
    ensures multiset(Insert(x, s)) == multiset(s) + multiset{x}
  {
    if s == [] {
    } else if Le(x, s[0]) {
      SortedBelowHead(x, s);
      SortedCons(x, s);
    } else {
      LeTotal(x, s[0]);
      SortedTail(s);
      InsertSorted(x, s[1..]);
      var rest := Insert(x, s[1..]);
      assert s == [s[0]] + s[1..];
      assert forall y :: y in rest ==> y in multiset(s[1..]) + multiset{x};
      assert forall y :: y in s[1..] ==> Le(s[0], y);
      SortedCons(s[0], rest);
    }
  }

  /** The ascending rearrangement of `s` (insertion sort). */
  function Sort(s: seq<string>): seq<string>
  {
    if s == [] then [] else Insert(s[0], Sort(s[1..]))
  }

  /** `Sort` returns a sorted permutation of its input. */
  lemma {:induction false} SortSorts(s: seq<string>)
    ensures Sorted(Sort(s))
    ensures multiset(Sort(s)) == multiset(s)
  {
    if s != [] {
      SortSorts(s[1..]);
      InsertSorted(s[0], Sort(s[1..]));
      assert s == [s[0]] + s[1..];
    }
  }

  /** The head of a sorted sequence is no later than anything in it. */
  lemma SortedHeadFirst(a: seq<string>, x: string)
    requires Sorted(a) && x in multiset(a)
    ensures Le(a[0], x)
  {
    var i :| 0 <= i < |a| && a[i] == x;
    if i == 0 {
      LeReflexive(x);
    }
  }

  lemma MultisetTail(a: seq<string>)
    requires a != []
    ensures multiset(a[1..]) == multiset(a) - multiset{a[0]}
  {
    assert a == [a[0]] + a[1..];
  }

  lemma SortedTail(a: seq<string>)
    requires Sorted(a) && a != []
    ensures Sorted(a[1..])
  {
    var t := a[1..];
    forall i, j | 0 <= i < j < |t| ensures Le(t[i], t[j]) {
      assert t[i] == a[i + 1] && t[j] == a[j + 1];
    }
  }

  /** Two sorted sequences with the same elements start with the same element. */
  lemma SortedHeadsAgree(a: seq<string>, b: seq<string>)
    requires Sorted(a) && Sorted(b) && multiset(a) == multiset(b) && a != []
    ensures b != [] && a[0] == b[0]
    ensures Sorted(a[1..]) && Sorted(b[1..]) && multiset(a[1..]) == multiset(b[1..])
  {
    assert |b| == |multiset(b)| == |multiset(a)| == |a|;
    assert a[0] in multiset(a) && b[0] in multiset(b);
    SortedHeadFirst(a, b[0]);
    SortedHeadFirst(b, a[0]);
    LeAntisymmetric(a[0], b[0]);
    MultisetTail(a);
    MultisetTail(b);
    SortedTail(a);
    SortedTail(b);
  }

  /** Two sorted sequences holding the same elements are equal: sorting has one answer. */
  lemma {:induction false} SortedUnique(a: seq<string>, b: seq<string>)
    requires Sorted(a) && Sorted(b)
    requires multiset(a) == multiset(b)
    ensures a == b
  {
    if a == [] {
      assert |b| == |multiset(b)|;
    } else {
      SortedHeadsAgree(a, b);
      SortedUnique(a[1..], b[1..]);
      assert a == [a[0]] + a[1..] && b == [b[0]] + b[1..];
    }
  }

  /** Any sequence holding each element of `keys` exactly once and nothing else. */
  ghost predicate Enumerates(ks: seq<string>, keys: set<string>)
  {
    multiset(ks) == multiset(keys)
  }

  /** Moving one key from the unvisited set to the end of the visited ones keeps the enumeration in progress. */
  lemma EnumerationStep(visited: seq<string>, remaining: set<string>, keys: set<string>, k: string)
    requires multiset(visited) + multiset(remaining) == multiset(keys) && k in remaining
    ensures multiset(visited + [k]) + multiset(remaining - {k}) == multiset(keys)
  {
    assert multiset(remaining) == multiset(remaining - {k}) + multiset{k};
  }

  /** Some enumeration of a finite set, in an unspecified order. */
  ghost function Enumeration(keys: set<string>): seq<string>
  {
    if keys == {} then [] else var k :| k in keys; [k] + Enumeration(keys - {k})
  }

  lemma {:induction false} EnumerationEnumerates(keys: set<string>)
    ensures Enumerates(Enumeration(keys), keys)
  {
    if keys != {} {
      var k :| k in keys && Enumeration(keys) == [k] + Enumeration(keys - {k});
      EnumerationEnumerates(keys - {k});
      assert multiset(keys) == multiset(keys - {k}) + multiset{k};
    }
  }

  /** The keys of a set in ascending order, each once. */
  ghost function SortedKeys(keys: set<string>): seq<string>
  {
    Sort(Enumeration(keys))
  }

  /** The ascending order of a set is sorted and holds each key once. */
  lemma SortedKeysSorts(keys: set<string>)
    ensures Sorted(SortedKeys(keys)) && Enumerates(SortedKeys(keys), keys)
  {
    SortSorts(Enumeration(keys));
    EnumerationEnumerates(keys);
  }

  /** The ascending order of a set is its only sorted enumeration. */
  lemma SortedKeysUnique(ks: seq<string>, keys: set<string>)
    requires Sorted(ks) && Enumerates(ks, keys)
    ensures ks == SortedKeys(keys)
  {
    SortedKeysSorts(keys);
    SortedUnique(ks, SortedKeys(keys));
  }

  /** `n` copies of the empty string: the zero values of a fresh Go slice. */
  function Blanks(n: nat): (r: seq<string>)
    ensures |r| == n && forall i :: 0 <= i < n ==> r[i] == ""
  {
    seq(n, _ => "")
  }

  /** A sequence whose slots from `i` on are blank holds its prefix and `|s| - i` blanks. */
  lemma BlankTail(s: seq<string>, i: nat)
    requires i <= |s| && forall j :: i <= j < |s| ==> s[j] == ""
    ensures multiset(s) == multiset(s[..i]) + multiset(Blanks(|s| - i))
  {
    assert s == s[..i] + Blanks(|s| - i);
  }

  /**
   * Sorting `n` blank strings together with the keys of a set puts the blanks
   * first and then the keys in ascending order.
   */
  lemma SortWithBlanks(s: seq<string>, keys: set<string>, n: nat)
    requires multiset(s) == multiset(keys) + multiset(Blanks(n))
    ensures Sort(s) == Blanks(n) + SortedKeys(keys)
  {
    var b, k := Blanks(n), SortedKeys(keys);
    SortedKeysSorts(keys);
    SortSorts(s);
    BlanksFirst(n, k);
    assert multiset(b + k) == multiset(b) + multiset(k);
    SortedUnique(Sort(s), b + k);
  }

  /** Blanks sort before everything: putting them in front keeps a sequence sorted. */
  lemma BlanksFirst(n: nat, k: seq<string>)
    requires Sorted(k)
    ensures Sorted(Blanks(n) + k)
  {
    var r := Blanks(n) + k;
    forall i, j | 0 <= i < j < |r| ensures Le(r[i], r[j]) {
      if i < n {
        assert r[i] == "";
      } else {
        assert r[i] == k[i - n] && r[j] == k[j - n];
      }
    }
  }

  /** Insertion into the ascending order of a set gives the ascending order of the larger set. */
  lemma SortedKeysAdd(keys: set<string>, k: string)
    requires k !in keys
    ensures SortedKeys(keys + {k}) == Insert(k, SortedKeys(keys))
  {
    var r := Insert(k, SortedKeys(keys));
    SortedKeysSorts(keys);
    InsertSorted(k, SortedKeys(keys));
    assert multiset(keys + {k}) == multiset(keys) + multiset{k};
    SortedKeysUnique(r, keys + {k});
  }

  /** Exchanges two neighbouring slots of the slice. */
  method SwapDown(a: array<string>, j: nat)
    requires 0 < j < a.Length
    modifies a
    ensures a[j - 1] == old(a[j]) && a[j] == old(a[j - 1])
    ensures forall k :: 0 <= k < a.Length && k != j - 1 && k != j ==> a[k] == old(a[k])
    ensures multiset(a[..]) == multiset(old(a[..]))
  {
    a[j - 1], a[j] := a[j], a[j - 1];
  }

  /** Moves `a[i]` left past every larger element of the sorted prefix `a[..i]`. */
  method InsertLast(a: array<string>, i: nat)
    requires i < a.Length && Sorted(a[..i])
    modifies a
    ensures Sorted(a[..i + 1])
    ensures multiset(a[..]) == multiset(old(a[..]))
  {
    var j := i;
    while j > 0 && !Le(a[j - 1], a[j])
      invariant 0 <= j <= i
      invariant multiset(a[..]) == multiset(old(a[..]))
      invariant forall x, y :: 0 <= x < y <= i && y != j ==> Le(a[x], a[y])
      invariant j < i ==> forall x :: 0 <= x < j ==> Le(a[x], a[j + 1])
    {
      LeTotal(a[j - 1], a[j]);
      SwapDown(a, j);
      j := j - 1;
    }
    forall x, y | 0 <= x < y <= i ensures Le(a[x], a[y]) {
      if y == j && j > 0 && x < j - 1 {
        LeTransitive(a[x], a[j - 1], a[y]);
      }
    }
  }

  /**
   * Sorts the slice in place, as `sort.Strings` does. The algorithm here
   * (insertion sort by adjacent swaps) is this model's own; what it shares
   * with `sort.Strings` is the result, the one sorted rearrangement of the
   * old contents.
   */
  method SortStrings(a: array<string>)
    modifies a
    ensures Sorted(a[..]) && multiset(a[..]) == multiset(old(a[..]))
    ensures a[..] == Sort(old(a[..]))
  {
    for i := 0 to a.Length
      invariant Sorted(a[..i])
      invariant multiset(a[..]) == multiset(old(a[..]))
    {
      InsertLast(a, i);
    }
    assert a[..a.Length] == a[..];
    SortSorts(old(a[..]));
    SortedUnique(a[..], Sort(old(a[..])));
  }
}
