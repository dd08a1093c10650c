/** Sequence facts shared by the number selector: duplicate-freedom,
    ordering, `Array.prototype.filter` with `!==`, and the numeric
    ascending sort `sort((a, b) => a - b)`. */
module SeqUtil {

  /** No value occurs twice (what a JavaScript `Set` guarantees). */
  predicate NoDuplicates<T(==)>(s: seq<T>) {
    forall i, j :: 0 <= i < j < |s| ==> s[i] != s[j]
  }

  predicate Ascending(s: seq<int>) {
    forall i, j :: 0 <= i < j < |s| ==> s[i] <= s[j]
  }

  predicate StrictlyAscending(s: seq<int>) {
    forall i, j :: 0 <= i < j < |s| ==> s[i] < s[j]
  }

  /** The tail of a duplicate-free sequence is duplicate-free and does not
      contain the head. */
  lemma NoDuplicatesTail<T>(s: seq<T>)
    requires |s| > 0 && NoDuplicates(s)
    ensures NoDuplicates(s[1..]) && s[0] !in s[1..]
  {
  }

  /** The distinct values of `s`. */
  function Elements<T>(s: seq<T>): set<T> {
    set x | x in s
  }

  /** `s.filter(n => n !== x)`: every element other than `x`, in order. */
  function Without(s: seq<int>, x: int): (r: seq<int>)
    ensures forall y :: y in r <==> y in s && y != x
    ensures x !in s ==> r == s
    ensures NoDuplicates(s) ==> NoDuplicates(r)
    ensures |r| <= |s|
  {
    if |s| == 0 then []
    else if s[0] == x then Without(s[1..], x)
    else
      assert NoDuplicates(s) ==> NoDuplicates(s[1..]) && s[0] !in s[1..] by {
        if NoDuplicates(s) {
          NoDuplicatesTail(s);
        }
      }
      [s[0]] + Without(s[1..], x)
  }

  /** In a duplicate-free sequence, filtering out the element at index `i`
      is cutting out exactly that position: the others keep their order. */
  lemma {:induction false} WithoutCutsOut(s: seq<int>, i: nat)
    requires i < |s| && NoDuplicates(s)
    ensures Without(s, s[i]) == s[..i] + s[i + 1..]
  {
    var t := s[1..];
    assert NoDuplicates(t) && s[0] !in t by {
      NoDuplicatesTail(s);
    }
    if i == 0 {
      assert Without(s, s[0]) == t;
      assert s[..0] + t == t;
    } else {
      assert Without(s, s[i]) == [s[0]] + Without(t, s[i]) by {
        assert s[0] != s[i];
      }
      assert Without(t, s[i]) == t[..i - 1] + t[i..] by {
        assert t[i - 1] == s[i];
        WithoutCutsOut(t, i - 1);
      }
      assert [s[0]] + (t[..i - 1] + t[i..]) == s[..i] + s[i + 1..] by {
        assert [s[0]] + t[..i - 1] == s[..i];
        assert t[i..] == s[i + 1..];
      }
    }
  }

  /** Filtering distributes over appending one element: an appended `x` is
      dropped and any other appended value is kept at the end. */
  lemma {:induction false} WithoutAppend(s: seq<int>, y: int, x: int)
    ensures Without(s + [y], x) == Without(s, x) + (if y == x then [] else [y])
    decreases |s|
  {
    if |s| == 0 {
      assert s + [y] == [y];
      assert [y][1..] == [];
    } else {
      assert (s + [y])[0] == s[0];
      assert (s + [y])[1..] == s[1..] + [y];
      WithoutAppend(s[1..], y, x);
    }
  }

  /** A duplicate-free sequence has as many distinct values as elements. */
  lemma {:induction false} ElementsOfNoDuplicates<T>(s: seq<T>)
    requires NoDuplicates(s)
    ensures |Elements(s)| == |s|
  {
    if |s| > 0 {
      NoDuplicatesTail(s);
      ElementsOfNoDuplicates(s[1..]);
      assert Elements(s) == {s[0]} + Elements(s[1..]) by {
        forall y ensures y in Elements(s) <==> y == s[0] || y in Elements(s[1..]) {
          if y in s && y != s[0] {
            var k :| 0 <= k < |s| && s[k] == y;
            assert s[1..][k - 1] == y;
          }
        }
      }
    }
  }

  /** A subset is no larger than its superset. */
  lemma SubsetSize<T>(a: set<T>, b: set<T>)
    requires a <= b
    ensures |a| <= |b|
  {
    assert b == a + (b - a);
  }

  /** A value no larger than the head may be put in front of an ascending
      sequence. */
  lemma ConsAscending(x: int, s: seq<int>)
    requires Ascending(s) && (|s| > 0 ==> x <= s[0])
    ensures Ascending([x] + s)
  {
    forall i, j | 0 <= i < j < |s| + 1 ensures ([x] + s)[i] <= ([x] + s)[j] {
      assert ([x] + s)[j] == s[j - 1];
      if i > 0 {
        assert ([x] + s)[i] == s[i - 1];
      }
    }
  }

  lemma AscendingTail(s: seq<int>)
    requires |s| > 0 && Ascending(s)
    ensures Ascending(s[1..]) && (|s| > 1 ==> s[0] <= s[1])
  {
    assert forall i :: 0 <= i < |s| - 1 ==> s[1..][i] == s[i + 1];
  }

  /** Places `x` in an ascending sequence. */
  function Insert(x: int, s: seq<int>): (r: seq<int>)
    requires Ascending(s)
    ensures Ascending(r)
    ensures multiset(r) == multiset(s) + multiset{x}
    ensures |r| > 0 && (r[0] == x || (|s| > 0 && r[0] == s[0]))
  {
    if |s| == 0 then [x]
    else if x <= s[0] then
      assert Ascending([x] + s) by {
        ConsAscending(x, s);
      }
      [x] + s
    else
      assert s == [s[0]] + s[1..];
      assert Ascending(s[1..]) && (|s| > 1 ==> s[0] <= s[1]) by {
        AscendingTail(s);
      }
      var rest := Insert(x, s[1..]);
      assert Ascending([s[0]] + rest) by {
        ConsAscending(s[0], rest);
      }
      [s[0]] + rest
  }

  /** `Array.prototype.sort((a, b) => a - b)`: the same values, in ascending
      numeric order. */
  function SortAscending(s: seq<int>): (r: seq<int>)
    ensures Ascending(r)
    ensures multiset(r) == multiset(s)
  {
    if |s| == 0 then []
    else
      assert s == [s[0]] + s[1..];
      Insert(s[0], SortAscending(s[1..]))
  }

  /** Duplicate-freedom is the same as every value occurring at most once. */
  lemma {:induction false} NoDuplicatesMultiset<T>(s: seq<T>)
    ensures NoDuplicates(s) <==> forall x :: multiset(s)[x] <= 1
  {
    if |s| == 0 {
    } else {
      assert s == [s[0]] + s[1..];
      NoDuplicatesMultiset(s[1..]);
      if NoDuplicates(s) {
        NoDuplicatesTail(s);
        assert multiset(s[1..])[s[0]] == 0;
      }
      if forall x :: multiset(s)[x] <= 1 {
        forall i, j | 0 <= i < j < |s| ensures s[i] != s[j] {
          RepeatedValueCount(s, i, j);
        }
      }
    }
  }

  /** A value at two positions occurs at least twice. */
  lemma RepeatedValueCount<T>(s: seq<T>, i: nat, j: nat)
    requires i < j < |s|
    ensures s[i] == s[j] ==> multiset(s)[s[i]] >= 2
  {
    assert s == s[..j] + s[j..];
    assert s[i] in multiset(s[..j]);
    assert s[j] in multiset(s[j..]);
  }

  /** Sorting a duplicate-free sequence gives a strictly ascending one with
      the same values. */
  lemma SortDistinct(s: seq<int>)
    requires NoDuplicates(s)
    ensures StrictlyAscending(SortAscending(s))
    ensures Elements(SortAscending(s)) == Elements(s)
    ensures |SortAscending(s)| == |s|
  {
    var r := SortAscending(s);
    NoDuplicatesMultiset(s);
    NoDuplicatesMultiset(r);
    assert |r| == |multiset(r)| == |multiset(s)| == |s|;
    forall y ensures y in r <==> y in s {
      assert y in r <==> y in multiset(r);
      assert y in s <==> y in multiset(s);
    }
  }
}
