/** The JavaScript array operations the deck screen relies on (`includes`,
    `indexOf`, `splice(i, 1)`, `push`), stated over Dafny sequences, with the
    facts about distinct elements that the filter state machine needs. */
module ArrayOps {

  /** No element occurs twice in `s`. */
  predicate NoDup<T(==)>(s: seq<T>) {
    forall i, j :: 0 <= i < j < |s| ==> s[i] != s[j]
  }

  /** The set of elements of `s`. */
  function Elems<T>(s: seq<T>): set<T> {
    set x | x in s
  }

  /** `s.indexOf(x)`: the position of the first occurrence of `x`, or -1. */
  function IndexOf<T(==)>(s: seq<T>, x: T): (i: int)
    ensures -1 <= i < |s|
    ensures i == -1 <==> x !in s
    ensures 0 <= i ==> s[i] == x && x !in s[..i]
  {
    if s == [] then -1
    else if s[0] == x then 0
    else
      var j := IndexOf(s[1..], x);
      if j == -1 then -1
      else
        assert s[..j + 1] == [s[0]] + s[1..][..j];
        j + 1
  }

  /** `s.splice(i, 1)` applied to a copy of `s`: the element at position `i`
      is dropped and every other element keeps its relative order. */
  function RemoveAt<T>(s: seq<T>, i: nat): (r: seq<T>)
    requires i < |s|
    ensures |r| == |s| - 1
    ensures forall k :: 0 <= k < i ==> r[k] == s[k]
    ensures forall k :: i <= k < |r| ==> r[k] == s[k + 1]
    ensures multiset(r) == multiset(s) - multiset{s[i]}
  {
    assert s == s[..i] + [s[i]] + s[i + 1..];
    s[..i] + s[i + 1..]
  }

  /** `a` is obtained from `b` by deleting elements: `a` is a subsequence of `b`. */
  predicate IsSubsequence<T(==)>(a: seq<T>, b: seq<T>)
    decreases |b|
  {
    a == [] || (b != [] && ((a[0] == b[0] && IsSubsequence(a[1..], b[1..])) || IsSubsequence(a, b[1..])))
  }

  /** In a sequence without duplicates every element occurs exactly once. */
  lemma {:induction false} NoDupMultiplicity<T>(s: seq<T>, x: T)
    requires NoDup(s)
    ensures multiset(s)[x] == if x in s then 1 else 0
  {
    if s != [] {
      assert s == [s[0]] + s[1..];
      assert NoDup(s[1..]) by {
        forall i, j | 0 <= i < j < |s[1..]| ensures s[1..][i] != s[1..][j] {
          assert s[1..][i] == s[i + 1] && s[1..][j] == s[j + 1];
        }
      }
      NoDupMultiplicity(s[1..], x);
      assert s[0] !in s[1..] by {
        forall k | 0 <= k < |s[1..]| ensures s[1..][k] != s[0] {
          assert s[1..][k] == s[k + 1];
        }
      }
    }
  }

  /** `|Elems(s)|` never exceeds `|s|`, and reaches it exactly when `s`
      has no duplicates. */
  lemma {:induction false} ElemsCardinality<T>(s: seq<T>)
    ensures |Elems(s)| <= |s|
    ensures |Elems(s)| == |s| <==> NoDup(s)
  {
    if s != [] {
      var tail := s[1..];
      ElemsCardinality(tail);
      assert s == [s[0]] + tail;
      assert Elems(s) == {s[0]} + Elems(tail);
      if s[0] in tail {
        assert Elems(s) == Elems(tail);
        var k :| 0 <= k < |tail| && tail[k] == s[0];
        assert s[0] == s[k + 1];
        assert !NoDup(s);
      } else {
        assert s[0] !in Elems(tail);
        assert |Elems(s)| == |Elems(tail)| + 1;
        assert NoDup(s) <==> NoDup(tail) by {
          if NoDup(s) {
            forall i, j | 0 <= i < j < |tail| ensures tail[i] != tail[j] {
              assert tail[i] == s[i + 1] && tail[j] == s[j + 1];
            }
          }
          if NoDup(tail) {
            forall i, j | 0 <= i < j < |s| ensures s[i] != s[j] {
              if i == 0 {
                assert s[j] == tail[j - 1];
              } else {
                assert s[i] == tail[i - 1] && s[j] == tail[j - 1];
              }
            }
          }
        }
      }
    }
  }

  /** A subset as large as its superset is the whole superset. */
  lemma SubsetOfEqualSize<T>(a: set<T>, b: set<T>)
    requires a <= b && |a| == |b|
    ensures a == b
  {
    assert a + b == b;
    assert a * b == a;
    assert a - b == {};
    assert |b - a| == 0;
  }

  /** A subset is at most as large as its superset. */
  lemma SubsetCardinality<T>(a: set<T>, b: set<T>)
    requires a <= b
    ensures |a| <= |b|
  {
    assert b == a + (b - a);
    assert a * (b - a) == {};
  }

  /** Removing the only occurrence of an element from a duplicate-free
      sequence keeps it duplicate-free and takes exactly that element away. */
  lemma NoDupRemoveAt<T>(s: seq<T>, i: nat)
    requires NoDup(s) && i < |s|
    ensures NoDup(RemoveAt(s, i))
    ensures Elems(RemoveAt(s, i)) == Elems(s) - {s[i]}
  {
    var r := RemoveAt(s, i);
    forall a, b | 0 <= a < b < |r| ensures r[a] != r[b] {
      var a' := if a < i then a else a + 1;
      var b' := if b < i then b else b + 1;
      assert r[a] == s[a'] && r[b] == s[b'];
    }
    forall x ensures x in r <==> x in s && x != s[i] {
      NoDupMultiplicity(s, x);
      NoDupMultiplicity(r, x);
    }
  }

  /** Pushing an absent element keeps a sequence duplicate-free. */
  lemma NoDupPush<T>(s: seq<T>, x: T)
    requires NoDup(s) && x !in s
    ensures NoDup(s + [x])
    ensures Elems(s + [x]) == Elems(s) + {x}
  {
    var r := s + [x];
    forall a, b | 0 <= a < b < |r| ensures r[a] != r[b] {
      if b == |s| {
        assert r[a] == s[a];
      } else {
        assert r[a] == s[a] && r[b] == s[b];
      }
    }
  }
}
