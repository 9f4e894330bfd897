/** Small helper datatypes and sequence functions shared by the other modules. */
module Wrappers {

  /** A value that may be absent (TypeScript's `T | undefined`). */
  datatype Option<+T> = None | Some(value: T)

  /** The index of the first occurrence of `x` in `s`, or -1 (JavaScript's `Array.prototype.indexOf`). */
  function IndexOf<T(==)>(s: seq<T>, x: T): (i: int)
    ensures -1 <= i < |s|
    ensures i == -1 <==> x !in s
    ensures 0 <= i ==> s[i] == x && x !in s[..i]
  {
    if |s| == 0 then -1
    else if s[0] == x then 0
    else
      var j := IndexOf(s[1..], x);
      if j == -1 then -1 else j + 1
  }

  /** `s` with the element at index `i` taken out (`splice(i, 1)` for an index in range). */
  function RemoveAt<T>(s: seq<T>, i: nat): (r: seq<T>)
    requires i < |s|
    ensures |r| == |s| - 1
    ensures forall k :: 0 <= k < i ==> r[k] == s[k]
    ensures forall k :: i <= k < |r| ==> r[k] == s[k + 1]
  {
    s[..i] + s[i + 1..]
  }

  /** No element occurs twice. */
  predicate Distinct<T(==)>(s: seq<T>) {
    forall i, j :: 0 <= i < j < |s| ==> s[i] != s[j]
  }

  /** Splitting off the last element of a distinct sequence, and adding one it lacks. */
  lemma DistinctSnoc<T>(s: seq<T>, x: T)
    ensures Distinct(s + [x]) <==> Distinct(s) && x !in s
  {
    var t := s + [x];
    assert t[..|s|] == s;
    if Distinct(t) {
      forall j | 0 <= j < |s| ensures s[j] != x { assert t[j] != t[|s|]; }
    }
    if Distinct(s) && x !in s {
      forall i, j | 0 <= i < j < |t| ensures t[i] != t[j] {
        if j < |s| { assert t[i] == s[i] && t[j] == s[j]; }
      }
    }
  }

  /** Taking an element out keeps every other element and loses no distinctness. */
  lemma {:induction false} RemoveAtKeeps<T>(s: seq<T>, i: nat)
    requires i < |s|
    ensures forall x :: x in RemoveAt(s, i) ==> x in s
    ensures Distinct(s) ==> Distinct(RemoveAt(s, i)) && s[i] !in RemoveAt(s, i)
  {
    var r := RemoveAt(s, i);
    forall x | x in r ensures x in s {
      var j :| 0 <= j < |r| && r[j] == x;
      if j < i { assert x == s[j]; } else { assert x == s[j + 1]; }
    }
    if Distinct(s) {
      forall j, k | 0 <= j < k < |r| ensures r[j] != r[k] {
        var j' := if j < i then j else j + 1;
        var k' := if k < i then k else k + 1;
        assert r[j] == s[j'] && r[k] == s[k'];
      }
      forall j | 0 <= j < |r| ensures r[j] != s[i] {
        if j < i { assert r[j] == s[j]; } else { assert r[j] == s[j + 1]; }
      }
    }
  }

  /** `splice(indexOf(x), 1)` on a distinct sequence holding `x` removes `x` and nothing else. */
  lemma {:induction false} RemovedExactly<T>(s: seq<T>, x: T)
    requires Distinct(s) && x in s
    ensures forall y :: y in RemoveAt(s, IndexOf(s, x)) <==> y in s && y != x
  {
    var i := IndexOf(s, x);
    var r := RemoveAt(s, i);
    RemoveAtKeeps(s, i);
    forall y | y in s && y != x ensures y in r {
      var j :| 0 <= j < |s| && s[j] == y;
      if j < i { assert r[j] == y; } else { assert r[j - 1] == y; }
    }
  }

  /** `s.splice(i, 1)` for an index `i` that `indexOf` returned: an index in range takes
      that element out, while -1 counts from the end and so takes out the last element;
      an empty sequence stays empty. */
  function SpliceOne<T>(s: seq<T>, i: int): (r: seq<T>)
    requires -1 <= i < |s|
    ensures |r| == if s == [] then 0 else |s| - 1
    ensures forall k :: 0 <= k < |r| ==> r[k] == s[if 0 <= i <= k then k + 1 else k]
  {
    if s == [] then [] else RemoveAt(s, if i == -1 then |s| - 1 else i)
  }

  /** `splice(indexOf(x), 1)` with `x` missing from a non-empty distinct sequence takes out
      the last element instead, and keeps every other one. */
  lemma {:induction false} SpliceMissing<T>(s: seq<T>, x: T)
    requires Distinct(s) && x !in s && s != []
    ensures forall y :: y in SpliceOne(s, IndexOf(s, x)) <==> y in s && y != s[|s| - 1]
  {
    RemovedExactly(s, s[|s| - 1]);
  }

  /** A sequence that agrees with `a` and then with `c`, element by element, is `a + c`. */
  lemma Concatenation<T>(s: seq<T>, a: seq<T>, c: seq<T>)
    requires |s| == |a| + |c|
    requires forall i :: 0 <= i < |a| ==> s[i] == a[i]
    requires forall i :: 0 <= i < |c| ==> s[|a| + i] == c[i]
    ensures s == a + c
  {
    forall i | 0 <= i < |s| ensures s[i] == (a + c)[i] {
      if i >= |a| { assert s[|a| + (i - |a|)] == c[i - |a|]; }
    }
  }

  /** Replacing element `i` of `f[..i] + m[i..]` by `f[i]` moves the boundary one step. */
  lemma BoundaryStep<T>(f: seq<T>, m: seq<T>, i: nat)
    requires |f| == |m| && i < |m|
    ensures (f[..i] + m[i..])[i := f[i]] == f[..i + 1] + m[i + 1..]
  {
    var lhs := (f[..i] + m[i..])[i := f[i]];
    var rhs := f[..i + 1] + m[i + 1..];
    assert |lhs| == |rhs|;
    forall k | 0 <= k < |lhs| ensures lhs[k] == rhs[k] {
      if k < i { assert lhs[k] == f[k]; } else if k > i { assert lhs[k] == m[k]; }
    }
  }

  /** Extending a prefix of `b` by one element, after `a`. */
  lemma PrefixSnoc<T>(a: seq<T>, b: seq<T>, k: nat)
    requires k < |b|
    ensures a + b[..k + 1] == (a + b[..k]) + [b[k]]
  {
    assert b[..k + 1] == b[..k] + [b[k]];
  }
}
