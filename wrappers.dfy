/** Failure-compatible result types and two sequence combinators used by the
    catalog loader: an order-preserving filter (the model of a SELECT ... WHERE)
    and a map that stops at the first failure (the model of a loop that throws). */
module Wrappers {

  datatype Option<+T> = None | Some(value: T)

  datatype Result<+R, +E> = Success(value: R) | Failure(error: E) {
    predicate IsFailure() {
      Failure?
    }

    function PropagateFailure<U>(): Result<U, E>
      requires Failure?
    {
      Failure(error)
    }

    function Extract(): R
      requires Success?
    {
      value
    }
  }

  /** The elements of `s` that satisfy `p`, in their original order. */
  function Filter<T(!new)>(s: seq<T>, p: T -> bool): (r: seq<T>)
    ensures |r| <= |s|
    ensures forall x :: x in r <==> x in s && p(x)
  {
    if s == [] then []
    else if p(s[0]) then [s[0]] + Filter(s[1..], p)
    else Filter(s[1..], p)
  }

  /** Filtering with two predicates that agree everywhere gives the same sequence. */
  lemma {:induction false} FilterAgrees<T(!new)>(s: seq<T>, p: T -> bool, q: T -> bool)
    requires forall x :: p(x) == q(x)
    ensures Filter(s, p) == Filter(s, q)
    decreases |s|
  {
    if s != [] {
      FilterAgrees(s[1..], p, q);
    }
  }

  /** Filtering keeps keys apart: if no two kept elements of `s` share a key,
      no two elements of the result do. */
  lemma {:induction false} FilterKeepsKeysDistinct<T(!new), K>(s: seq<T>, p: T -> bool, key: T -> K)
    requires forall a, b :: 0 <= a < b < |s| && p(s[a]) && p(s[b]) ==> key(s[a]) != key(s[b])
    ensures forall a, b :: 0 <= a < b < |Filter(s, p)| ==> key(Filter(s, p)[a]) != key(Filter(s, p)[b])
    decreases |s|
  {
    if s != [] {
      var t := s[1..];
      assert forall a, b :: 0 <= a < b < |t| && p(t[a]) && p(t[b]) ==> key(t[a]) != key(t[b]) by {
        forall a, b | 0 <= a < b < |t| && p(t[a]) && p(t[b]) ensures key(t[a]) != key(t[b]) {
          assert t[a] == s[a + 1] && t[b] == s[b + 1];
        }
      }
      var rt := Filter(t, p);
      FilterKeepsKeysDistinct(t, p, key);
      if p(s[0]) {
        assert forall x :: x in rt ==> key(x) != key(s[0]) by {
          forall x | x in rt ensures key(x) != key(s[0]) {
            var c :| 0 <= c < |t| && t[c] == x;
            assert s[c + 1] == x && p(s[c + 1]);
          }
        }
        FilterConsKeysDistinct(s, p, key);
      }
    }
  }

  /** The step of FilterKeepsKeysDistinct where the head is kept: its key is
      new to the filtered tail, whose keys are already distinct. */
  lemma FilterConsKeysDistinct<T(!new), K>(s: seq<T>, p: T -> bool, key: T -> K)
    requires s != [] && p(s[0])
    requires forall x :: x in Filter(s[1..], p) ==> key(x) != key(s[0])
    requires forall a, b :: 0 <= a < b < |Filter(s[1..], p)| ==> key(Filter(s[1..], p)[a]) != key(Filter(s[1..], p)[b])
    ensures forall a, b :: 0 <= a < b < |Filter(s, p)| ==> key(Filter(s, p)[a]) != key(Filter(s, p)[b])
  {
    var rt := Filter(s[1..], p);
    var r := Filter(s, p);
    assert r == [s[0]] + rt;
    forall a, b | 0 <= a < b < |r| ensures key(r[a]) != key(r[b]) {
      assert r[b] == rt[b - 1] && rt[b - 1] in rt;
      if a > 0 {
        assert r[a] == rt[a - 1];
      } else {
        assert r[a] == s[0];
      }
    }
  }

  /** Applies `f` to every element of `s` from left to right; the first failure
      is the result, otherwise all the values in order. */
  function MapOrFail<A, B, E>(s: seq<A>, f: A -> Result<B, E>): (r: Result<seq<B>, E>)
    ensures r.Success? <==> forall i :: 0 <= i < |s| ==> f(s[i]).Success?
    ensures r.Success? ==> |r.value| == |s| && forall i :: 0 <= i < |s| ==> f(s[i]) == Success(r.value[i])
    ensures r.Failure? ==>
      exists i :: 0 <= i < |s| && f(s[i]) == Failure(r.error) && forall j :: 0 <= j < i ==> f(s[j]).Success?
  {
    if s == [] then Success([])
    else
      match f(s[0])
      case Failure(e) => Failure(e)
      case Success(b) =>
        match MapOrFail(s[1..], f)
        case Failure(e) =>
          assert forall j :: 0 < j <= |s[1..]| ==> s[j] == s[1..][j - 1];
          Failure(e)
        case Success(bs) => Success([b] + bs)
  }

  /** If everything before index `i` succeeds and `s[i]` fails, that failure is the result. */
  lemma MapOrFailFailsAt<A, B, E>(s: seq<A>, f: A -> Result<B, E>, i: nat)
    requires i < |s|
    requires forall j :: 0 <= j < i ==> f(s[j]).Success?
    requires f(s[i]).Failure?
    ensures MapOrFail(s, f) == Failure(f(s[i]).error)
  {
    var r := MapOrFail(s, f);
    assert r.Failure?;
    var k :| 0 <= k < |s| && f(s[k]) == Failure(r.error) && forall j :: 0 <= j < k ==> f(s[j]).Success?;
    assert k == i;
  }

  /** If every element succeeds with the value at the same index of `vs`, the result is `vs`. */
  lemma MapOrFailSucceeds<A, B, E>(s: seq<A>, f: A -> Result<B, E>, vs: seq<B>)
    requires |vs| == |s|
    requires forall i :: 0 <= i < |s| ==> f(s[i]) == Success(vs[i])
    ensures MapOrFail(s, f) == Success(vs)
  {
    var r := MapOrFail(s, f);
    assert r.Success?;
    assert r.value == vs;
  }
}
