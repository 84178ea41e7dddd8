/** Failure types and the finite-set facts shared by the other modules. */
module Prelude {

  datatype Option<+T> = None | Some(value: T)

  datatype Result<+T> = Ok(value: T) | Err(error: string)

  /** A subset has at most as many elements. */
  lemma {:induction false} SubsetSize<T>(small: set<T>, large: set<T>)
    requires small <= large
    ensures |small| <= |large|
  {
    if small != {} {
      var x :| x in small;
      SubsetSize(small - {x}, large - {x});
    }
  }

  /** A non-empty set of numbers has a greatest element. */
  lemma {:induction false} Greatest(s: set<nat>) returns (m: nat)
    requires s != {}
    ensures m in s && forall x :: x in s ==> x <= m
  {
    m :| m in s;
    var rest := s - {m};
    if rest != {} {
      var m' := Greatest(rest);
      assert forall x :: x in s ==> x == m || x in rest;
      if m < m' {
        m := m';
      }
    } else {
      assert s == {m};
    }
  }

  /** The first n indices. */
  function Indices(n: nat): (r: set<nat>)
    ensures |r| == n
    ensures forall i: nat :: i in r <==> i < n
  {
    if n == 0 then {} else Indices(n - 1) + {n - 1}
  }

  /** The keys a map takes to one value. */
  function Fiber(f: map<nat, nat>, value: nat): set<nat> {
    set x | x in f && f[x] == value
  }

  /** If no value is taken more than m times, there are at most m keys to a value. */
  lemma {:induction false} FiberBound(f: map<nat, nat>, m: nat)
    requires forall v :: |Fiber(f, v)| <= m
    ensures |f.Keys| <= m * |f.Values|
    decreases |f.Keys|
  {
    if f.Keys != {} {
      var x :| x in f.Keys;
      var v := f[x];
      var fiber := Fiber(f, v);
      var rest := f - fiber;
      assert f.Keys == rest.Keys + fiber;
      assert f.Values == rest.Values + {v} by {
        assert forall y :: y in f && y !in fiber ==> rest[y] == f[y];
        forall u | u in f.Values
          ensures u in rest.Values + {v}
        {
          var y :| y in f && f[y] == u;
          assert y in fiber || (y in rest && rest[y] == u);
        }
      }
      assert v !in rest.Values;
      forall u
        ensures |Fiber(rest, u)| <= m
      {
        SubsetSize(Fiber(rest, u), Fiber(f, u));
      }
      assert |rest.Keys| < |f.Keys| by {
        assert x in fiber;
      }
      FiberBound(rest, m);
      assert |f.Values| == |rest.Values| + 1;
      assert m * |f.Values| == m * |rest.Values| + m;
    }
  }
}
