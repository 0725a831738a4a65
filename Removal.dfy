/** Sequence operations behind the pending pool's pruning in `Blockchain.add_block`. */
module Removal {

  /** Python's `lst.remove(v)` wrapped in `try ... except ValueError`: the first element equal to
      `v` goes, and a list without `v` is left as it is. */
  function RemoveFirst<T(==)>(s: seq<T>, v: T): (r: seq<T>)
    ensures v !in s ==> r == s
    ensures v in s ==> multiset(r) == multiset(s) - multiset{v}
  {
    if s == [] then []
    else
      assert s == [s[0]] + s[1..];
      if s[0] == v then s[1..] else [s[0]] + RemoveFirst(s[1..], v)
  }

  /** `v` occurs at `k` and nowhere before it. */
  ghost predicate FirstAt<T>(s: seq<T>, v: T, k: int)
  {
    0 <= k < |s| && s[k] == v && v !in s[..k]
  }

  /** `remove` takes out the first occurrence of `v` and keeps everything else in order. */
  lemma {:induction false} RemoveFirstAt<T>(s: seq<T>, v: T)
    requires v in s
    ensures exists k :: FirstAt(s, v, k) && RemoveFirst(s, v) == s[..k] + s[k + 1..]
  {
    if s[0] == v {
      assert FirstAt(s, v, 0) && RemoveFirst(s, v) == s[..0] + s[1..];
    } else {
      var t := s[1..];
      assert s == [s[0]] + t;
      RemoveFirstAt(t, v);
      var k :| FirstAt(t, v, k) && RemoveFirst(t, v) == t[..k] + t[k + 1..];
      ShiftFirstAt(s, v, k);
      ShiftRemoval(s, v, k);
    }
  }

  /** One step of `RemoveFirstAt`: the first occurrence in the tail is the first in the list. */
  lemma ShiftFirstAt<T>(s: seq<T>, v: T, k: int)
    requires |s| > 0 && s[0] != v && FirstAt(s[1..], v, k)
    ensures FirstAt(s, v, k + 1)
  {
    assert s[..k + 1] == [s[0]] + s[1..][..k];
  }

  /** One step of `RemoveFirstAt`: removing at `k` in the tail is removing at `k + 1` in the list. */
  lemma ShiftRemoval<T>(s: seq<T>, v: T, k: int)
    requires |s| > 0 && s[0] != v && 0 <= k < |s| - 1
    requires RemoveFirst(s[1..], v) == s[1..][..k] + s[1..][k + 1..]
    ensures RemoveFirst(s, v) == s[..k + 1] + s[k + 2..]
  {
    assert s[..k + 1] == [s[0]] + s[1..][..k];
    assert s[k + 2..] == s[1..][k + 1..];
  }

  /** `s` without every element that occurs in `xs`; the kept elements stay in order. */
  function Without<T(==)>(s: seq<T>, xs: seq<T>): seq<T>
  {
    if s == [] then [] else (if s[0] in xs then [] else [s[0]]) + Without(s[1..], xs)
  }

  /** What `Without` keeps: no element of `xs`, and every other element as often as in `s`. */
  lemma {:induction false} WithoutCounts<T>(s: seq<T>, xs: seq<T>, t: T)
    ensures multiset(Without(s, xs))[t] == if t in xs then 0 else multiset(s)[t]
  {
    if s != [] {
      WithoutCounts(s[1..], xs, t);
      assert s == [s[0]] + s[1..];
    }
  }

  /** `Without` keeps exactly the elements of `s` that are not in `xs`. */
  lemma WithoutMembers<T>(s: seq<T>, xs: seq<T>, t: T)
    ensures t in Without(s, xs) <==> t in s && t !in xs
  {
  }

  /** Removing nothing is the identity. */
  lemma {:induction false} WithoutNothing<T>(s: seq<T>)
    ensures Without(s, []) == s
  {
    if s != [] {
      WithoutNothing(s[1..]);
    }
  }

  /** Removing the elements of `xs`, then every copy of `v`, removes the elements of `xs + [v]`. */
  lemma {:induction false} WithoutExtend<T>(s: seq<T>, xs: seq<T>, v: T)
    ensures Without(Without(s, xs), [v]) == Without(s, xs + [v])
  {
    if s != [] {
      WithoutExtend(s[1..], xs, v);
      var w := Without(s, xs);
      assert s[0] in xs + [v] <==> s[0] in xs || s[0] == v;
      assert s[0] in [v] <==> s[0] == v;
      if s[0] !in xs {
        assert w == [s[0]] + Without(s[1..], xs);
        assert w[1..] == Without(s[1..], xs);
      } else {
        assert w == Without(s[1..], xs);
      }
    }
  }

  /** `s` with its first `k` copies of `v` removed (all of them when there are fewer). */
  function RemoveFirstN<T(==)>(s: seq<T>, v: T, k: nat): seq<T>
  {
    if s == [] then []
    else if s[0] == v && k > 0 then RemoveFirstN(s[1..], v, k - 1)
    else [s[0]] + RemoveFirstN(s[1..], v, k)
  }

  lemma {:induction false} RemoveFirstNZero<T>(s: seq<T>, v: T)
    ensures RemoveFirstN(s, v, 0) == s
  {
    if s != [] {
      RemoveFirstNZero(s[1..], v);
    }
  }

  /** One more `remove` call takes away one more copy. */
  lemma {:induction false} RemoveFirstNStep<T>(s: seq<T>, v: T, k: nat)
    ensures RemoveFirst(RemoveFirstN(s, v, k), v) == RemoveFirstN(s, v, k + 1)
  {
    if s != [] {
      if s[0] == v && k > 0 {
        RemoveFirstNStep(s[1..], v, k - 1);
      } else if s[0] == v {
        RemoveFirstNZero(s[1..], v);
        RemoveFirstNZero(s, v);
      } else {
        RemoveFirstNStep(s[1..], v, k);
        var r := RemoveFirstN(s[1..], v, k);
        assert ([s[0]] + r)[0] == s[0];
        assert ([s[0]] + r)[1..] == r;
      }
    }
  }

  /** Asking for at least as many removals as there are copies removes every copy. */
  lemma {:induction false} RemoveFirstNAll<T>(s: seq<T>, v: T, k: nat)
    requires k >= multiset(s)[v]
    ensures RemoveFirstN(s, v, k) == Without(s, [v])
  {
    if s != [] {
      assert s == [s[0]] + s[1..];
      if s[0] == v {
        RemoveFirstNAll(s[1..], v, k - 1);
      } else {
        RemoveFirstNAll(s[1..], v, k);
      }
    }
  }
}
