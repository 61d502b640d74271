/** The list operations of the admin page: `Array.prototype.filter` with an
    `includes` test, and the two forms of `splice` used by drag and drop. */
module Sequences {
  import opened Backend

  /** No name occurs twice. */
  predicate NoDup<T(==)>(s: seq<T>) {
    forall i, j :: 0 <= i < j < |s| ==> s[i] != s[j]
  }

  /** `t` can be obtained from `s` by deleting elements: `t` keeps the
      relative order it has in `s`. */
  predicate IsSubseq<T(==)>(t: seq<T>, s: seq<T>)
    decreases |s|
  {
    if t == [] then true
    else if s == [] then false
    else if t[0] == s[0] then IsSubseq(t[1..], s[1..])
    else IsSubseq(t, s[1..])
  }

  /** `s.filter(x => pool.includes(x))` */
  function Retain<T(==,!new)>(s: seq<T>, pool: seq<T>): (r: seq<T>)
    ensures forall x :: x in r <==> x in s && x in pool
    ensures |r| <= |s|
  {
    if s == [] then []
    else if s[0] in pool then [s[0]] + Retain(s[1..], pool)
    else Retain(s[1..], pool)
  }

  /** `s.filter(x => !pool.includes(x))` */
  function Exclude<T(==,!new)>(s: seq<T>, pool: seq<T>): (r: seq<T>)
    ensures forall x :: x in r <==> x in s && x !in pool
    ensures |r| <= |s|
  {
    if s == [] then []
    else if s[0] !in pool then [s[0]] + Exclude(s[1..], pool)
    else Exclude(s[1..], pool)
  }

  lemma {:induction false} SubseqMembers<T>(t: seq<T>, s: seq<T>)
    requires IsSubseq(t, s)
    ensures forall x :: x in t ==> x in s
    decreases |s|
  {
    if t != [] {
      if t[0] == s[0] {
        SubseqMembers(t[1..], s[1..]);
        assert t == [t[0]] + t[1..];
      } else {
        SubseqMembers(t, s[1..]);
      }
    }
  }

  /** A subsequence of a duplicate-free list is duplicate-free. */
  lemma {:induction false} SubseqNoDup<T>(t: seq<T>, s: seq<T>)
    requires IsSubseq(t, s) && NoDup(s)
    ensures NoDup(t)
    decreases |s|
  {
    if t != [] {
      assert NoDup(s[1..]) by {
        forall i, j | 0 <= i < j < |s[1..]| ensures s[1..][i] != s[1..][j] {
          assert s[1..][i] == s[i + 1] && s[1..][j] == s[j + 1];
        }
      }
      if t[0] == s[0] {
        SubseqNoDup(t[1..], s[1..]);
        SubseqMembers(t[1..], s[1..]);
        assert s[0] !in s[1..] by {
          forall k | 0 <= k < |s[1..]| ensures s[1..][k] != s[0] {
            assert s[1..][k] == s[k + 1];
          }
        }
        forall i, j | 0 <= i < j < |t| ensures t[i] != t[j] {
          if i == 0 {
            assert t[j] == t[1..][j - 1];
            assert t[j] in s[1..];
          } else {
            assert t[i] == t[1..][i - 1] && t[j] == t[1..][j - 1];
          }
        }
      } else {
        SubseqNoDup(t, s[1..]);
      }
    }
  }

  /** In a duplicate-free list every member occurs exactly once. */
  lemma {:induction false} NoDupCount<T>(s: seq<T>, x: T)
    requires NoDup(s)
    ensures multiset(s)[x] == if x in s then 1 else 0
  {
    if s != [] {
      assert NoDup(s[1..]) by {
        forall i, j | 0 <= i < j < |s[1..]| ensures s[1..][i] != s[1..][j] {
          assert s[1..][i] == s[i + 1] && s[1..][j] == s[j + 1];
        }
      }
      NoDupCount(s[1..], x);
      assert s == [s[0]] + s[1..];
      if x == s[0] {
        assert x !in s[1..] by {
          forall k | 0 <= k < |s[1..]| ensures s[1..][k] != s[0] {
            assert s[1..][k] == s[k + 1];
          }
        }
      }
    }
  }

  /** Filtering keeps the survivors in their original relative order. */
  lemma {:induction false} RetainSubseq<T(!new)>(s: seq<T>, pool: seq<T>)
    ensures IsSubseq(Retain(s, pool), s)
  {
    if s != [] {
      RetainSubseq(s[1..], pool);
      if s[0] !in pool {
        var t := Retain(s[1..], pool);
        assert t != [] ==> t[0] in t && t[0] != s[0];
      }
    }
  }

  lemma {:induction false} ExcludeSubseq<T(!new)>(s: seq<T>, pool: seq<T>)
    ensures IsSubseq(Exclude(s, pool), s)
  {
    if s != [] {
      ExcludeSubseq(s[1..], pool);
      if s[0] in pool {
        var t := Exclude(s[1..], pool);
        assert t != [] ==> t[0] in t && t[0] != s[0];
      }
    }
  }

  /** Retain keeps every copy of a pooled name and no copy of any other. */
  lemma {:induction false} RetainCount<T(!new)>(s: seq<T>, pool: seq<T>, x: T)
    ensures multiset(Retain(s, pool))[x] == if x in pool then multiset(s)[x] else 0
  {
    if s != [] {
      RetainCount(s[1..], pool, x);
      assert s == [s[0]] + s[1..];
    }
  }

  /** Exclude keeps every copy of an unpooled name and no copy of any other. */
  lemma {:induction false} ExcludeCount<T(!new)>(s: seq<T>, pool: seq<T>, x: T)
    ensures multiset(Exclude(s, pool))[x] == if x in pool then 0 else multiset(s)[x]
  {
    if s != [] {
      ExcludeCount(s[1..], pool, x);
      assert s == [s[0]] + s[1..];
    }
  }

  /** Excluding nothing returns the list unchanged. */
  lemma {:induction false} ExcludeNothing<T(!new)>(s: seq<T>)
    ensures Exclude(s, []) == s
  {
    if s != [] {
      ExcludeNothing(s[1..]);
      assert s == [s[0]] + s[1..];
    }
  }

  /** Retaining against a pool that holds every element returns the list unchanged. */
  lemma {:induction false} RetainEverything<T(!new)>(s: seq<T>, pool: seq<T>)
    requires forall x :: x in s ==> x in pool
    ensures Retain(s, pool) == s
  {
    if s != [] {
      RetainEverything(s[1..], pool);
      assert s == [s[0]] + s[1..];
    }
  }

  /** Excluding a pool that holds every element leaves nothing. */
  lemma {:induction false} ExcludeEverything<T(!new)>(s: seq<T>, pool: seq<T>)
    requires forall x :: x in s ==> x in pool
    ensures Exclude(s, pool) == []
  {
    if s != [] {
      ExcludeEverything(s[1..], pool);
    }
  }

  /** Where `splice` starts on a list of length `n` when given `start`
      (`None` for `NaN`): `NaN` counts as 0, a negative start counts back
      from the end (stopping at 0), and a start past the end is the end. */
  function SpliceStart(start: Option<int>, n: nat): (i: nat)
    ensures i <= n
    ensures start.None? ==> i == 0
    ensures start.Some? && 0 <= start.value <= n ==> i == start.value
    ensures start.Some? && n < start.value ==> i == n
    ensures start.Some? && start.value < 0 && 0 <= n + start.value ==> i == n + start.value
    ensures start.Some? && n + start.value < 0 ==> i == 0
  {
    match start
    case None => 0
    case Some(d) =>
      if d < 0 then (if n + d < 0 then 0 else n + d)
      else if d > n then n
      else d
  }

  /** `s.splice(i, 1)`: the list left behind once the element at `i` is taken out. */
  function RemoveAt<T>(s: seq<T>, i: int): (r: seq<T>)
    requires 0 <= i < |s|
    ensures |r| == |s| - 1
    ensures forall k :: 0 <= k < |r| ==> r[k] == if k < i then s[k] else s[k + 1]
    ensures multiset(r) + multiset{s[i]} == multiset(s)
  {
    assert s == s[..i] + [s[i]] + s[i + 1..];
    s[..i] + s[i + 1..]
  }

  /** `s.splice(i, 0, x)`: `x` inserted so that it ends up at index `i`. */
  function InsertAt<T>(s: seq<T>, i: int, x: T): (r: seq<T>)
    requires 0 <= i <= |s|
    ensures |r| == |s| + 1 && r[i] == x
    ensures RemoveAt(r, i) == s
    ensures multiset(r) == multiset(s) + multiset{x}
  {
    var r := s[..i] + [x] + s[i..];
    assert RemoveAt(r, i) == s;
    r
  }

  /** Taking an element out and putting it back at the same index restores the list. */
  lemma InsertRemoved<T>(s: seq<T>, i: int)
    requires 0 <= i < |s|
    ensures InsertAt(RemoveAt(s, i), i, s[i]) == s
  {
    var r := InsertAt(RemoveAt(s, i), i, s[i]);
    forall k | 0 <= k < |s| ensures r[k] == s[k] {
      if k < i {
        assert r[k] == RemoveAt(s, i)[k];
      } else if k > i {
        assert r[k] == RemoveAt(s, i)[k - 1];
      }
    }
  }
}
