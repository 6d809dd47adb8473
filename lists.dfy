/** Sequence operations behind the agent list of CellAutomata: an order-preserving
    filter driven by one flag per element (what remains of a list once the
    flagged-out elements are gone) and Python's `list.remove`, which drops the
    first occurrence of an element. */
module Lists {
  /** The elements whose flag is set, in their original order. */
  function Pick<T>(s: seq<T>, m: seq<bool>): (r: seq<T>)
    requires |s| == |m|
    ensures |r| <= |s|
  {
    if s == [] then [] else Pick(s[..|s| - 1], m[..|m| - 1]) + (if m[|m| - 1] then [s[|s| - 1]] else [])
  }

  /** The negated flags. */
  function Not(m: seq<bool>): (r: seq<bool>)
    ensures |r| == |m| && forall i :: 0 <= i < |m| ==> r[i] == !m[i]
  {
    seq(|m|, i requires 0 <= i < |m| => !m[i])
  }

  /** No element occurs twice. */
  predicate Unique<T(==)>(s: seq<T>) {
    forall k, l :: 0 <= k < l < |s| ==> s[k] != s[l]
  }

  lemma {:induction false} PickSnoc<T>(s: seq<T>, m: seq<bool>, x: T, b: bool)
    requires |s| == |m|
    ensures Pick(s + [x], m + [b]) == Pick(s, m) + (if b then [x] else [])
  {
    assert (s + [x])[..|s|] == s;
    assert (m + [b])[..|m|] == m;
  }

  /** Filtering one more prefix element. */
  lemma PickPrefix<T>(s: seq<T>, m: seq<bool>, k: nat)
    requires |s| == |m| && k < |s|
    ensures Pick(s[..k + 1], m[..k + 1]) == Pick(s[..k], m[..k]) + (if m[k] then [s[k]] else [])
  {
    assert s[..k + 1] == s[..k] + [s[k]];
    assert m[..k + 1] == m[..k] + [m[k]];
    PickSnoc(s[..k], m[..k], s[k], m[k]);
  }

  /** An element joins a prefix as the prefix grows by one. */
  lemma PrefixGrow<T>(s: seq<T>, k: nat)
    requires 0 < k <= |s|
    ensures forall x :: x in s[..k] <==> x in s[..k - 1] || x == s[k - 1]
  {
    assert s[..k] == s[..k - 1] + [s[k - 1]];
  }

  /** In a list without repetitions an element does not occur before its index. */
  lemma UniqueFresh<T>(s: seq<T>, k: nat)
    requires Unique(s) && k < |s|
    ensures s[k] !in s[..k]
  {
  }

  /** Every element of a filtered list is a flagged element of the list. */
  lemma {:induction false} PickMember<T>(s: seq<T>, m: seq<bool>, k: nat)
    requires |s| == |m| && k < |Pick(s, m)|
    ensures exists i :: 0 <= i < |s| && m[i] && Pick(s, m)[k] == s[i]
  {
    var n := |s| - 1;
    assert s == s[..n] + [s[n]] && m == m[..n] + [m[n]];
    PickSnoc(s[..n], m[..n], s[n], m[n]);
    var a := Pick(s[..n], m[..n]);
    if k < |a| {
      PickMember(s[..n], m[..n], k);
      var i :| 0 <= i < n && m[..n][i] && a[k] == s[..n][i];
      assert Pick(s, m)[k] == a[k];
    } else {
      assert m[n] && Pick(s, m)[k] == s[n];
    }
  }

  /** Every flagged element survives the filter. */
  lemma {:induction false} PickComplete<T>(s: seq<T>, m: seq<bool>, i: nat)
    requires |s| == |m| && i < |s| && m[i]
    ensures s[i] in Pick(s, m)
  {
    var n := |s| - 1;
    if i < n {
      PickComplete(s[..n], m[..n], i);
      assert s[..n][i] == s[i];
    }
  }

  /** With every flag set nothing is dropped. */
  lemma {:induction false} PickAll<T>(s: seq<T>, m: seq<bool>)
    requires |s| == |m| && forall i :: 0 <= i < |m| ==> m[i]
    ensures Pick(s, m) == s
  {
    if s != [] {
      var n := |s| - 1;
      PickAll(s[..n], m[..n]);
      assert s == s[..n] + [s[n]];
    }
  }

  lemma {:induction false} PickLength<T, U>(s: seq<T>, u: seq<U>, m: seq<bool>)
    requires |s| == |m| == |u|
    ensures |Pick(s, m)| == |Pick(u, m)|
  {
    if s != [] {
      PickLength(s[..|s| - 1], u[..|u| - 1], m[..|m| - 1]);
    }
  }

  /** Filtering the survivors of m0 by the flags m1 gives them is filtering by m1,
      when m1 only clears flags of m0. */
  lemma {:induction false} PickPick<T>(s: seq<T>, m0: seq<bool>, m1: seq<bool>)
    requires |s| == |m0| == |m1| && forall i :: 0 <= i < |m1| && m1[i] ==> m0[i]
    ensures |Pick(m1, m0)| == |Pick(s, m0)|
    ensures Pick(Pick(s, m0), Pick(m1, m0)) == Pick(s, m1)
  {
    PickLength(m1, s, m0);
    if s != [] {
      var n := |s| - 1;
      var s', m0', m1' := s[..n], m0[..n], m1[..n];
      PickPick(s', m0', m1');
      PickLength(m1', s', m0');
      var a, b := Pick(s', m0'), Pick(m1', m0');
      if m0[n] {
        assert Pick(s, m0) == a + [s[n]];
        assert Pick(m1, m0) == b + [m1[n]];
        PickSnoc(a, b, s[n], m1[n]);
      } else {
        assert Pick(s, m0) == a && Pick(m1, m0) == b;
      }
    }
  }

  /** A filter of a list without repetitions has none either. */
  lemma {:induction false} PickUnique<T>(s: seq<T>, m: seq<bool>)
    requires |s| == |m| && Unique(s)
    ensures Unique(Pick(s, m))
  {
    if s != [] {
      var n := |s| - 1;
      PickUnique(s[..n], m[..n]);
      var a := Pick(s[..n], m[..n]);
      if m[n] {
        forall k | 0 <= k < |a| ensures a[k] != s[n] {
          PickMember(s[..n], m[..n], k);
        }
        var r := a + [s[n]];
        assert Pick(s, m) == r;
        forall k, l | 0 <= k < l < |r| ensures r[k] != r[l] {
          if l < |a| {
            assert r[k] == a[k] && r[l] == a[l];
          }
        }
      }
    }
  }

  /** `list.remove(x)`: the list without the first occurrence of x. (Python raises
      ValueError when x is absent; the agent list never calls it so.) */
  function Without<T(==)>(s: seq<T>, x: T): (r: seq<T>)
    ensures x in s ==> |r| == |s| - 1
  {
    if s == [] then [] else if s[0] == x then s[1..] else [s[0]] + Without(s[1..], x)
  }

  /** Removing an element that occurs in the front part leaves the back part alone. */
  lemma {:induction false} WithoutAppendPresent<T>(a: seq<T>, b: seq<T>, x: T)
    requires x in a
    ensures Without(a + b, x) == Without(a, x) + b
  {
    assert (a + b)[0] == a[0] && (a + b)[1..] == a[1..] + b;
    if a[0] != x {
      WithoutAppendPresent(a[1..], b, x);
      assert Without(a + b, x) == [a[0]] + (Without(a[1..], x) + b);
    }
  }

  /** Removing the last element of a list in which it does not occur earlier. */
  lemma {:induction false} WithoutLastAbsent<T>(a: seq<T>, x: T)
    requires x !in a
    ensures Without(a + [x], x) == a
  {
    if a == [] {
      assert a + [x] == [x];
    } else {
      assert (a + [x])[0] == a[0] && (a + [x])[1..] == a[1..] + [x];
      WithoutLastAbsent(a[1..], x);
      assert a == [a[0]] + a[1..];
    }
  }

  /** Removing the element at j, when it does not occur earlier. */
  lemma {:induction false} WithoutAt<T>(s: seq<T>, j: nat)
    requires j < |s| && s[j] !in s[..j]
    ensures Without(s, s[j]) == s[..j] + s[j + 1..]
  {
    if j > 0 {
      assert s[0] in s[..j];
      var t := s[1..];
      assert t[j - 1] == s[j];
      assert t[..j - 1] == s[1..j];
      assert s[j] !in t[..j - 1] by {
        assert forall x :: x in s[1..j] ==> x in s[..j];
      }
      WithoutAt(t, j - 1);
      assert t[j..] == s[j + 1..];
      assert s[..j] == [s[0]] + s[1..j];
    }
  }

  /** For a list without repetitions, removing a flagged element from the filter is
      filtering with that element's flag cleared. */
  lemma {:induction false} PickRemove<T>(s: seq<T>, m: seq<bool>, i: nat)
    requires |s| == |m| && Unique(s) && i < |s| && m[i]
    ensures Without(Pick(s, m), s[i]) == Pick(s, m[i := false])
  {
    var n := |s| - 1;
    var s', m' := s[..n], m[..n];
    var p := Pick(s', m');
    if i == n {
      assert s[n] !in p by {
        forall k | 0 <= k < |p| ensures p[k] != s[n] {
          PickMember(s', m', k);
        }
      }
      assert Pick(s, m) == p + [s[n]];
      WithoutLastAbsent(p, s[n]);
      assert m[n := false][..n] == m';
    } else {
      assert m[i := false][..n] == m'[i := false];
      assert Unique(s');
      PickRemove(s', m', i);
      PickComplete(s', m', i);
      assert s'[i] == s[i];
      var tail := if m[n] then [s[n]] else [];
      assert Pick(s, m) == p + tail;
      WithoutAppendPresent(p, tail, s[i]);
    }
  }

  /** The flags left once the flagged-out elements listed in `gone` are removed. */
  function Kept<T(==)>(s: seq<T>, m: seq<bool>, gone: seq<T>): (r: seq<bool>)
    requires |s| == |m|
    ensures |r| == |s| && forall i :: 0 <= i < |s| ==> r[i] == (m[i] || s[i] !in gone)
  {
    seq(|s|, i requires 0 <= i < |s| => m[i] || s[i] !in gone)
  }

  /** Listing one more flagged-out element as gone clears exactly its flag. */
  lemma KeptNext<T>(s: seq<T>, m: seq<bool>, gone: seq<T>, i: nat)
    requires |s| == |m| && Unique(s) && i < |s| && !m[i]
    ensures Kept(s, m, gone + [s[i]]) == Kept(s, m, gone)[i := false]
  {
    var k0, k1 := Kept(s, m, gone), Kept(s, m, gone + [s[i]]);
    forall j | 0 <= j < |s| ensures k1[j] == k0[i := false][j] {
      assert s[j] in gone + [s[i]] <==> s[j] in gone || s[j] == s[i];
    }
  }

  /** Removing, one by one, the flagged-out elements of a list without repetitions:
      the next one is present, and removing it clears exactly its flag. */
  lemma RemoveNext<T>(s: seq<T>, m: seq<bool>, t: nat)
    requires |s| == |m| && Unique(s) && t < |Pick(s, Not(m))|
    ensures var out := Pick(s, Not(m));
            out[t] in Pick(s, Kept(s, m, out[..t])) &&
            Without(Pick(s, Kept(s, m, out[..t])), out[t]) == Pick(s, Kept(s, m, out[..t + 1]))
  {
    var out := Pick(s, Not(m));
    PickMember(s, Not(m), t);
    var i :| 0 <= i < |s| && Not(m)[i] && out[t] == s[i];
    PickUnique(s, Not(m));
    UniqueFresh(out, t);
    var k0 := Kept(s, m, out[..t]);
    assert k0[i];
    PickComplete(s, k0, i);
    assert out[..t + 1] == out[..t] + [s[i]];
    KeptNext(s, m, out[..t], i);
    PickRemove(s, k0, i);
  }

  /** Before any removal every flag is kept. */
  lemma KeptNone<T>(s: seq<T>, m: seq<bool>)
    requires |s| == |m|
    ensures Pick(s, Kept(s, m, [])) == s
  {
    PickAll(s, Kept(s, m, []));
  }

  /** Once all flagged-out elements are removed the survivors are the flagged ones. */
  lemma KeptAll<T>(s: seq<T>, m: seq<bool>, t: nat)
    requires |s| == |m| && t == |Pick(s, Not(m))|
    ensures Kept(s, m, Pick(s, Not(m))[..t]) == m
  {
    assert Pick(s, Not(m))[..t] == Pick(s, Not(m));
    forall i | 0 <= i < |s| && !m[i] ensures s[i] in Pick(s, Not(m)) {
      PickComplete(s, Not(m), i);
    }
  }
}
