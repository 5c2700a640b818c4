/** Small generic helpers shared by the list models: an optional value (a C
    pointer that may be NULL), repetition-free sequences, and the position of an
    element in a sequence. */
module Support {

  datatype Option<T> = None | Some(value: T)

  /** No element occurs twice. Stated one element at a time, so that the pairwise
      facts are drawn only where a proof asks for them (DistinctAt). */
  ghost predicate Distinct<T>(s: seq<T>) {
    |s| == 0 || (s[0] !in s[1..] && Distinct(s[1..]))
  }

  /** Two positions of a repetition-free sequence hold different elements. */
  lemma {:induction false} DistinctAt<T>(s: seq<T>, i: nat, j: nat)
    requires Distinct(s) && i < |s| && j < |s| && i != j
    ensures s[i] != s[j]
  {
    if i == 0 {
      assert s[j] == s[1..][j - 1];
    } else if j == 0 {
      assert s[i] == s[1..][i - 1];
    } else {
      DistinctAt(s[1..], i - 1, j - 1);
    }
  }

  /** In a repetition-free sequence, no other position holds the element at k. */
  lemma DistinctOthers<T>(s: seq<T>, k: nat)
    requires Distinct(s) && k < |s|
    ensures forall i :: 0 <= i < |s| && i != k ==> s[i] != s[k]
  {
    forall i | 0 <= i < |s| && i != k
      ensures s[i] != s[k]
    {
      DistinctAt(s, i, k);
    }
  }

  /** A sequence whose positions hold pairwise different elements is repetition-free. */
  lemma {:induction false} DistinctIntro<T>(s: seq<T>)
    requires forall i, j :: 0 <= i < j < |s| ==> s[i] != s[j]
    ensures Distinct(s)
  {
    if |s| > 0 {
      assert forall j :: 0 <= j < |s| - 1 ==> s[1..][j] == s[j + 1];
      DistinctIntro(s[1..]);
    }
  }

  /** The first position of `x` in `s`. */
  function IndexOf<T(==)>(s: seq<T>, x: T): (k: nat)
    requires x in s
    ensures k < |s| && s[k] == x
    ensures forall j :: 0 <= j < k ==> s[j] != x
  {
    if s[0] == x then 0 else 1 + IndexOf(s[1..], x)
  }

  /** In a sequence without repetitions, the position of an element is the one it is found at. */
  lemma IndexOfDistinct<T>(s: seq<T>, k: nat)
    requires Distinct(s) && k < |s|
    ensures IndexOf(s, s[k]) == k
  {
    var m := IndexOf(s, s[k]);
    if m != k {
      DistinctAt(s, m, k);
    }
  }

  /** `s` without its element at position k. */
  ghost function Without<T>(s: seq<T>, k: nat): seq<T>
    requires k < |s|
  {
    s[..k] + s[k + 1..]
  }

  /** `s` with `x` placed at position k. */
  ghost function Within<T>(s: seq<T>, k: nat, x: T): seq<T>
    requires k <= |s|
  {
    s[..k] + [x] + s[k..]
  }

  /** Putting x in after position k and then replacing the element at k by y. */
  lemma WithinThenUpdate<T>(s: seq<T>, k: nat, x: T, y: T)
    requires k < |s|
    ensures Within(s, k + 1, x)[k := y] == s[..k] + [y, x] + s[k + 1..]
  {
    var a, b := Within(s, k + 1, x)[k := y], s[..k] + [y, x] + s[k + 1..];
    assert |a| == |b|;
    forall i | 0 <= i < |a| ensures a[i] == b[i] {
      if i > k + 1 {
        assert a[i] == s[i - 1];
      }
    }
  }

  /** Replacing the element at k - 1 by y and then taking out the one at k. */
  lemma UpdateThenWithout<T>(s: seq<T>, k: nat, y: T)
    requires 0 < k < |s|
    ensures Without(s[k - 1 := y], k) == s[..k - 1] + [y] + s[k + 1..]
  {
    var a, b := Without(s[k - 1 := y], k), s[..k - 1] + [y] + s[k + 1..];
    assert |a| == |b|;
    forall i | 0 <= i < |a| ensures a[i] == b[i] {
      if i >= k {
        assert a[i] == s[i + 1];
      }
    }
  }

  /** Taking one element out keeps a sequence repetition-free. */
  lemma DistinctRemove<T>(s: seq<T>, k: nat)
    requires Distinct(s) && k < |s|
    ensures Distinct(Without(s, k))
  {
    var r := Without(s, k);
    forall i, j | 0 <= i < j < |r| ensures r[i] != r[j] {
      var i0 := if i < k then i else i + 1;
      var j0 := if j < k then j else j + 1;
      assert r[i] == s[i0] && r[j] == s[j0];
      DistinctAt(s, i0, j0);
    }
    DistinctIntro(r);
  }

  /** Putting in an element that does not occur keeps a sequence repetition-free. */
  lemma DistinctInsert<T>(s: seq<T>, k: nat, x: T)
    requires Distinct(s) && k <= |s| && x !in s
    ensures Distinct(Within(s, k, x))
  {
    var r := Within(s, k, x);
    forall i, j | 0 <= i < j < |r| ensures r[i] != r[j] {
      if i != k && j != k {
        var i0 := if i < k then i else i - 1;
        var j0 := if j < k then j else j - 1;
        assert r[i] == s[i0] && r[j] == s[j0];
        DistinctAt(s, i0, j0);
      } else if i == k {
        assert r[j] == s[j - 1];
      } else {
        assert r[i] == s[i];
      }
    }
    DistinctIntro(r);
  }

  /** Replacing an element by one that does not occur keeps a sequence repetition-free. */
  lemma DistinctUpdate<T>(s: seq<T>, k: nat, x: T)
    requires Distinct(s) && k < |s| && x !in s
    ensures Distinct(s[k := x])
  {
    var r := s[k := x];
    forall i, j | 0 <= i < j < |r| ensures r[i] != r[j] {
      if i != k && j != k {
        DistinctAt(s, i, j);
      }
    }
    DistinctIntro(r);
  }
}
