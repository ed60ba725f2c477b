/** Small vocabulary shared by the whole project. */
module Common {

  datatype Option<+T> = None | Some(value: T)

  ghost predicate NoDup<T>(s: seq<T>) {
    forall i, j :: 0 <= i < j < |s| ==> s[i] != s[j]
  }

  lemma NoDupAppend<T>(s: seq<T>, x: T)
    requires NoDup(s) && x !in s
    ensures NoDup(s + [x])
  {
    forall i, j | 0 <= i < j < |s + [x]|
      ensures (s + [x])[i] != (s + [x])[j]
    {
      assert (s + [x])[i] == s[i];
    }
  }

  /** `s` with every occurrence of `x` taken out. */
  function Without<T(==)>(s: seq<T>, x: T): (r: seq<T>)
    ensures |r| <= |s|
  {
    if s == [] then []
    else if s[0] == x then Without(s[1..], x)
    else [s[0]] + Without(s[1..], x)
  }

  lemma {:induction false} WithoutMembers<T>(s: seq<T>, x: T)
    ensures forall y :: y in Without(s, x) <==> y in s && y != x
  {
    if s != [] {
      WithoutMembers(s[1..], x);
      assert s == [s[0]] + s[1..];
    }
  }

  lemma {:induction false} WithoutNoDup<T>(s: seq<T>, x: T)
    requires NoDup(s)
    ensures NoDup(Without(s, x))
  {
    if s != [] {
      assert s[0] !in s[1..];
      WithoutNoDup(s[1..], x);
      WithoutMembers(s[1..], x);
    }
  }

  /** Taking out something absent changes nothing. */
  lemma {:induction false} WithoutAbsent<T>(s: seq<T>, x: T)
    requires x !in s
    ensures Without(s, x) == s
  {
    if s != [] {
      WithoutAbsent(s[1..], x);
    }
  }

  lemma Regroup<T>(a: seq<T>, b: seq<T>, c: seq<T>)
    ensures a + (b + c) == (a + b) + c
  {
  }

  lemma {:induction false} WithoutConcat<T>(s: seq<T>, t: seq<T>, x: T)
    ensures Without(s + t, x) == Without(s, x) + Without(t, x)
  {
    if s == [] {
      assert s + t == t;
    } else {
      WithoutConcat(s[1..], t, x);
      assert (s + t)[0] == s[0] && (s + t)[1..] == s[1..] + t;
      Regroup([s[0]], Without(s[1..], x), Without(t, x));
    }
  }

  /** In a duplicate-free sequence `Without` is the removal of one position. */
  lemma {:induction false} WithoutAt<T>(s: seq<T>, k: nat)
    requires k < |s| && NoDup(s)
    ensures Without(s, s[k]) == s[..k] + s[k + 1..]
  {
    assert s == s[..k] + ([s[k]] + s[k + 1..]);
    WithoutConcat(s[..k], [s[k]] + s[k + 1..], s[k]);
    WithoutConcat([s[k]], s[k + 1..], s[k]);
    WithoutAbsent(s[..k], s[k]);
    WithoutAbsent(s[k + 1..], s[k]);
  }

  /** Adding an element in front of the second sentinel. */
  lemma AppendBetween<T>(h: T, m: seq<T>, t: T, n: T)
    ensures ([h] + m + [t])[..|m| + 1] + [n, t] == [h] + (m + [n]) + [t]
  {
    assert ([h] + m + [t])[..|m| + 1] == [h] + m;
  }

  /** Cutting a position out between two sentinels. */
  lemma CutBetween<T>(h: T, m: seq<T>, t: T, k: nat)
    requires k < |m|
    ensures ([h] + m + [t])[..k + 1] + ([h] + m + [t])[k + 2..] == [h] + (m[..k] + m[k + 1..]) + [t]
  {
    assert ([h] + m + [t])[..k + 1] == [h] + m[..k];
    assert ([h] + m + [t])[k + 2..] == m[k + 1..] + [t];
  }

  ghost predicate Increasing(at: seq<nat>) {
    forall i, j :: 0 <= i < j < |at| ==> at[i] < at[j]
  }
}
