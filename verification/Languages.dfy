/** Languages as sets of words, with powers. */
module Languages {
  /** `w` is `k` words of `lang`, one after the other. */
  ghost predicate Power<T(!new)>(lang: iset<seq<T>>, k: nat, w: seq<T>) {
    if k == 0 then w == []
    else exists i :: 0 <= i <= |w| && w[..i] in lang && Power(lang, k - 1, w[i..])
  }

  lemma {:induction false} PowerAdd<T(!new)>(lang: iset<seq<T>>, m: nat, n: nat, u: seq<T>, v: seq<T>)
    requires Power(lang, m, u) && Power(lang, n, v)
    ensures Power(lang, m + n, u + v)
  {
    if m == 0 {
      assert u + v == v;
    } else {
      var i :| 0 <= i <= |u| && u[..i] in lang && Power(lang, m - 1, u[i..]);
      PowerAdd(lang, m - 1, n, u[i..], v);
      assert (u + v)[..i] == u[..i] && (u + v)[i..] == u[i..] + v;
    }
  }

  lemma PowerOne<T(!new)>(lang: iset<seq<T>>, w: seq<T>)
    ensures Power(lang, 1, w) <==> w in lang
  {
    assert w[..|w|] == w && w[|w|..] == [];
    forall i | 0 <= i <= |w| && w[..i] in lang && Power(lang, 0, w[i..])
      ensures w in lang
    {
      assert w[i..] == [] && w[..i] == w;
    }
  }

  lemma {:induction false} PowerSplit<T(!new)>(lang: iset<seq<T>>, m: nat, n: nat, w: seq<T>) returns (i: nat)
    requires Power(lang, m + n, w)
    ensures i <= |w| && Power(lang, m, w[..i]) && Power(lang, n, w[i..])
  {
    if m == 0 {
      i := 0;
      assert w[0..] == w;
    } else {
      var j :| 0 <= j <= |w| && w[..j] in lang && Power(lang, m + n - 1, w[j..]);
      var k := PowerSplit(lang, m - 1, n, w[j..]);
      i := j + k;
      assert w[..i][..j] == w[..j] && w[..i][j..] == w[j..][..k] && w[j..][k..] == w[i..];
    }
  }

  lemma {:induction false} PowerMonotone<T(!new)>(small: iset<seq<T>>, large: iset<seq<T>>, k: nat, w: seq<T>)
    requires small <= large && Power(small, k, w)
    ensures Power(large, k, w)
  {
    if k > 0 {
      var i :| 0 <= i <= |w| && w[..i] in small && Power(small, k - 1, w[i..]);
      PowerMonotone(small, large, k - 1, w[i..]);
    }
  }

  lemma PowerJoin<T(!new)>(lang: iset<seq<T>>, m: nat, n: nat, w: seq<T>, i: nat)
    requires i <= |w| && Power(lang, m, w[..i]) && Power(lang, n, w[i..])
    ensures Power(lang, m + n, w)
  {
    PowerAdd(lang, m, n, w[..i], w[i..]);
    assert w == w[..i] + w[i..];
  }

  lemma PowerUncons<T(!new)>(lang: iset<seq<T>>, k: nat, w: seq<T>) returns (i: nat)
    requires k > 0 && Power(lang, k, w)
    ensures i <= |w| && w[..i] in lang && Power(lang, k - 1, w[i..])
  {
    i :| 0 <= i <= |w| && w[..i] in lang && Power(lang, k - 1, w[i..]);
  }

  lemma PowerUnsnoc<T(!new)>(lang: iset<seq<T>>, k: nat, w: seq<T>) returns (i: nat)
    requires k > 0 && Power(lang, k, w)
    ensures i <= |w| && Power(lang, k - 1, w[..i]) && w[i..] in lang
  {
    i := PowerSplit(lang, k - 1, 1, w);
    PowerOne(lang, w[i..]);
  }

  lemma PowerSnoc<T(!new)>(lang: iset<seq<T>>, k: nat, w: seq<T>, i: nat)
    requires i <= |w| && Power(lang, k, w[..i]) && w[i..] in lang
    ensures Power(lang, k + 1, w)
  {
    PowerOne(lang, w[i..]);
    PowerAdd(lang, k, 1, w[..i], w[i..]);
    assert w == w[..i] + w[i..];
  }
}
