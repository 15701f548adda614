/**
 The walk of `generate_merge_patch` (stage/cjson/cJSON_Utils.c) over two lists of keys: both are sorted, with or
 without regard to case, but compared with `strcmp`. Which lists have their common keys paired?
 */
module JsonMergeWalk {
  import opened KeyOrder

  // No common key is passed in one list only.
  predicate PairsAll(xs: seq<string>, ys: seq<string>)
    decreases |xs| + |ys|
  {
    if xs == [] || ys == [] then true
    else if xs[0] == ys[0] then PairsAll(xs[1..], ys[1..])
    else if StrLess(xs[0], ys[0]) then xs[0] !in ys && PairsAll(xs[1..], ys)
    else ys[0] !in xs && PairsAll(xs, ys[1..])
  }

  ghost predicate Different(xs: seq<string>) {
    forall i, j :: 0 <= i < j < |xs| ==> xs[i] != xs[j]
  }

  // Common keys come in the same order.
  ghost predicate SameOrder(xs: seq<string>, ys: seq<string>) {
    forall i, i', j, j' :: 0 <= i < i' < |xs| && 0 <= j < |ys| && 0 <= j' < |ys| && xs[i] == ys[j] && xs[i'] == ys[j'] ==> j < j'
  }

  // The keys of xs from p up to i are not in ys.
  ghost predicate Alone(xs: seq<string>, ys: seq<string>, p: nat, i: nat) {
    forall t :: p <= t < i && t < |xs| ==> xs[t] !in ys
  }

  // Since the last common key, every key of xs is smaller than the next common one.
  ghost predicate Below(xs: seq<string>, ys: seq<string>) {
    forall p: nat, i: nat :: p < i < |xs| && xs[i] in ys && Alone(xs, ys, p, i) ==> StrLess(xs[p], xs[i])
  }

  lemma TailKeys(xs: seq<string>, ys: seq<string>)
    requires Different(xs) && Different(ys) && SameOrder(xs, ys) && xs != []
    ensures Different(xs[1..]) && SameOrder(xs[1..], ys)
  {
    var tail := xs[1..];
    forall i, i', j, j' | 0 <= i < i' < |tail| && 0 <= j < |ys| && 0 <= j' < |ys| && tail[i] == ys[j] && tail[i'] == ys[j'] ensures j < j' {
      assert xs[i + 1] == ys[j] && xs[i' + 1] == ys[j'];
    }
  }

  lemma OrderTurned(xs: seq<string>, ys: seq<string>)
    requires Different(xs) && Different(ys) && SameOrder(xs, ys)
    ensures SameOrder(ys, xs)
  {
    forall i, i', j, j' | 0 <= i < i' < |ys| && 0 <= j < |xs| && 0 <= j' < |xs| && ys[i] == xs[j] && ys[i'] == xs[j'] ensures j < j' {
    }
  }

  // A key at the front that is in xs alone: the condition is that of the rest.
  lemma BelowAlone(xs: seq<string>, ys: seq<string>)
    requires Different(xs) && Different(ys) && SameOrder(xs, ys) && xs != [] && ys != []
    requires StrLess(xs[0], ys[0]) && xs[0] !in ys
    ensures Below(xs, ys) && Below(ys, xs) <==> Below(xs[1..], ys) && Below(ys, xs[1..])
  {
    var tail := xs[1..];
    assert forall k :: k in ys ==> (k in xs <==> k in tail);
    forall p: nat, i: nat ensures Alone(ys, xs, p, i) <==> Alone(ys, tail, p, i) {
    }
    if Below(xs, ys) {
      forall p: nat, i: nat | p < i < |tail| && tail[i] in ys && Alone(tail, ys, p, i) ensures StrLess(tail[p], tail[i]) {
        assert Alone(xs, ys, p + 1, i + 1) by {
          forall t | p + 1 <= t < i + 1 && t < |xs| ensures xs[t] !in ys {
            assert tail[t - 1] !in ys;
          }
        }
        assert StrLess(xs[p + 1], xs[i + 1]);
      }
    }
    if Below(tail, ys) && Below(ys, tail) {
      forall p: nat, i: nat | p < i < |xs| && xs[i] in ys && Alone(xs, ys, p, i) ensures StrLess(xs[p], xs[i]) {
        if p > 0 {
          AloneTail(xs, ys, p, i);
        } else {
          FirstCommon(xs, ys, i);
        }
      }
    }
  }

  lemma AloneTail(xs: seq<string>, ys: seq<string>, p: nat, i: nat)
    requires 0 < p < i < |xs| && xs[i] in ys && Alone(xs, ys, p, i) && Below(xs[1..], ys)
    ensures StrLess(xs[p], xs[i])
  {
    var tail := xs[1..];
    assert Alone(tail, ys, p - 1, i - 1) by {
      forall t | p - 1 <= t < i - 1 && t < |tail| ensures tail[t] !in ys {
        assert xs[t + 1] !in ys;
      }
    }
    assert tail[i - 1] == xs[i] && tail[p - 1] == xs[p];
  }

  // The first common key, at i, is larger than a front that is smaller than the other one.
  lemma FirstCommon(xs: seq<string>, ys: seq<string>, i: nat)
    requires Different(ys) && SameOrder(xs, ys) && 0 < i < |xs| && ys != [] && xs[i] in ys && Alone(xs, ys, 0, i) && StrLess(xs[0], ys[0]) && Below(ys, xs[1..])
    ensures StrLess(xs[0], xs[i])
  {
    var tail := xs[1..];
    var j :| 0 <= j < |ys| && ys[j] == xs[i];
    if j > 0 {
      forall t, u | 0 <= t < j && t < |ys| && 0 <= u < |tail| ensures ys[t] != tail[u] {
        assert tail[u] == xs[u + 1];
        if u + 1 < i {
          assert xs[u + 1] !in ys;
        }
      }
      assert Alone(ys, tail, 0, j);
      assert tail[i - 1] == xs[i] && ys[j] in tail;
      assert StrLess(ys[0], ys[j]);
      StrLessTransitive(xs[0], ys[0], ys[j]);
    }
  }

  // A common key at the front of xs, with a larger one in front of it in ys, will not be paired.
  lemma NotBelow(xs: seq<string>, ys: seq<string>)
    requires Different(xs) && Different(ys) && SameOrder(xs, ys) && xs != [] && ys != []
    requires StrLess(xs[0], ys[0]) && xs[0] in ys
    ensures !Below(ys, xs)
  {
    var j :| 0 <= j < |ys| && ys[j] == xs[0];
    StrLessTotal(xs[0], ys[0]);
    assert Alone(ys, xs, 0, j) by {
      forall t, u | 0 <= t < j && t < |ys| && 0 <= u < |xs| ensures ys[t] != xs[u] {
      }
    }
    assert ys[j] in xs;
  }

  // A common key at both fronts: the condition is that of the rest.
  lemma BelowBoth(xs: seq<string>, ys: seq<string>)
    requires Different(xs) && Different(ys) && xs != [] && ys != [] && xs[0] == ys[0]
    ensures Below(xs, ys) <==> Below(xs[1..], ys[1..])
  {
    var a, b := xs[1..], ys[1..];
    forall t | 0 <= t < |a| ensures a[t] in b <==> xs[t + 1] in ys {
      assert a[t] == xs[t + 1];
    }
    forall p: nat, i: nat | p < i < |a| ensures Alone(a, b, p, i) <==> Alone(xs, ys, p + 1, i + 1) {
      if Alone(a, b, p, i) {
        forall t | p + 1 <= t < i + 1 && t < |xs| ensures xs[t] !in ys {
          assert a[t - 1] !in b;
        }
      }
      if Alone(xs, ys, p + 1, i + 1) {
        forall t | p <= t < i && t < |a| ensures a[t] !in b {
          assert xs[t + 1] !in ys;
        }
      }
    }
    if Below(xs, ys) {
      forall p: nat, i: nat | p < i < |a| && a[i] in b && Alone(a, b, p, i) ensures StrLess(a[p], a[i]) {
        assert StrLess(xs[p + 1], xs[i + 1]);
      }
    }
    if Below(a, b) {
      forall p: nat, i: nat | p < i < |xs| && xs[i] in ys && Alone(xs, ys, p, i) ensures StrLess(xs[p], xs[i]) {
        assert p > 0;
        assert StrLess(a[p - 1], a[i - 1]);
      }
    }
  }

  /** The walk pairs all common keys if and only if each of them is larger, by `strcmp`, than all keys in
      front of it that follow the common key before it, in both lists. */
  lemma {:induction false} WalkPairs(xs: seq<string>, ys: seq<string>)
    requires Different(xs) && Different(ys) && SameOrder(xs, ys)
    ensures PairsAll(xs, ys) <==> Below(xs, ys) && Below(ys, xs)
    decreases |xs| + |ys|
  {
    hide Below, SameOrder, Different;
    OrderTurned(xs, ys);
    if xs == [] || ys == [] {
      NothingCommon(xs, ys);
    } else {
      StrLessTotal(xs[0], ys[0]);
      TailKeys(xs, ys);
      TailKeys(ys, xs);
      if xs[0] == ys[0] {
        OrderTurned(ys[1..], xs);
        TailKeys(xs, ys[1..]);
        WalkPairs(xs[1..], ys[1..]);
        BelowBoth(xs, ys);
        BelowBoth(ys, xs);
      } else if StrLess(xs[0], ys[0]) {
        if xs[0] in ys {
          NotBelow(xs, ys);
        } else {
          WalkPairs(xs[1..], ys);
          BelowAlone(xs, ys);
        }
      } else {
        if ys[0] in xs {
          NotBelow(ys, xs);
        } else {
          OrderTurned(ys[1..], xs);
          WalkPairs(xs, ys[1..]);
          BelowAlone(ys, xs);
        }
      }
    }
  }

  lemma NothingCommon(xs: seq<string>, ys: seq<string>)
    requires xs == [] || ys == []
    ensures Below(xs, ys) && Below(ys, xs)
  {
  }

  // Lists that are sorted by `strcmp` have all common keys paired.
  lemma {:induction false} SortedPairs(xs: seq<string>, ys: seq<string>)
    requires forall i, j :: 0 <= i < j < |xs| ==> !StrLess(xs[j], xs[i])
    requires forall i, j :: 0 <= i < j < |ys| ==> !StrLess(ys[j], ys[i])
    ensures PairsAll(xs, ys)
    decreases |xs| + |ys|
  {
    hide StrLess;
    if xs != [] && ys != [] {
      StrLessTotal(xs[0], ys[0]);
      if xs[0] == ys[0] {
        SortedPairs(xs[1..], ys[1..]);
      } else if StrLess(xs[0], ys[0]) {
        SortedPairs(xs[1..], ys);
      } else {
        SortedPairs(xs, ys[1..]);
      }
    }
  }
}
