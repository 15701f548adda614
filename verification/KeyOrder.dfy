/**
 Ordering of object keys (stage/cjson/cJSON_Utils.c, `compare_strings`): `strcmp`, or
 `strcmp` after `tolower` when case does not matter.
 */
module KeyOrder {
  // `tolower` in the C locale
  function LowerChar(c: char): char {
    if 'A' <= c <= 'Z' then (c as int + 32) as char else c
  }

  function Lower(s: string): (r: string)
    ensures |r| == |s| && forall i :: 0 <= i < |s| ==> r[i] == LowerChar(s[i])
  {
    seq(|s|, i requires 0 <= i < |s| => LowerChar(s[i]))
  }

  lemma LowerExample()
    ensures Lower("@AMZ[amz{") == "@amz[amz{"
  {
  }

  // What is compared of a key.
  function Fold(s: string, cs: bool): string {
    if cs then s else Lower(s)
  }

  // The sign of `strcmp` is negative; the terminating zero is smaller than any character.
  predicate StrLess(a: string, b: string) {
    if b == [] then false
    else if a == [] then true
    else a[0] < b[0] || (a[0] == b[0] && StrLess(a[1..], b[1..]))
  }

  predicate KeyLess(a: string, b: string, cs: bool) {
    StrLess(Fold(a, cs), Fold(b, cs))
  }

  /** `strcmp`: at the first place where the keys differ, the smaller one ends or has the smaller character. */
  lemma {:induction false} StrLessMeaning(a: string, b: string)
    ensures StrLess(a, b) <==> exists k: nat :: LessAt(a, b, k)
    decreases |a|
  {
    if a != [] && b != [] && a[0] == b[0] {
      StrLessMeaning(a[1..], b[1..]);
      if k: nat :| LessAt(a[1..], b[1..], k) {
        assert a[..k + 1] == [a[0]] + a[1..][..k] && b[..k + 1] == [b[0]] + b[1..][..k];
        assert LessAt(a, b, k + 1);
      }
      if k: nat :| LessAt(a, b, k) {
        assert k > 0;
        assert a[1..][..k - 1] == a[..k][1..] && b[1..][..k - 1] == b[..k][1..];
        assert LessAt(a[1..], b[1..], k - 1);
      }
    } else if StrLess(a, b) {
      assert LessAt(a, b, 0);
    } else {
      forall k: nat ensures !LessAt(a, b, k) {
        if 0 < k <= |a| && k < |b| {
          assert a[..k][0] == a[0] && b[..k][0] == b[0];
        }
      }
    }
  }

  ghost predicate LessAt(a: string, b: string, k: nat) {
    k <= |a| && k < |b| && a[..k] == b[..k] && (k == |a| || a[k] < b[k])
  }

  /** `strcmp` is a strict total order. */
  lemma {:induction false} StrLessTotal(a: string, b: string)
    ensures StrLess(a, b) || StrLess(b, a) || a == b
    ensures !(StrLess(a, b) && StrLess(b, a)) && !StrLess(a, a)
    decreases |a| + |b|
  {
    if a != [] && b != [] {
      StrLessTotal(a[1..], b[1..]);
      assert a == [a[0]] + a[1..] && b == [b[0]] + b[1..];
    }
    if a != [] {
      StrLessIrreflexive(a);
    }
  }

  lemma {:induction false} StrLessIrreflexive(a: string)
    ensures !StrLess(a, a)
  {
    if a != [] {
      StrLessIrreflexive(a[1..]);
    }
  }

  lemma {:induction false} StrLessTransitive(a: string, b: string, c: string)
    requires StrLess(a, b) && StrLess(b, c)
    ensures StrLess(a, c)
    decreases |a|
  {
    if a != [] && a[0] == b[0] == c[0] {
      StrLessTransitive(a[1..], b[1..], c[1..]);
    }
  }

  lemma KeyLessTotal(a: string, b: string, cs: bool)
    ensures KeyLess(a, b, cs) || KeyLess(b, a, cs) || Fold(a, cs) == Fold(b, cs)
    ensures !(KeyLess(a, b, cs) && KeyLess(b, a, cs))
    ensures Fold(a, cs) == Fold(b, cs) ==> !KeyLess(a, b, cs)
  {
    StrLessTotal(Fold(a, cs), Fold(b, cs));
  }

  // Not being smaller is transitive, too.
  lemma NotLessTransitive(a: string, b: string, c: string, cs: bool)
    requires !KeyLess(b, a, cs) && !KeyLess(c, b, cs)
    ensures !KeyLess(c, a, cs)
  {
    var x, y, z := Fold(a, cs), Fold(b, cs), Fold(c, cs);
    StrLessTotal(x, y);
    StrLessTotal(y, z);
    StrLessTotal(x, z);
    if StrLess(x, y) && StrLess(y, z) {
      StrLessTransitive(x, y, z);
    }
  }

  lemma KeyLessTransitive(a: string, b: string, c: string, cs: bool)
    requires KeyLess(a, b, cs) && KeyLess(b, c, cs)
    ensures KeyLess(a, c, cs)
  {
    StrLessTransitive(Fold(a, cs), Fold(b, cs), Fold(c, cs));
  }
}
