/** Facts about Python lists used as sequences: no repeated element, and the
    order a filter keeps. */
module Lists {
  predicate NoDups<T(==)>(xs: seq<T>) {
    forall i, j :: 0 <= i < j < |xs| ==> xs[i] != xs[j]
  }

  /** `r` keeps the order of `xs`: any two positions of `xs` whose values
      `r` holds appear in `r` in that order (a repeated value as often). */
  ghost predicate InOrder<T>(r: seq<T>, xs: seq<T>) {
    forall i, j :: 0 <= i < j < |xs| && xs[i] in r && xs[j] in r ==>
      exists p, q :: 0 <= p < q < |r| && r[p] == xs[i] && r[q] == xs[j]
  }

  lemma NoDupsCons<T>(x: T, xs: seq<T>)
    ensures NoDups(xs) && x !in xs ==> NoDups([x] + xs)
  {
    if NoDups(xs) && x !in xs {
      forall i, j | 0 <= i < j < |[x] + xs| ensures ([x] + xs)[i] != ([x] + xs)[j] {
        if i == 0 {
          assert ([x] + xs)[j] == xs[j - 1];
        }
      }
    }
  }

  lemma SeqEmpty<T>(xs: seq<T>)
    ensures |xs| == 0 <==> forall x :: x !in xs
  {
    if xs != [] {
      assert xs[0] in xs;
    }
  }

  /** A list keeps its own order. */
  lemma InOrderSelf<T>(xs: seq<T>)
    ensures InOrder(xs, xs)
  {
    forall i, j | 0 <= i < j < |xs| && xs[i] in xs && xs[j] in xs
      ensures exists p, q :: 0 <= p < q < |xs| && xs[p] == xs[i] && xs[q] == xs[j]
    {
      assert xs[i] == xs[i] && xs[j] == xs[j];
    }
  }

  /** A filter that keeps the head of a list keeps the order of the list. */
  lemma InOrderCons<T>(x: T, tail: seq<T>, rest: seq<T>)
    requires InOrder(rest, tail)
    requires x in tail ==> x in rest
    ensures InOrder([x] + rest, [x] + tail)
  {
    var r, xs := [x] + rest, [x] + tail;
    forall i, j | 0 <= i < j < |xs| && xs[i] in r && xs[j] in r
      ensures exists p, q :: 0 <= p < q < |r| && r[p] == xs[i] && r[q] == xs[j]
    {
      assert xs[j] == tail[j - 1];
      assert tail[j - 1] in rest;
      if i == 0 {
        var q :| 0 <= q < |rest| && rest[q] == tail[j - 1];
        assert r[0] == xs[i] && r[q + 1] == xs[j];
      } else {
        assert xs[i] == tail[i - 1];
        assert tail[i - 1] in rest;
        var p, q :| 0 <= p < q < |rest| && rest[p] == tail[i - 1] && rest[q] == tail[j - 1];
        assert r[p + 1] == xs[i] && r[q + 1] == xs[j];
      }
    }
  }

  /** A filter that drops the head of a list keeps the order of the list. */
  lemma InOrderSkip<T>(x: T, tail: seq<T>, rest: seq<T>)
    requires InOrder(rest, tail)
    requires x !in rest
    ensures InOrder(rest, [x] + tail)
  {
    var xs := [x] + tail;
    forall i, j | 0 <= i < j < |xs| && xs[i] in rest && xs[j] in rest
      ensures exists p, q :: 0 <= p < q < |rest| && rest[p] == xs[i] && rest[q] == xs[j]
    {
      assert xs[i] == tail[i - 1] && xs[j] == tail[j - 1];
    }
  }

  /** A filter step that keeps the head `x` of `[x] + tail`, where `rest` is
      the filtered tail: order and the absence of repeats carry over. */
  lemma FilterKeepsHead<T>(x: T, tail: seq<T>, rest: seq<T>)
    requires InOrder(rest, tail)
    requires forall y :: y in rest ==> y in tail
    requires x in tail ==> x in rest
    requires NoDups(tail) ==> NoDups(rest)
    ensures InOrder([x] + rest, [x] + tail)
    ensures NoDups([x] + tail) ==> NoDups([x] + rest)
  {
    InOrderCons(x, tail, rest);
    if NoDups([x] + tail) {
      assert x !in tail by {
        forall j | 0 <= j < |tail| ensures tail[j] != x {
          assert ([x] + tail)[0] == x && ([x] + tail)[j + 1] == tail[j];
        }
      }
      assert NoDups(tail) by {
        forall i, j | 0 <= i < j < |tail| ensures tail[i] != tail[j] {
          assert ([x] + tail)[i + 1] == tail[i] && ([x] + tail)[j + 1] == tail[j];
        }
      }
      NoDupsCons(x, rest);
    }
  }

  /** A filter step that drops the head `x` of `[x] + tail`. */
  lemma FilterDropsHead<T>(x: T, tail: seq<T>, rest: seq<T>)
    requires InOrder(rest, tail)
    requires x !in rest
    requires NoDups(tail) ==> NoDups(rest)
    ensures InOrder(rest, [x] + tail)
    ensures NoDups([x] + tail) ==> NoDups(rest)
  {
    InOrderSkip(x, tail, rest);
    if NoDups([x] + tail) {
      assert NoDups(tail) by {
        forall i, j | 0 <= i < j < |tail| ensures tail[i] != tail[j] {
          assert ([x] + tail)[i + 1] == tail[i] && ([x] + tail)[j + 1] == tail[j];
        }
      }
    }
  }

  lemma NoDupsTail<T>(xs: seq<T>)
    requires |xs| > 0
    ensures NoDups(xs) ==> NoDups(xs[1..]) && xs[0] !in xs[1..]
  {
    if NoDups(xs) {
      forall k | 0 <= k < |xs| - 1 ensures xs[1..][k] != xs[0] {
        assert xs[1..][k] == xs[k + 1];
      }
    }
  }

  lemma NoDupsSnoc<T>(xs: seq<T>, x: T)
    ensures NoDups(xs) && x !in xs ==> NoDups(xs + [x])
  {
    if NoDups(xs) && x !in xs {
      forall i, j | 0 <= i < j < |xs + [x]| ensures (xs + [x])[i] != (xs + [x])[j] {
        if j == |xs| {
          assert (xs + [x])[i] == xs[i];
        }
      }
    }
  }

  /** The two halves of a list without duplicates share nothing. */
  lemma NoDupsDisjoint<T>(a: seq<T>, b: seq<T>)
    requires NoDups(a + b)
    ensures forall x :: x in b ==> x !in a
  {
    forall i, j | 0 <= i < |a| && 0 <= j < |b| ensures a[i] != b[j] {
      assert a[i] == (a + b)[i] && b[j] == (a + b)[|a| + j];
    }
  }

  lemma NoDupsAppendRight<T>(a: seq<T>, b: seq<T>)
    requires NoDups(a + b)
    ensures NoDups(b)
  {
    forall i, j | 0 <= i < j < |b| ensures b[i] != b[j] {
      assert b[i] == (a + b)[|a| + i] && b[j] == (a + b)[|a| + j];
    }
  }

  lemma PrefixMember<T>(a: seq<T>, b: seq<T>, x: T)
    requires a <= b && x in a
    ensures x in b
  {
    var i :| 0 <= i < |a| && a[i] == x;
    assert b[i] == x;
  }
}
