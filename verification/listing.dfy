/** Newest-first listings over a table whose rows are keyed by an
    auto-increment id. A listing is the sequence of matching keys; the
    ordering by creation stamp follows once stamps grow with the key. */
module Listing {

  /** The keys below `n` whose rows satisfy `keep`, highest key first. */
  function NewestFirst<T>(m: map<nat, T>, keep: T -> bool, n: nat): (r: seq<nat>)
    ensures forall i :: 0 <= i < |r| ==> r[i] < n && r[i] in m && keep(m[r[i]])
    ensures forall k :: k < n && k in m && keep(m[k]) ==> k in r
    ensures forall i, j :: 0 <= i < j < |r| ==> r[i] > r[j]
    decreases n
  {
    if n == 0 then []
    else if n - 1 in m && keep(m[n - 1]) then [n - 1] + NewestFirst(m, keep, n - 1)
    else NewestFirst(m, keep, n - 1)
  }

  /** The row under the top key, when it matches, heads the listing. */
  lemma NewestFirstHead<T>(m: map<nat, T>, keep: T -> bool, n: nat)
    requires n > 0 && n - 1 in m && keep(m[n - 1])
    ensures |NewestFirst(m, keep, n)| > 0 && NewestFirst(m, keep, n)[0] == n - 1
  {
  }

  /** An empty table lists nothing. */
  lemma NewestFirstOfEmpty<T>(m: map<nat, T>, keep: T -> bool, n: nat)
    requires m == map[]
    ensures NewestFirst(m, keep, n) == []
  {
    if n > 0 {
      NewestFirstOfEmpty(m, keep, n - 1);
    }
  }

  /** The rows a listing must contain, as a set of keys. */
  function Matching<T>(m: map<nat, T>, keep: T -> bool, n: nat): set<nat> {
    set k | k in m && k < n && keep(m[k])
  }

  /** A listing holds every matching row exactly once, so its length is the
      number of matching rows (what a `count()` query returns). */
  lemma {:induction false} NewestFirstCount<T>(m: map<nat, T>, keep: T -> bool, n: nat)
    ensures |NewestFirst(m, keep, n)| == |Matching(m, keep, n)|
    decreases n
  {
    if n > 0 {
      var below := Matching(m, keep, n - 1);
      NewestFirstCount(m, keep, n - 1);
      assert n - 1 !in below;
      if n - 1 in m && keep(m[n - 1]) {
        assert NewestFirst(m, keep, n) == [n - 1] + NewestFirst(m, keep, n - 1);
        assert Matching(m, keep, n) == below + {n - 1} by {
          forall k ensures k in Matching(m, keep, n) <==> k in below + {n - 1} {
          }
        }
        assert |below + {n - 1}| == |below| + 1;
      } else {
        assert NewestFirst(m, keep, n) == NewestFirst(m, keep, n - 1);
        assert Matching(m, keep, n) == below by {
          forall k ensures k in Matching(m, keep, n) <==> k in below {
          }
        }
      }
    }
  }

  /** `r` lists rows of `m` strictly newest first by `stamp`. */
  ghost predicate DescendingBy<T>(m: map<nat, T>, stamp: T -> int, r: seq<nat>) {
    && (forall i :: 0 <= i < |r| ==> r[i] in m)
    && (forall i, j :: 0 <= i < j < |r| && r[i] in m && r[j] in m ==> stamp(m[r[i]]) > stamp(m[r[j]]))
  }

  /** Stamps grow with the key: a later row was created later. */
  ghost predicate StampsFollowKeys<T>(m: map<nat, T>, stamp: T -> int) {
    forall i, j :: i in m && j in m && i < j ==> stamp(m[i]) < stamp(m[j])
  }

  /** When stamps grow with keys, listing by descending key is listing by descending stamp. */
  lemma NewestFirstDescending<T>(m: map<nat, T>, stamp: T -> int, keep: T -> bool, n: nat)
    requires StampsFollowKeys(m, stamp)
    ensures DescendingBy(m, stamp, NewestFirst(m, keep, n))
  {
  }

  /** Strictly stamp-descending listings with the same rows are the same
      sequence: the newest-first order is the only one. */
  lemma {:induction false} DescendingUnique<T>(m: map<nat, T>, stamp: T -> int, a: seq<nat>, b: seq<nat>)
    requires DescendingBy(m, stamp, a) && DescendingBy(m, stamp, b)
    requires forall k :: k in a <==> k in b
    ensures a == b
    decreases |a|
  {
    if |a| > 0 {
      assert a[0] in b;
    }
    if |b| > 0 {
      assert b[0] in a;
    }
    if |a| > 0 {
      var i :| 0 <= i < |a| && a[i] == b[0];
      var j :| 0 <= j < |b| && b[j] == a[0];
      assert stamp(m[a[0]]) >= stamp(m[b[0]]);
      assert stamp(m[b[0]]) >= stamp(m[a[0]]);
      assert i == 0;
      var a', b' := a[1..], b[1..];
      forall k | k in a' ensures k in b' {
        var t :| 1 <= t < |a| && a[t] == k;
        assert stamp(m[a[0]]) > stamp(m[k]);
        assert k in b;
        var u :| 0 <= u < |b| && b[u] == k;
        assert b'[u - 1] == k;
      }
      forall k | k in b' ensures k in a' {
        var t :| 1 <= t < |b| && b[t] == k;
        assert stamp(m[b[0]]) > stamp(m[k]);
        assert k in a;
        var u :| 0 <= u < |a| && a[u] == k;
        assert a'[u - 1] == k;
      }
      DescendingUnique(m, stamp, a', b');
      assert a == [a[0]] + a' && b == [b[0]] + b';
    }
  }
}
