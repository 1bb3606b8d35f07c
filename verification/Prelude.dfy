/** Bytes, option and result types, and the two facts about ordered maps that the rest of
    the project rests on: keys have one iteration order, and a sum over a map does
    not depend on it. */
module Prelude {

  type byte = bv8

  datatype Option<+T> = None | Some(value: T)

  /** An error carries the HTTP status and the error type; message text is not modelled. */
  datatype StoreError = StoreError(status: nat, errorType: string)

  datatype Result<+T> = Ok(value: T) | Err(error: StoreError)

  // ----- String order: code point order, which is the byte order of UTF-8 -----

  predicate AtMost(a: string, b: string) {
    a == [] || (b != [] && (a[0] < b[0] || (a[0] == b[0] && AtMost(a[1..], b[1..]))))
  }

  predicate Less(a: string, b: string) {
    AtMost(a, b) && a != b
  }

  /** It is the order of a dictionary. */
  lemma {:induction false} AtMostExactlyWhen(a: string, b: string)
    ensures AtMost(a, b) <==> a <= b || exists k: nat :: DecidesAt(a, b, k)
  {
    if a != [] && b != [] && a[0] == b[0] {
      AtMostExactlyWhen(a[1..], b[1..]);
      assert a == [a[0]] + a[1..] && b == [b[0]] + b[1..];
      if k: nat :| DecidesAt(a[1..], b[1..], k) {
        assert a[..k + 1] == [a[0]] + a[1..][..k] && b[..k + 1] == [b[0]] + b[1..][..k];
        assert DecidesAt(a, b, k + 1);
      }
      if k: nat :| DecidesAt(a, b, k) {
        assert k > 0;
        assert a[1..][..k - 1] == a[..k][1..] && b[1..][..k - 1] == b[..k][1..];
        assert DecidesAt(a[1..], b[1..], k - 1);
      }
    } else if a != [] && b != [] && a[0] < b[0] {
      assert DecidesAt(a, b, 0);
    }
  }

  /** The two strings first differ at `k`, where the first one has the lower character. */
  predicate DecidesAt(a: string, b: string, k: nat) {
    k < |a| && k < |b| && a[..k] == b[..k] && a[k] < b[k]
  }

  lemma {:induction false} AtMostTotal(a: string, b: string)
    ensures AtMost(a, b) || AtMost(b, a)
    ensures AtMost(a, a)
  {
    if a != [] {
      AtMostTotal(a[1..], if b == [] then [] else b[1..]);
    }
  }

  lemma {:induction false} AtMostAntisymmetric(a: string, b: string)
    requires AtMost(a, b) && AtMost(b, a)
    ensures a == b
  {
    if a != [] {
      AtMostAntisymmetric(a[1..], b[1..]);
      assert a == [a[0]] + a[1..] && b == [b[0]] + b[1..];
    }
  }

  lemma {:induction false} AtMostTransitive(a: string, b: string, c: string)
    requires AtMost(a, b) && AtMost(b, c)
    ensures AtMost(a, c)
  {
    if a != [] && a[0] == b[0] == c[0] {
      AtMostTransitive(a[1..], b[1..], c[1..]);
    }
  }

  predicate IsLeast(k: string, s: set<string>) {
    k in s && forall j :: j in s ==> AtMost(k, j)
  }

  lemma {:induction false} LeastExists(s: set<string>)
    requires s != {}
    ensures exists k :: IsLeast(k, s)
    decreases |s|
  {
    var x :| x in s;
    if s == {x} {
      AtMostTotal(x, x);
      assert IsLeast(x, s);
    } else {
      LeastExists(s - {x});
      var y :| IsLeast(y, s - {x});
      AtMostTotal(x, y);
      AtMostTotal(x, x);
      if AtMost(x, y) {
        forall j | j in s ensures AtMost(x, j) {
          if j != x { AtMostTransitive(x, y, j); }
        }
        assert IsLeast(x, s);
      } else {
        assert IsLeast(y, s);
      }
    }
  }

  lemma LeastUnique(s: set<string>)
    ensures forall a, b :: IsLeast(a, s) && IsLeast(b, s) ==> a == b
  {
    forall a, b | IsLeast(a, s) && IsLeast(b, s) ensures a == b {
      AtMostAntisymmetric(a, b);
    }
  }

  function Least(s: set<string>): (k: string)
    requires s != {}
    ensures k in s
  {
    LeastExists(s);
    LeastUnique(s);
    var k :| k in s && IsLeast(k, s);
    k
  }

  lemma LeastIsLeast(s: set<string>, j: string)
    requires j in s
    ensures AtMost(Least(s), j)
  {
    LeastExists(s);
    LeastUnique(s);
  }

  /** The keys of an ordered map or set, in iteration order. */
  function InOrder(s: set<string>): (keys: seq<string>)
    ensures |keys| == |s|
    ensures forall k :: k in keys <==> k in s
    decreases |s|
  {
    if s == {} then [] else
    var k := Least(s);
    [k] + InOrder(s - {k})
  }

  lemma {:induction false} InOrderAscends(s: set<string>)
    ensures forall i, j :: 0 <= i < j < |InOrder(s)| ==> Less(InOrder(s)[i], InOrder(s)[j])
    decreases |s|
  {
    if s != {} {
      var k := Least(s);
      var rest := InOrder(s - {k});
      InOrderAscends(s - {k});
      forall j | 0 <= j < |rest| ensures Less(k, rest[j]) {
        assert rest[j] in s - {k};
        LeastIsLeast(s, rest[j]);
      }
    }
  }

  /** Documents in the order of their indexes, and in one index of their ids. */
  ghost predicate Precedes(index: string, id: string, otherIndex: string, otherId: string) {
    Less(index, otherIndex) || (index == otherIndex && Less(id, otherId))
  }

  // ----- Sizes and sums of maps -----

  lemma MapSizes<T>(m: map<string, T>, k: string, v: T)
    ensures |m[k := v]| == |m| + if k in m then 0 else 1
    ensures |m - {k}| == |m| - if k in m then 1 else 0
  {
    assert m[k := v].Keys == m.Keys + {k};
    assert (m - {k}).Keys == m.Keys - {k};
  }

  function MapSum<T>(m: map<string, T>, f: (string, T) -> nat): nat
    decreases |m|
  {
    if m.Keys == {} then 0 else
    var k := Least(m.Keys);
    f(k, m[k]) + MapSum(m - {k}, f)
  }

  /** Any key may be summed first. */
  lemma {:induction false} MapSumRemove<T>(m: map<string, T>, k: string, f: (string, T) -> nat)
    requires k in m
    ensures MapSum(m, f) == f(k, m[k]) + MapSum(m - {k}, f)
    decreases |m|
  {
    var l := Least(m.Keys);
    if l != k {
      assert |m - {l}| == |m| - 1;
      assert |m - {k}| == |m| - 1;
      MapSumRemove(m - {l}, k, f);
      MapSumRemove(m - {k}, l, f);
      assert m - {l} - {k} == m - {k} - {l};
    }
  }

  lemma MapSumInsert<T>(m: map<string, T>, k: string, v: T, f: (string, T) -> nat)
    ensures MapSum(m[k := v], f) == f(k, v) + MapSum(m - {k}, f)
    ensures k !in m ==> m - {k} == m
    ensures k in m ==> MapSum(m, f) == f(k, m[k]) + MapSum(m - {k}, f)
  {
    MapSumRemove(m[k := v], k, f);
    assert m[k := v] - {k} == m - {k};
    if k in m {
      MapSumRemove(m, k, f);
    }
  }

  lemma InsertBound<T>(m: map<string, T>, k: string, v: T, f: (string, T) -> nat)
    ensures |m[k := v]| <= |m| + 1
    ensures MapSum(m[k := v], f) <= MapSum(m, f) + f(k, v)
  {
    MapSumInsert(m, k, v, f);
    assert m[k := v].Keys == m.Keys + {k};
  }

  lemma {:induction false} MapSumMonotone<T>(m: map<string, T>, n: map<string, T>, f: (string, T) -> nat)
    requires m.Keys == n.Keys
    requires forall k :: k in m ==> f(k, m[k]) <= f(k, n[k])
    ensures MapSum(m, f) <= MapSum(n, f)
    decreases |m|
  {
    if m.Keys != {} {
      var k := Least(m.Keys);
      MapSumMonotone(m - {k}, n - {k}, f);
    }
  }

  ghost predicate SubMap<T>(m: map<string, T>, n: map<string, T>) {
    forall k :: k in m ==> k in n && m[k] == n[k]
  }

  /** Part of a map has no more entries and no larger sum. */
  lemma {:induction false} MapSumPart<T>(m: map<string, T>, n: map<string, T>, f: (string, T) -> nat)
    requires SubMap(m, n)
    ensures |m| <= |n| && MapSum(m, f) <= MapSum(n, f)
    decreases |n|
  {
    if n.Keys == {} {
      assert m.Keys == {};
    } else {
      var k := Least(n.Keys);
      assert |n - {k}| == |n| - 1;
      if k in m {
        assert |m - {k}| == |m| - 1;
        MapSumRemove(m, k, f);
        MapSumPart(m - {k}, n - {k}, f);
      } else {
        MapSumPart(m, n - {k}, f);
      }
    }
  }

  /** Adds up a map one entry at a time, in key order. */
  method SumEntries<T>(m: map<string, T>, f: (string, T) -> nat) returns (total: nat)
    ensures total == MapSum(m, f)
  {
    total := 0;
    var rest := m;
    while rest.Keys != {}
      invariant total + MapSum(rest, f) == MapSum(m, f)
      decreases |rest|
    {
      var k := Least(rest.Keys);
      total := total + f(k, rest[k]);
      rest := rest - {k};
    }
  }
}
