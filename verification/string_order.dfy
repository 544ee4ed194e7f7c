/** Python's ordering of `str` values (code point by code point), and the
    sorted list of distinct keys that a pandas `groupby` produces. */
module StringOrder {

  /** `a < b` on Python strings: lexicographic on code points, a proper
      prefix coming first. */
  predicate Less(a: string, b: string)
    decreases |a|
  {
    if |a| == 0 then |b| > 0
    else if |b| == 0 then false
    else if a[0] != b[0] then a[0] < b[0]
    else Less(a[1..], b[1..])
  }

  lemma {:induction false} LessIrreflexive(a: string)
    ensures !Less(a, a)
    decreases |a|
  {
    if |a| > 0 {
      LessIrreflexive(a[1..]);
    }
  }

  lemma {:induction false} LessTransitive(a: string, b: string, c: string)
    requires Less(a, b) && Less(b, c)
    ensures Less(a, c)
    decreases |a|
  {
    if |a| > 0 && a[0] == b[0] && b[0] == c[0] {
      LessTransitive(a[1..], b[1..], c[1..]);
    }
  }

  /** Two different strings are ordered one way or the other. */
  lemma {:induction false} LessTotal(a: string, b: string)
    requires a != b
    ensures Less(a, b) || Less(b, a)
    decreases |a|
  {
    if |a| > 0 && |b| > 0 && a[0] == b[0] {
      assert a == [a[0]] + a[1..] && b == [b[0]] + b[1..];
      LessTotal(a[1..], b[1..]);
    }
  }

  lemma LessAsymmetric(a: string, b: string)
    requires Less(a, b)
    ensures !Less(b, a)
  {
    if Less(b, a) {
      LessTransitive(a, b, a);
      LessIrreflexive(a);
    }
  }

  predicate StrictlySorted(s: seq<string>) {
    forall i, j :: 0 <= i < j < |s| ==> Less(s[i], s[j])
  }

  /** Adds `x` to a sorted list of distinct strings, keeping it so. */
  function Insert(s: seq<string>, x: string): seq<string> {
    if |s| == 0 then [x]
    else if x == s[0] then s
    else if Less(x, s[0]) then [x] + s
    else [s[0]] + Insert(s[1..], x)
  }

  lemma {:induction false} InsertSpec(s: seq<string>, x: string)
    requires StrictlySorted(s)
    ensures StrictlySorted(Insert(s, x))
    ensures forall y :: y in Insert(s, x) <==> y in s || y == x
  {
    if |s| > 0 && x != s[0] {
      if Less(x, s[0]) {
        var r := [x] + s;
        forall i, j | 0 <= i < j < |r| ensures Less(r[i], r[j]) {
          if i == 0 && j > 1 {
            LessTransitive(x, s[0], s[j - 1]);
          }
        }
      } else {
        LessTotal(x, s[0]);
        var t := Insert(s[1..], x);
        InsertSpec(s[1..], x);
        var r := [s[0]] + t;
        forall i, j | 0 <= i < j < |r| ensures Less(r[i], r[j]) {
          if i == 0 {
            assert r[j] in t;
            if r[j] != x {
              var k :| 1 <= k < |s| && s[k] == r[j];
            }
          }
        }
        assert s == [s[0]] + s[1..];
      }
    }
  }

  /** The distinct values of `data` in ascending order: the keys of
      `groupby` with its default `sort=True`. */
  function SortedKeys(data: seq<string>): seq<string> {
    if |data| == 0 then []
    else Insert(SortedKeys(data[..|data| - 1]), data[|data| - 1])
  }

  /** The keys are sorted, and they are exactly the values of `data`. */
  lemma {:induction false} SortedKeysSpec(data: seq<string>)
    ensures StrictlySorted(SortedKeys(data))
    ensures forall y :: y in SortedKeys(data) <==> y in data
  {
    if |data| > 0 {
      var p := data[..|data| - 1];
      SortedKeysSpec(p);
      InsertSpec(SortedKeys(p), data[|data| - 1]);
      assert data == p + [data[|data| - 1]];
    }
  }

  /** The position of `x` in a list that holds it. */
  function Index(s: seq<string>, x: string): (i: nat)
    requires x in s
    ensures i < |s| && s[i] == x
  {
    if s[0] == x then 0 else 1 + Index(s[1..], x)
  }

  /** The values a list holds. */
  function Elements(s: seq<string>): set<string> {
    set y | y in s
  }

  /** The number of elements of `keys` that sort before `x`: the position
      `x` takes in `keys` once sorted. */
  function Rank(keys: set<string>, x: string): nat {
    |set m | m in keys && Less(m, x)|
  }

  /** A list without repeated elements holds as many values as it is long. */
  lemma {:induction false} DistinctCard(s: seq<string>)
    requires forall i, j :: 0 <= i < j < |s| ==> s[i] != s[j]
    ensures |Elements(s)| == |s|
  {
    if |s| > 0 {
      var p := s[..|s| - 1];
      DistinctCard(p);
      assert Elements(s) == Elements(p) + {s[|s| - 1]};
    }
  }

  /** In a sorted list of distinct strings, the element at `i` has rank `i`
      among the list's elements. */
  lemma SortedIndexIsRank(s: seq<string>, i: nat)
    requires StrictlySorted(s) && i < |s|
    ensures Rank(Elements(s), s[i]) == i
  {
    var below := set m | m in Elements(s) && Less(m, s[i]);
    var prefix := s[..i];
    forall m ensures m in below <==> m in prefix {
      if m in below {
        var j :| 0 <= j < |s| && s[j] == m;
        if j >= i {
          if j == i { LessIrreflexive(m); } else { LessAsymmetric(s[i], s[j]); }
        }
        assert prefix[j] == m;
      }
      if m in prefix {
        var j :| 0 <= j < i && prefix[j] == m;
        assert s[j] == m;
      }
    }
    forall a, b | 0 <= a < b < |prefix| ensures prefix[a] != prefix[b] {
      LessIrreflexive(prefix[a]);
    }
    DistinctCard(prefix);
    assert below == Elements(prefix);
  }
}
