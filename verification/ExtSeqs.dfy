/** Extended sequence numbers: maxima of arrival orders, sorted listings and sizes of sets of them. */
module ExtSeqs {

  /**
   * An unwrapped sequence number. It can fall below zero, when a packet arrives before the first one's
   * turn, but never by more than half the 16-bit space.
   */
  type ExtSeq = n: int | -0x8000 <= n

  function Max(s: seq<int>): (m: int)
    requires s != []
    ensures m in s
    ensures forall i :: 0 <= i < |s| ==> s[i] <= m
  {
    var last := s[|s| - 1];
    if |s| == 1 then last else
      var m := Max(s[..|s| - 1]);
      if last > m then last else m
  }

  predicate Increasing(s: seq<int>) {
    forall i, j :: 0 <= i < j < |s| ==> s[i] < s[j]
  }

  ghost predicate Lists(r: seq<ExtSeq>, s: set<ExtSeq>) {
    Increasing(r) && |r| == |s| && forall x: ExtSeq :: x in r <==> x in s
  }

  predicate Smallest(m: ExtSeq, s: set<ExtSeq>) {
    m in s && forall x: ExtSeq :: x in s ==> m <= x
  }

  lemma {:induction false} SmallestExists(s: set<ExtSeq>)
    requires s != {}
    ensures exists m: ExtSeq :: Smallest(m, s)
    decreases |s|
  {
    var y :| y in s;
    if !Smallest(y, s) {
      var x: ExtSeq :| x in s && x < y;
      var below := s - {y};
      assert x in below;
      SmallestExists(below);
      var m: ExtSeq :| Smallest(m, below);
      assert m <= x < y;
      forall z: ExtSeq | z in s ensures m <= z {
        if z != y { assert z in below; }
      }
      assert Smallest(m, s);
    }
  }

  lemma SmallestFirst(m: ExtSeq, s: set<ExtSeq>, rest: seq<ExtSeq>)
    requires Smallest(m, s) && Lists(rest, s - {m})
    ensures Lists([m] + rest, s)
  {
    var r := [m] + rest;
    forall i, j | 0 <= i < j < |r| ensures r[i] < r[j] {
      assert r[j] == rest[j - 1] && r[j] in rest;
    }
    assert forall x: ExtSeq :: x in r <==> x == m || x in rest;
  }

  /** `sorted(s)`. */
  function Sorted(s: set<ExtSeq>): (r: seq<ExtSeq>)
    ensures Lists(r, s)
    decreases |s|
  {
    if s == {} then [] else
      SmallestExists(s);
      var m: ExtSeq :| Smallest(m, s);
      var rest := Sorted(s - {m});
      SmallestFirst(m, s, rest);
      [m] + rest
  }

  /** A set has one increasing listing. */
  lemma {:induction false} IncreasingIsUnique(a: seq<int>, b: seq<int>)
    requires Increasing(a) && Increasing(b)
    requires forall x :: x in a <==> x in b
    ensures a == b
  {
    assert a != [] ==> a[0] in a;
    assert b != [] ==> b[0] in b;
    if a != [] {
      var i :| 0 <= i < |b| && b[i] == a[0];
      var j :| 0 <= j < |a| && a[j] == b[0];
      forall x ensures x in a[1..] <==> x in b[1..] {
        assert x in a[1..] <==> x in a && x != a[0];
        assert x in b[1..] <==> x in b && x != b[0];
      }
      IncreasingIsUnique(a[1..], b[1..]);
    }
  }

  /** The numbers from `lo` to `hi`. */
  function Range(lo: ExtSeq, hi: int): (r: set<ExtSeq>)
    ensures forall x: ExtSeq :: x in r <==> lo <= x <= hi
    ensures |r| == if lo <= hi then hi - lo + 1 else 0
    decreases hi - lo
  {
    if lo > hi then {} else Range(lo, hi - 1) + {hi}
  }
}
