/**
 * Sequence unwrapping over whole runs. Packets carry true indices reduced modulo 2^16; the tracker
 * recovers them, up to one constant multiple of 2^16, exactly when every arrival is strictly within half
 * the sequence space of the highest index before it, or at exactly half of it on the side that the code
 * resolves it to.
 */
module StreamOrder {
  import opened ExtSeqs
  import opened StreamHistory

  ghost predicate Carries(h: History, t: seq<int>) {
    |h| == |t| && forall i :: 0 <= i < |t| ==> h[i].packet.sequenceNumber == t[i] % 0x1_0000
  }

  /** The multiple of 2^16 the tracker cannot know about: the cycles before the first arrival. */
  function Origin(t: seq<int>): (off: int)
    requires t != []
    ensures off % 0x1_0000 == 0
  {
    t[0] - t[0] % 0x1_0000
  }

  /**
   * The indices that can be told apart from their aliases against the high-water mark `high`: those
   * strictly within half the sequence space, and one of the two at exactly half of it.
   */
  predicate Recoverable(high: int, x: int) {
    || -0x8000 < x - high < 0x8000
    || (x - high == 0x8000 && high % 0x1_0000 < 0x8000)
    || (x - high == -0x8000 && high % 0x1_0000 >= 0x8000)
  }

  predicate InWindow(t: seq<int>) {
    forall i :: 0 < i < |t| ==> Recoverable(Max(t[..i]), t[i])
  }

  /** Every arrival strictly within half the sequence space of the highest index before it. */
  predicate HalfWindow(t: seq<int>) {
    forall i :: 0 < i < |t| ==> -0x8000 < t[i] - Max(t[..i]) < 0x8000
  }

  lemma HalfWindowIsInWindow(t: seq<int>)
    requires HalfWindow(t)
    ensures InWindow(t)
  {
  }

  /** One step of unwrapping is right exactly on the recoverable indices. */
  lemma UnwrapExact(high: nat, x: int)
    ensures Unwrap(high, x % 0x1_0000) == x <==> Recoverable(high, x)
  {
  }

  /** A step of exactly half the sequence space that goes wrong: 2^16 after 2^15 is taken for 0. */
  lemma HalfIsMisread()
    ensures Unwrap(0x8000, 0x1_0000 % 0x1_0000) == 0 && !InWindow([0x8000, 0x1_0000])
  {
    var t := [0x8000, 0x1_0000];
    assert t[..1] == [0x8000];
    assert !Recoverable(Max(t[..1]), t[1]);
  }

  lemma RecoverableShift(high: int, x: int, cycles: int)
    requires cycles % 0x1_0000 == 0
    ensures Recoverable(high - cycles, x - cycles) <==> Recoverable(high, x)
    ensures (x - cycles) % 0x1_0000 == x % 0x1_0000
  {
  }

  ghost predicate Shifted(e: seq<int>, t: seq<int>, off: int) {
    |e| == |t| && forall i :: 0 <= i < |t| ==> e[i] == t[i] - off
  }

  lemma MaxShift(e: seq<int>, t: seq<int>, off: int)
    requires e != [] && Shifted(e, t, off)
    ensures Max(e) == Max(t) - off
  {
    var i :| 0 <= i < |t| && t[i] == Max(t);
    var j :| 0 <= j < |e| && e[j] == Max(e);
    assert e[i] <= Max(e) && t[j] <= Max(t);
  }

  lemma InWindowInit(t: seq<int>)
    requires |t| > 1
    ensures InWindow(t) <==> InWindow(Init(t)) && Recoverable(Max(Init(t)), Last(t))
  {
    forall i | 0 < i < |t| - 1 ensures Init(t)[..i] == t[..i] {
    }
    assert t[..|t| - 1] == Init(t);
  }

  lemma ExtsStep(h: History)
    requires |h| > 1
    ensures Init(Exts(h)) == Exts(Init(h))
    ensures Exts(Init(h)) != [] && Max(Exts(Init(h))) >= 0
    ensures Last(Exts(h)) == Unwrap(Max(Exts(Init(h))), Last(h).packet.sequenceNumber)
  {
  }

  lemma ShiftedInit(e: seq<int>, t: seq<int>, off: int)
    requires |e| == |t| > 0
    ensures Shifted(e, t, off) <==> Shifted(Init(e), Init(t), off) && Last(e) == Last(t) - off
  {
    if Shifted(Init(e), Init(t), off) && Last(e) == Last(t) - off {
      forall i | 0 <= i < |t| ensures e[i] == t[i] - off {
        if i < |t| - 1 { assert Init(e)[i] == Init(t)[i] - off; }
      }
    }
  }

  /** The last number of a run is right exactly when its index was recoverable, if those before it were right. */
  lemma LastIsTrue(h: History, t: seq<int>, off: int)
    requires |t| > 1 && Carries(h, t) && off % 0x1_0000 == 0
    requires Shifted(Exts(Init(h)), Init(t), off)
    ensures Last(Exts(h)) == Last(t) - off <==> Recoverable(Max(Init(t)), Last(t))
  {
    hide Max, Unwrap, Recoverable;
    var high := Max(Exts(Init(h)));
    ExtsStep(h);
    MaxShift(Exts(Init(h)), Init(t), off);
    RecoverableShift(Max(Init(t)), Last(t), off);
    UnwrapExact(high, Last(t) - off);
  }

  /** Over a whole run, every number is unwrapped to its true index exactly when the run stays in the window. */
  lemma {:induction false} ExtsAreTrue(h: History, t: seq<int>)
    requires t != [] && Carries(h, t)
    ensures Shifted(Exts(h), t, Origin(t)) <==> InWindow(t)
  {
    hide Max, Unwrap, Recoverable;
    if |t| == 1 {
      assert Exts(h)[0] == t[0] - Origin(t);
    } else {
      var off := Origin(t);
      assert Origin(Init(t)) == off;
      hide Exts, InWindow, Shifted, Origin, Carries;
      assert Carries(Init(h), Init(t)) by { CarriesInit(h, t); }
      ExtsAreTrue(Init(h), Init(t));
      InWindowInit(t);
      ExtsStep(h);
      ShiftedInit(Exts(h), t, off);
      if Shifted(Exts(Init(h)), Init(t), off) { LastIsTrue(h, t, off); }
    }
  }

  lemma CarriesInit(h: History, t: seq<int>)
    requires t != [] && Carries(h, t)
    ensures h != [] && Carries(Init(h), Init(t))
  {
  }

  lemma FirstAtShift(e: seq<int>, t: seq<int>, off: int, x: int)
    requires Shifted(e, t, off) && x in t
    ensures x - off in e && FirstAt(e, x - off) == FirstAt(t, x)
  {
    var i := FirstAt(t, x);
    assert e[i] == x - off;
    var j := FirstAt(e, x - off);
    assert t[j] == x;
  }

  /** The sorted numbers seen are the true indices, each less the offset. */
  lemma ListedIndices(e: seq<ExtSeq>, t: seq<int>, off: int) returns (u: seq<int>)
    requires Shifted(e, t, off)
    ensures Increasing(u) && forall x :: x in u <==> x in t
    ensures Shifted(Sorted(Seen(e)), u, off)
  {
    var order := Sorted(Seen(e));
    u := seq(|order|, i requires 0 <= i < |order| => order[i] + off);
    forall x ensures x in u <==> x in t {
      if x in u {
        var k :| 0 <= k < |u| && u[k] == x;
        assert order[k] in order;
        var i :| 0 <= i < |e| && e[i] == order[k];
        assert t[i] == x;
      }
      if x in t {
        var i :| 0 <= i < |t| && t[i] == x;
        assert e[i] in order;
        var k :| 0 <= k < |order| && order[k] == e[i];
        assert u[k] == x;
      }
    }
  }

  lemma OrderIsTrueOrder(e: seq<ExtSeq>, t: seq<int>, off: int, u: seq<int>)
    requires Shifted(e, t, off)
    requires Increasing(u) && forall x :: x in u <==> x in t
    ensures Shifted(Sorted(Seen(e)), u, off)
  {
    hide Shifted, Increasing;
    var v := ListedIndices(e, t, off);
    IncreasingIsUnique(v, u);
  }

  /**
   * The reordered output of a run in the window lists the true indices `u` once each and in order,
   * each with the first packet that arrived for it.
   */
  lemma OrderedRecoversTrueOrder(h: History, t: seq<int>, u: seq<int>)
    requires t != [] && Carries(h, t) && InWindow(t)
    requires Increasing(u) && forall x :: x in u <==> x in t
    ensures |Ordered(h)| == |u|
    ensures forall k :: 0 <= k < |u| ==> u[k] in t && Ordered(h)[k] == h[FirstAt(t, u[k])].packet
  {
    hide Exts, Sorted, Seen, Max, Unwrap, InWindow, FirstAt, Increasing;
    var e, off := Exts(h), Origin(t);
    ExtsAreTrue(h, t);
    OrderIsTrueOrder(e, t, off, u);
    forall k | 0 <= k < |u| ensures u[k] in t && Ordered(h)[k] == h[FirstAt(t, u[k])].packet {
      assert u[k] in u;
      FirstAtShift(e, t, off, u[k]);
    }
  }

  /**
   * Arrival order does not matter: two runs over the same true indices, in any orders and with any
   * repetitions that stay in the window, give the same packets in the same order, even when they start
   * from different packets and so extend by different constants.
   */
  lemma ArrivalOrderIsIrrelevant(h: History, t: seq<int>, g: History, s: seq<int>)
    requires t != [] && Carries(h, t) && InWindow(t)
    requires s != [] && Carries(g, s) && InWindow(s)
    requires forall x :: x in t <==> x in s
    requires forall i, j :: 0 <= i < |t| && 0 <= j < |s| && t[i] == s[j] ==> h[i].packet == g[j].packet
    ensures Ordered(h) == Ordered(g)
  {
    hide Exts, Max, Unwrap, InWindow, FirstAt, Ordered, Increasing;
    ExtsAreTrue(h, t);
    var u := ListedIndices(Exts(h), t, Origin(t));
    OrderedRecoversTrueOrder(h, t, u);
    OrderedRecoversTrueOrder(g, s, u);
  }

  lemma ShiftedMembers(e: seq<ExtSeq>, t: seq<int>, off: int)
    requires Shifted(e, t, off)
    ensures forall x: ExtSeq :: x in e <==> x + off in t
  {
    forall x: ExtSeq ensures x in e <==> x + off in t {
      if x in e { var i :| 0 <= i < |e| && e[i] == x; assert t[i] == x + off; }
      if x + off in t { var i :| 0 <= i < |t| && t[i] == x + off; assert e[i] == x; }
    }
  }

  lemma LossShift(e: seq<ExtSeq>, t: seq<int>, off: int, x: ExtSeq)
    requires t != [] && Shifted(e, t, off)
    ensures x in Missing(e) <==> t[0] <= x + off <= Max(t) && x + off !in t
    ensures x in Early(e) <==> x + off in t && x + off < t[0]
  {
    hide Max, Range;
    MaxShift(e, t, off);
    ShiftedMembers(e, t, off);
  }

  /** The loss count of a run in the window: true indices missed since the first one, less those that came before it. */
  lemma LossIsTrueLoss(h: History, t: seq<int>, ssrc: int)
    requires t != [] && Carries(h, t) && InWindow(t)
    ensures var stats := StatsOf(h, ssrc);
            stats.expectedCount == Max(t) - t[0] + 1
            && 0 <= stats.lostCount < stats.expectedCount
            && stats.lostCount == AtLeastZero(|Missing(Exts(h))| - |Early(Exts(h))|)
            && stats.highestExtended - stats.firstExtended == Max(t) - t[0]
    ensures forall x: ExtSeq {:trigger x in Missing(Exts(h))} ::
      x in Missing(Exts(h)) <==> t[0] <= x + Origin(t) <= Max(t) && x + Origin(t) !in t
    ensures forall x: ExtSeq {:trigger x in Early(Exts(h))} ::
      x in Early(Exts(h)) <==> x + Origin(t) in t && x + Origin(t) < t[0]
  {
    hide Exts, Max, Unwrap, InWindow, Jitter, Duplicates, OutOfOrder, Range, Missing, Early, Origin, Shifted;
    var e, off := Exts(h), Origin(t);
    ExtsAreTrue(h, t);
    MaxShift(e, t, off);
    LossAccounting(e);
    assert e[0] == t[0] - off by { ShiftedFirst(e, t, off); }
    forall x: ExtSeq {
      LossShift(e, t, off, x);
    }
  }

  lemma ShiftedFirst(e: seq<int>, t: seq<int>, off: int)
    requires t != [] && Shifted(e, t, off)
    ensures e[0] == t[0] - off
  {
  }

  lemma {:induction false} BelowShift(e: seq<int>, t: seq<int>, off: int)
    requires Shifted(e, t, off)
    ensures Below(e) == Below(t)
  {
    if |e| > 1 {
      ShiftedInit(e, t, off);
      BelowShift(Init(e), Init(t), off);
      MaxShift(Init(e), Init(t), off);
    }
  }

  lemma RepeatsShift(e: seq<int>, t: seq<int>, off: int)
    requires Shifted(e, t, off)
    ensures RepeatsOnlyHighest(e) <==> RepeatsOnlyHighest(t)
  {
    forall i | 0 < i < |e|
      ensures Max(e[..i]) == Max(t[..i]) - off && (e[i] in e[..i] <==> t[i] in t[..i])
    {
      MaxShift(e[..i], t[..i], off);
      if e[i] in e[..i] {
        var k :| 0 <= k < i && e[k] == e[i];
        assert t[..i][k] == t[i];
      }
      if t[i] in t[..i] {
        var k :| 0 <= k < i && t[k] == t[i];
        assert e[..i][k] == e[i];
      }
    }
  }

  /**
   * The out-of-order count of a run in the window: never more than the true indices that arrived below the
   * highest before them, and all of those exactly when none of them was a repeat.
   */
  lemma OutOfOrderIsTrue(h: History, t: seq<int>, ssrc: int)
    requires t != [] && Carries(h, t) && InWindow(t)
    ensures StatsOf(h, ssrc).outOfOrderCount <= Below(t)
    ensures StatsOf(h, ssrc).outOfOrderCount == Below(t) <==> RepeatsOnlyHighest(t)
  {
    hide Exts, Max, InWindow, Jitter, Duplicates, OutOfOrder, Below, Range, Missing, Early, Origin, Shifted,
         RepeatsOnlyHighest;
    ExtsAreTrue(h, t);
    BelowShift(Exts(h), t, Origin(t));
    RepeatsShift(Exts(h), t, Origin(t));
    OutOfOrderAsDocumented(Exts(h));
  }
}
