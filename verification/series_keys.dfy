/** The first and last key of a series: what `Keys.First()` and
    `Keys.Last()` give on a `SortedDictionary` keyed by instant. */
module SeriesKeys {
  import U = UtcDateTimes

  /** Every non-empty set of instants has an earliest one. */
  lemma {:induction false} EarliestExists(s: set<U.UtcDateTime>)
    requires s != {}
    ensures exists m :: m in s && forall u :: u in s ==> m.Ticks <= u.Ticks
    decreases |s|
  {
    var x :| x in s;
    if s != {x} {
      EarliestExists(s - {x});
      var m :| m in s - {x} && forall u :: u in s - {x} ==> m.Ticks <= u.Ticks;
      if x.Ticks < m.Ticks {
        assert forall u :: u in s ==> x.Ticks <= u.Ticks;
      } else {
        assert forall u :: u in s ==> m.Ticks <= u.Ticks;
      }
    }
  }

  /** Every non-empty set of instants has a latest one. */
  lemma {:induction false} LatestExists(s: set<U.UtcDateTime>)
    requires s != {}
    ensures exists m :: m in s && forall u :: u in s ==> u.Ticks <= m.Ticks
    decreases |s|
  {
    var x :| x in s;
    if s != {x} {
      LatestExists(s - {x});
      var m :| m in s - {x} && forall u :: u in s - {x} ==> u.Ticks <= m.Ticks;
      if m.Ticks < x.Ticks {
        assert forall u :: u in s ==> u.Ticks <= x.Ticks;
      } else {
        assert forall u :: u in s ==> u.Ticks <= m.Ticks;
      }
    }
  }

  function Earliest(s: set<U.UtcDateTime>): (m: U.UtcDateTime)
    requires s != {}
    ensures m in s && forall u :: u in s ==> m.Ticks <= u.Ticks
  {
    EarliestExists(s);
    var m :| m in s && forall u :: u in s ==> m.Ticks <= u.Ticks;
    m
  }

  function Latest(s: set<U.UtcDateTime>): (m: U.UtcDateTime)
    requires s != {}
    ensures m in s && forall u :: u in s ==> u.Ticks <= m.Ticks
  {
    LatestExists(s);
    var m :| m in s && forall u :: u in s ==> u.Ticks <= m.Ticks;
    m
  }

  /** The second key: the earliest of the others. */
  function Second(s: set<U.UtcDateTime>): (m: U.UtcDateTime)
    requires |s| >= 2
    ensures m in s && Earliest(s).Ticks < m.Ticks
    ensures forall u :: u in s && u != Earliest(s) ==> m.Ticks <= u.Ticks
  {
    var first := Earliest(s);
    assert |s - {first}| == |s| - 1;
    Earliest(s - {first})
  }

  /** The sum of the values of `m` at the keys `ks`, taken in key order. */
  function SumAt(m: map<U.UtcDateTime, int>, ks: set<U.UtcDateTime>): int
    requires ks <= m.Keys
    decreases |ks|
  {
    if ks == {} then 0
    else
      var k := Earliest(ks);
      m[k] + SumAt(m, ks - {k})
  }

  /** The sum of all the values of a map keyed by instant. */
  function Total(m: map<U.UtcDateTime, int>): int {
    SumAt(m, m.Keys)
  }

  /** The sum can be taken apart at any key, not only the earliest. */
  lemma {:induction false} SumAtKey(m: map<U.UtcDateTime, int>, ks: set<U.UtcDateTime>, k: U.UtcDateTime)
    requires ks <= m.Keys && k in ks
    ensures SumAt(m, ks) == m[k] + SumAt(m, ks - {k})
    decreases |ks|
  {
    var e := Earliest(ks);
    if e != k {
      var rest := ks - {e} - {k};
      assert SumAt(m, ks) == m[e] + SumAt(m, ks - {e});
      assert SumAt(m, ks - {e}) == m[k] + SumAt(m, rest) by {
        SumAtKey(m, ks - {e}, k);
      }
      assert SumAt(m, ks - {k}) == m[e] + SumAt(m, rest) by {
        SumAtKey(m, ks - {k}, e);
        assert ks - {k} - {e} == rest;
      }
    }
  }

  /** The sum at keys where two maps agree is the same for both. */
  lemma {:induction false} SumAtFrame(m: map<U.UtcDateTime, int>, n: map<U.UtcDateTime, int>, ks: set<U.UtcDateTime>)
    requires ks <= m.Keys && ks <= n.Keys
    requires forall k :: k in ks ==> m[k] == n[k]
    ensures SumAt(m, ks) == SumAt(n, ks)
    decreases |ks|
  {
    if ks != {} {
      SumAtFrame(m, n, ks - {Earliest(ks)});
    }
  }

  /** Setting one key changes the sum by the difference. */
  lemma TotalUpdate(m: map<U.UtcDateTime, int>, k: U.UtcDateTime, v: int)
    ensures Total(m[k := v]) == Total(m) - (if k in m then m[k] else 0) + v
  {
    var n := m[k := v];
    var others := m.Keys - {k};
    SumAtKey(n, n.Keys, k);
    assert n.Keys - {k} == others;
    SumAtFrame(m, n, others);
    if k in m {
      SumAtKey(m, m.Keys, k);
    } else {
      assert m.Keys == others;
    }
  }
}
