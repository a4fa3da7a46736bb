/** Ranges of integers as sets, and the sizes of sets. */
module Sets {
  /** A name for the numbers in a range, for quantifiers to match on. */
  ghost predicate Here(j: int) { true }

  ghost function Range(lo: int, hi: int): set<int> {
    set j: int | lo <= j < hi && Here(j)
  }

  lemma RangeEmpty(lo: int)
    ensures Range(lo, lo) == {}
  {
  }

  lemma RangeNext(lo: int, hi: int, total: int)
    requires 0 <= lo <= hi
    ensures Range(lo, hi + 1) == Range(lo, hi) + {hi}
    ensures Range(lo, hi + 1) * Range(0, total) == Range(lo, hi) * Range(0, total) + (if hi < total then {hi} else {})
  {
  }

  lemma {:induction false} RangeSize(lo: int, hi: int)
    requires lo <= hi
    ensures |Range(lo, hi)| == hi - lo
    decreases hi - lo
  {
    if lo < hi {
      RangeSize(lo, hi - 1);
      assert Range(lo, hi) == Range(lo, hi - 1) + {hi - 1};
    }
  }

  lemma {:induction false} SubsetSize<T>(a: set<T>, b: set<T>)
    requires a <= b
    ensures |a| <= |b| && (|a| == |b| ==> a == b)
  {
    if a != {} {
      var x :| x in a;
      SubsetSize(a - {x}, b - {x});
      assert a == a - {x} + {x} && b == b - {x} + {x};
    } else if b != {} {
      var y :| y in b;
      assert b == b - {y} + {y};
    }
  }

  lemma RemovedSize(a: set<int>, r: set<int>)
    ensures |a - r| == |a| - |a * r| && |a * r| <= |r| && (|a * r| == |r| <==> r <= a)
  {
    assert a == (a - r) + a * r;
    SubsetSize(a * r, r);
    if r <= a { assert a * r == r; }
  }

  lemma AddedSize(a: set<int>, r: set<int>, all: set<int>)
    ensures var added := r * all - a;
      |a + r * all| == |a| + |added| && |added| <= |r| && (|added| == |r| <==> r !! a && r <= all)
  {
    var added := r * all - a;
    assert a + r * all == a + added;
    SubsetSize(added, r);
    if r !! a && r <= all { assert added == r; }
  }
}
