/** float64 as far as the treasury needs it: reals without rounding, the infinities, and the
    value that compares with nothing. */
module Floats {

  datatype Float = Finite(value: real) | PosInf | NegInf | NaN

  const ZERO := Finite(0.0)

  function Add(a: Float, b: Float): Float {
    match (a, b)
    case (Finite(x), Finite(y)) => Finite(x + y)
    case (NaN, _) => NaN
    case (_, NaN) => NaN
    case (PosInf, NegInf) => NaN
    case (NegInf, PosInf) => NaN
    case (PosInf, _) => PosInf
    case (_, PosInf) => PosInf
    case _ => NegInf
  }

  /** a <= b. */
  predicate AtMost(a: Float, b: Float) {
    match (a, b)
    case (NaN, _) => false
    case (_, NaN) => false
    case (Finite(x), Finite(y)) => x <= y
    case (NegInf, _) => true
    case (_, PosInf) => true
    case _ => false
  }

  /** a > b: not the negation of a <= b, as neither holds of NaN. */
  predicate Exceeds(a: Float, b: Float) {
    a != b && AtMost(b, a)
  }

  lemma AddReorder(a: Float, b: Float, c: Float)
    ensures Add(a, Add(b, c)) == Add(b, Add(a, c)) == Add(Add(a, b), c)
    ensures Add(a, b) == Add(b, a)
  {
  }

  lemma AddFour(a: Float, b: Float, c: Float, d: Float)
    ensures Add(Add(a, b), Add(c, d)) == Add(Add(a, c), Add(b, d))
  {
    hide Add;
    AddReorder(a, b, Add(c, d));
    AddReorder(b, c, d);
    AddReorder(a, c, Add(b, d));
  }

  lemma AddZero(a: Float)
    ensures Add(a, ZERO) == a == Add(ZERO, a)
  {
  }
}

/** Sums over a table of rows: what the loops of DailySubmittedOutflow add up, in whatever
    order the rows come. */
module Totals {
  import opened Floats

  ghost function Total(parts: map<string, Float>): Float
    decreases |parts|
  {
    if parts == map[] then ZERO
    else
      var k :| k in parts;
      Add(parts[k], Total(parts - {k}))
  }

  /** The order of the rows does not matter. */
  lemma {:induction false} TotalSplit(parts: map<string, Float>, k: string)
    requires k in parts
    ensures Total(parts) == Add(parts[k], Total(parts - {k}))
    decreases |parts|
  {
    hide Add;
    var j :| j in parts && Total(parts) == Add(parts[j], Total(parts - {j}));
    if j != k {
      TotalSplit(parts - {j}, k);
      TotalSplit(parts - {k}, j);
      assert parts - {j} - {k} == parts - {k} - {j};
      AddReorder(parts[j], parts[k], Total(parts - {k} - {j}));
    }
  }

  lemma TotalAdd(parts: map<string, Float>, k: string, v: Float)
    requires k !in parts
    ensures Total(parts[k := v]) == Add(v, Total(parts))
  {
    TotalSplit(parts[k := v], k);
    assert parts[k := v] - {k} == parts;
  }

  lemma TotalReplace(parts: map<string, Float>, k: string, v: Float)
    requires k in parts
    ensures Total(parts) == Add(parts[k], Total(parts - {k}))
    ensures Total(parts[k := v]) == Add(v, Total(parts - {k}))
  {
    TotalSplit(parts, k);
    TotalSplit(parts[k := v], k);
    assert parts[k := v] - {k} == parts - {k};
  }

  /** The sum of a table is the sum of two that add up to it row by row. */
  lemma {:induction false} TotalOfTwo(both: map<string, Float>, p: map<string, Float>, q: map<string, Float>)
    requires both.Keys == p.Keys == q.Keys && forall k :: k in both ==> both[k] == Add(p[k], q[k])
    ensures Total(both) == Add(Total(p), Total(q))
    decreases |both|
  {
    if both == map[] {
      assert p == map[] && q == map[];
    } else {
      var k :| k in both;
      TotalSplit(both, k);
      TotalSplit(p, k);
      TotalSplit(q, k);
      hide Total, Add;
      TotalOfTwo(both - {k}, p - {k}, q - {k});
      AddFour(p[k], q[k], Total(p - {k}), Total(q - {k}));
    }
  }

  /** Parts that are all zero add up to nothing. */
  lemma TotalOfZeros(parts: map<string, Float>)
    requires forall k :: k in parts ==> parts[k] == ZERO
    ensures Total(parts) == ZERO
  {
    var zeros := map k | k in parts :: 0.0;
    assert Lifted(zeros) == parts;
    TotalIsSum(zeros);
    SumOfZeros(zeros);
  }

  /** One NaN makes the sum NaN, and only a NaN or infinities of both signs do. */
  lemma TotalWithNaN(parts: map<string, Float>, k: string)
    requires k in parts && parts[k] == NaN
    ensures Total(parts) == NaN
  {
    TotalSplit(parts, k);
  }

  /** Moving one part from what is left into a running total. */
  lemma TotalStep(total: Float, left: map<string, Float>, k: string)
    requires k in left
    ensures Add(total, Total(left)) == Add(Add(total, left[k]), Total(left - {k}))
    ensures left[k] == ZERO ==> Add(total, left[k]) == total
  {
    hide Add, Total;
    TotalSplit(left, k);
    AddReorder(total, left[k], Total(left - {k}));
    AddZero(total);
  }

  /** The sum starts from nothing and ends with nothing left. */
  lemma TotalEnds(total: Float)
    ensures Add(ZERO, total) == total && Add(total, ZERO) == total
    ensures Total(map[]) == ZERO
  {
    AddZero(total);
  }

  // ---- sums of reals ------------------------------------------------------------------

  /** The finite values of a table. */
  function Lifted(parts: map<string, real>): map<string, Float> {
    map k | k in parts :: Finite(parts[k])
  }

  ghost function Sum(parts: map<string, real>): real
    decreases |parts|
  {
    if parts == map[] then 0.0
    else
      var k :| k in parts;
      parts[k] + Sum(parts - {k})
  }

  /** A table of finite values sums up to the finite sum. */
  lemma {:induction false} TotalIsSum(parts: map<string, real>)
    ensures Total(Lifted(parts)) == Finite(Sum(parts))
    decreases |parts|
  {
    if parts != map[] {
      var k :| k in parts && Sum(parts) == parts[k] + Sum(parts - {k});
      TotalIsSum(parts - {k});
      TotalSplit(Lifted(parts), k);
      assert Lifted(parts) - {k} == Lifted(parts - {k});
    } else {
      assert Lifted(parts) == map[];
    }
  }

  lemma SumSplit(parts: map<string, real>, k: string)
    requires k in parts
    ensures Sum(parts) == parts[k] + Sum(parts - {k})
  {
    TotalIsSum(parts);
    TotalIsSum(parts - {k});
    TotalSplit(Lifted(parts), k);
    assert Lifted(parts) - {k} == Lifted(parts - {k});
  }

  lemma SumAdd(parts: map<string, real>, k: string, v: real)
    requires k !in parts
    ensures Sum(parts[k := v]) == Sum(parts) + v
  {
    SumSplit(parts[k := v], k);
    assert parts[k := v] - {k} == parts;
  }

  lemma SumReplace(parts: map<string, real>, k: string, v: real)
    requires k in parts
    ensures Sum(parts[k := v]) == Sum(parts) - parts[k] + v
  {
    SumSplit(parts, k);
    SumSplit(parts[k := v], k);
    assert parts[k := v] - {k} == parts - {k};
  }

  /** A table below another sums up to less, when what the other has besides counts. */
  lemma {:induction false} SumMonotone(p: map<string, real>, q: map<string, real>)
    requires forall k :: k in p ==> p[k] <= if k in q then q[k] else 0.0
    requires forall k :: k in q && k !in p ==> q[k] >= 0.0
    ensures Sum(p) <= Sum(q)
    decreases |p| + |q|
  {
    if k :| k in p {
      SumSplit(p, k);
      if k in q {
        SumSplit(q, k);
      }
      var q' := if k in q then q - {k} else q;
      SumMonotone(p - {k}, q');
    } else if k :| k in q {
      SumSplit(q, k);
      SumMonotone(p, q - {k});
    }
  }

  lemma {:induction false} SumOfZeros(p: map<string, real>)
    requires forall k :: k in p ==> p[k] == 0.0
    ensures Sum(p) == 0.0
    decreases |p|
  {
    if k :| k in p {
      SumSplit(p, k);
      SumOfZeros(p - {k});
    }
  }
}
