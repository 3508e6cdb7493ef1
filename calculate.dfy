/** The grade-aggregation pass of calculate.py: walk the course table's rows
    in order, skip the rows that are too short, have no integer credits or an
    unknown grade, sum credits and credits × grade points over the rest, and
    divide.

    The specification functions and the lemmas about them take the grade
    scale as a parameter; the program itself (ComputeGpa) always uses the
    source's fixed scale GradeToGpa. */
module Calculate {
  import opened GradeScale
  import opened Credits

  /** One `<tr>` of the table body: the stripped text of each of its `<td>`
      cells, in document order. */
  type Row = seq<string>

  /** Cell layout of the course table. */
  const MinCells: nat := 7
  const CreditsCell: nat := 3
  const GradeCell: nat := 6

  /** Why the loop passes over a row, in the order the source tests. */
  datatype SkipReason = TooFewCells | BadCredits | InvalidGrade

  /** What the loop does with one row: skip it, or count its credits under
      its grade. */
  datatype Verdict = Skip(reason: SkipReason) | Count(credits: int, grade: string)

  /** The two accumulators of the loop. */
  datatype Totals = Totals(credits: int, points: real)

  const Zero := Totals(0, 0.0)

  function Classify(scale: Table, row: Row): Verdict {
    if |row| < MinCells then Skip(TooFewCells)
    else match ParseInt(row[CreditsCell])
      case None => Skip(BadCredits)
      case Some(c) =>
        if !IsCountable(scale, row[GradeCell]) then Skip(InvalidGrade)
        else Count(c, row[GradeCell])
  }

  /** One iteration of the loop body on the accumulators. */
  function Step(scale: Table, t: Totals, row: Row): Totals {
    match Classify(scale, row)
    case Skip(_) => t
    case Count(c, g) => Totals(t.credits + c, t.points + c as real * PointsOf(scale, g))
  }

  /** The accumulators after the loop has seen `rows`, in order. */
  function TotalsOf(scale: Table, rows: seq<Row>): Totals
    decreases |rows|
  {
    if rows == [] then Zero
    else Step(scale, TotalsOf(scale, rows[..|rows| - 1]), rows[|rows| - 1])
  }

  /** The final `if total_credits > 0` of the source. */
  function GpaOf(t: Totals): real {
    if t.credits > 0 then t.points / t.credits as real else 0.0
  }

  function Add(a: Totals, b: Totals): Totals {
    Totals(a.credits + b.credits, a.points + b.points)
  }

  /** The source's loop and final division, with the two accumulators it
      updates in place. */
  method ComputeGpa(rows: seq<Row>) returns (totalCredits: int, totalPoints: real, gpa: real)
    ensures Totals(totalCredits, totalPoints) == TotalsOf(GradeToGpa, rows)
    ensures gpa == GpaOf(TotalsOf(GradeToGpa, rows))
    ensures totalCredits > 0 ==> gpa == totalPoints / totalCredits as real
    ensures totalCredits <= 0 ==> gpa == 0.0
  {
    totalCredits, totalPoints := 0, 0.0;
    for i := 0 to |rows|
      invariant Totals(totalCredits, totalPoints) == TotalsOf(GradeToGpa, rows[..i])
    {
      assert rows[..i + 1][..i] == rows[..i];
      var columns := rows[i];
      if |columns| < MinCells {
        continue;
      }
      var parsed := ParseInt(columns[CreditsCell]);
      if parsed.None? {
        continue;
      }
      var credits := parsed.value;
      var grade := columns[GradeCell];
      if grade in Sentinels || grade !in GradeToGpa {
        continue;
      }
      var gpaPoints := PointsOf(GradeToGpa, grade);
      totalCredits := totalCredits + credits;
      totalPoints := totalPoints + credits as real * gpaPoints;
    }
    assert rows[..|rows|] == rows;
    if totalCredits > 0 {
      gpa := totalPoints / totalCredits as real;
    } else {
      gpa := 0.0;
    }
  }

  // ---------------------------------------------------------------------
  // The skip rules, for the source's scale

  /** A row counts exactly when it has seven cells, an integer in cell 3 and
      one of the nine grade symbols in cell 6; it then counts those credits
      under that grade. */
  lemma ClassifyCountIff(row: Row)
    ensures Classify(GradeToGpa, row).Count? <==>
      |row| >= MinCells && IsIntLiteral(row[CreditsCell]) && row[GradeCell] in Symbols
    ensures Classify(GradeToGpa, row).Count? ==>
      Some(Classify(GradeToGpa, row).credits) == ParseInt(row[CreditsCell]) &&
      Classify(GradeToGpa, row).grade == row[GradeCell]
  {
    if |row| >= MinCells {
      ParseIntSomeIff(row[CreditsCell]);
      CountableIsKey(row[GradeCell]);
    }
  }

  /** Each skip reason, with the test of the source that produces it. */
  lemma SkipReasons(row: Row)
    ensures |row| < MinCells ==> Classify(GradeToGpa, row) == Skip(TooFewCells)
    ensures |row| >= MinCells && !IsIntLiteral(row[CreditsCell]) ==>
      Classify(GradeToGpa, row) == Skip(BadCredits)
    ensures |row| >= MinCells && IsIntLiteral(row[CreditsCell]) && row[GradeCell] !in Symbols ==>
      Classify(GradeToGpa, row) == Skip(InvalidGrade)
  {
    if |row| >= MinCells {
      ParseIntSomeIff(row[CreditsCell]);
      CountableIsKey(row[GradeCell]);
    }
  }

  // ---------------------------------------------------------------------
  // The totals as sums over the counted rows

  /** The counted rows, in table order, as (credits, grade) pairs. */
  function Counted(scale: Table, rows: seq<Row>): seq<(int, string)> {
    if rows == [] then []
    else match Classify(scale, rows[0])
      case Skip(_) => Counted(scale, rows[1..])
      case Count(c, g) => [(c, g)] + Counted(scale, rows[1..])
  }

  function SumCredits(cs: seq<(int, string)>): int {
    if cs == [] then 0 else cs[0].0 + SumCredits(cs[1..])
  }

  function SumPoints(scale: Table, cs: seq<(int, string)>): real {
    if cs == [] then 0.0 else cs[0].0 as real * PointsOf(scale, cs[0].1) + SumPoints(scale, cs[1..])
  }

  /** One loop step commutes with adding totals gathered earlier. */
  lemma StepAdd(scale: Table, t: Totals, u: Totals, row: Row)
    ensures Step(scale, Add(t, u), row) == Add(t, Step(scale, u, row))
  {
    match Classify(scale, row)
    case Skip(_) =>
    case Count(c, g) =>
      var q := c as real * PointsOf(scale, g);
      assert Step(scale, Add(t, u), row) == Totals(t.credits + u.credits + c, t.points + u.points + q);
  }

  /** The loop adds the contribution of a later block of rows to what it had. */
  lemma {:induction false} TotalsAppend(scale: Table, a: seq<Row>, b: seq<Row>)
    ensures TotalsOf(scale, a + b) == Add(TotalsOf(scale, a), TotalsOf(scale, b))
    decreases |b|
  {
    if b == [] {
      assert a + b == a;
      assert TotalsOf(scale, b) == Zero;
      assert Add(TotalsOf(scale, a), Zero) == TotalsOf(scale, a);
    } else {
      var b', last := b[..|b| - 1], b[|b| - 1];
      assert (a + b)[..|a + b| - 1] == a + b';
      assert (a + b)[|a + b| - 1] == last;
      calc {
        TotalsOf(scale, a + b);
        Step(scale, TotalsOf(scale, a + b'), last);
        { TotalsAppend(scale, a, b'); }
        Step(scale, Add(TotalsOf(scale, a), TotalsOf(scale, b')), last);
        { StepAdd(scale, TotalsOf(scale, a), TotalsOf(scale, b'), last); }
        Add(TotalsOf(scale, a), Step(scale, TotalsOf(scale, b'), last));
      }
    }
  }

  lemma {:induction false} CountedAppend(scale: Table, a: seq<Row>, b: seq<Row>)
    ensures Counted(scale, a + b) == Counted(scale, a) + Counted(scale, b)
    decreases |a|
  {
    if a == [] {
      assert a + b == b;
    } else {
      assert (a + b)[0] == a[0];
      assert (a + b)[1..] == a[1..] + b;
      CountedAppend(scale, a[1..], b);
    }
  }

  lemma {:induction false} SumsAppend(scale: Table, x: seq<(int, string)>, y: seq<(int, string)>)
    ensures SumCredits(x + y) == SumCredits(x) + SumCredits(y)
    ensures SumPoints(scale, x + y) == SumPoints(scale, x) + SumPoints(scale, y)
    decreases |x|
  {
    if x == [] {
      assert x + y == y;
    } else {
      assert (x + y)[0] == x[0];
      assert (x + y)[1..] == x[1..] + y;
      SumsAppend(scale, x[1..], y);
    }
  }

  /** One loop step adds the row's entry in the counted list to both sums. */
  lemma StepSums(scale: Table, t: Totals, cs: seq<(int, string)>, row: Row)
    requires t.credits == SumCredits(cs) && t.points == SumPoints(scale, cs)
    ensures Step(scale, t, row).credits == SumCredits(cs + Counted(scale, [row]))
    ensures Step(scale, t, row).points == SumPoints(scale, cs + Counted(scale, [row]))
  {
    var cl := Counted(scale, [row]);
    assert [row][0] == row && [row][1..] == [];
    assert Counted(scale, [row][1..]) == [];
    SumsAppend(scale, cs, cl);
    match Classify(scale, row)
    case Skip(_) =>
      assert cl == [];
    case Count(c, g) =>
      assert cl == [(c, g)] + [];
      assert cl[1..] == [];
      assert SumCredits(cl) == c;
      assert SumPoints(scale, cl) == c as real * PointsOf(scale, g);
  }

  /** `total_credits` is the sum of the credits of the counted rows and
      `total_points` the sum of their credits × grade points. */
  lemma {:induction false} TotalsAreSums(scale: Table, rows: seq<Row>)
    ensures TotalsOf(scale, rows).credits == SumCredits(Counted(scale, rows))
    ensures TotalsOf(scale, rows).points == SumPoints(scale, Counted(scale, rows))
    decreases |rows|
  {
    if rows != [] {
      var p, last := rows[..|rows| - 1], rows[|rows| - 1];
      assert rows == p + [last];
      TotalsAreSums(scale, p);
      CountedAppend(scale, p, [last]);
      StepSums(scale, TotalsOf(scale, p), Counted(scale, p), last);
    }
  }

  // ---------------------------------------------------------------------
  // Skipped rows, empty tables, order

  /** Inserting a skipped row anywhere in the table changes neither total,
      hence not the GPA either. */
  lemma SkippedRowNeutral(scale: Table, before: seq<Row>, row: Row, after: seq<Row>)
    requires Classify(scale, row).Skip?
    ensures TotalsOf(scale, before + [row] + after) == TotalsOf(scale, before + after)
    ensures GpaOf(TotalsOf(scale, before + [row] + after)) == GpaOf(TotalsOf(scale, before + after))
  {
    var br := before + [row];
    assert br[..|br| - 1] == before && br[|br| - 1] == row;
    assert TotalsOf(scale, br) == TotalsOf(scale, before);
    TotalsAppend(scale, br, after);
    TotalsAppend(scale, before, after);
  }

  /** A table in which every row is skipped (the empty table among them)
      yields no credits, no points and GPA 0. */
  lemma {:induction false} AllSkippedIsZero(scale: Table, rows: seq<Row>)
    requires forall i :: 0 <= i < |rows| ==> Classify(scale, rows[i]).Skip?
    ensures TotalsOf(scale, rows) == Zero && GpaOf(TotalsOf(scale, rows)) == 0.0
    decreases |rows|
  {
    if rows != [] {
      var p := rows[..|rows| - 1];
      assert forall i :: 0 <= i < |p| ==> p[i] == rows[i];
      AllSkippedIsZero(scale, p);
    }
  }

  lemma AddSwap(t1: Totals, t2: Totals, t3: Totals)
    ensures Add(Add(t1, t2), t3) == Add(Add(t1, t3), t2)
  {
  }

  /** Moving one row to the end of the table leaves the totals as they were. */
  lemma TotalsMoveToEnd(scale: Table, b1: seq<Row>, x: Row, b2: seq<Row>)
    ensures TotalsOf(scale, b1 + [x] + b2) == Add(TotalsOf(scale, b1 + b2), TotalsOf(scale, [x]))
  {
    calc {
      TotalsOf(scale, b1 + [x] + b2);
      { TotalsAppend(scale, b1 + [x], b2); }
      Add(TotalsOf(scale, b1 + [x]), TotalsOf(scale, b2));
      { TotalsAppend(scale, b1, [x]); }
      Add(Add(TotalsOf(scale, b1), TotalsOf(scale, [x])), TotalsOf(scale, b2));
      { AddSwap(TotalsOf(scale, b1), TotalsOf(scale, [x]), TotalsOf(scale, b2)); }
      Add(Add(TotalsOf(scale, b1), TotalsOf(scale, b2)), TotalsOf(scale, [x]));
      { TotalsAppend(scale, b1, b2); }
      Add(TotalsOf(scale, b1 + b2), TotalsOf(scale, [x]));
    }
  }

  lemma MultisetCancel<T>(m: multiset<T>, n: multiset<T>, x: T)
    requires m + multiset{x} == n + multiset{x}
    ensures m == n
  {
    assert m == m + multiset{x} - multiset{x};
    assert n == n + multiset{x} - multiset{x};
  }

  lemma MultisetSplit<T>(b1: seq<T>, x: T, b2: seq<T>)
    ensures multiset(b1 + [x] + b2) == multiset(b1 + b2) + multiset{x}
  {
    calc {
      multiset(b1 + [x] + b2);
      multiset(b1) + multiset{x} + multiset(b2);
      multiset(b1 + b2) + multiset{x};
    }
  }

  /** A row that occurs in `b` splits it into the rows before and after it. */
  lemma SplitAround<T>(a': seq<T>, x: T, b: seq<T>) returns (b1: seq<T>, b2: seq<T>)
    requires multiset(a' + [x]) == multiset(b)
    ensures b == b1 + [x] + b2
    ensures multiset(a') == multiset(b1 + b2)
  {
    assert multiset(a' + [x]) == multiset(a') + multiset{x};
    assert x in multiset(b);
    var j :| 0 <= j < |b| && b[j] == x;
    b1, b2 := b[..j], b[j + 1..];
    assert b == b1 + [x] + b2;
    MultisetSplit(b1, x, b2);
    MultisetCancel(multiset(a'), multiset(b1 + b2), x);
  }

  /** Reordering the rows changes neither total: the real arithmetic is
      exact, so the order of the sums does not matter. */
  lemma {:induction false} TotalsPermutation(scale: Table, a: seq<Row>, b: seq<Row>)
    requires multiset(a) == multiset(b)
    ensures TotalsOf(scale, a) == TotalsOf(scale, b)
    decreases |a|
  {
    if a == [] {
      assert |b| == |multiset(b)| == 0;
      assert b == [];
    } else {
      var a', x := a[..|a| - 1], a[|a| - 1];
      assert a == a' + [x];
      var b1, b2 := SplitAround(a', x, b);
      calc {
        TotalsOf(scale, a);
        TotalsOf(scale, a' + [x]);
        { TotalsAppend(scale, a', [x]); }
        Add(TotalsOf(scale, a'), TotalsOf(scale, [x]));
        { TotalsPermutation(scale, a', b1 + b2); }
        Add(TotalsOf(scale, b1 + b2), TotalsOf(scale, [x]));
        { TotalsMoveToEnd(scale, b1, x, b2); }
        TotalsOf(scale, b1 + [x] + b2);
      }
    }
  }

  // ---------------------------------------------------------------------
  // Range of the GPA

  /** Every counted row has non-negative credits. */
  predicate NonNegativeCredits(scale: Table, rows: seq<Row>) {
    var cs := Counted(scale, rows);
    forall k :: 0 <= k < |cs| ==> cs[k].0 >= 0
  }

  lemma MulNonNegative(x: real, y: real)
    requires x >= 0.0 && y >= 0.0
    ensures x * y >= 0.0
  {
  }

  /** Adding one course of non-negative credits and points in [0, 4] keeps
      the points between 0 and four times the credits. */
  lemma CourseBound(c: int, q: real, rc: int, rp: real)
    requires c >= 0 && 0.0 <= q <= 4.0
    requires 0 <= rc && 0.0 <= rp <= 4.0 * rc as real
    ensures 0 <= c + rc
    ensures 0.0 <= c as real * q + rp <= 4.0 * (c + rc) as real
  {
    var cr := c as real;
    assert 4.0 * (c + rc) as real == 4.0 * cr + 4.0 * rc as real;
    MulNonNegative(cr, q);
    MulNonNegative(cr, 4.0 - q);
    assert cr * 4.0 - cr * q == cr * (4.0 - q);
  }

  /** With non-negative credits, the points lie between 0 and four times the
      credits. */
  lemma {:induction false} SumsBounded(scale: Table, cs: seq<(int, string)>)
    requires InRange(scale)
    requires forall k :: 0 <= k < |cs| ==> cs[k].0 >= 0
    ensures 0 <= SumCredits(cs)
    ensures 0.0 <= SumPoints(scale, cs) <= 4.0 * SumCredits(cs) as real
    decreases |cs|
  {
    if cs != [] {
      var c, q := cs[0].0, PointsOf(scale, cs[0].1);
      SumsBounded(scale, cs[1..]);
      CourseBound(c, q, SumCredits(cs[1..]), SumPoints(scale, cs[1..]));
    }
  }

  lemma DivisionBound(p: real, c: real)
    requires c > 0.0 && 0.0 <= p <= 4.0 * c
    ensures 0.0 <= p / c <= 4.0
  {
    assert (p / c) * c == p;
  }

  /** With a scale inside [0, 4] and no negative credits among the counted
      rows, the GPA lies in [0, 4]. */
  lemma GpaInRange(scale: Table, rows: seq<Row>)
    requires InRange(scale)
    requires NonNegativeCredits(scale, rows)
    ensures 0.0 <= GpaOf(TotalsOf(scale, rows)) <= 4.0
  {
    TotalsAreSums(scale, rows);
    SumsBounded(scale, Counted(scale, rows));
    var t := TotalsOf(scale, rows);
    if t.credits > 0 {
      DivisionBound(t.points, t.credits as real);
    }
  }

  /** The source's scale satisfies the premise. */
  lemma SourceGpaInRange(rows: seq<Row>)
    requires NonNegativeCredits(GradeToGpa, rows)
    ensures 0.0 <= GpaOf(TotalsOf(GradeToGpa, rows)) <= 4.0
  {
    ScaleRange();
    GpaInRange(GradeToGpa, rows);
  }

  /** Dividing c × g by c gives back g. */
  lemma OneCourseGpa(c: int, g: real)
    requires c > 0
    ensures GpaOf(Totals(c, 0.0 + c as real * g)) == g
  {
    var x := 0.0 + c as real * g;
    var q := x / c as real;
    assert q * c as real == x;
    assert (q - g) * c as real == 0.0;
  }

  /** A table with one counted row of positive credits has that row's grade
      points as its GPA. */
  lemma SingleRowGpa(scale: Table, row: Row)
    requires Classify(scale, row).Count? && Classify(scale, row).credits > 0
    ensures GpaOf(TotalsOf(scale, [row])) == scale[row[GradeCell]]
  {
    assert [row][..0] == [];
    var c := Classify(scale, row).credits;
    assert row[GradeCell] in scale;
    var g := scale[row[GradeCell]];
    assert PointsOf(scale, Classify(scale, row).grade) == g;
    assert TotalsOf(scale, [row]) == Step(scale, Zero, row);
    assert Step(scale, Zero, row) == Totals(c, 0.0 + c as real * g);
    OneCourseGpa(c, g);
  }

  // ---------------------------------------------------------------------
  // Worked examples (cells 0..6: code, name, -, credits, -, -, grade)

  lemma WorkedExamples()
    ensures var rows := [
        ["C1", "Calculus", "", "3", "", "", "A"],
        ["C2", "Physics", "", "3", "", "", "B+"],
        ["C3", "Seminar", "", "2", "", "", "Con"]];
      TotalsOf(GradeToGpa, rows) == Totals(6, 21.0) && GpaOf(TotalsOf(GradeToGpa, rows)) == 3.5
    ensures TotalsOf(GradeToGpa, [["C4", "Lab", "", "6", "", "", "F"]]) == Totals(6, 0.0)
    ensures GpaOf(TotalsOf(GradeToGpa, [["C4", "Lab", "", "6", "", "", "F"]])) == 0.0
    ensures TotalsOf(GradeToGpa, [["C5", "Short", "", "3", "", "A"]]) == Zero
    ensures TotalsOf(GradeToGpa, [["C6", "Word", "", "three", "", "", "A"]]) == Zero
  {
    ParseIntExamples();
    var rows := [
        ["C1", "Calculus", "", "3", "", "", "A"],
        ["C2", "Physics", "", "3", "", "", "B+"],
        ["C3", "Seminar", "", "2", "", "", "Con"]];
    assert rows[..2][..1] == [rows[0]];
    assert rows[..2] == [rows[0], rows[1]];
    assert [rows[0]][..0] == [];
    assert Classify(GradeToGpa, rows[0]) == Count(3, "A");
    assert Classify(GradeToGpa, rows[1]) == Count(3, "B+");
    assert Classify(GradeToGpa, rows[2]) == Skip(InvalidGrade);
    assert TotalsOf(GradeToGpa, [rows[0]]) == Totals(3, 3.0 * 3.7);
    assert TotalsOf(GradeToGpa, rows[..2]) == Totals(6, 3.0 * 3.7 + 3.0 * 3.3);
    assert TotalsOf(GradeToGpa, rows) == TotalsOf(GradeToGpa, rows[..2]);
  }
}
