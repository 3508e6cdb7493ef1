# GPA calculator: grade aggregation, modelled in Dafny

The repository scrapes a student portal's course table and computes a
credit-weighted grade-point average. Its logic is the aggregation pass in
`calculate.py`. The pass walks the body rows of the course table in document
order. It keeps a row only if the row has at least seven cells, the credits
cell (index 3) is an integer, and the grade cell (index 6) is one of the nine
symbols of the fixed grade scale. For each kept row it adds the credits to
`total_credits` and credits × grade points to `total_points`. At the end the
GPA is `total_points / total_credits`, or 0.0 when the credit total is not
positive.

The project has three modules, one file each:

- `grade_scale.dfy`, module `GradeScale`: the scale `GradeToGpa` (A+ 4.0 …
  F 0.0), the sentinel texts `"Con"`, `"0"` and `""`, the grade test of the
  loop (`IsCountable`), and the lookup with its 0.0 default (`PointsOf`).
- `credits.dfy`, module `Credits`: Python's `int()` applied to the stripped
  text of the credits cell. It accepts an optional `+` or `-` followed by one
  to 4300 ASCII digits. 4300 is CPython's default limit on the digits
  `int()` converts, from Python 3.11 on and in the 3.10.7, 3.9.14, 3.8.14
  and 3.7.14 security releases. Leading zeros count toward it and
  the sign does not. `None` stands for the `ValueError` the loop catches.
  Decimal rendering (`IntToString`) is its partner in a round-trip lemma.
- `calculate.dfy`, module `Calculate`: a row is the sequence of its cells'
  stripped texts. `Classify` gives the verdict on one row, with the first
  skip reason that applies. `Step` is one loop iteration on the two
  accumulators. `TotalsOf` is the accumulators after a prefix of the table.
  `GpaOf` is the final division. `ComputeGpa` is the loop itself, a method
  with the two accumulators as local variables, proved equal to `TotalsOf`
  and `GpaOf`. `Counted`, `SumCredits` and `SumPoints` give an independent
  reference: the list of counted rows and sums over it.

Grade points are Dafny `real`s, so 3.7 is exactly 37/10 and every sum is
exact. The specification functions and their lemmas take the grade scale as a
parameter. The method `ComputeGpa` always uses the source's scale
`GradeToGpa`, and the lemmas about the skip rules and the worked examples are
stated for that scale.

Two behaviours of the code the model keeps:

- Credits may be negative, because `int()` accepts a sign. The GPA range
  lemma therefore assumes non-negative counted credits.
- The GPA is 0.0 whenever the credit total is not positive, so a negative
  total also gives 0.0, not only a zero total.

## Model

| member | source | states |
|---|---|---|
| GradeScale.ScaleKeys | calculate.py:15-25 | the scale has exactly the nine symbols A+, A, B+, B, C+, C, D+, D, F, and none of the sentinels "Con", "0", "" is a key |
| GradeScale.ScaleRange | calculate.py:15-25 | every grade value lies in [0, 4]; F (0.0) is the lowest and A+ (4.0) the highest |
| GradeScale.PointsOf | calculate.py:52 | the looked-up points lie in [0, 4] whenever every value of the scale does |
| GradeScale.CountableIsKey | calculate.py:46-52 | with the source's scale, a grade passes the sentinel-or-unknown test exactly when it is one of the nine symbols, and for such a grade the lookup returns the table value, not the 0.0 default |
| Credits.ParseDigitsSomeIff | calculate.py:41 | a run of characters has a digit value exactly when it is made only of ASCII digits and has between 1 and 4300 of them |
| Credits.ParseIntSomeIff | calculate.py:40-44 | the credits text parses (no ValueError) exactly when it is an optional sign followed by 1 to 4300 digits |
| Credits.ParseIntOfString | calculate.py:41 | parsing the decimal rendering of an integer, negative ones included, gives back that integer when it has at most 4300 digits, and a ValueError when it has more |
| Credits.LeadingZero | calculate.py:41 | a leading zero in front of a non-empty run of fewer than 4300 characters leaves its parse unchanged (rejected stays rejected, a value stays the same value); in front of a longer run it gives a ValueError |
| Credits.DigitLimit | calculate.py:40-44 | 4299 zeros followed by "3" parse as 3, and with a '-' in front as -3; 4300 zeros followed by "3" raise ValueError |
| Credits.SignPrefix | calculate.py:41 | in front of a text that does not itself start with a sign, '+' leaves the parse unchanged and '-' negates the parsed value; a rejected text stays rejected |
| Credits.ParseIntExamples | calculate.py:40-44 | "3", "+3", "-2" and "06" parse to 3, 3, -2 and 6; "three", "", "-" and "3.0" are rejected |
| Calculate.ComputeGpa | calculate.py:28-65 | the loop's final accumulators equal the totals of the whole table, and the GPA is points / credits when credits > 0 and 0.0 otherwise |
| Calculate.ClassifyCountIff | calculate.py:35-52 | a row is counted exactly when it has at least 7 cells, cell 3 is an integer literal and cell 6 is one of the nine symbols; it is then counted with the parsed credits and the grade in cell 6 |
| Calculate.SkipReasons | calculate.py:35-49 | too few cells skips for that reason first; otherwise a non-integer credits cell skips as bad credits; otherwise a grade outside the nine symbols skips as an invalid grade |
| Calculate.TotalsAppend | calculate.py:32-59 | the totals of two blocks of rows, one after the other, are the sums of the blocks' totals |
| Calculate.TotalsAreSums | calculate.py:28-59 | total_credits is the sum of the credits of the counted rows, and total_points the sum of their credits × grade points |
| Calculate.SkippedRowNeutral | calculate.py:35-49 | inserting a skipped row anywhere in the table changes neither total nor the GPA |
| Calculate.AllSkippedIsZero | calculate.py:62-65 | a table whose rows are all skipped, the empty table included, has credits 0, points 0 and GPA 0.0 |
| Calculate.TotalsPermutation | calculate.py:57-59 | any reordering of the rows leaves both totals unchanged |
| Calculate.SumsBounded | calculate.py:57-59 | with non-negative credits and a scale inside [0, 4], the summed credits are non-negative and the points lie between 0 and 4 × credits |
| Calculate.GpaInRange | calculate.py:62-65 | with a scale inside [0, 4] and no negative counted credits, the GPA lies in [0, 4] |
| Calculate.SourceGpaInRange | calculate.py:15-65 | with the source's scale and no negative counted credits, the GPA lies in [0, 4] |
| Calculate.SingleRowGpa | calculate.py:52-63 | a table of one counted row with positive credits has exactly that row's grade value as its GPA |
| Calculate.WorkedExamples | calculate.py:28-65 | 3 credits of A, 3 of B+ and 2 of Con give 6 credits, 21.0 points and GPA 3.5; 6 credits of F give 6 credits, 0.0 points and GPA 0.0; a six-cell row and a row with credits "three" count nothing |

## Left out

- `script.py` (browser automation, login, waiting for the page, secrets loading, saving the page): I/O through foreign libraries, with no logic to state.
- Reading `courses_table.html` and parsing it with BeautifulSoup/lxml, finding the table by class, and `get_text(strip=True)`: foreign library calls. The model starts from their output, a sequence of rows, each a sequence of stripped cell texts.
- The crash when the table is missing (`table` is `None`) or has no `<tbody>` (`table.find("tbody")` is `None`, calculate.py:32): the model assumes both were found.
- The `OverflowError` of the int-to-float conversions at calculate.py:59 and 63 for credits too large for a float: the model's integers and reals are unbounded.
- The course name in cell 1 and all logging, including the `%.2f` formatting of the GPA: they are only used for output.
- IEEE floating-point rounding of `total_points` and of the division, including the silent overflow to inf and NaN for huge credits (one A+ row with credits 10**308 gives `total_points` inf, and a second row of -10**308 A+ makes it NaN): the model computes with exact reals.
- Credits.ParseInt: follows CPython's default digit limit of 4300 (3.11 and later, and the 3.10.7, 3.9.14, 3.8.14 and 3.7.14 security releases). It does not model earlier releases, which have no limit, or a limit changed through `PYTHONINTMAXSTRDIGITS`, `-X int_max_str_digits` or `sys.set_int_max_str_digits`. It covers an optional sign followed by ASCII digits only. It does not model the underscores (`"1_0"`), non-ASCII digits or surrounding whitespace that Python's `int()` also accepts. The cell text is already stripped.
- Calculate.GpaInRange: requires non-negative counted credits. A table with negative credits, which `int()` accepts, can have a GPA outside [0, 4].
