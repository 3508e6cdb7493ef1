/** The credits cell of a course row is read with Python's `int()`. This
    module models the part of `int()` that a stripped cell text can reach: an
    optional sign followed by one to 4300 ASCII decimal digits. */
module Credits {

  datatype Option<T> = None | Some(value: T)

  /** CPython's default limit on the number of digits `int()` converts from
      a decimal text (`sys.int_info.default_max_str_digits`, Python 3.11 and
      later and the 3.10.7, 3.9.14, 3.8.14 and 3.7.14 security releases); a
      longer digit run raises ValueError. Leading zeros count, the
      sign does not. */
  const MaxStrDigits: nat := 4300

  predicate IsDigit(c: char) {
    '0' <= c <= '9'
  }

  predicate AllDigits(s: string) {
    forall i :: 0 <= i < |s| ==> IsDigit(s[i])
  }

  function DigitValue(c: char): (d: nat)
    requires IsDigit(c)
    ensures d < 10
  {
    (c as int) - ('0' as int)
  }

  function DigitChar(d: nat): (c: char)
    requires d < 10
    ensures IsDigit(c) && DigitValue(c) == d
  {
    (('0' as int) + d) as char
  }

  /** Reads a run of decimal digits left to right onto the value `acc`
      read so far; None as soon as a character is not a digit. */
  function ScanDigits(acc: nat, s: string): Option<nat>
    decreases |s|
  {
    if |s| == 0 then Some(acc)
    else if !IsDigit(s[0]) then None
    else ScanDigits(10 * acc + DigitValue(s[0]), s[1..])
  }

  /** Value of a run of decimal digits, most significant first; None when the
      run is empty, longer than the digit limit, or holds a character that is
      not a digit. */
  function ParseDigits(s: string): Option<nat> {
    if |s| == 0 || |s| > MaxStrDigits then None else ScanDigits(0, s)
  }

  /** `int(text)` on a stripped cell: a leading '+' or '-' is a sign, the rest
      must be digits. None stands for the ValueError the source catches. */
  function ParseInt(s: string): Option<int>
  {
    if |s| > 0 && (s[0] == '+' || s[0] == '-') then
      match ParseDigits(s[1..])
      case None => None
      case Some(v) =>
        var n: int := v;
        Some(if s[0] == '-' then -n else n)
    else
      match ParseDigits(s)
      case None => None
      case Some(v) => Some(v)
  }

  /** The texts `int()` accepts here, stated without reference to the parser. */
  predicate IsIntLiteral(s: string) {
    var body := if |s| > 0 && (s[0] == '+' || s[0] == '-') then s[1..] else s;
    0 < |body| <= MaxStrDigits && AllDigits(body)
  }

  /** Decimal rendering of a natural number without leading zeros. */
  function NatToString(n: nat): (s: string)
    ensures |s| > 0 && AllDigits(s)
    ensures n < 10 <==> |s| == 1
  {
    if n < 10 then [DigitChar(n)]
    else NatToString(n / 10) + [DigitChar(n % 10)]
  }

  function Abs(n: int): nat {
    if n < 0 then -n else n
  }

  /** Number of decimal digits of an integer, its sign not included. */
  function DigitCount(n: int): nat {
    |NatToString(Abs(n))|
  }

  /** Decimal rendering of an integer: a minus sign for negatives, then the
      digits. */
  function IntToString(n: int): (s: string)
    ensures |s| > 0 && ((n < 0) <==> (s[0] == '-'))
    ensures IsIntLiteral(s) <==> DigitCount(n) <= MaxStrDigits
  {
    if n < 0 then "-" + NatToString(-n) else NatToString(n)
  }

  lemma {:induction false} ScanDigitsSomeIff(acc: nat, s: string)
    ensures ScanDigits(acc, s).Some? <==> AllDigits(s)
    decreases |s|
  {
    if |s| > 0 {
      ScanDigitsSomeIff(10 * acc + (if IsDigit(s[0]) then DigitValue(s[0]) else 0), s[1..]);
      assert AllDigits(s) <==> IsDigit(s[0]) && AllDigits(s[1..]) by {
        if IsDigit(s[0]) && AllDigits(s[1..]) {
          forall i | 0 <= i < |s| ensures IsDigit(s[i]) {
            if i > 0 { assert s[i] == s[1..][i - 1]; }
          }
        }
      }
    }
  }

  lemma ParseDigitsSomeIff(s: string)
    ensures ParseDigits(s).Some? <==> 0 < |s| <= MaxStrDigits && AllDigits(s)
  {
    ScanDigitsSomeIff(0, s);
  }

  /** The parser accepts exactly the integer literals. */
  lemma ParseIntSomeIff(s: string)
    ensures ParseInt(s).Some? <==> IsIntLiteral(s)
  {
    if |s| > 0 && (s[0] == '+' || s[0] == '-') {
      ParseDigitsSomeIff(s[1..]);
    } else {
      ParseDigitsSomeIff(s);
    }
  }

  /** Scanning one more digit multiplies the value read so far by ten and
      adds the digit. */
  lemma {:induction false} ScanDigitsSnoc(acc: nat, s: string, c: char)
    requires IsDigit(c)
    ensures ScanDigits(acc, s + [c]) ==
      match ScanDigits(acc, s)
      case None => None
      case Some(v) => Some(10 * v + DigitValue(c))
    decreases |s|
  {
    if |s| == 0 {
      assert s + [c] == [c];
      assert [c][1..] == [];
    } else {
      assert (s + [c])[0] == s[0];
      assert (s + [c])[1..] == s[1..] + [c];
      if IsDigit(s[0]) {
        ScanDigitsSnoc(10 * acc + DigitValue(s[0]), s[1..], c);
      }
    }
  }

  lemma {:induction false} ScanDigitsOfNat(n: nat)
    ensures ScanDigits(0, NatToString(n)) == Some(n)
    decreases n
  {
    var s := NatToString(n);
    if n < 10 {
      assert s == [DigitChar(n)] && s[1..] == [];
      assert ScanDigits(0, s) == ScanDigits(DigitValue(DigitChar(n)), []);
    } else {
      var p := NatToString(n / 10);
      assert s == p + [DigitChar(n % 10)];
      ScanDigitsOfNat(n / 10);
      ScanDigitsSnoc(0, p, DigitChar(n % 10));
    }
  }

  lemma ParseSigned(d: string, v: nat)
    requires ParseDigits(d) == Some(v)
    ensures ParseInt("-" + d) == Some(-(v as int))
  {
    assert ("-" + d)[0] == '-';
    assert ("-" + d)[1..] == d;
  }

  lemma ParseUnsigned(d: string, v: nat)
    requires |d| > 0 && IsDigit(d[0]) && ParseDigits(d) == Some(v)
    ensures ParseInt(d) == Some(v)
  {
  }

  /** Reading back the decimal rendering of an integer gives that integer
      when it has at most 4300 digits, and a ValueError otherwise. */
  lemma ParseIntOfString(n: int)
    ensures ParseInt(IntToString(n)) ==
      if DigitCount(n) <= MaxStrDigits then Some(n) else None
  {
    ScanDigitsOfNat(Abs(n));
    if n < 0 {
      if DigitCount(n) <= MaxStrDigits {
        ParseSigned(NatToString(-n), -n);
      } else {
        assert ("-" + NatToString(-n))[1..] == NatToString(-n);
      }
    } else if DigitCount(n) <= MaxStrDigits {
      ParseUnsigned(NatToString(n), n);
    }
  }

  /** A leading zero does not change the value of a digit run, except that it
      counts toward the digit limit. */
  lemma LeadingZero(d: string)
    requires |d| > 0
    ensures ParseDigits("0" + d) ==
      if |d| < MaxStrDigits then ParseDigits(d) else None
  {
    assert ("0" + d)[0] == '0';
    assert ("0" + d)[1..] == d;
  }

  function Zeros(k: nat): (z: string)
    ensures |z| == k && forall i :: 0 <= i < k ==> z[i] == '0'
  {
    seq(k, _ => '0')
  }

  /** Any number of leading zeros leaves the scanned value unchanged. */
  lemma {:induction false} ScanZeros(k: nat, d: string)
    ensures ScanDigits(0, Zeros(k) + d) == ScanDigits(0, d)
    decreases k
  {
    if k > 0 {
      var t := Zeros(k) + d;
      assert t[0] == '0';
      assert t[1..] == Zeros(k - 1) + d;
      ScanZeros(k - 1, d);
    } else {
      assert Zeros(k) + d == d;
    }
  }

  /** The digit limit at its edge: a credits text of 4299 zeros and a 3 is
      read as 3, with or without a sign, while one more zero makes it a
      ValueError. */
  lemma DigitLimit()
    ensures ParseInt(Zeros(MaxStrDigits - 1) + "3") == Some(3)
    ensures ParseInt("-" + Zeros(MaxStrDigits - 1) + "3") == Some(-3)
    ensures ParseInt(Zeros(MaxStrDigits) + "3") == None
  {
    var d := Zeros(MaxStrDigits - 1) + "3";
    ScanZeros(MaxStrDigits - 1, "3");
    assert d[0] == '0';
    assert ("-" + d)[1..] == d;
    assert "-" + Zeros(MaxStrDigits - 1) + "3" == "-" + d;
    assert (Zeros(MaxStrDigits) + "3")[0] == '0';
  }

  /** A '+' in front of an unsigned text changes nothing, and a '-' negates
      its value; neither turns a rejected text into an accepted one. */
  lemma SignPrefix(d: string)
    requires |d| == 0 || (d[0] != '+' && d[0] != '-')
    ensures ParseInt("+" + d) == ParseInt(d)
    ensures ParseInt("-" + d) == match ParseInt(d)
      case None => None
      case Some(v) => Some(-v)
  {
    assert ("+" + d)[0] == '+' && ("+" + d)[1..] == d;
    assert ("-" + d)[0] == '-' && ("-" + d)[1..] == d;
  }

  /** Texts the credits cell can hold: signs and leading zeros are accepted,
      words and decimals are not. */
  lemma ParseIntExamples()
    ensures ParseInt("3") == Some(3) && ParseInt("+3") == Some(3)
    ensures ParseInt("-2") == Some(-2) && ParseInt("06") == Some(6)
    ensures ParseInt("three") == None && ParseInt("") == None
    ensures ParseInt("-") == None && ParseInt("3.0") == None
  {
  }
}
