/** Field values, records and the text operations the table's search uses. */
module Values {

  datatype Option<+T> = None | Some(value: T)

  /** A field value. The built-in rows hold integers (the age column) and text;
      rows read from a CSV file hold text only. */
  datatype Value = Num(n: int) | Text(s: string)

  /** One row of the table: column name to field value. A row may lack a column. */
  type Record = map<string, Value>

  /** `row[k]`, with a missing column as None (JavaScript's `undefined`). */
  function Get(row: Record, k: string): (r: Option<Value>)
    ensures r.Some? <==> k in row
    ensures r.Some? ==> row[k] == r.value
  {
    if k in row then Some(row[k]) else None
  }

  /** JavaScript truthiness of a field: missing, the empty string and 0 are falsy. */
  predicate Truthy(v: Option<Value>)
    ensures Truthy(v) ==> v.Some?
    ensures v == Some(Num(0)) || v == Some(Text("")) ==> !Truthy(v)
  {
    match v
    case None => false
    case Some(Num(n)) => n != 0
    case Some(Text(s)) => s != ""
  }

  // ---------------------------------------------------------------------------
  // toString() of an integer: its decimal numeral

  function DigitChar(d: nat): (c: char)
    requires d < 10
    ensures '0' <= c <= '9'
  {
    (('0' as int) + d) as char
  }

  function DigitValue(c: char): nat
  {
    if '0' <= c <= '9' then (c as int) - ('0' as int) else 0
  }

  /** A decimal numeral: one or more digits, and no leading zero unless the
      numeral is "0" itself. */
  predicate IsNumeral(s: string)
  {
    |s| >= 1 && (forall i :: 0 <= i < |s| ==> '0' <= s[i] <= '9') && (s[0] == '0' ==> |s| == 1)
  }

  /** The decimal numeral of n, most significant digit first, with no leading zeros. */
  function NatToText(n: nat): (r: string)
    ensures IsNumeral(r)
    ensures n >= 1 ==> r[0] != '0'
    decreases n
  {
    if n < 10 then [DigitChar(n)] else NatToText(n / 10) + [DigitChar(n % 10)]
  }

  /** Reads a numeral back: the reference against which NatToText is checked. */
  function ParseNat(s: string): nat
  {
    if s == [] then 0 else ParseNat(s[..|s| - 1]) * 10 + DigitValue(s[|s| - 1])
  }

  lemma {:induction false} NatToTextRoundTrip(n: nat)
    ensures ParseNat(NatToText(n)) == n
    decreases n
  {
    if n >= 10 {
      var t := NatToText(n / 10) + [DigitChar(n % 10)];
      assert t[..|t| - 1] == NatToText(n / 10);
      NatToTextRoundTrip(n / 10);
    }
  }

  /** A numeral is fixed by its value: two numerals that read back alike are
      the same string. With NatToTextRoundTrip this makes NatToText the one
      numeral of each number. */
  lemma {:induction false} NumeralUnique(a: string, b: string)
    requires IsNumeral(a) && IsNumeral(b) && ParseNat(a) == ParseNat(b)
    ensures a == b
    decreases |a|
  {
    NumeralSize(a);
    NumeralSize(b);
    if |a| > 1 && |b| > 1 {
      var a', b' := a[..|a| - 1], b[..|b| - 1];
      LastDigit(a);
      LastDigit(b);
      assert a'[0] == a[0] && b'[0] == b[0];
      NumeralUnique(a', b');
      assert a == a' + [a[|a| - 1]] && b == b' + [b[|b| - 1]];
    }
  }

  /** Reading a numeral splits into the number before its last digit and that digit. */
  lemma LastDigit(s: string)
    requires |s| >= 1 && forall i :: 0 <= i < |s| ==> '0' <= s[i] <= '9'
    ensures ParseNat(s) / 10 == ParseNat(s[..|s| - 1])
    ensures ParseNat(s) % 10 == DigitValue(s[|s| - 1])
  {
    var p, d := ParseNat(s[..|s| - 1]), DigitValue(s[|s| - 1]);
    assert d < 10;
    assert ParseNat(s) == p * 10 + d;
  }

  /** A numeral of one digit reads as that digit; a longer one reads as 10 or more. */
  lemma {:induction false} NumeralSize(s: string)
    requires IsNumeral(s)
    ensures |s| == 1 ==> ParseNat(s) == DigitValue(s[0]) < 10
    ensures |s| > 1 ==> ParseNat(s) >= 10
    ensures s[0] != '0' ==> ParseNat(s) >= 1
    decreases |s|
  {
    var p := s[..|s| - 1];
    if |s| == 1 {
      assert p == [];
    } else {
      assert p[0] == s[0] && s[0] != '0';
      NumeralSize(p);
    }
  }

  /** An integer's `toString()`: a minus sign exactly for a negative number,
      then the numeral of its magnitude, which for a negative number is not "0". */
  function IntToText(n: int): (r: string)
    ensures |r| >= 1
    ensures r[0] == '-' <==> n < 0
    ensures n >= 0 ==> IsNumeral(r)
    ensures n < 0 ==> IsNumeral(r[1..]) && r[1] != '0'
  {
    if n < 0 then "-" + NatToText(-n) else NatToText(n)
  }

  /** Reads a signed numeral back. */
  function ParseInt(s: string): int
  {
    if s != [] && s[0] == '-' then -(ParseNat(s[1..]) as int) else ParseNat(s) as int
  }

  lemma IntToTextRoundTrip(n: int)
    ensures ParseInt(IntToText(n)) == n
  {
    if n < 0 {
      NatToTextRoundTrip(-n);
      assert IntToText(n)[1..] == NatToText(-n);
    } else {
      NatToTextRoundTrip(n);
    }
  }

  // ---------------------------------------------------------------------------
  // toLowerCase(), on ASCII letters only

  predicate IsUpper(c: char)
  {
    'A' <= c <= 'Z'
  }

  function LowerChar(c: char): char
  {
    if IsUpper(c) then ((c as int) + 32) as char else c
  }

  /** The string with every ASCII capital replaced by its small letter. */
  function Lower(s: string): (r: string)
    ensures |r| == |s|
    ensures forall i :: 0 <= i < |s| ==> !IsUpper(r[i])
    ensures forall i :: 0 <= i < |s| && !IsUpper(s[i]) ==> r[i] == s[i]
    ensures forall i :: 0 <= i < |s| && IsUpper(s[i]) ==> r[i] as int == s[i] as int + 32
  {
    if s == [] then [] else [LowerChar(s[0])] + Lower(s[1..])
  }

  lemma {:induction false} LowerIdempotent(s: string)
    ensures Lower(Lower(s)) == Lower(s)
  {
    var t := Lower(s);
    var u := Lower(t);
    assert forall i :: 0 <= i < |t| ==> u[i] == t[i];
  }

  /** A numeral has no capitals, so lower-casing leaves it as it is. */
  lemma NumeralIsLowerCase(n: int)
    ensures Lower(IntToText(n)) == IntToText(n)
  {
    var t := IntToText(n);
    var u := Lower(t);
    assert forall i :: 0 <= i < |t| ==> !IsUpper(t[i]);
    assert forall i :: 0 <= i < |t| ==> u[i] == t[i];
  }

  /** `val.toString()`. A number's text is already lower case, so the search
      sees its digits as they are. */
  function ToText(v: Value): (r: string)
    ensures v.Num? ==> r == IntToText(v.n) && Lower(r) == r && ParseInt(r) == v.n
    ensures v.Text? ==> r == v.s
  {
    match v
    case Num(n) => IntToTextRoundTrip(n); NumeralIsLowerCase(n); IntToText(n)
    case Text(s) => s
  }

  // ---------------------------------------------------------------------------
  // includes()

  /** t occurs in s starting at position i. */
  ghost predicate OccursAt(s: string, t: string, i: int)
  {
    0 <= i <= |s| - |t| && s[i..i + |t|] == t
  }

  /** `s.includes(t)`: t is a substring of s. */
  function Contains(s: string, t: string): (r: bool)
    ensures r ==> |t| <= |s|
    decreases |s|
  {
    if |t| <= |s| && s[..|t|] == t then true
    else if s == [] then false
    else Contains(s[1..], t)
  }

  lemma {:induction false} ContainsIffOccurs(s: string, t: string)
    ensures Contains(s, t) <==> exists i :: OccursAt(s, t, i)
    decreases |s|
  {
    if |t| <= |s| && s[..|t|] == t {
      assert OccursAt(s, t, 0);
    } else if s == [] {
    } else {
      ContainsIffOccurs(s[1..], t);
      forall i | 0 <= i
        ensures OccursAt(s[1..], t, i) <==> OccursAt(s, t, i + 1)
      {
        if i <= |s| - 1 - |t| {
          assert s[1..][i..i + |t|] == s[i + 1..i + 1 + |t|];
        }
      }
      if exists j :: OccursAt(s, t, j) {
        var j :| OccursAt(s, t, j);
        assert j != 0;
        assert OccursAt(s[1..], t, j - 1);
      }
      if exists i :: OccursAt(s[1..], t, i) {
        var i :| OccursAt(s[1..], t, i);
        assert OccursAt(s, t, i + 1);
      }
    }
  }

  /** a can be obtained from b by deleting elements: the order of b is kept. */
  ghost predicate Subsequence<T>(a: seq<T>, b: seq<T>)
    decreases |b|
  {
    if a == [] then true
    else if b == [] then false
    else (a[0] == b[0] && Subsequence(a[1..], b[1..])) || Subsequence(a, b[1..])
  }

  /** Every string includes the empty string. */
  lemma ContainsEmpty(s: string)
    ensures Contains(s, "")
  {
  }
}
