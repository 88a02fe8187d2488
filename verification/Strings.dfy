/** The string functions of Go's library that the model computes. */
module Strings {
  import opened Wrappers
  import opened Types
  import opened Keys

  /** strings.Split at every occurrence of `c`. */
  function Split(s: string, c: char): (parts: seq<string>)
    ensures parts != []
  {
    if s == [] then [[]]
    else
      var parts := Split(s[1..], c);
      if s[0] == c then [[]] + parts else [[s[0]] + parts[0]] + parts[1..]
  }

  function Join(parts: seq<string>, c: char): string
    requires parts != []
  {
    if |parts| == 1 then parts[0] else parts[0] + [c] + Join(parts[1..], c)
  }

  /** Splitting loses nothing, and no part contains the separator. */
  lemma {:induction false} SplitJoins(s: string, c: char)
    ensures Join(Split(s, c), c) == s
    ensures forall i | 0 <= i < |Split(s, c)| :: c !in Split(s, c)[i]
  {
    if s != [] {
      SplitJoins(s[1..], c);
      var parts := Split(s[1..], c);
      if s[0] == c {
        assert ([[]] + parts)[1..] == parts;
        assert [] + [c] + s[1..] == s;
      } else {
        var more := [[s[0]] + parts[0]] + parts[1..];
        assert more[1..] == parts[1..];
        assert Join(more, c) == [s[0]] + Join(parts, c);
      }
    }
  }

  predicate AllDigits(s: string) {
    s != [] && forall i | 0 <= i < |s| :: '0' <= s[i] <= '9'
  }

  function Value(s: string): nat
    requires forall i | 0 <= i < |s| :: '0' <= s[i] <= '9'
  {
    if s == [] then 0 else Value(s[..|s| - 1]) * 10 + (s[|s| - 1] - '0') as nat
  }

  /** strconv.Atoi on 64 bits: None is an error. */
  function Atoi(s: string): Option<int> {
    var signed := s != [] && (s[0] == '-' || s[0] == '+');
    var digits := if signed then s[1..] else s;
    if !AllDigits(digits) then None
    else
      var magnitude: int := Value(digits);
      var n := if signed && s[0] == '-' then -magnitude else magnitude;
      if -MAX_INT64 - 1 <= n <= MAX_INT64 then Some(n) else None
  }

  lemma ValueOfMore(s: string, c: char)
    requires (forall i | 0 <= i < |s| :: '0' <= s[i] <= '9') && '0' <= c <= '9'
    ensures forall i | 0 <= i < |s + [c]| :: '0' <= (s + [c])[i] <= '9'
    ensures Value(s + [c]) == Value(s) * 10 + (c - '0') as nat
  {
    assert (s + [c])[..|s|] == s;
  }

  lemma {:induction false} ValueOfDigits(n: nat)
    ensures Value(Digits(n)) == n
  {
    hide Value;
    if n < 10 {
      ValueOfDigit(n);
    } else {
      ValueOfDigits(n / 10);
      MoreValue(Digits(n / 10), n % 10);
    }
  }

  lemma ValueOfDigit(d: nat)
    requires d < 10
    ensures '0' <= Digit(d) <= '9' && Value([Digit(d)]) == d
  {
    ValueOfMore("", Digit(d));
    assert "" + [Digit(d)] == [Digit(d)];
  }

  lemma MoreValue(s: string, d: nat)
    requires (forall i | 0 <= i < |s| :: '0' <= s[i] <= '9') && d < 10
    ensures forall i | 0 <= i < |s + [Digit(d)]| :: '0' <= (s + [Digit(d)])[i] <= '9'
    ensures Value(s + [Digit(d)]) == Value(s) * 10 + d
  {
    hide Value;
    ValueOfMore(s, Digit(d));
  }

  lemma ValueOfZero()
    ensures Value("0") == 0 == Value("")
  {
    ValueOfMore("", '0');
    assert "" + ['0'] == "0";
  }

  lemma {:induction false} LeadingZero(s: string)
    requires forall i | 0 <= i < |s| :: '0' <= s[i] <= '9'
    ensures Value("0" + s) == Value(s)
  {
    hide Value;
    if s == "" {
      ValueOfZero();
      assert "0" + s == "0" && s == "";
    } else {
      var front, last := s[..|s| - 1], s[|s| - 1];
      LeadingZero(front);
      assert s == front + [last] && "0" + s == ("0" + front) + [last];
      ValueOfMore("0" + front, last);
      ValueOfMore(front, last);
    }
  }

  function Zeros(n: nat): string {
    if n == 0 then "" else "0" + Zeros(n - 1)
  }

  lemma {:induction false} LeadingZeros(n: nat, s: string)
    requires forall i | 0 <= i < |s| :: '0' <= s[i] <= '9'
    ensures forall i | 0 <= i < |Zeros(n) + s| :: '0' <= (Zeros(n) + s)[i] <= '9'
    ensures Value(Zeros(n) + s) == Value(s) && (n > 0 ==> (Zeros(n) + s)[0] == '0')
  {
    if n == 0 {
      assert Zeros(n) + s == s;
    } else {
      LeadingZeros(n - 1, s);
      LeadingZero(Zeros(n - 1) + s);
      assert Zeros(n) + s == "0" + (Zeros(n - 1) + s);
    }
  }

  lemma DigitOf(c: char)
    requires '0' <= c <= '9'
    ensures Digits((c - '0') as nat) == [c] && (c - '0') as nat < 10
  {
    assert Digit((c - '0') as nat) == c;
  }

  lemma OneMoreDigit(zeros: nat, n: nat, c: char) returns (more: nat)
    requires '0' <= c <= '9'
    ensures Zeros(zeros) + Digits(n) + [c] == Zeros(more) + Digits(n * 10 + (c - '0') as nat)
  {
    var d := (c - '0') as nat;
    DigitOf(c);
    if n == 0 {
      ZeroBehind(zeros);
      more := zeros + 1;
    } else {
      assert Digit(d) == c;
      MoreDigits(n, d);
      hide Digits;
      assert Zeros(zeros) + (Digits(n) + [c]) == Zeros(zeros) + Digits(n) + [c];
      more := zeros;
    }
  }

  /** Digits are a numeral without leading zeros behind any number of zeros. */
  lemma {:induction false} DigitsOfValue(s: string) returns (zeros: nat)
    requires AllDigits(s)
    ensures s == Zeros(zeros) + Digits(Value(s))
    decreases |s|
  {
    hide Digits, Value, Zeros;
    if |s| == 1 {
      OneDigit(s);
      zeros := 0;
    } else {
      zeros := DigitsOfValue(s[..|s| - 1]);
      zeros := LastDigit(s, zeros);
    }
  }

  lemma OneDigit(s: string)
    requires AllDigits(s) && |s| == 1
    ensures s == Zeros(0) + Digits(Value(s))
  {
    ValueOfMore("", s[0]);
    assert s == "" + [s[0]];
    DigitOf(s[0]);
  }

  lemma LastDigit(s: string, zeros: nat) returns (more: nat)
    requires AllDigits(s) && |s| > 1 && AllDigits(s[..|s| - 1])
    requires s[..|s| - 1] == Zeros(zeros) + Digits(Value(s[..|s| - 1]))
    ensures s == Zeros(more) + Digits(Value(s))
  {
    hide Digits, Zeros;
    var front, last := s[..|s| - 1], s[|s| - 1];
    assert s == front + [last];
    ValueOfMore(front, last);
    hide Value;
    more := OneMoreDigit(zeros, Value(front), last);
  }

  lemma MoreDigits(n: nat, d: nat)
    requires n > 0 && d < 10
    ensures Digits(n * 10 + d) == Digits(n) + [Digit(d)]
  {
    assert (n * 10 + d) / 10 == n && (n * 10 + d) % 10 == d;
  }

  lemma {:induction false} ZeroBehind(n: nat)
    ensures Zeros(n) + "0" == Zeros(n + 1)
  {
    if n > 0 {
      ZeroBehind(n - 1);
      assert Zeros(n) + "0" == "0" + (Zeros(n - 1) + "0");
    }
  }

  // Is the string a numeral of `v`: its digits behind zeros and a sign that fits?
  predicate IsNumeral(s: string, sign: string, zeros: nat, v: int) {
    && s == sign + (Zeros(zeros) + Digits(if v < 0 then -v else v))
    && (sign == "-" || sign == "+" || sign == "") && (if sign == "-" then v <= 0 else v >= 0)
  }

  /** A string is read as an integer exactly when it is a numeral of this integer, and the integer fits in 64 bits. */
  lemma AtoiIff(s: string, v: int)
    ensures Atoi(s) == Some(v) <==>
            -MAX_INT64 - 1 <= v <= MAX_INT64 && exists sign, zeros: nat :: IsNumeral(s, sign, zeros, v)
  {
    hide Atoi, IsNumeral;
    if Atoi(s) == Some(v) {
      var sign, zeros := ReadIsNumeral(s, v);
    }
    forall sign, zeros: nat | IsNumeral(s, sign, zeros, v) && -MAX_INT64 - 1 <= v <= MAX_INT64
      ensures Atoi(s) == Some(v)
    {
      NumeralIsRead(s, sign, zeros, v);
    }
  }

  lemma ReadIsNumeral(s: string, v: int) returns (sign: string, zeros: nat)
    requires Atoi(s) == Some(v)
    ensures IsNumeral(s, sign, zeros, v) && -MAX_INT64 - 1 <= v <= MAX_INT64
  {
    hide Atoi, Value, Digits, Zeros;
    var digits;
    sign, digits := ReadInParts(s, v);
    zeros := DigitsOfValue(digits);
    hide AllDigits;
  }

  // A sign and the digits behind it.
  lemma ReadInParts(s: string, v: int) returns (sign: string, digits: string)
    requires Atoi(s) == Some(v)
    ensures s == sign + digits && AllDigits(digits) && (sign == "-" || sign == "+" || sign == "")
    ensures v == (if sign == "-" then 0 - Value(digits) else Value(digits)) && -MAX_INT64 - 1 <= v <= MAX_INT64
  {
    hide Value, AllDigits;
    var signed := s != [] && (s[0] == '-' || s[0] == '+');
    digits := if signed then s[1..] else s;
    sign := if signed then [s[0]] else "";
  }

  lemma NumeralIsRead(s: string, sign: string, zeros: nat, v: int)
    requires IsNumeral(s, sign, zeros, v) && -MAX_INT64 - 1 <= v <= MAX_INT64
    ensures Atoi(s) == Some(v)
  {
    var n := if v < 0 then -v else v;
    var digits := Zeros(zeros) + Digits(n);
    ValueOfDigits(n);
    LeadingZeros(zeros, Digits(n));
    assert AllDigits(digits) && Value(digits) == n;
    hide Digits, Zeros, Value, AllDigits, Atoi;
    if sign == "" {
      assert s == digits;
      UnsignedIsRead(digits);
    } else {
      SignedIsRead(sign, digits);
    }
  }

  lemma UnsignedIsRead(digits: string)
    requires AllDigits(digits) && Value(digits) <= MAX_INT64
    ensures Atoi(digits) == Some(Value(digits))
  {
    assert '0' <= digits[0] <= '9';
    hide Value, AllDigits;
  }

  lemma SignedIsRead(sign: string, digits: string)
    requires AllDigits(digits) && (sign == "-" || sign == "+")
    requires Value(digits) <= if sign == "-" then MAX_INT64 + 1 else MAX_INT64
    ensures Atoi(sign + digits) == Some(if sign == "-" then 0 - Value(digits) else Value(digits))
  {
    hide Value, AllDigits;
    var s := sign + digits;
    assert s[0] == sign[0] && s[1..] == digits;
  }

  lemma SplitCons(a: string, c: char, rest: string)
    requires c !in a
    ensures Split(a + [c] + rest, c) == [a] + Split(rest, c)
    decreases a
  {
    var s := a + [c] + rest;
    if a == [] {
      assert s[1..] == rest;
    } else {
      assert s[1..] == a[1..] + [c] + rest;
      SplitCons(a[1..], c, rest);
      assert [a[0]] + a[1..] == a;
    }
  }

  lemma {:induction false} SplitOne(a: string, c: char)
    requires c !in a
    ensures Split(a, c) == [a]
  {
    if a != [] {
      SplitOne(a[1..], c);
      assert [a[0]] + a[1..] == a;
    }
  }

  /** Parts that do not contain the separator are found again. */
  lemma {:induction false} JoinSplits(parts: seq<string>, c: char)
    requires parts != [] && forall i | 0 <= i < |parts| :: c !in parts[i]
    ensures Split(Join(parts, c), c) == parts
  {
    if |parts| == 1 {
      SplitOne(parts[0], c);
    } else {
      JoinSplits(parts[1..], c);
      SplitCons(parts[0], c, Join(parts[1..], c));
      assert parts == [parts[0]] + parts[1..];
    }
  }

  /** strings.ReplaceAll of one character. */
  function ReplaceAll(s: string, c: char, fill: string): string {
    if s == [] then [] else (if s[0] == c then fill else [s[0]]) + ReplaceAll(s[1..], c, fill)
  }

  /** Every occurrence is replaced, and nothing else is. */
  lemma {:induction false} ReplacedInParts(a: string, b: string, c: char, fill: string)
    ensures ReplaceAll(a + b, c, fill) == ReplaceAll(a, c, fill) + ReplaceAll(b, c, fill)
    ensures ReplaceAll([c], c, fill) == fill
  {
    if a == [] {
      assert a + b == b;
    } else {
      assert (a + b)[1..] == a[1..] + b;
      ReplacedInParts(a[1..], b, c, fill);
    }
    assert [c][1..] == [];
  }

  lemma {:induction false} ReplacedIsGone(s: string, c: char, fill: string, x: char)
    ensures x in ReplaceAll(s, c, fill) ==> (x in s && x != c) || x in fill
    ensures c !in s ==> ReplaceAll(s, c, fill) == s
  {
    if s != [] {
      ReplacedIsGone(s[1..], c, fill, x);
      assert s == [s[0]] + s[1..];
    }
  }

  /** A prefix that shares no character with what is put in, or with what is replaced, stays and does not appear. */
  lemma {:induction false} ReplaceKeepsPrefix(s: string, c: char, fill: string, prefix: string)
    requires fill != [] && c !in prefix && forall x | x in fill :: x !in prefix
    ensures prefix <= ReplaceAll(s, c, fill) <==> prefix <= s
  {
    if s != [] && prefix != [] {
      var r, rest := ReplaceAll(s, c, fill), prefix[1..];
      assert forall x | x in rest :: x in prefix;
      ReplaceKeepsPrefix(s[1..], c, fill, rest);
      assert prefix == [prefix[0]] + rest && s == [s[0]] + s[1..];
      if s[0] == c {
        assert r[0] == fill[0] && fill[0] in fill;
        assert prefix[0] in prefix;
      } else {
        assert r[0] == s[0] && r[1..] == ReplaceAll(s[1..], c, fill);
        PrefixCons(prefix, s);
        PrefixCons(prefix, r);
      }
    }
  }

  lemma PrefixCons(a: string, b: string)
    requires a != [] && b != []
    ensures a <= b <==> a[0] == b[0] && a[1..] <= b[1..]
  {
    assert a == [a[0]] + a[1..] && b == [b[0]] + b[1..];
  }
}
