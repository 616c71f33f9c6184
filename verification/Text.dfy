/** Splitting on a separator, and decimal numbers as text. */
module Text {
  import opened Bytes

  /** The fields of s; as many as separators plus one. */
  function Split(s: string, sep: char): (r: seq<string>)
    ensures |r| >= 1
  {
    if s == [] then [[]]
    else
      var rest := Split(s[1..], sep);
      if s[0] == sep then [[]] + rest else [[s[0]] + rest[0]] + rest[1..]
  }

  lemma {:induction false} FieldsAreFree(s: string, sep: char)
    ensures forall i :: 0 <= i < |Split(s, sep)| ==> sep !in Split(s, sep)[i]
  {
    if s != [] {
      var rest := Split(s[1..], sep);
      FieldsAreFree(s[1..], sep);
      assert sep !in rest[0];
      assert forall i :: 1 <= i < |rest| ==> sep !in rest[i];
    }
  }

  function Join(fields: seq<string>, sep: char): string
    requires |fields| >= 1
  {
    if |fields| == 1 then fields[0] else fields[0] + [sep] + Join(fields[1..], sep)
  }

  lemma {:induction false} JoinSplit(s: string, sep: char)
    ensures Join(Split(s, sep), sep) == s
  {
    if s != [] {
      var rest := Split(s[1..], sep);
      JoinSplit(s[1..], sep);
      if s[0] == sep {
        assert Split(s, sep)[1..] == rest;
      } else {
        assert Split(s, sep)[1..] == rest[1..];
      }
    }
  }

  lemma {:induction false} SplitPrefix(field: string, s: string, sep: char)
    requires sep !in field
    ensures Split(field + [sep] + s, sep) == [field] + Split(s, sep)
    ensures Split(field, sep) == [field]
  {
    if field == [] {
      assert ([sep] + s)[1..] == s;
      assert field + [sep] + s == [sep] + s;
    } else {
      SplitPrefix(field[1..], s, sep);
      assert (field + [sep] + s)[1..] == field[1..] + [sep] + s;
      assert [field[0]] + field[1..] == field;
    }
  }

  /** Fields without the separator survive joining and splitting. */
  lemma {:induction false} SplitJoin(fields: seq<string>, sep: char)
    requires |fields| >= 1 && forall i :: 0 <= i < |fields| ==> sep !in fields[i]
    ensures Split(Join(fields, sep), sep) == fields
  {
    if |fields| == 1 {
      SplitPrefix(fields[0], [], sep);
    } else {
      SplitJoin(fields[1..], sep);
      SplitPrefix(fields[0], Join(fields[1..], sep), sep);
    }
  }

  lemma {:induction false} JoinSnoc(fields: seq<string>, f: string, sep: char)
    requires |fields| >= 1
    ensures Join(fields + [f], sep) == Join(fields, sep) + [sep] + f
  {
    if |fields| > 1 {
      JoinSnoc(fields[1..], f, sep);
      assert (fields + [f])[1..] == fields[1..] + [f];
    } else {
      assert (fields + [f])[1..] == [f];
    }
  }

  // ----- Decimal numbers

  function DigitChar(d: nat): char
    requires d < 10
  {
    (d + '0' as int) as char
  }

  predicate IsDigit(c: char) {
    '0' <= c <= '9'
  }

  function Digits(n: nat): string {
    if n < 10 then [DigitChar(n)] else Digits(n / 10) + [DigitChar(n % 10)]
  }

  /** std::to_string of an integer. */
  function ToString(n: int): string {
    if n < 0 then ['-'] + Digits(-n) else Digits(n)
  }

  function DigitPrefix(s: string): string {
    if s == [] || !IsDigit(s[0]) then [] else [s[0]] + DigitPrefix(s[1..])
  }

  function Value(digits: string): nat
    requires forall i :: 0 <= i < |digits| ==> IsDigit(digits[i])
  {
    if digits == [] then 0
    else
      assert IsDigit(digits[|digits| - 1]);
      10 * Value(digits[..|digits| - 1]) + (digits[|digits| - 1] as int - '0' as int)
  }

  lemma {:induction false} DigitPrefixDigits(s: string)
    ensures forall i :: 0 <= i < |DigitPrefix(s)| ==> IsDigit(DigitPrefix(s)[i])
  {
    if s != [] && IsDigit(s[0]) {
      DigitPrefixDigits(s[1..]);
    }
  }

  /** parseInt on text without white space or a radix prefix; None is NaN. */
  function ParseInt(s: string): Option<int> {
    var negative := s != [] && s[0] == '-';
    var digits := DigitPrefix(if negative || (s != [] && s[0] == '+') then s[1..] else s);
    DigitPrefixDigits(if negative || (s != [] && s[0] == '+') then s[1..] else s);
    if digits == [] then None else Some(if negative then 0 - Value(digits) else Value(digits))
  }

  lemma {:induction false} DigitsValue(n: nat)
    ensures Digits(n) != [] && forall i :: 0 <= i < |Digits(n)| ==> IsDigit(Digits(n)[i])
    ensures Value(Digits(n)) == n
  {
    if n >= 10 {
      DigitsValue(n / 10);
      assert Digits(n)[..|Digits(n)| - 1] == Digits(n / 10);
    } else {
      assert Digits(n)[..0] == [];
    }
  }

  lemma {:induction false} DigitPrefixAll(s: string)
    requires forall i :: 0 <= i < |s| ==> IsDigit(s[i])
    ensures DigitPrefix(s) == s
  {
    if s != [] {
      DigitPrefixAll(s[1..]);
    }
  }

  lemma ParseDigits(digits: string)
    requires digits != [] && forall i :: 0 <= i < |digits| ==> IsDigit(digits[i])
    ensures ParseInt(digits) == Some(Value(digits))
  {
    DigitPrefixAll(digits);
    assert IsDigit(digits[0]) && digits[0] != '-' && digits[0] != '+';
  }

  lemma ParseMinus(s: string, digits: string)
    requires digits != [] && forall i :: 0 <= i < |digits| ==> IsDigit(digits[i])
    requires s != [] && s[0] == '-' && s[1..] == digits
    ensures ParseInt(s) == Some(0 - Value(digits))
  {
    DigitPrefixAll(digits);
  }

  lemma ParseToString(n: int)
    ensures ParseInt(ToString(n)) == Some(n)
  {
    DigitsValue(if n < 0 then -n else n);
    if n < 0 {
      assert ToString(n)[1..] == Digits(-n);
      ParseMinus(ToString(n), Digits(-n));
    } else {
      ParseDigits(Digits(n));
    }
  }

  /** Some numbers as they are printed, and texts that are read in part or not at all. */
  lemma NumberExamples()
    ensures ToString(0) == "0" && ToString(7) == "7" && ToString(120) == "120" && ToString(-35) == "-35"
    ensures ParseInt("") == None && ParseInt("x7") == None && ParseInt("-") == None
    ensures ParseInt("7x") == Some(7)
  {
    assert Digits(120) == Digits(12) + "0" == Digits(1) + "2" + "0";
    assert Digits(35) == Digits(3) + "5";
    assert "7x"[1..] == "x" && DigitPrefix("x") == "" && DigitPrefix("7x") == "7" && "7"[..0] == "" && Value("7") == 7;
    assert "-"[1..] == "";
  }

  lemma ToStringChars(n: int, c: char)
    requires !IsDigit(c) && c != '-'
    ensures c !in ToString(n)
  {
    DigitsValue(if n < 0 then -n else n);
  }
}
