/** The few JavaScript string primitives the upload handlers rely on:
    truthiness of a string field, `String.prototype.split` with a
    one-character separator, the decimal text of a non-negative number as
    produced by a template literal, and the global `parseInt` with no radix
    (section 19.2.5 of ECMA-262). A NaN result is `None`. */
module JsText {
  import opened Optional

  /** `!field` is false: the field is present and not the empty string.
      Note that "0" is truthy, unlike the number 0. */
  predicate Truthy(field: Option<string>) {
    field.Some? && field.value != ""
  }

  /** `String(v)` of a value that is a string or `undefined`. */
  function ToJsString(v: Option<string>): string {
    match v
    case Some(s) => s
    case None => "undefined"
  }

  // ---------------------------------------------------------------------
  // split

  /** `s.split(sep)` for a one-character separator. */
  function Split(s: string, sep: char): (r: seq<string>)
    ensures |r| >= 1
    ensures forall k :: 0 <= k < |r| ==> sep !in r[k]
  {
    if s == [] then [""]
    else
      var rest := Split(s[1..], sep);
      if s[0] == sep then [""] + rest
      else [[s[0]] + rest[0]] + rest[1..]
  }

  /** `pieces.join(sep)`: the inverse of `Split`. */
  function Join(pieces: seq<string>, sep: char): string
    requires |pieces| >= 1
  {
    if |pieces| == 1 then pieces[0]
    else pieces[0] + [sep] + Join(pieces[1..], sep)
  }

  /** Splitting loses nothing: joining the pieces gives back the string. */
  lemma {:induction false} SplitJoin(s: string, sep: char)
    ensures Join(Split(s, sep), sep) == s
  {
    if s != [] {
      SplitJoin(s[1..], sep);
      var rest := Split(s[1..], sep);
      if s[0] == sep {
        assert Split(s, sep) == [""] + rest;
        assert ([""] + rest)[1..] == rest;
      } else {
        var r := Split(s, sep);
        assert r == [[s[0]] + rest[0]] + rest[1..];
        if |rest| == 1 {
          assert r == [[s[0]] + rest[0]];
        } else {
          assert r[1..] == rest[1..];
          assert Join(rest, sep) == rest[0] + [sep] + Join(rest[1..], sep);
          assert Join(r, sep) == [s[0]] + rest[0] + [sep] + Join(rest[1..], sep);
        }
      }
    }
  }

  /** A string splits into a single piece exactly when it holds no separator. */
  lemma {:induction false} SplitSingle(s: string, sep: char)
    ensures |Split(s, sep)| == 1 <==> sep !in s
    ensures sep !in s ==> Split(s, sep) == [s]
  {
    if s != [] {
      SplitSingle(s[1..], sep);
      assert s == [s[0]] + s[1..];
    }
  }

  /** Splitting across a separator splits each side independently. */
  lemma {:induction false} SplitAppend(a: string, sep: char, b: string)
    ensures Split(a + [sep] + b, sep) == Split(a, sep) + Split(b, sep)
  {
    if a == [] {
      assert a + [sep] + b == [sep] + b;
      SeparatorStep(sep, b, sep);
    } else {
      SplitAppend(a[1..], sep, b);
      SplitAppendStep(a[0], a[1..], sep, b);
      assert [a[0]] + a[1..] == a;
      assert [a[0]] + (a[1..] + [sep] + b) == a + [sep] + b;
    }
  }

  /** The inductive step of `SplitAppend`: one more character in front. */
  lemma SplitAppendStep(c: char, a: string, sep: char, b: string)
    requires Split(a + [sep] + b, sep) == Split(a, sep) + Split(b, sep)
    ensures Split([c] + (a + [sep] + b), sep) == Split([c] + a, sep) + Split(b, sep)
  {
    if c == sep {
      SeparatorStep(c, a + [sep] + b, sep);
      SeparatorStep(c, a, sep);
      ConsAppend("", Split(a, sep), Split(b, sep));
    } else {
      LetterStep(c, a + [sep] + b, sep);
      LetterStep(c, a, sep);
      var ra, rb := Split(a, sep), Split(b, sep);
      assert (ra + rb)[0] == ra[0] && (ra + rb)[1..] == ra[1..] + rb;
      ConsAppend([c] + ra[0], ra[1..], rb);
    }
  }

  lemma ConsAppend(x: string, p: seq<string>, q: seq<string>)
    ensures [x] + (p + q) == ([x] + p) + q
  {
  }

  lemma SeparatorStep(c: char, t: string, sep: char)
    requires c == sep
    ensures Split([c] + t, sep) == [""] + Split(t, sep)
  {
    assert ([c] + t)[1..] == t;
  }

  lemma LetterStep(c: char, t: string, sep: char)
    requires c != sep
    ensures Split([c] + t, sep) == [[c] + Split(t, sep)[0]] + Split(t, sep)[1..]
  {
    assert ([c] + t)[1..] == t;
  }

  // ---------------------------------------------------------------------
  // numbers as text

  /** The character of a decimal digit. */
  function DigitChar(d: nat): (c: char)
    requires d < 10
    ensures '0' <= c <= '9'
  {
    ['0', '1', '2', '3', '4', '5', '6', '7', '8', '9'][d]
  }

  predicate IsDecimalDigit(c: char) {
    '0' <= c <= '9'
  }

  /** `${n}` for a non-negative integer: shortest decimal, no leading zero. */
  function NumberToString(n: nat): (r: string)
    ensures r != []
    ensures forall k :: 0 <= k < |r| ==> IsDecimalDigit(r[k])
    ensures r[0] == '0' ==> n == 0 && r == "0"
  {
    if n < 10 then [DigitChar(n)]
    else NumberToString(n / 10) + [DigitChar(n % 10)]
  }

  /** Value of a character as a digit in radix up to 36; 36 when it is no digit. */
  function DigitValue(c: char): (v: nat)
    ensures v <= 36
    ensures IsDecimalDigit(c) ==> v == c as int - '0' as int
    ensures v < 10 <==> IsDecimalDigit(c)
  {
    if '0' <= c <= '9' then c as int - '0' as int
    else if 'a' <= c <= 'z' then c as int - 'a' as int + 10
    else if 'A' <= c <= 'Z' then c as int - 'A' as int + 10
    else 36
  }

  /** The longest prefix of `s` made of digits of the radix. */
  function LeadingDigits(s: string, radix: nat): (r: string)
    ensures |r| <= |s| && r == s[..|r|]
    ensures forall k :: 0 <= k < |r| ==> DigitValue(r[k]) < radix
    ensures |r| < |s| ==> DigitValue(s[|r|]) >= radix
  {
    if s == [] || DigitValue(s[0]) >= radix then []
    else [s[0]] + LeadingDigits(s[1..], radix)
  }

  /** Value of a digit string in the radix, most significant digit first. */
  function DigitsValue(s: string, radix: nat): nat {
    if s == [] then 0
    else DigitsValue(s[..|s| - 1], radix) * radix + DigitValue(s[|s| - 1])
  }

  /** StrWhiteSpaceChar of ECMA-262: white space and line terminators. */
  predicate IsJsSpace(c: char) {
    || c == '\t' || c == '\n' || c == '\U{B}' || c == '\U{C}' || c == '\r'
    || c == ' ' || c == '\U{A0}' || c == '\U{1680}'
    || ('\U{2000}' <= c <= '\U{200A}')
    || c == '\U{2028}' || c == '\U{2029}' || c == '\U{202F}' || c == '\U{205F}'
    || c == '\U{3000}' || c == '\U{FEFF}'
  }

  /** `s` without its leading white space. */
  function TrimStart(s: string): (r: string)
    ensures |r| <= |s| && r == s[|s| - |r|..]
    ensures forall k :: 0 <= k < |s| - |r| ==> IsJsSpace(s[k])
    ensures r == [] || !IsJsSpace(r[0])
  {
    if s != [] && IsJsSpace(s[0]) then
      var r := TrimStart(s[1..]);
      assert forall k :: 1 <= k < |s| - |r| ==> s[k] == s[1..][k - 1];
      r
    else s
  }

  /** `parseInt(s)`: skip white space, take an optional sign, take a `0x`
      prefix as radix 16 (otherwise radix 10), then read the longest run of
      digits. No digits at all is NaN (`None`); `-0` is reported as 0. */
  function ParseInt(s: string): (r: Option<int>)
    // a number needs at least one decimal digit ("0x" starts with one)
    ensures (forall k :: 0 <= k < |s| ==> !IsDecimalDigit(s[k])) ==> r.None?
    // only a leading minus sign makes it negative
    ensures r.Some? && r.value < 0 ==> TrimStart(s) != [] && TrimStart(s)[0] == '-'
  {
    var t := TrimStart(s);
    var negative := t != [] && t[0] == '-';
    var u := if t != [] && (t[0] == '+' || t[0] == '-') then t[1..] else t;
    var hex := |u| >= 2 && u[0] == '0' && (u[1] == 'x' || u[1] == 'X');
    var radix := if hex then 16 else 10;
    var z := LeadingDigits(if hex then u[2..] else u, radix);
    var magnitude: int := DigitsValue(z, radix);
    assert z != [] ==> 0 < |u| && IsDecimalDigit(s[|s| - |u|]) by {
      assert u == s[|s| - |u|..];
      if z != [] && !hex {
        assert z[0] == u[0] && DigitValue(u[0]) < 10;
      }
    }
    if z == [] then None
    else if negative then Some(-magnitude)
    else Some(magnitude)
  }

  lemma {:induction false} DigitsValueOfNumber(n: nat)
    ensures DigitsValue(NumberToString(n), 10) == n
  {
    var s := NumberToString(n);
    if n < 10 {
      assert s[..|s| - 1] == [];
    } else {
      DigitsValueOfNumber(n / 10);
      assert s[..|s| - 1] == NumberToString(n / 10);
    }
  }

  /** A string that does not start with white space, a sign or a digit
      parses to NaN. */
  lemma ParseIntNoDigit(s: string)
    requires s == [] || (!IsJsSpace(s[0]) && s[0] != '+' && s[0] != '-' && !IsDecimalDigit(s[0]))
    ensures ParseInt(s) == None
  {
  }

  /** Digits followed by anything that is neither a letter nor a digit
      parse to the number the digits spell: `parseInt` reads back `${n}`
      even with trailing text. */
  lemma ParseIntOfNumberPrefix(n: nat, tail: string)
    requires tail == [] || DigitValue(tail[0]) == 36
    ensures ParseInt(NumberToString(n) + tail) == Some(n)
  {
    var d := NumberToString(n);
    var s := d + tail;
    assert s[0] == d[0];
    assert !IsJsSpace(s[0]);
    assert TrimStart(s) == s;
    assert s[0] != '+' && s[0] != '-';
    assert !(|s| >= 2 && s[0] == '0' && (s[1] == 'x' || s[1] == 'X')) by {
      if |s| >= 2 && s[0] == '0' {
        assert |d| == 1;
        assert s[1] == tail[0];
      }
    }
    LeadingDecimalsOf(d, tail);
    DigitsValueOfNumber(n);
  }

  lemma {:induction false} LeadingDecimalsOf(d: string, tail: string)
    requires forall k :: 0 <= k < |d| ==> IsDecimalDigit(d[k])
    requires tail == [] || !IsDecimalDigit(tail[0])
    ensures LeadingDigits(d + tail, 10) == d
  {
    if d != [] {
      assert (d + tail)[1..] == d[1..] + tail;
      LeadingDecimalsOf(d[1..], tail);
    } else {
      assert d + tail == tail;
    }
  }

  /** `parseInt` reads back the decimal text of every non-negative integer. */
  lemma ParseIntOfNumber(n: nat)
    ensures ParseInt(NumberToString(n)) == Some(n)
  {
    ParseIntOfNumberPrefix(n, []);
    assert NumberToString(n) + [] == NumberToString(n);
  }

  /** Distinct numbers have distinct decimal texts. */
  lemma NumberToStringInjective(i: nat, j: nat)
    ensures NumberToString(i) == NumberToString(j) ==> i == j
  {
    ParseIntOfNumber(i);
    ParseIntOfNumber(j);
  }
}
