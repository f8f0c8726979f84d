/** 32-bit signed integers as C# `int` has them: wrap-around arithmetic in an
    unchecked context, `int.ToString()` and `int.TryParse` with the default
    `NumberStyles.Integer`. */
module Int32 {
  import opened Text

  const MIN: int := -0x8000_0000
  const MAX: int := 0x7FFF_FFFF
  const MODULUS: int := 0x1_0000_0000

  predicate InRange(n: int) { MIN <= n <= MAX }

  /** The C# `int` result of an arithmetic operation whose exact value is `n`. */
  function Wrap(n: int): (r: int)
    ensures InRange(r)
    ensures (r - n) % MODULUS == 0
    ensures InRange(n) ==> r == n
  {
    (n - MIN) % MODULUS + MIN
  }

  // ---------------------------------------------------------------------------
  // Decimal text

  predicate IsDigit(c: char) { '0' <= c <= '9' }

  function DigitChar(d: int): (c: char)
    requires 0 <= d < 10
    ensures IsDigit(c)
  {
    ('0' as int + d) as char
  }

  function DigitValue(c: char): (d: int)
    requires IsDigit(c)
    ensures 0 <= d < 10
    ensures DigitChar(d) == c
  {
    c as int - '0' as int
  }

  predicate AllDigits(s: string) {
    forall i :: 0 <= i < |s| ==> IsDigit(s[i])
  }

  /** The number a string of decimal digits denotes, most significant first. */
  function DigitsValue(s: string): (n: nat)
    requires AllDigits(s)
    decreases |s|
  {
    if |s| == 0 then 0 else DigitsValue(s[..|s| - 1]) * 10 + DigitValue(s[|s| - 1])
  }

  /** The shortest decimal digit string of a natural number. */
  function Digits(n: nat): (s: string)
    ensures |s| > 0 && AllDigits(s)
    decreases n
  {
    if n < 10 then [DigitChar(n)] else Digits(n / 10) + [DigitChar(n % 10)]
  }

  lemma {:induction false} DigitsRoundTrip(n: nat)
    ensures DigitsValue(Digits(n)) == n
    decreases n
  {
    var s := Digits(n);
    if n >= 10 {
      DigitsRoundTrip(n / 10);
      assert s[..|s| - 1] == Digits(n / 10);
    }
  }

  /** `n.ToString()` in the invariant culture. */
  function ToDecimal(n: int): (s: string)
    ensures |s| > 0
    ensures n >= 0 ==> AllDigits(s)
    ensures n < 0 ==> s[0] == '-' && AllDigits(s[1..])
  {
    if n >= 0 then Digits(n) else "-" + Digits(-n)
  }

  // ---------------------------------------------------------------------------
  // int.TryParse

  /** The white space `NumberStyles.AllowLeadingWhite`/`AllowTrailingWhite` skip. */
  predicate IsNumberWhite(c: char) { c == ' ' || ('\t' <= c <= '\r') }

  function SkipLeadingWhite(s: string): (r: string)
    ensures |r| <= |s| && r == s[|s| - |r|..]
    ensures |r| == 0 || !IsNumberWhite(r[0])
    ensures forall i :: 0 <= i < |s| - |r| ==> IsNumberWhite(s[i])
    decreases |s|
  {
    if |s| > 0 && IsNumberWhite(s[0]) then SkipLeadingWhite(s[1..]) else s
  }

  function SkipTrailingWhite(s: string): (r: string)
    ensures |r| <= |s| && r == s[..|r|]
    ensures |r| == 0 || !IsNumberWhite(r[|r| - 1])
    ensures forall i :: |r| <= i < |s| ==> IsNumberWhite(s[i])
    decreases |s|
  {
    if |s| > 0 && IsNumberWhite(s[|s| - 1]) then SkipTrailingWhite(s[..|s| - 1]) else s
  }

  /** The run of NUL characters .NET's integer parser tolerates after the trailing white space. */
  function SkipTrailingNuls(s: string): (r: string)
    ensures |r| <= |s| && r == s[..|r|]
    ensures |r| == 0 || r[|r| - 1] != '\0'
    ensures forall i :: |r| <= i < |s| ==> s[i] == '\0'
    decreases |s|
  {
    if |s| > 0 && s[|s| - 1] == '\0' then SkipTrailingNuls(s[..|s| - 1]) else s
  }

  /** `int.TryParse(s, out n)`: optional leading white space, an optional sign, one or
      more ASCII digits, optional trailing white space and then optional NUL characters,
      and a value that fits in 32 bits. */
  function TryParse(s: string): (r: Option<int>)
    ensures r.Some? ==> InRange(r.value)
  {
    ParseCore(SkipTrailingWhite(SkipTrailingNuls(SkipLeadingWhite(s))))
  }

  /** The sign and the digits, once the white space and NULs around them are gone. */
  function ParseCore(t: string): Option<int> {
    if |t| == 0 then None
    else
      var negative := t[0] == '-';
      var body := if t[0] == '-' || t[0] == '+' then t[1..] else t;
      if |body| == 0 || !AllDigits(body) then None
      else
        var magnitude: int := DigitsValue(body);
        var v := if negative then -magnitude else magnitude;
        if InRange(v) then Some(v) else None
  }

  lemma CoreSyntax(t: string, k: int)
    requires ParseCore(t).Some?
    requires 0 <= k < |t|
    ensures t[k] == '-' || t[k] == '+' || IsDigit(t[k])
  {
    var body := if t[0] == '-' || t[0] == '+' then t[1..] else t;
    if k > 0 && (t[0] == '-' || t[0] == '+') {
      assert t[k] == body[k - 1];
    }
  }

  /** The characters `int.TryParse` can accept: number white space, a sign, a digit or NUL. */
  predicate IsNumberSyntax(c: char) { IsNumberWhite(c) || c == '-' || c == '+' || IsDigit(c) || c == '\0' }

  /** Whatever `int.TryParse` accepts consists of number white space, signs, digits and
      NULs only, and a NUL is followed by nothing but NULs; so a token holding any other
      character (a letter, say) is rejected. */
  lemma TryParseSyntax(s: string, i: int)
    requires TryParse(s).Some?
    requires 0 <= i < |s|
    ensures IsNumberSyntax(s[i])
    ensures s[i] == '\0' ==> forall j :: i <= j < |s| ==> s[j] == '\0'
  {
    var a := SkipLeadingWhite(s);
    var z := SkipTrailingNuls(a);
    var t := SkipTrailingWhite(z);
    var off := |s| - |a|;
    if i < off {
      assert IsNumberWhite(s[i]);
    } else if i < off + |t| {
      assert s[i] == a[i - off] == z[i - off] == t[i - off];
      CoreSyntax(t, i - off);
    } else if i < off + |z| {
      assert s[i] == a[i - off] == z[i - off];
      assert IsNumberWhite(z[i - off]);
    } else {
      NulTail(s, a, |z|, i);
    }
  }

  lemma NulTail(s: string, a: string, n: int, i: int)
    requires |a| <= |s| && a == s[|s| - |a|..]
    requires 0 <= n <= |a| && forall k :: n <= k < |a| ==> a[k] == '\0'
    requires |s| - |a| + n <= i < |s|
    ensures forall j :: i <= j < |s| ==> s[j] == '\0'
  {
    forall j | i <= j < |s|
      ensures s[j] == '\0'
    {
      assert s[j] == a[j - (|s| - |a|)];
    }
  }

  /** NULs after the digits and the trailing white space are accepted and ignored. */
  lemma TrailingNulsIgnored(digits: string, white: string, nuls: string)
    requires |digits| > 0 && AllDigits(digits) && InRange(DigitsValue(digits))
    requires forall i :: 0 <= i < |white| ==> IsNumberWhite(white[i])
    requires forall i :: 0 <= i < |nuls| ==> nuls[i] == '\0'
    ensures TryParse(digits + white + nuls) == Some(DigitsValue(digits))
  {
    var p := digits + white;
    LeadingDigitKept(digits, white, nuls);
    LastIsNotNul(digits, white);
    SkipNulsStopsAtWhite(p, nuls);
    SkipWhiteStopsAtDigit(digits, white);
    DigitsParse(digits);
  }

  lemma LeadingDigitKept(digits: string, white: string, nuls: string)
    requires |digits| > 0 && AllDigits(digits)
    ensures SkipLeadingWhite(digits + white + nuls) == digits + white + nuls
  {
    assert (digits + white + nuls)[0] == digits[0];
  }

  lemma DigitsParse(digits: string)
    requires |digits| > 0 && AllDigits(digits) && InRange(DigitsValue(digits))
    ensures ParseCore(digits) == Some(DigitsValue(digits))
  {
    assert IsDigit(digits[0]);
  }

  lemma LastIsNotNul(digits: string, white: string)
    requires |digits| > 0 && AllDigits(digits)
    requires forall i :: 0 <= i < |white| ==> IsNumberWhite(white[i])
    ensures (digits + white)[|digits + white| - 1] != '\0'
  {
    if |white| > 0 {
      assert (digits + white)[|digits + white| - 1] == white[|white| - 1];
    } else {
      assert (digits + white)[|digits + white| - 1] == digits[|digits| - 1];
    }
  }

  lemma {:induction false} SkipNulsStopsAtWhite(p: string, nuls: string)
    requires |p| > 0 && p[|p| - 1] != '\0'
    requires forall i :: 0 <= i < |nuls| ==> nuls[i] == '\0'
    ensures SkipTrailingNuls(p + nuls) == p
    decreases |nuls|
  {
    if |nuls| > 0 {
      assert (p + nuls)[..|p + nuls| - 1] == p + nuls[..|nuls| - 1];
      SkipNulsStopsAtWhite(p, nuls[..|nuls| - 1]);
    } else {
      assert p + nuls == p;
    }
  }

  lemma {:induction false} SkipWhiteStopsAtDigit(p: string, white: string)
    requires |p| > 0 && !IsNumberWhite(p[|p| - 1])
    requires forall i :: 0 <= i < |white| ==> IsNumberWhite(white[i])
    ensures SkipTrailingWhite(p + white) == p
    decreases |white|
  {
    if |white| > 0 {
      assert (p + white)[..|p + white| - 1] == p + white[..|white| - 1];
      SkipWhiteStopsAtDigit(p, white[..|white| - 1]);
    } else {
      assert p + white == p;
    }
  }

  /** Parsing the decimal text of any 32-bit integer gives the integer back. */
  lemma ToDecimalRoundTrip(n: int)
    requires InRange(n)
    ensures TryParse(ToDecimal(n)) == Some(n)
  {
    var s := ToDecimal(n);
    var m := if n >= 0 then n else -n;
    DigitsRoundTrip(m);
    assert !IsNumberWhite(s[0]);
    assert SkipLeadingWhite(s) == s;
    assert SkipTrailingNuls(s) == s;
    assert !IsNumberWhite(s[|s| - 1]);
    assert SkipTrailingWhite(s) == s;
    if n < 0 {
      assert s[1..] == Digits(m);
    }
  }
}
