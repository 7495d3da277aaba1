/** The few JavaScript string and number primitives the core relies on:
    `String.prototype.split` on one separator character, `parseInt`,
    `Number(...)` on a string, `String(n)`, `padStart`, `trim` and
    `toUpperCase`.

    A JavaScript number is modelled as `JsNumber`: either `NaN` or an
    unbounded integer (the core only ever produces integers; the 2^53
    precision limit of doubles is not modelled). */
module Text {

  datatype JsNumber = NaN | Int(value: int)

  /** `a + b` on JavaScript numbers: NaN is absorbing. */
  function Add(a: JsNumber, b: JsNumber): JsNumber {
    if a.Int? && b.Int? then Int(a.value + b.value) else NaN
  }

  /** `a * b` on JavaScript numbers: NaN is absorbing. */
  function Mul(a: JsNumber, b: JsNumber): JsNumber {
    if a.Int? && b.Int? then Int(a.value * b.value) else NaN
  }

  /** `a < b` on JavaScript numbers: every comparison with NaN is false. */
  predicate Less(a: JsNumber, b: JsNumber) {
    a.Int? && b.Int? && a.value < b.value
  }

  // ---------------------------------------------------------------------
  // Decimal digits
  // ---------------------------------------------------------------------

  predicate IsDigit(c: char) {
    '0' <= c <= '9'
  }

  predicate AllDigits(s: string) {
    forall i | 0 <= i < |s| :: IsDigit(s[i])
  }

  function DigitValue(c: char): (d: nat)
    requires IsDigit(c)
    ensures d < 10
  {
    (c as int) - ('0' as int)
  }

  function DigitChar(d: nat): (c: char)
    requires d < 10
    ensures IsDigit(c) && DigitValue(c) == d
  {
    (('0' as int) + d) as char
  }

  /** The value of a string of decimal digits, most significant digit first. */
  function DecimalValue(s: string): nat
    requires AllDigits(s)
  {
    if |s| == 0 then 0 else DecimalValue(s[..|s| - 1]) * 10 + DigitValue(s[|s| - 1])
  }

  /** The shortest decimal spelling of `n` (`String(n)` for a non-negative integer). */
  function DecimalString(n: nat): (s: string)
    ensures |s| >= 1 && AllDigits(s)
    ensures s[0] != '0' || n == 0
  {
    if n < 10 then [DigitChar(n)] else DecimalString(n / 10) + [DigitChar(n % 10)]
  }

  /** Reading back a spelled-out number gives the number. */
  lemma {:induction false} DecimalRoundTrip(n: nat)
    ensures DecimalValue(DecimalString(n)) == n
  {
    if n >= 10 {
      var s := DecimalString(n);
      assert s[..|s| - 1] == DecimalString(n / 10);
      DecimalRoundTrip(n / 10);
    }
  }

  /** `String(n)` for an integer, with a leading minus sign when negative. */
  function IntToString(n: int): (s: string)
    ensures |s| >= 1
    ensures n >= 0 <==> AllDigits(s)
  {
    if n < 0 then
      var s := "-" + DecimalString(-n);
      assert !IsDigit(s[0]);
      s
    else DecimalString(n)
  }

  /** `String(x)` for a JavaScript number. */
  function NumberToString(x: JsNumber): string {
    match x
    case NaN => "NaN"
    case Int(n) => IntToString(n)
  }

  function Repeat(c: char, k: nat): (s: string)
    ensures |s| == k
    ensures forall i | 0 <= i < k :: s[i] == c
  {
    if k == 0 then "" else Repeat(c, k - 1) + [c]
  }

  /** `s.padStart(width, [fill])`: never truncates, only prefixes. */
  function PadStart(s: string, width: nat, fill: char): (r: string)
    ensures |r| == if |s| >= width then |s| else width
    ensures r[|r| - |s|..] == s
    ensures forall i | 0 <= i < |r| - |s| :: r[i] == fill
  {
    if |s| >= width then s else Repeat(fill, width - |s|) + s
  }

  /** Zeros in front of a digit string leave a digit string. */
  lemma ZerosThenDigits(k: nat, t: string)
    requires AllDigits(t)
    ensures AllDigits(Repeat('0', k) + t)
  {
    var z := Repeat('0', k);
    forall i | 0 <= i < |z + t|
      ensures IsDigit((z + t)[i])
    {
      if i < k {
        assert (z + t)[i] == z[i];
      } else {
        assert (z + t)[i] == t[i - k];
      }
    }
  }

  /** A string of zeros is worth zero. */
  lemma {:induction false} ZerosValue(k: nat)
    ensures AllDigits(Repeat('0', k))
    ensures DecimalValue(Repeat('0', k)) == 0
  {
    if k > 0 {
      var z := Repeat('0', k);
      assert z[..k - 1] == Repeat('0', k - 1);
      ZerosValue(k - 1);
      assert DecimalValue(z) == DecimalValue(z[..k - 1]) * 10 + DigitValue(z[k - 1]);
    }
  }

  /** Leading zeros do not change the value of a digit string. */
  lemma {:induction false} LeadingZerosValue(k: nat, t: string)
    requires AllDigits(t)
    ensures AllDigits(Repeat('0', k) + t)
    ensures DecimalValue(Repeat('0', k) + t) == DecimalValue(t)
    decreases |t|
  {
    ZerosThenDigits(k, t);
    var s := Repeat('0', k) + t;
    if |t| == 0 {
      assert s == Repeat('0', k);
      ZerosValue(k);
    } else {
      var t' := t[..|t| - 1];
      var d := DigitValue(t[|t| - 1]);
      assert DecimalValue(t) == DecimalValue(t') * 10 + d;
      assert DecimalValue(s) == DecimalValue(Repeat('0', k) + t') * 10 + d by {
        assert s[..|s| - 1] == Repeat('0', k) + t';
        assert s[|s| - 1] == t[|t| - 1];
      }
      LeadingZerosValue(k, t');
    }
  }

  // ---------------------------------------------------------------------
  // parseInt and Number
  // ---------------------------------------------------------------------

  /** Length of the longest prefix of `s` made of decimal digits. */
  function DigitPrefixLength(s: string): (k: nat)
    ensures k <= |s|
    ensures AllDigits(s[..k])
    ensures k < |s| ==> !IsDigit(s[k])
  {
    if |s| == 0 || !IsDigit(s[0]) then 0 else 1 + DigitPrefixLength(s[1..])
  }

  function ParseDigits(s: string): JsNumber {
    var k := DigitPrefixLength(s);
    if k == 0 then NaN else Int(DecimalValue(s[..k]))
  }

  /** `parseInt(s)`: an optional sign, then the longest run of decimal
      digits; anything after the run is ignored, and no digit at all is NaN. */
  function ParseInt(s: string): JsNumber {
    if |s| > 0 && s[0] == '-' then
      match ParseDigits(s[1..])
      case NaN => NaN
      case Int(v) => Int(-v)
    else if |s| > 0 && s[0] == '+' then ParseDigits(s[1..])
    else ParseDigits(s)
  }

  /** A string without a minus sign never parses to a negative number. */
  lemma ParseIntWithoutMinus(s: string)
    requires '-' !in s
    ensures ParseInt(s).NaN? || ParseInt(s).value >= 0
  {
  }

  /** `parseInt` of a non-empty digit string is its decimal value. */
  lemma ParseIntOfDigits(p: string)
    requires |p| > 0 && AllDigits(p)
    ensures ParseInt(p) == Int(DecimalValue(p))
  {
    assert IsDigit(p[0]);
    var k := DigitPrefixLength(p);
    assert k == |p|;
    assert p[..k] == p;
  }

  /** A zero-padded decimal spelling is a non-empty digit string worth `n`. */
  lemma PaddedDecimal(n: nat, width: nat)
    ensures var p := PadStart(DecimalString(n), width, '0');
      |p| > 0 && AllDigits(p) && DecimalValue(p) == n
  {
    var d := DecimalString(n);
    var p := PadStart(d, width, '0');
    var k: nat := |p| - |d|;
    assert p == Repeat('0', k) + d;
    LeadingZerosValue(k, d);
    DecimalRoundTrip(n);
  }

  /** `parseInt` reads back a zero-padded decimal spelling of a non-negative number. */
  lemma ParseIntOfPadded(n: nat, width: nat)
    ensures ParseInt(PadStart(DecimalString(n), width, '0')) == Int(n)
  {
    PaddedDecimal(n, width);
    ParseIntOfDigits(PadStart(DecimalString(n), width, '0'));
  }

  /** `Number(s)` for the strings the timetable holds: the empty string is 0,
      a string of decimal digits is its value, anything else is NaN. */
  function ToNumber(s: string): JsNumber {
    if s == "" then Int(0) else if AllDigits(s) then Int(DecimalValue(s)) else NaN
  }

  // ---------------------------------------------------------------------
  // split
  // ---------------------------------------------------------------------

  /** `s.split(sep)`: the maximal separator-free fields, in order. */
  function Split(s: string, sep: char): (parts: seq<string>)
    ensures |parts| >= 1
    ensures forall i | 0 <= i < |parts| :: sep !in parts[i]
  {
    if |s| == 0 then [""]
    else
      var init := Split(s[..|s| - 1], sep);
      var c := s[|s| - 1];
      if c == sep then init + [""]
      else init[..|init| - 1] + [init[|init| - 1] + [c]]
  }

  /** `parts.join(sep)`. */
  function Join(parts: seq<string>, sep: char): string
    requires |parts| >= 1
  {
    if |parts| == 1 then parts[0] else Join(parts[..|parts| - 1], sep) + [sep] + parts[|parts| - 1]
  }

  /** Joining one more field appends the separator and the field. */
  lemma JoinSnoc(parts: seq<string>, x: string, sep: char)
    requires |parts| >= 1
    ensures Join(parts + [x], sep) == Join(parts, sep) + [sep] + x
  {
    assert (parts + [x])[..|parts|] == parts;
  }

  /** Extending the last field by one character extends the joined string by it. */
  lemma JoinExtendLast(parts: seq<string>, c: char, sep: char)
    requires |parts| >= 1
    ensures Join(parts[..|parts| - 1] + [parts[|parts| - 1] + [c]], sep) == Join(parts, sep) + [c]
  {
    var n := |parts|;
    if n > 1 {
      var q := parts[..n - 1];
      JoinSnoc(q, parts[n - 1] + [c], sep);
      assert q + [parts[n - 1]] == parts;
      JoinSnoc(q, parts[n - 1], sep);
    }
  }

  /** Joining the fields back survives appending one character. */
  lemma JoinSplitStep(s: string, c: char, sep: char)
    requires Join(Split(s, sep), sep) == s
    ensures Join(Split(s + [c], sep), sep) == s + [c]
  {
    var t := s + [c];
    assert t[..|t| - 1] == s && t[|t| - 1] == c;
    var init := Split(s, sep);
    if c == sep {
      assert Split(t, sep) == init + [""];
      JoinSnoc(init, "", sep);
    } else {
      assert Split(t, sep) == init[..|init| - 1] + [init[|init| - 1] + [c]];
      JoinExtendLast(init, c, sep);
    }
  }

  /** Splitting loses nothing: joining the fields back gives the string. */
  lemma {:induction false} JoinSplit(s: string, sep: char)
    ensures Join(Split(s, sep), sep) == s
  {
    if |s| > 0 {
      var s' := s[..|s| - 1];
      JoinSplit(s', sep);
      JoinSplitStep(s', s[|s| - 1], sep);
      assert s' + [s[|s| - 1]] == s;
    }
  }

  /** A string without the separator is one field. */
  lemma {:induction false} SplitWithoutSeparator(a: string, sep: char)
    requires sep !in a
    ensures Split(a, sep) == [a]
  {
    if |a| > 0 {
      var a' := a[..|a| - 1];
      assert sep !in a' by {
        forall i | 0 <= i < |a'| ensures a'[i] != sep {
          assert a'[i] == a[i];
        }
      }
      SplitWithoutSeparator(a', sep);
      assert a[|a| - 1] != sep;
      assert a' + [a[|a| - 1]] == a;
    }
  }

  /** Appending a separator and a separator-free field appends one field. */
  lemma {:induction false} SplitAppendField(a: string, b: string, sep: char)
    requires sep !in b
    ensures Split(a + [sep] + b, sep) == Split(a, sep) + [b]
  {
    var s := a + [sep] + b;
    if |b| == 0 {
      assert s[..|s| - 1] == a;
    } else {
      var b' := b[..|b| - 1];
      assert s[..|s| - 1] == a + [sep] + b';
      assert b == b' + [b[|b| - 1]];
      SplitAppendField(a, b', sep);
    }
  }

  /** `parts[parts.length - 1]` of `s.split(sep)`. */
  function LastField(s: string, sep: char): (f: string)
    ensures sep !in f
  {
    var parts := Split(s, sep);
    parts[|parts| - 1]
  }

  /** The last field of `a + sep + b` is `b` when `b` holds no separator. */
  lemma LastFieldAfterSeparator(a: string, b: string, sep: char)
    requires sep !in b
    ensures LastField(a + [sep] + b, sep) == b
  {
    SplitAppendField(a, b, sep);
  }

  // ---------------------------------------------------------------------
  // trim and toUpperCase
  // ---------------------------------------------------------------------

  /** The characters `trim` strips: the WhiteSpace and LineTerminator code
      points of ECMA-262. */
  predicate IsJsWhitespace(c: char) {
    || c == '\t' || c == '\n' || c == '\U{B}' || c == '\U{C}' || c == '\r' || c == ' '
    || c == '\U{A0}' || c == '\U{1680}' || '\U{2000}' <= c <= '\U{200A}'
    || c == '\U{2028}' || c == '\U{2029}' || c == '\U{202F}' || c == '\U{205F}'
    || c == '\U{3000}' || c == '\U{FEFF}'
  }

  /** Neither starts nor ends with white space: what `trim` returns. */
  predicate Trimmed(s: string) {
    s == "" || (!IsJsWhitespace(s[0]) && !IsJsWhitespace(s[|s| - 1]))
  }

  /** No lower-case ASCII letter: what `toUpperCase` returns. */
  predicate NoLowerAscii(s: string) {
    forall k | 0 <= k < |s| :: !('a' <= s[k] <= 'z')
  }

  /** `s.trimStart()`: a suffix of `s` that does not start with white
      space (`TrimDropsOnlyWhitespace` states that all it drops is white
      space). */
  function TrimStart(s: string): (r: string)
    ensures |r| <= |s| && r == s[|s| - |r|..]
    ensures r == "" || !IsJsWhitespace(r[0])
    decreases |s|
  {
    if |s| > 0 && IsJsWhitespace(s[0]) then TrimStart(s[1..]) else s
  }

  /** `s.trimEnd()`: a prefix of `s` that does not end with white space. */
  function TrimEnd(s: string): (r: string)
    ensures |r| <= |s| && r == s[..|r|]
    ensures r == "" || (r[0] == s[0] && !IsJsWhitespace(r[|r| - 1]))
    decreases |s|
  {
    if |s| > 0 && IsJsWhitespace(s[|s| - 1]) then TrimEnd(s[..|s| - 1]) else s
  }

  /** `s.trim()`: a prefix of `s.trimStart()` (so a slice of `s`) that
      neither starts nor ends with white space. */
  function Trim(s: string): (r: string)
    ensures |r| <= |TrimStart(s)| && r == TrimStart(s)[..|r|]
    ensures Trimmed(r)
  {
    var t := TrimStart(s);
    var r := TrimEnd(t);
    assert r == "" || r[0] == t[0];
    r
  }

  /** Everything `trimStart` drops is white space. */
  lemma {:induction false} TrimStartDropsWhitespace(s: string)
    ensures forall k | 0 <= k < |s| - |TrimStart(s)| :: IsJsWhitespace(s[k])
    decreases |s|
  {
    if |s| > 0 && IsJsWhitespace(s[0]) {
      TrimStartDropsWhitespace(s[1..]);
      forall k | 1 <= k < |s| - |TrimStart(s)|
        ensures IsJsWhitespace(s[k])
      {
        assert s[k] == s[1..][k - 1];
      }
    }
  }

  /** Everything `trimEnd` drops is white space. */
  lemma {:induction false} TrimEndDropsWhitespace(s: string)
    ensures forall k | |TrimEnd(s)| <= k < |s| :: IsJsWhitespace(s[k])
    decreases |s|
  {
    if |s| > 0 && IsJsWhitespace(s[|s| - 1]) {
      var s' := s[..|s| - 1];
      TrimEndDropsWhitespace(s');
      forall k | |TrimEnd(s)| <= k < |s| - 1
        ensures IsJsWhitespace(s[k])
      {
        assert s[k] == s'[k];
      }
    }
  }

  /** Everything `trim` drops, before and after the slice it keeps, is
      white space. */
  lemma TrimDropsOnlyWhitespace(s: string)
    ensures var i := |s| - |TrimStart(s)|;
      && (forall k | 0 <= k < i :: IsJsWhitespace(s[k]))
      && (forall k | i + |Trim(s)| <= k < |s| :: IsJsWhitespace(s[k]))
  {
    var t := TrimStart(s);
    var i := |s| - |t|;
    TrimStartDropsWhitespace(s);
    TrimEndDropsWhitespace(t);
    forall k | i + |Trim(s)| <= k < |s|
      ensures IsJsWhitespace(s[k])
    {
      assert s[k] == t[k - i];
    }
  }

  /** A string that neither starts nor ends with white space is its own
      trim. */
  lemma TrimOfTrimmed(s: string)
    requires Trimmed(s)
    ensures Trim(s) == s
  {
    assert TrimStart(s) == s;
    assert TrimEnd(s) == s;
  }

  /** Trimming twice is trimming once. */
  lemma TrimIdempotent(s: string)
    ensures Trim(Trim(s)) == Trim(s)
  {
    TrimOfTrimmed(Trim(s));
  }

  /** Trailing white space is appended to the trimmed start, or vanishes
      when everything is white space. */
  lemma {:induction false} TrimStartSnoc(s: string, c: char)
    requires IsJsWhitespace(c)
    ensures TrimStart(s + [c]) == if TrimStart(s) == "" then "" else TrimStart(s) + [c]
    decreases |s|
  {
    var sc := s + [c];
    if |s| == 0 {
      assert sc == [c];
      assert sc[1..] == [];
      assert TrimStart(sc) == TrimStart([]);
    } else if IsJsWhitespace(s[0]) {
      assert sc[0] == s[0];
      assert sc[1..] == s[1..] + [c];
      assert TrimStart(sc) == TrimStart(sc[1..]);
      assert TrimStart(s) == TrimStart(s[1..]);
      TrimStartSnoc(s[1..], c);
    } else {
      assert sc[0] == s[0];
      assert TrimStart(sc) == sc;
      assert TrimStart(s) == s;
    }
  }

  /** Leading white space does not change the trim. */
  lemma TrimIgnoresLeadingWhitespace(s: string, c: char)
    requires IsJsWhitespace(c)
    ensures Trim([c] + s) == Trim(s)
  {
    assert ([c] + s)[1..] == s;
    assert TrimStart([c] + s) == TrimStart(s);
  }

  /** Trailing white space does not change the trim. */
  lemma TrimIgnoresTrailingWhitespace(s: string, c: char)
    requires IsJsWhitespace(c)
    ensures Trim(s + [c]) == Trim(s)
  {
    TrimStartSnoc(s, c);
    var t := TrimStart(s);
    if t != "" {
      assert (t + [c])[..|t|] == t;
      assert TrimEnd(t + [c]) == TrimEnd(t);
    }
  }

  /** One white-space character before or after a trimmed string is
      trimmed away again. */
  lemma TrimOfPadded(t: string, w: char, s: string)
    requires Trimmed(t) && IsJsWhitespace(w)
    requires s == [w] + t || s == t + [w]
    ensures Trim(s) == t
  {
    if s == [w] + t {
      TrimIgnoresLeadingWhitespace(t, w);
    } else {
      TrimIgnoresTrailingWhitespace(t, w);
    }
    TrimOfTrimmed(t);
  }

  /** `c.toUpperCase()` on an ASCII letter. */
  function UpperChar(c: char): char {
    if 'a' <= c <= 'z' then (c as int - 32) as char else c
  }

  /** `s.toUpperCase()`: every lower-case ASCII letter becomes its
      upper-case form, every other character is kept. */
  function ToUpperCase(s: string): (r: string)
    ensures |r| == |s|
    ensures NoLowerAscii(r)
    ensures forall k {:trigger s[k]} | 0 <= k < |s| && 'a' <= s[k] <= 'z' :: r[k] as int == s[k] as int - 32
    ensures forall k {:trigger s[k]} | 0 <= k < |s| && !('a' <= s[k] <= 'z') :: r[k] == s[k]
  {
    seq(|s|, k requires 0 <= k < |s| => UpperChar(s[k]))
  }

  /** A string without lower-case ASCII letters is its own upper case. */
  lemma ToUpperCaseOfUpper(s: string)
    requires NoLowerAscii(s)
    ensures ToUpperCase(s) == s
  {
  }

  /** Character k of the trim is a character of the original string. */
  lemma TrimCharAt(s: string, k: nat)
    requires k < |Trim(s)|
    ensures |s| - |TrimStart(s)| + k < |s|
    ensures Trim(s)[k] == s[|s| - |TrimStart(s)| + k]
  {
  }

  /** Trimming a string without lower-case ASCII letters leaves none. */
  lemma TrimKeepsNoLower(u: string)
    requires NoLowerAscii(u)
    ensures NoLowerAscii(Trim(u))
  {
    forall k | 0 <= k < |Trim(u)|
      ensures !('a' <= Trim(u)[k] <= 'z')
    {
      TrimCharAt(u, k);
    }
  }

  /** `s.toUpperCase().trim()` is already in that form: applying both
      again changes nothing. */
  lemma UpperTrimIdempotent(s: string)
    ensures Trim(ToUpperCase(Trim(ToUpperCase(s)))) == Trim(ToUpperCase(s))
  {
    var u := ToUpperCase(s);
    TrimKeepsNoLower(u);
    ToUpperCaseOfUpper(Trim(u));
    TrimIdempotent(u);
  }
}
