/**
  The text of JSON strings and integers as JSON.stringify and String print them,
  over UTF-16 code units: the leaves of jcsCanonicalize
  (packages/crypto/src/encoding.ts:120-140).
 */
module JsonText {
  import opened Prelude

  /** A UTF-16 code unit. */
  type unit = u: int | 0 <= u < 0x10000

  type text = seq<unit>

  /** The code units of an ASCII name. */
  function Units(s: string): text {
    seq(|s|, i requires 0 <= i < |s| => s[i] as int % 0x80)
  }

  const QUOTE: unit := 34
  const COMMA: unit := 44
  const MINUS: unit := 45
  const ZERO: unit := 48
  const COLON: unit := 58
  const LBRACKET: unit := 91
  const BACKSLASH: unit := 92
  const RBRACKET: unit := 93
  const LOWER_U: unit := 117
  const LBRACE: unit := 123
  const RBRACE: unit := 125

  // ----- strings

  predicate IsLead(u: unit) { 0xD800 <= u < 0xDC00 }

  predicate IsTrail(u: unit) { 0xDC00 <= u < 0xE000 }

  /** A lower-case hexadecimal digit. */
  function HexDigit(d: int): unit
    requires 0 <= d < 16
  {
    if d < 10 then 48 + d else 87 + d
  }

  predicate IsHex(u: unit) {
    48 <= u <= 57 || 65 <= u <= 70 || 97 <= u <= 102
  }

  /** The value of a hexadecimal digit of either case. */
  function HexValue(u: unit): (d: int)
    requires IsHex(u)
    ensures 0 <= d < 16
  {
    if u <= 57 then u - 48 else if u <= 70 then u - 55 else u - 87
  }

  function HexEscape(u: unit): text {
    [BACKSLASH, LOWER_U, HexDigit(u / 16 / 16 / 16), HexDigit(u / 16 / 16 % 16), HexDigit(u / 16 % 16), HexDigit(u % 16)]
  }

  /** The letter of a two-unit escape, if the unit has one. */
  function ShortEscape(u: unit): Option<unit> {
    if u == 34 then Some(34)
    else if u == 92 then Some(92)
    else if u == 8 then Some(98)
    else if u == 12 then Some(102)
    else if u == 10 then Some(110)
    else if u == 13 then Some(114)
    else if u == 9 then Some(116)
    else None
  }

  /** One unit on its own; control units and lone surrogates are escaped. */
  function EscapeUnit(u: unit): text {
    if ShortEscape(u).Some? then [BACKSLASH, ShortEscape(u).value]
    else if u < 32 || IsLead(u) || IsTrail(u) then HexEscape(u)
    else [u]
  }

  /** A surrogate pair is copied as it stands. */
  function Escape(s: text): text {
    if s == [] then []
    else if IsLead(s[0]) && |s| > 1 && IsTrail(s[1]) then [s[0], s[1]] + Escape(s[2..])
    else EscapeUnit(s[0]) + Escape(s[1..])
  }

  /** JSON.stringify of a string. */
  function Quoted(s: text): text {
    [QUOTE] + Escape(s) + [QUOTE]
  }

  /** The unit a two-unit escape stands for; no other letter may follow a backslash. */
  function LongEscape(letter: unit): Option<unit> {
    if letter == 34 || letter == 47 || letter == 92 then Some(letter)
    else if letter == 98 then Some(8)
    else if letter == 102 then Some(12)
    else if letter == 110 then Some(10)
    else if letter == 114 then Some(13)
    else if letter == 116 then Some(9)
    else None
  }

  /** Four hexadecimal digits. */
  function HexRead(a: unit, b: unit, c: unit, d: unit): Option<unit> {
    if !IsHex(a) || !IsHex(b) || !IsHex(c) || !IsHex(d) then None
    else Some(HexValue(a) * 4096 + HexValue(b) * 256 + HexValue(c) * 16 + HexValue(d))
  }

  function Prepend(u: Option<unit>, r: Option<(text, text)>): Option<(text, text)> {
    if u.None? || r.None? then None else Some(([u.value] + r.value.0, r.value.1))
  }

  /**
    Reads string contents up to the closing quote: the contents and what follows.
    As section 7 of RFC 8259 has it, control units must be escaped, and an escape
    is one of eight letters or a u with four hexadecimal digits.
   */
  function Unescape(t: text): (r: Option<(text, text)>)
    ensures r.Some? ==> |r.value.1| < |t|
  {
    if t == [] || t[0] < 32 then None
    else if t[0] == QUOTE then Some(([], t[1..]))
    else if t[0] != BACKSLASH then Prepend(Some(t[0]), Unescape(t[1..]))
    else if |t| < 2 then None
    else if t[1] != LOWER_U then Prepend(LongEscape(t[1]), Unescape(t[2..]))
    else if |t| < 6 then None
    else Prepend(HexRead(t[2], t[3], t[4], t[5]), Unescape(t[6..]))
  }

  lemma HexDigitInverse(d: int)
    requires 0 <= d < 16
    ensures IsHex(HexDigit(d)) && HexValue(HexDigit(d)) == d
  {}

  lemma HexInverse(u: unit)
    ensures HexRead(HexDigit(u / 16 / 16 / 16), HexDigit(u / 16 / 16 % 16), HexDigit(u / 16 % 16), HexDigit(u % 16)) == Some(u)
  {
    hide HexDigit, HexValue, IsHex;
    var x := u / 16;
    var y := x / 16;
    var z := y / 16;
    assert u == x * 16 + u % 16 && x == y * 16 + x % 16 && y == z * 16 + y % 16;
    HexDigitInverse(z);
    HexDigitInverse(y % 16);
    HexDigitInverse(x % 16);
    HexDigitInverse(u % 16);
  }

  /** Every unit's code is read back, whatever follows. */
  lemma UnescapeUnit(u: unit, rest: text)
    ensures Unescape(EscapeUnit(u) + rest) == Prepend(Some(u), Unescape(rest))
  {
    var t := EscapeUnit(u) + rest;
    if ShortEscape(u).Some? {
      assert t[2..] == rest;
    } else if u < 32 || IsLead(u) || IsTrail(u) {
      HexInverse(u);
      assert t[6..] == rest;
    } else {
      assert t[1..] == rest;
    }
  }

  lemma UnescapeRaw(u: unit, rest: text)
    requires IsLead(u) || IsTrail(u)
    ensures Unescape([u] + rest) == Prepend(Some(u), Unescape(rest))
  {
    assert ([u] + rest)[1..] == rest;
  }

  /** Escaped contents up to the closing quote are read back, whatever follows. */
  lemma {:induction false} UnescapeEscape(s: text, rest: text)
    ensures Unescape(Escape(s) + [QUOTE] + rest) == Some((s, rest))
  {
    hide Unescape, EscapeUnit;
    if s == [] {
      UnescapeQuote(rest);
      assert [] + [QUOTE] + rest == [QUOTE] + rest;
    } else if IsLead(s[0]) && |s| > 1 && IsTrail(s[1]) {
      UnescapeEscape(s[2..], rest);
      UnescapePair(s, Escape(s[2..]), rest);
    } else {
      UnescapeEscape(s[1..], rest);
      UnescapeFirst(s, Escape(s[1..]), rest);
    }
  }

  lemma UnescapePair(s: text, tail: text, rest: text)
    requires |s| > 1 && IsLead(s[0]) && IsTrail(s[1])
    requires Unescape(tail + [QUOTE] + rest) == Some((s[2..], rest))
    ensures Unescape([s[0], s[1]] + tail + [QUOTE] + rest) == Some((s, rest))
  {
    hide Unescape;
    var after := tail + [QUOTE] + rest;
    UnescapeRaw(s[1], after);
    UnescapeRaw(s[0], [s[1]] + after);
    assert [s[0], s[1]] + tail + [QUOTE] + rest == [s[0]] + ([s[1]] + after);
    assert s == [s[0]] + ([s[1]] + s[2..]);
  }

  lemma UnescapeFirst(s: text, tail: text, rest: text)
    requires s != [] && Unescape(tail + [QUOTE] + rest) == Some((s[1..], rest))
    ensures Unescape(EscapeUnit(s[0]) + tail + [QUOTE] + rest) == Some((s, rest))
  {
    hide Unescape, EscapeUnit;
    UnescapeUnit(s[0], tail + [QUOTE] + rest);
    assert EscapeUnit(s[0]) + tail + [QUOTE] + rest == EscapeUnit(s[0]) + (tail + [QUOTE] + rest);
    assert s == [s[0]] + s[1..];
  }

  lemma UnescapeQuote(rest: text)
    ensures Unescape([QUOTE] + rest) == Some(([], rest))
  {
    assert ([QUOTE] + rest)[1..] == rest;
  }

  // ----- integers

  predicate IsDigit(u: unit) { 48 <= u <= 57 }

  predicate AllDigits(t: text) {
    forall i :: 0 <= i < |t| ==> IsDigit(t[i])
  }

  function Digits(n: nat): (t: text)
    ensures |t| > 0 && AllDigits(t)
  {
    if n < 10 then [48 + n] else Digits(n / 10) + [48 + n % 10]
  }

  function DigitsValue(t: text): int {
    if t == [] then 0 else DigitsValue(t[..|t| - 1]) * 10 + (t[|t| - 1] as int - 48)
  }

  lemma {:induction false} DigitsInverse(n: nat)
    ensures DigitsValue(Digits(n)) == n
  {
    if n < 10 {
      assert Digits(n)[..0] == [];
    } else {
      DigitsInverse(n / 10);
      assert Digits(n)[..|Digits(n)| - 1] == Digits(n / 10);
    }
  }

  /** String(n). */
  function Decimal(n: int): text {
    if n < 0 then [MINUS] + Digits(-n) else Digits(n)
  }

  /** What may follow a value: the end, or a unit that cannot continue a number. */
  predicate Stops(r: text) {
    r == [] || !IsDigit(r[0])
  }

  /** How many digits a text starts with. */
  function RunLength(t: text): (n: nat)
    ensures n <= |t|
  {
    if t == [] || !IsDigit(t[0]) then 0 else 1 + RunLength(t[1..])
  }

  lemma {:induction false} RunOf(a: text, r: text)
    requires AllDigits(a) && Stops(r)
    ensures RunLength(a + r) == |a|
  {
    if a == [] {
      assert a + r == r;
    } else {
      assert (a + r)[1..] == a[1..] + r;
      RunOf(a[1..], r);
    }
  }

  lemma {:induction false} DigitsLead(n: nat)
    ensures Digits(n)[0] == ZERO <==> n == 0
  {
    if n >= 10 {
      DigitsLead(n / 10);
    }
  }

  /** Reads an integer: no digits are no number, and a leading zero stands alone. */
  function ReadNumber(t: text): (r: Option<(int, text)>)
    ensures r.Some? ==> |r.value.1| < |t|
  {
    var s := if t != [] && t[0] == MINUS then t[1..] else t;
    var n := RunLength(s);
    if n == 0 || (n > 1 && s[0] == ZERO) then None
    else
      var v := DigitsValue(s[..n]);
      Some((if t[0] == MINUS then -v else v, s[n..]))
  }

  lemma RunOfDigits(n: nat, r: text)
    requires Stops(r)
    ensures RunLength(Digits(n) + r) == |Digits(n)|
    ensures (Digits(n) + r)[..|Digits(n)|] == Digits(n) && (Digits(n) + r)[|Digits(n)|..] == r
    ensures (Digits(n) + r)[0] == Digits(n)[0] != MINUS
  {
    hide RunLength, Stops;
    RunOf(Digits(n), r);
  }

  lemma NoLeadingZero(n: nat)
    ensures Digits(n)[0] == ZERO ==> |Digits(n)| == 1
  {
    DigitsLead(n);
  }

  lemma ReadDigits(n: nat, r: text)
    requires Stops(r)
    ensures ReadNumber(Digits(n) + r) == Some((n, r))
  {
    hide RunLength, DigitsValue, Stops, Digits;
    RunOfDigits(n, r);
    NoLeadingZero(n);
    DigitsInverse(n);
  }

  lemma ReadNegative(n: int, r: text)
    requires Stops(r) && n < 0
    ensures ReadNumber([MINUS] + (Digits(-n) + r)) == Some((n, r))
  {
    hide RunLength, DigitsValue, Stops, Digits;
    RunOfDigits(-n, r);
    NoLeadingZero(-n);
    DigitsInverse(-n);
    assert ([MINUS] + (Digits(-n) + r))[1..] == Digits(-n) + r;
  }

  /** Integers are read back, whatever follows, as long as it cannot continue a number. */
  lemma ReadDecimal(n: int, r: text)
    requires Stops(r)
    ensures ReadNumber(Decimal(n) + r) == Some((n, r))
  {
    hide Digits, ReadNumber, Stops;
    if n < 0 {
      ReadNegative(n, r);
      assert Decimal(n) + r == [MINUS] + (Digits(-n) + r);
    } else {
      ReadDigits(n, r);
    }
  }

  lemma DecimalStart(n: int)
    ensures |Decimal(n)| > 0 && (Decimal(n)[0] == MINUS || IsDigit(Decimal(n)[0]))
  {}

  // ----- surrogates in the text

  /** Every surrogate is half of a pair: the texts that survive as UTF-8. */
  predicate WellPaired(t: text) {
    if t == [] then true
    else if IsLead(t[0]) then |t| > 1 && IsTrail(t[1]) && WellPaired(t[2..])
    else !IsTrail(t[0]) && WellPaired(t[1..])
  }

  predicate NoSurrogates(t: text) {
    forall i :: 0 <= i < |t| ==> !IsLead(t[i]) && !IsTrail(t[i])
  }

  lemma {:induction false} PairedAppend(a: text, b: text)
    requires WellPaired(a) && WellPaired(b)
    ensures WellPaired(a + b)
  {
    if a == [] {
      assert a + b == b;
    } else if IsLead(a[0]) {
      assert (a + b)[2..] == a[2..] + b;
      PairedAppend(a[2..], b);
    } else {
      assert (a + b)[1..] == a[1..] + b;
      PairedAppend(a[1..], b);
    }
  }

  lemma {:induction false} NoSurrogatesPaired(t: text)
    requires NoSurrogates(t)
    ensures WellPaired(t)
  {
    if t != [] {
      NoSurrogatesPaired(t[1..]);
    }
  }

  lemma EscapeUnitPlain(u: unit)
    ensures NoSurrogates(EscapeUnit(u))
  {}

  /** Escaping leaves no surrogate alone, whatever the string. */
  lemma {:induction false} EscapePaired(s: text)
    ensures WellPaired(Escape(s))
  {
    hide EscapeUnit;
    if s == [] {
    } else if IsLead(s[0]) && |s| > 1 && IsTrail(s[1]) {
      EscapePaired(s[2..]);
      assert Escape(s)[2..] == Escape(s[2..]);
    } else {
      EscapePaired(s[1..]);
      EscapeUnitPlain(s[0]);
      NoSurrogatesPaired(EscapeUnit(s[0]));
      PairedAppend(EscapeUnit(s[0]), Escape(s[1..]));
    }
  }

  lemma QuotedPaired(s: text)
    ensures WellPaired(Quoted(s))
  {
    hide Escape;
    EscapePaired(s);
    NoSurrogatesPaired([QUOTE]);
    PairedAppend([QUOTE], Escape(s));
    PairedAppend([QUOTE] + Escape(s), [QUOTE]);
  }

  lemma DecimalPaired(n: int)
    ensures WellPaired(Decimal(n))
  {
    hide Digits;
    NoSurrogatesPaired(Decimal(n));
  }

  // ----- the order of keys

  /** JavaScript's comparison of strings, by code units. */
  predicate Less(a: text, b: text) {
    b != [] && (a == [] || a[0] < b[0] || (a[0] == b[0] && Less(a[1..], b[1..])))
  }

  lemma {:induction false} LessTotal(a: text, b: text)
    ensures Less(a, b) || Less(b, a) || a == b
    ensures !(Less(a, b) && Less(b, a)) && (a == b ==> !Less(a, b))
  {
    if a != [] && b != [] {
      LessTotal(a[1..], b[1..]);
      assert a == [a[0]] + a[1..] && b == [b[0]] + b[1..];
    }
  }

  lemma {:induction false} LessTransitive(a: text, b: text, c: text)
    requires Less(a, b) && Less(b, c)
    ensures Less(a, c)
  {
    if a != [] && a[0] == b[0] == c[0] {
      LessTransitive(a[1..], b[1..], c[1..]);
    }
  }

  /** a comes first where the two texts part: it ends there, or has the smaller unit. */
  ghost predicate PartsAt(a: text, b: text, k: nat) {
    k <= |a| && k < |b| && a[..k] == b[..k] && (k == |a| || a[k] < b[k])
  }

  lemma PartsHead(a: text, b: text, k: nat)
    requires a != [] && PartsAt(a, b, k)
    ensures if k == 0 then a[0] < b[0] else a[0] == b[0]
  {
    assert k > 0 ==> a[..k][0] == a[0] && b[..k][0] == b[0];
  }

  /** Less is the dictionary order by code units. */
  lemma {:induction false} LessIff(a: text, b: text)
    ensures Less(a, b) <==> exists k :: PartsAt(a, b, k)
  {
    if b == [] {
    } else if a == [] {
      assert PartsAt(a, b, 0);
    } else if a[0] == b[0] {
      LessIff(a[1..], b[1..]);
      if k: nat :| PartsAt(a[1..], b[1..], k) {
        assert a[..k + 1] == [a[0]] + a[1..][..k] && b[..k + 1] == [b[0]] + b[1..][..k];
        assert PartsAt(a, b, k + 1);
      }
      if k: nat :| PartsAt(a, b, k) {
        assert k > 0 && a[1..][..k - 1] == a[..k][1..] && b[1..][..k - 1] == b[..k][1..];
        assert PartsAt(a[1..], b[1..], k - 1);
      }
    } else {
      if a[0] < b[0] {
        assert PartsAt(a, b, 0);
      }
      if k: nat :| PartsAt(a, b, k) {
        PartsHead(a, b, k);
      }
    }
  }

  // ----- exactly what is escaped, and how

  /** The punctuation and literals, spelled out. */
  lemma Punctuation()
    ensures [QUOTE] == Units("\"") && [COMMA] == Units(",") && [COLON] == Units(":") && [MINUS] == Units("-")
    ensures [LBRACKET] == Units("[") && [RBRACKET] == Units("]") && [LBRACE] == Units("{") && [RBRACE] == Units("}")
    ensures [BACKSLASH] == Units("\\") && [LOWER_U] == Units("u") && [ZERO] == Units("0")
  {}

  /** Units that stand for themselves. */
  predicate IsPlain(u: unit) {
    u >= 32 && u != 34 && u != 92
  }

  lemma PlainUnit(u: unit)
    requires IsPlain(u) && !IsLead(u) && !IsTrail(u)
    ensures EscapeUnit(u) == [u]
  {}

  /** A string without control units, quotes, backslashes and lone surrogates is its own escape. */
  lemma {:induction false} PlainIsUnchanged(s: text)
    requires WellPaired(s) && forall i :: 0 <= i < |s| ==> IsPlain(s[i])
    ensures Escape(s) == s
  {
    hide EscapeUnit;
    if s == [] {
    } else if IsLead(s[0]) {
      PlainIsUnchanged(s[2..]);
      assert s == [s[0], s[1]] + s[2..];
    } else {
      PlainIsUnchanged(s[1..]);
      PlainUnit(s[0]);
      assert s == [s[0]] + s[1..];
    }
  }

  /** Every other unit has one escape: a short one, or four lower-case hexadecimal digits. */
  lemma EscapeForms(u: unit)
    ensures IsPlain(u) && !(0xD800 <= u <= 0xDFFF) ==> EscapeUnit(u) == [u]
    ensures (u < 32 && u !in [8, 9, 10, 12, 13]) || 0xD800 <= u <= 0xDFFF ==> EscapeUnit(u) == HexText(u)
  {
    if (u < 32 && u !in [8, 9, 10, 12, 13]) || 0xD800 <= u <= 0xDFFF {
      HexEscapeForm(u);
    }
  }

  /** A backslash, a u, and the unit's four digits in lower case, the highest first. */
  function HexText(u: unit): text {
    var digits := Units("0123456789abcdef");
    Units("\\u") + [digits[u / 4096], digits[u / 256 % 16], digits[u / 16 % 16], digits[u % 16]]
  }

  lemma HexEscapeForm(u: unit)
    ensures HexEscape(u) == HexText(u)
  {
    hide HexDigit, Units;
    BackslashU();
    Nibbles(u);
    LowerHex(u / 4096);
    LowerHex(u / 256 % 16);
    LowerHex(u / 16 % 16);
    LowerHex(u % 16);
  }

  lemma BackslashU()
    ensures Units("\\u") == [BACKSLASH, LOWER_U] && |Units("0123456789abcdef")| == 16
  {}

  lemma Nibbles(u: unit)
    ensures u / 16 / 16 / 16 == u / 4096 < 16 && u / 16 / 16 == u / 256
  {}

  lemma LowerHex(d: int)
    requires 0 <= d < 16
    ensures HexDigit(d) == Units("0123456789abcdef")[d]
  {
    var digits := Units("0123456789abcdef");
    assert digits[0] == 48 && digits[1] == 49 && digits[2] == 50 && digits[3] == 51 && digits[4] == 52;
    assert digits[5] == 53 && digits[6] == 54 && digits[7] == 55 && digits[8] == 56 && digits[9] == 57;
    assert digits[10] == 97 && digits[11] == 98 && digits[12] == 99 && digits[13] == 100;
    assert digits[14] == 101 && digits[15] == 102;
  }

  /** The two halves of a pair stay as they are; either half alone is escaped. */
  lemma PairIsUnchanged(a: unit, b: unit)
    requires 0xD800 <= a <= 0xDBFF && 0xDC00 <= b <= 0xDFFF
    ensures Escape([a, b]) == [a, b] && Escape([a]) == HexText(a) && Escape([b]) == HexText(b)
  {
    hide HexText, EscapeUnit;
    assert [a, b][2..] == [];
    EscapeSingle(a);
    EscapeSingle(b);
    EscapeForms(a);
    EscapeForms(b);
  }

  /** The short escapes, spelled out. */
  lemma ShortForms()
    ensures EscapeUnit(34) == Units("\\\"") && EscapeUnit(92) == Units("\\\\")
    ensures EscapeUnit(8) == Units("\\b") && EscapeUnit(9) == Units("\\t") && EscapeUnit(10) == Units("\\n")
    ensures EscapeUnit(12) == Units("\\f") && EscapeUnit(13) == Units("\\r")
  {
    assert Units("\\\"") == [92, 34] && Units("\\\\") == [92, 92];
    assert Units("\\b") == [92, 98] && Units("\\t") == [92, 116] && Units("\\n") == [92, 110];
    assert Units("\\f") == [92, 102] && Units("\\r") == [92, 114];
  }

  /** No pair is split between the two texts. */
  predicate Separable(a: text, b: text) {
    a == [] || b == [] || !IsLead(a[|a| - 1]) || !IsTrail(b[0])
  }

  /** Escaping works unit by unit, or pair by pair: texts are escaped part by part. */
  lemma {:induction false} EscapeAppend(a: text, b: text)
    requires Separable(a, b)
    ensures Escape(a + b) == Escape(a) + Escape(b)
  {
    hide EscapeUnit;
    if a == [] {
      assert a + b == b;
    } else if IsLead(a[0]) && |a| > 1 && IsTrail(a[1]) {
      assert (a + b)[2..] == a[2..] + b;
      EscapeAppend(a[2..], b);
    } else {
      assert (a + b)[1..] == a[1..] + b;
      EscapeAppend(a[1..], b);
    }
  }

  lemma EscapeSingle(u: unit)
    ensures Escape([u]) == EscapeUnit(u)
  {
    hide EscapeUnit;
    assert [u][1..] == [];
  }

  /** Decimal notation, one digit at a time. */
  lemma DecimalDigits(n: int, d: int)
    requires 0 <= d < 10
    ensures Decimal(d) == [Units("0123456789")[d]]
    ensures n > 0 ==> Decimal(n * 10 + d) == Decimal(n) + [Units("0123456789")[d]]
    ensures n > 0 ==> Decimal(-n) == Units("-") + Decimal(n)
  {
    assert Units("0123456789")[d] == 48 + d;
    assert Units("-") == [MINUS];
    if n > 0 {
      assert (n * 10 + d) / 10 == n && (n * 10 + d) % 10 == d;
    }
  }
}
