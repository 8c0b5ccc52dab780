/**
  Where the canonical text leaves RFC 8785: section 3.2.2.2 makes a lone
  surrogate an error, jcsCanonicalize prints it as an escape
  (packages/crypto/src/encoding.ts:138). A text holds such an escape exactly
  when a string of the value is not well paired.
 */
module Surrogates {
  import opened Prelude
  import opened JsonText
  import opened Jcs

  predicate IsSurrogate(u: unit) { IsLead(u) || IsTrail(u) }

  /** No escape is cut off at the end. */
  predicate Whole(t: text) {
    if t == [] then true
    else if t[0] != BACKSLASH then Whole(t[1..])
    else if |t| < 2 then false
    else if t[1] != LOWER_U then Whole(t[2..])
    else |t| >= 6 && Whole(t[6..])
  }

  /** One of the escapes of the text, read from the left, stands for a surrogate. */
  predicate EscapesSurrogate(t: text) {
    if t == [] then false
    else if t[0] != BACKSLASH then EscapesSurrogate(t[1..])
    else if |t| < 2 then false
    else if t[1] != LOWER_U then EscapesSurrogate(t[2..])
    else if |t| < 6 then false
    else
      var u := HexRead(t[2], t[3], t[4], t[5]);
      (u.Some? && IsSurrogate(u.value)) || EscapesSurrogate(t[6..])
  }

  /** A whole text with or without an escaped surrogate. */
  predicate Scan(t: text, escapes: bool) {
    Whole(t) && EscapesSurrogate(t) == escapes
  }

  lemma {:induction false} ScanAppend(a: text, b: text, x: bool, y: bool)
    requires Scan(a, x) && Scan(b, y)
    ensures Scan(a + b, x || y)
    decreases |a|
  {
    hide HexRead;
    if a == [] {
      assert a + b == b;
    } else if a[0] != BACKSLASH {
      assert (a + b)[1..] == a[1..] + b;
      ScanAppend(a[1..], b, x, y);
    } else if a[1] != LOWER_U {
      assert (a + b)[2..] == a[2..] + b;
      ScanAppend(a[2..], b, x, y);
    } else {
      assert (a + b)[6..] == a[6..] + b;
      ScanAppend(a[6..], b, EscapesSurrogate(a[6..]), y);
    }
  }

  lemma {:induction false} ScanPlain(t: text)
    requires forall i :: 0 <= i < |t| ==> t[i] != BACKSLASH
    ensures Scan(t, false)
  {
    if t != [] {
      ScanPlain(t[1..]);
    }
  }

  // ----- strings

  lemma ScanUnit(u: unit)
    ensures Scan(EscapeUnit(u), IsSurrogate(u))
  {
    var t := EscapeUnit(u);
    if ShortEscape(u).Some? {
      assert t[2..] == [];
    } else if u < 32 || IsSurrogate(u) {
      HexInverse(u);
      assert t[6..] == [];
    } else {
      assert t[1..] == [];
    }
  }

  /** A string's text escapes a surrogate exactly when one stands alone in the string. */
  lemma {:induction false} ScanEscape(s: text)
    ensures Scan(Escape(s), !WellPaired(s))
  {
    hide EscapeUnit, Whole, EscapesSurrogate, Scan;
    if s == [] {
      ScanPlain([]);
    } else if IsLead(s[0]) && |s| > 1 && IsTrail(s[1]) {
      ScanPlain([s[0], s[1]]);
      ScanEscape(s[2..]);
      ScanAppend([s[0], s[1]], Escape(s[2..]), false, !WellPaired(s[2..]));
    } else {
      ScanUnit(s[0]);
      ScanEscape(s[1..]);
      ScanAppend(EscapeUnit(s[0]), Escape(s[1..]), IsSurrogate(s[0]), !WellPaired(s[1..]));
    }
  }

  lemma ScanQuoted(s: text)
    ensures Scan(Quoted(s), !WellPaired(s))
  {
    hide Escape, Scan, WellPaired;
    ScanEscape(s);
    ScanPlain([QUOTE]);
    ScanAppend([QUOTE], Escape(s), false, !WellPaired(s));
    ScanAppend([QUOTE] + Escape(s), [QUOTE], !WellPaired(s), false);
  }

  lemma ScanDecimal(n: int)
    ensures Scan(Decimal(n), false)
  {
    hide Digits, Scan;
    ScanPlain(Decimal(n));
  }

  // ----- values

  /** Every string of the value, keys of its printed members included, is well paired. */
  predicate AllPaired(v: Value)
    decreases v, 1
  {
    match v
    case Str(s) => WellPaired(s)
    case Arr(items) => forall x :: x in items ==> AllPaired(x)
    case Obj(entries) => forall e :: e in entries ==> e.value.Undefined? || EntryPaired(v, e)
    case _ => true
  }

  predicate EntryPaired(v: Value, e: Entry)
    requires v.Obj? && e in v.entries
    decreases v, 0
  {
    WellPaired(e.key) && AllPaired(e.value)
  }

  /** The items from i on. */
  predicate ItemsPairedFrom(v: Value, i: nat)
    requires v.Arr? && i <= |v.items|
  {
    forall k :: i <= k < |v.items| ==> AllPaired(v.items[k])
  }

  predicate EntriesPaired(v: Value, es: seq<Entry>)
    requires v.Obj? && forall e :: e in es ==> e in v.entries
  {
    forall e :: e in es ==> EntryPaired(v, e)
  }

  lemma ScanAround(first: unit, t: text, last: unit, x: bool)
    requires Scan(t, x) && first != BACKSLASH && last != BACKSLASH
    ensures Scan([first] + t + [last], x)
  {
    hide Scan;
    ScanPlain([first]);
    ScanPlain([last]);
    ScanAppend([first], t, false, x);
    ScanAppend([first] + t, [last], x, false);
  }

  lemma ScanJoined(a: text, separator: unit, b: text, x: bool, y: bool)
    requires Scan(a, x) && Scan(b, y) && separator != BACKSLASH
    ensures Scan(a + [separator] + b, x || y)
  {
    hide Scan;
    ScanPlain([separator]);
    ScanAppend(a, [separator], x, false);
    ScanAppend(a + [separator], b, x, y);
  }

  /** A value's text escapes a surrogate exactly when one of its strings is not well paired. */
  lemma {:induction false} ScanText(v: Value)
    ensures Scan(Text(v), !AllPaired(v))
    decreases v, 1, 0
  {
    hide Scan, Quoted, Decimal, Members, ItemsText, MembersText, WellPaired, EntryPaired;
    match v {
      case Null =>
        ScanPlain(NULL_TEXT);
      case Bool(b) =>
        ScanPlain(if b then TRUE_TEXT else FALSE_TEXT);
      case Int(n) =>
        ScanDecimal(n);
      case Str(s) =>
        ScanQuoted(s);
      case Arr(items) =>
        ScanItems(v, 0);
        ScanAround(LBRACKET, ItemsText(v, 0), RBRACKET, !ItemsPairedFrom(v, 0));
        AllItems(v);
      case Obj(entries) =>
        ScanMembers(v, Members(entries));
        ScanAround(LBRACE, MembersText(v, Members(entries)), RBRACE, !EntriesPaired(v, Members(entries)));
        AllEntries(v);
      case Undefined =>
        ScanPlain([]);
      case Fraction =>
        ScanPlain([]);
    }
  }

  lemma AllItems(v: Value)
    requires v.Arr?
    ensures AllPaired(v) <==> ItemsPairedFrom(v, 0)
  {
    if ItemsPairedFrom(v, 0) {
      forall x | x in v.items
        ensures AllPaired(x)
      {
        var k :| 0 <= k < |v.items| && v.items[k] == x;
      }
    }
  }

  lemma AllEntries(v: Value)
    requires v.Obj?
    ensures AllPaired(v) <==> EntriesPaired(v, Members(v.entries))
  {
    hide EntryPaired;
  }

  lemma {:induction false} ScanItems(v: Value, i: nat)
    requires v.Arr? && i <= |v.items|
    ensures Scan(ItemsText(v, i), !ItemsPairedFrom(v, i))
    decreases v, 0, |v.items| - i
  {
    hide Scan, Text, AllPaired;
    if i == |v.items| {
      ScanPlain([]);
    } else {
      ScanText(v.items[i]);
      if i < |v.items| - 1 {
        ScanItems(v, i + 1);
        ScanJoined(Text(v.items[i]), COMMA, ItemsText(v, i + 1), !AllPaired(v.items[i]), !ItemsPairedFrom(v, i + 1));
      }
      assert ItemsPairedFrom(v, i) <==> AllPaired(v.items[i]) && ItemsPairedFrom(v, i + 1);
    }
  }

  lemma {:induction false} ScanMembers(v: Value, es: seq<Entry>)
    requires v.Obj? && forall e :: e in es ==> e in v.entries
    ensures Scan(MembersText(v, es), !EntriesPaired(v, es))
    decreases v, 0, |es|
  {
    hide Scan, Text, AllPaired, WellPaired, Quoted;
    if es == [] {
      ScanPlain([]);
    } else {
      var e := es[0];
      assert e in es && e in v.entries;
      ScanQuoted(e.key);
      ScanText(e.value);
      ScanJoined(Quoted(e.key), COLON, Text(e.value), !WellPaired(e.key), !AllPaired(e.value));
      if |es| > 1 {
        ScanMembers(v, es[1..]);
        ScanJoined(MemberText(v, e), COMMA, MembersText(v, es[1..]), !EntryPaired(v, e), !EntriesPaired(v, es[1..]));
      }
      FirstEntry(v, es);
    }
  }

  lemma FirstEntry(v: Value, es: seq<Entry>)
    requires v.Obj? && es != [] && forall e :: e in es ==> e in v.entries
    ensures EntriesPaired(v, es) <==> EntryPaired(v, es[0]) && EntriesPaired(v, es[1..])
  {
    hide EntryPaired;
    assert es == [es[0]] + es[1..];
  }

  /** What jcsCanonicalize returns escapes a surrogate if and only if the value holds a lone one. */
  lemma EscapesSurrogateIff(v: Value)
    requires Supported(v)
    ensures Canonicalize(v).Ok? && (EscapesSurrogate(Canonicalize(v).value) <==> !AllPaired(v))
  {
    hide Text, AllPaired, Whole, EscapesSurrogate, Supported;
    ScanText(v);
  }

  /** The shortest instance: one lone surrogate is accepted and escaped. */
  lemma LoneSurrogateAccepted()
    ensures Canonicalize(Str([0xD800])).Ok? && EscapesSurrogate(Canonicalize(Str([0xD800])).value)
  {
    hide Text, EscapesSurrogate;
    var v := Str([0xD800]);
    EscapesSurrogateIff(v);
    assert !WellPaired([0xD800]);
  }
}
