/**
  jcsCanonicalize (packages/crypto/src/encoding.ts:108-162): the text identifies
  a JSON value up to the order of object keys, and nothing more is forgotten.
 */
module Jcs {
  import opened Prelude
  import opened JsonText

  /** Undefined stands for undefined, Fraction for any number that is not an integer. */
  datatype Value =
    | Null
    | Bool(b: bool)
    | Int(n: int)
    | Str(s: text)
    | Arr(items: seq<Value>)
    | Obj(entries: seq<Entry>)
    | Undefined
    | Fraction

  datatype Entry = Entry(key: text, value: Value)

  predicate UniqueKeys(es: seq<Entry>) {
    forall i, j :: 0 <= i < j < |es| ==> es[i].key != es[j].key
  }

  /** A JavaScript value: no object has a key twice. */
  predicate WellFormed(v: Value) {
    match v
    case Arr(items) => forall x :: x in items ==> WellFormed(x)
    case Obj(entries) => UniqueKeys(entries) && forall e :: e in entries ==> WellFormed(e.value)
    case _ => true
  }

  /** The values jcsCanonicalize accepts; an undefined member is dropped, an undefined item is not. */
  predicate Supported(v: Value) {
    match v
    case Arr(items) => forall x :: x in items ==> Supported(x)
    case Obj(entries) => forall e :: e in entries ==> e.value.Undefined? || Supported(e.value)
    case Undefined => false
    case Fraction => false
    case _ => true
  }

  // ----- filter and sort

  function Defined(es: seq<Entry>): (r: seq<Entry>)
    ensures forall e :: e in r <==> e in es && !e.value.Undefined?
  {
    if es == [] then []
    else
      var r := Defined(es[..|es| - 1]);
      if es[|es| - 1].value.Undefined? then r else r + [es[|es| - 1]]
  }

  function InsertEntry(es: seq<Entry>, e: Entry): (r: seq<Entry>)
    ensures forall x :: x in r <==> x in es || x == e
  {
    if es == [] || !Less(e.key, es[|es| - 1].key) then es + [e]
    else InsertEntry(es[..|es| - 1], e) + [es[|es| - 1]]
  }

  function SortEntries(es: seq<Entry>): (r: seq<Entry>)
    ensures forall x :: x in r <==> x in es
  {
    if es == [] then [] else InsertEntry(SortEntries(es[..|es| - 1]), es[|es| - 1])
  }

  /** The members of an object, in the order they are printed. */
  function Members(es: seq<Entry>): (r: seq<Entry>)
    ensures forall e :: e in r <==> e in es && !e.value.Undefined?
  {
    SortEntries(Defined(es))
  }

  // ----- the text

  const NULL_TEXT: text := [110, 117, 108, 108]
  const TRUE_TEXT: text := [116, 114, 117, 101]
  const FALSE_TEXT: text := [102, 97, 108, 115, 101]

  function Text(v: Value): text
    decreases v, 1, 0
  {
    match v
    case Null => NULL_TEXT
    case Bool(b) => if b then TRUE_TEXT else FALSE_TEXT
    case Int(n) => Decimal(n)
    case Str(s) => Quoted(s)
    case Arr(items) => [LBRACKET] + ItemsText(v, 0) + [RBRACKET]
    case Obj(entries) => [LBRACE] + MembersText(v, Members(entries)) + [RBRACE]
    case Undefined => []
    case Fraction => []
  }

  /** items.map(jcsCanonicalize).join(","), from item i on. */
  function ItemsText(v: Value, i: nat): text
    requires v.Arr? && i <= |v.items|
    decreases v, 0, |v.items| - i
  {
    if i == |v.items| then []
    else if i == |v.items| - 1 then Text(v.items[i])
    else Text(v.items[i]) + [COMMA] + ItemsText(v, i + 1)
  }

  /** The key, a colon, the value. */
  function MemberText(v: Value, e: Entry): text
    requires v.Obj? && e in v.entries
    decreases v, 0, 0
  {
    Quoted(e.key) + [COLON] + Text(e.value)
  }

  function MembersText(v: Value, es: seq<Entry>): text
    requires v.Obj? && forall e :: e in es ==> e in v.entries
    decreases v, 0, |es|
  {
    if es == [] then []
    else if |es| == 1 then MemberText(v, es[0])
    else MemberText(v, es[0]) + [COMMA] + MembersText(v, es[1..])
  }

  /** jcsCanonicalize. */
  function Canonicalize(v: Value): Result<text> {
    if Supported(v) then Ok(Text(v)) else Err(UnsupportedValue)
  }

  // ----- what a value denotes

  /** A JSON value with objects as finite maps: key order does not exist here. */
  datatype Doc =
    | DNull
    | DBool(b: bool)
    | DInt(n: int)
    | DStr(s: text)
    | DArr(items: seq<Doc>)
    | DObj(members: map<text, Doc>)

  ghost function Denotes(v: Value): Doc
    decreases v, 1, 0
  {
    match v
    case Null => DNull
    case Bool(b) => DBool(b)
    case Int(n) => DInt(n)
    case Str(s) => DStr(s)
    case Arr(items) => DArr(seq(|items|, i requires 0 <= i < |items| => Denotes(items[i])))
    case Obj(entries) => DObj(MapOf(v, |entries|))
    case Undefined => DNull
    case Fraction => DNull
  }

  /** The map the first n entries build up. */
  ghost function MapOf(v: Value, n: nat): map<text, Doc>
    requires v.Obj? && n <= |v.entries|
    decreases v, 0, n
  {
    if n == 0 then map[]
    else
      var e := v.entries[n - 1];
      if e.value.Undefined? then MapOf(v, n - 1) else MapOf(v, n - 1)[e.key := Denotes(e.value)]
  }

  // ----- sorted members

  ghost predicate KeysAscend(es: seq<Entry>) {
    forall i, j :: 0 <= i < j < |es| ==> Less(es[i].key, es[j].key)
  }

  lemma {:induction false} InsertAscends(es: seq<Entry>, e: Entry)
    requires KeysAscend(es) && forall x :: x in es ==> x.key != e.key
    ensures KeysAscend(InsertEntry(es, e)) && |InsertEntry(es, e)| == |es| + 1
  {
    hide Less;
    if es == [] {
    } else {
      var n := |es| - 1;
      LessTotal(e.key, es[n].key);
      if Less(e.key, es[n].key) {
        InsertAscends(es[..n], e);
        var r := InsertEntry(es[..n], e);
        forall i | 0 <= i < |r|
          ensures Less(r[i].key, es[n].key)
        {
          assert r[i] in r;
          if r[i] != e {
            assert r[i] in es[..n];
          }
        }
      } else {
        forall i | 0 <= i < n
          ensures Less(es[i].key, e.key)
        {
          LessTransitive(es[i].key, es[n].key, e.key);
        }
      }
    }
  }

  lemma {:induction false} SortAscends(es: seq<Entry>)
    requires UniqueKeys(es)
    ensures KeysAscend(SortEntries(es))
  {
    if es != [] {
      var n := |es| - 1;
      SortAscends(es[..n]);
      InsertAscends(SortEntries(es[..n]), es[n]);
    }
  }

  lemma {:induction false} DefinedUnique(es: seq<Entry>)
    requires UniqueKeys(es)
    ensures UniqueKeys(Defined(es))
  {
    if es != [] {
      var n := |es| - 1;
      DefinedUnique(es[..n]);
    }
  }

  lemma MembersAscend(es: seq<Entry>)
    requires UniqueKeys(es)
    ensures KeysAscend(Members(es))
  {
    DefinedUnique(es);
    SortAscends(Defined(es));
  }

  ghost predicate HasKey(es: seq<Entry>, k: text) {
    exists i :: 0 <= i < |es| && es[i].key == k
  }

  ghost predicate KeysWithin(a: seq<Entry>, b: seq<Entry>) {
    forall x :: x in a ==> HasKey(b, x.key)
  }

  ghost predicate SameKeys(a: seq<Entry>, b: seq<Entry>) {
    |a| == |b| && forall i :: 0 <= i < |a| ==> a[i].key == b[i].key
  }

  /** Two ascending member lists with the same keys have them at the same places. */
  lemma {:induction false} AscendingKeysAgree(a: seq<Entry>, b: seq<Entry>)
    requires KeysAscend(a) && KeysAscend(b) && KeysWithin(a, b) && KeysWithin(b, a)
    ensures SameKeys(a, b)
    decreases |a|
  {
    hide *;
    EmptyTogether(a, b);
    EmptyTogether(b, a);
    if a == [] {
      NoKeys(a, b);
    } else {
      LastKeysAgree(a, b);
      ButLastKeys(a, b);
      ButLastKeys(b, a);
      AscendingKeysAgree(a[..|a| - 1], b[..|b| - 1]);
      OneMoreKey(a, b);
    }
  }

  lemma EmptyTogether(a: seq<Entry>, b: seq<Entry>)
    requires KeysWithin(a, b)
    ensures b == [] ==> a == []
  {
    if a != [] {
      assert a[0] in a;
    }
  }

  lemma NoKeys(a: seq<Entry>, b: seq<Entry>)
    requires a == [] && b == []
    ensures SameKeys(a, b)
  {}

  lemma OneMoreKey(a: seq<Entry>, b: seq<Entry>)
    requires a != [] && b != [] && a[|a| - 1].key == b[|b| - 1].key
    requires SameKeys(a[..|a| - 1], b[..|b| - 1])
    ensures SameKeys(a, b)
  {
    forall i | 0 <= i < |a| - 1
      ensures a[i].key == b[i].key
    {
      assert a[i] == a[..|a| - 1][i] && b[i] == b[..|b| - 1][i];
    }
  }

  lemma LastKeysAgree(a: seq<Entry>, b: seq<Entry>)
    requires KeysAscend(a) && KeysAscend(b) && KeysWithin(a, b) && KeysWithin(b, a) && a != [] && b != []
    ensures a[|a| - 1].key == b[|b| - 1].key
  {
    var m, n := |a| - 1, |b| - 1;
    assert a[m] in a && b[n] in b;
    var i :| 0 <= i < |b| && b[i].key == a[m].key;
    var j :| 0 <= j < |a| && a[j].key == b[n].key;
    LessTotal(a[m].key, b[n].key);
  }

  lemma ButLastKeys(a: seq<Entry>, b: seq<Entry>)
    requires KeysAscend(a) && KeysAscend(b) && a != [] && b != [] && a[|a| - 1].key == b[|b| - 1].key
    requires KeysWithin(a, b)
    ensures KeysWithin(a[..|a| - 1], b[..|b| - 1]) && KeysAscend(a[..|a| - 1])
  {
    var m, n := |a| - 1, |b| - 1;
    forall x | x in a[..m]
      ensures HasKey(b[..n], x.key)
    {
      var k :| 0 <= k < m && a[k] == x;
      assert x in a && Less(x.key, a[m].key);
      LessTotal(x.key, a[m].key);
      var i :| 0 <= i < |b| && b[i].key == x.key;
      assert i < n;
      assert b[..n][i].key == x.key;
    }
  }

  // ----- members and maps

  lemma {:induction false} MapHolds(v: Value, n: nat, i: nat)
    requires v.Obj? && UniqueKeys(v.entries) && i < n <= |v.entries| && !v.entries[i].value.Undefined?
    ensures v.entries[i].key in MapOf(v, n) && MapOf(v, n)[v.entries[i].key] == Denotes(v.entries[i].value)
  {
    hide Denotes;
    if i < n - 1 {
      MapHolds(v, n - 1, i);
    }
  }

  lemma {:induction false} MapOnlyHolds(v: Value, n: nat, k: text) returns (i: nat)
    requires v.Obj? && n <= |v.entries| && k in MapOf(v, n)
    ensures i < n && v.entries[i].key == k && !v.entries[i].value.Undefined?
  {
    hide Denotes;
    if v.entries[n - 1].key == k && !v.entries[n - 1].value.Undefined? {
      i := n - 1;
    } else {
      i := MapOnlyHolds(v, n - 1, k);
    }
  }

  lemma MemberDenoted(v: Value, e: Entry)
    requires v.Obj? && WellFormed(v) && e in v.entries && !e.value.Undefined?
    ensures e.key in Denotes(v).members && Denotes(v).members[e.key] == Denotes(e.value)
  {
    var i :| 0 <= i < |v.entries| && v.entries[i] == e;
    MapHolds(v, |v.entries|, i);
  }

  lemma KeyDenoted(v: Value, k: text)
    requires v.Obj? && WellFormed(v) && k in Denotes(v).members
    ensures exists e :: e in Members(v.entries) && e.key == k
  {
    var i := MapOnlyHolds(v, |v.entries|, k);
    assert v.entries[i] in Members(v.entries);
  }

  // ----- same denotation, same text

  lemma {:induction false} SameDocSameText(v: Value, w: Value)
    requires WellFormed(v) && WellFormed(w) && Supported(v) && Supported(w) && Denotes(v) == Denotes(w)
    ensures Text(v) == Text(w)
    decreases v, 1, 0
  {
    match v {
      case Arr(items) =>
        assert |Denotes(v).items| == |Denotes(w).items|;
        SameItems(v, w, 0);
      case Obj(entries) =>
        SameMemberKeys(v, w);
        MembersAscend(v.entries);
        MembersAscend(w.entries);
        AscendingKeysAgree(Members(v.entries), Members(w.entries));
        SameMembers(v, w, Members(v.entries), Members(w.entries));
      case _ =>
    }
  }

  lemma SameMemberKeys(v: Value, w: Value)
    requires v.Obj? && w.Obj? && WellFormed(v) && WellFormed(w) && Denotes(v) == Denotes(w)
    ensures KeysWithin(Members(v.entries), Members(w.entries))
    ensures KeysWithin(Members(w.entries), Members(v.entries))
  {
    forall x | x in Members(v.entries)
      ensures HasKey(Members(w.entries), x.key)
    {
      MemberDenoted(v, x);
      KeyDenoted(w, x.key);
    }
    forall x | x in Members(w.entries)
      ensures HasKey(Members(v.entries), x.key)
    {
      MemberDenoted(w, x);
      KeyDenoted(v, x.key);
    }
  }

  lemma {:induction false} SameItems(v: Value, w: Value, i: nat)
    requires v.Arr? && w.Arr? && WellFormed(v) && WellFormed(w) && Supported(v) && Supported(w)
    requires Denotes(v) == Denotes(w) && |v.items| == |w.items| && i <= |v.items|
    ensures ItemsText(v, i) == ItemsText(w, i)
    decreases v, 0, |v.items| - i
  {
    hide Text, ItemsText, Denotes;
    ItemsTextStep(v, i);
    ItemsTextStep(w, i);
    if i < |v.items| {
      ItemDenoted(v, i);
      ItemDenoted(w, i);
      SameDocSameText(v.items[i], w.items[i]);
      SameItems(v, w, i + 1);
    }
  }

  lemma ItemDenoted(v: Value, i: nat)
    requires v.Arr? && i < |v.items|
    ensures Denotes(v).DArr? && |Denotes(v).items| == |v.items| && Denotes(v).items[i] == Denotes(v.items[i])
  {}

  lemma ItemsTextStep(v: Value, i: nat)
    requires v.Arr? && i <= |v.items|
    ensures ItemsText(v, i) == if i == |v.items| then []
                               else if i == |v.items| - 1 then Text(v.items[i])
                               else Text(v.items[i]) + [COMMA] + ItemsText(v, i + 1)
  {
    hide Text;
  }

  lemma {:induction false} SameMembers(v: Value, w: Value, es: seq<Entry>, fs: seq<Entry>)
    requires v.Obj? && w.Obj? && WellFormed(v) && WellFormed(w) && Supported(v) && Supported(w)
    requires Denotes(v) == Denotes(w)
    requires forall e :: e in es ==> e in v.entries && !e.value.Undefined?
    requires forall e :: e in fs ==> e in w.entries && !e.value.Undefined?
    requires SameKeys(es, fs)
    ensures MembersText(v, es) == MembersText(w, fs)
    decreases v, 0, |es|
  {
    hide Text, Denotes, Quoted;
    if es != [] {
      var e, f := es[0], fs[0];
      assert e in es && f in fs;
      MemberDenoted(v, e);
      MemberDenoted(w, f);
      SameDocSameText(e.value, f.value);
      SameMembers(v, w, es[1..], fs[1..]);
    }
  }

  // ----- the text survives as UTF-8

  lemma Between(first: unit, t: text, last: unit)
    requires WellPaired(t) && NoSurrogates([first, last])
    ensures WellPaired([first] + t + [last])
  {
    hide WellPaired;
    NoSurrogatesPaired([first]) by {
      assert [first, last][0] == first;
    }
    NoSurrogatesPaired([last]) by {
      assert [first, last][1] == last;
    }
    PairedAppend([first], t);
    PairedAppend([first] + t, [last]);
  }

  lemma Joined(a: text, separator: unit, b: text)
    requires WellPaired(a) && WellPaired(b) && NoSurrogates([separator])
    ensures WellPaired(a + [separator] + b)
  {
    hide WellPaired;
    NoSurrogatesPaired([separator]);
    PairedAppend(a, [separator]);
    PairedAppend(a + [separator], b);
  }

  /** The canonical text of any value, lone surrogates in its strings included, is well paired. */
  lemma {:induction false} TextPaired(v: Value)
    ensures WellPaired(Text(v))
    decreases v, 1, 0
  {
    hide WellPaired, Quoted, Decimal, Members, ItemsText, MembersText;
    match v {
      case Null =>
        NoSurrogatesPaired(NULL_TEXT);
      case Bool(b) =>
        NoSurrogatesPaired(if b then TRUE_TEXT else FALSE_TEXT);
      case Int(n) =>
        DecimalPaired(n);
      case Str(s) =>
        QuotedPaired(s);
      case Arr(items) =>
        ItemsPaired(v, 0);
        Between(LBRACKET, ItemsText(v, 0), RBRACKET);
      case Obj(entries) =>
        MembersPaired(v, Members(entries));
        Between(LBRACE, MembersText(v, Members(entries)), RBRACE);
      case Undefined =>
        NoSurrogatesPaired([]);
      case Fraction =>
        NoSurrogatesPaired([]);
    }
  }

  lemma {:induction false} ItemsPaired(v: Value, i: nat)
    requires v.Arr? && i <= |v.items|
    ensures WellPaired(ItemsText(v, i))
    decreases v, 0, |v.items| - i
  {
    hide WellPaired, Text;
    if i == |v.items| {
      NoSurrogatesPaired([]);
    } else {
      TextPaired(v.items[i]);
      if i < |v.items| - 1 {
        ItemsPaired(v, i + 1);
        Joined(Text(v.items[i]), COMMA, ItemsText(v, i + 1));
      }
    }
  }

  lemma {:induction false} MembersPaired(v: Value, es: seq<Entry>)
    requires v.Obj? && forall e :: e in es ==> e in v.entries
    ensures WellPaired(MembersText(v, es))
    decreases v, 0, |es|
  {
    hide WellPaired, Text, Quoted;
    if es == [] {
      NoSurrogatesPaired([]);
    } else {
      var e := es[0];
      assert e in es && e in v.entries;
      QuotedPaired(e.key);
      TextPaired(e.value);
      Joined(Quoted(e.key), COLON, Text(e.value));
      if |es| > 1 {
        MembersPaired(v, es[1..]);
        Joined(MemberText(v, e), COMMA, MembersText(v, es[1..]));
      }
    }
  }

  /** The three literals, and what an integer looks like. */
  lemma Literals(v: Value)
    ensures v.Null? ==> Text(v) == Units("null")
    ensures v.Bool? ==> Text(v) == Units(if v.b then "true" else "false")
    ensures v.Int? && 0 <= v.n < 10 ==> Text(v) == [48 + v.n]
  {
    assert Units("null") == [110, 117, 108, 108];
    assert Units("true") == [116, 114, 117, 101];
    assert Units("false") == [102, 97, 108, 115, 101];
  }

  /** An object prints the members of any ascending list that holds exactly its defined entries. */
  lemma AscendingListPrints(v: Value, es: seq<Entry>)
    requires v.Obj? && WellFormed(v) && KeysAscend(es)
    requires forall e :: e in es <==> e in v.entries && !e.value.Undefined?
    ensures Text(v) == [LBRACE] + MembersText(v, es) + [RBRACE]
  {
    hide Quoted, WellFormed, MembersText, Members;
    var ms := Members(v.entries);
    EntriesUnique(v);
    MembersAscend(v.entries);
    MembersAre(v);
    WithinEach(ms, es);
    WithinEach(es, ms);
    AscendingKeysAgree(ms, es);
    forall i | 0 <= i < |ms|
      ensures ms[i] == es[i]
    {
      assert ms[i] in ms && es[i] in es;
      SameEntry(v, ms[i], es[i]);
    }
    assert ms == es;
  }

  lemma EntriesUnique(v: Value)
    requires v.Obj? && WellFormed(v)
    ensures UniqueKeys(v.entries)
  {}

  lemma MembersAre(v: Value)
    requires v.Obj?
    ensures forall e :: e in Members(v.entries) <==> e in v.entries && !e.value.Undefined?
  {}

  lemma WithinEach(a: seq<Entry>, b: seq<Entry>)
    requires forall e :: e in a ==> e in b
    ensures KeysWithin(a, b)
  {
    forall x | x in a
      ensures HasKey(b, x.key)
    {
      var i :| 0 <= i < |b| && b[i] == x;
      assert b[i].key == x.key;
    }
  }

  lemma SameEntry(v: Value, e: Entry, f: Entry)
    requires v.Obj? && UniqueKeys(v.entries) && e in v.entries && f in v.entries && e.key == f.key
    ensures e == f
  {
    var i :| 0 <= i < |v.entries| && v.entries[i] == e;
    var j :| 0 <= j < |v.entries| && v.entries[j] == f;
    assert v.entries[i].key == v.entries[j].key;
    assert i == j;
  }
}
