/**
  A reader for JSON without white space, in the grammar of RFC 8259, and the
  round trip through jcsCanonicalize (packages/crypto/src/encoding.ts:120-162):
  the text is JSON, it says what the value says, and it says it unambiguously.
 */
module JsonReader {
  import opened Prelude
  import opened JsonText
  import opened Jcs

  predicate StartsWith(t: text, word: text): (yes: bool)
    ensures yes && word != [] ==> t != [] && t[0] == word[0]
  {
    |word| <= |t| && t[..|word|] == word
  }

  /** The document a text starts with, and what follows it. */
  function ReadValue(t: text): (r: Option<(Doc, text)>)
    ensures r.Some? ==> |r.value.1| < |t|
    decreases |t|, 0
  {
    if t == [] then None
    else if StartsWith(t, NULL_TEXT) then Some((DNull, t[4..]))
    else if StartsWith(t, TRUE_TEXT) then Some((DBool(true), t[4..]))
    else if StartsWith(t, FALSE_TEXT) then Some((DBool(false), t[5..]))
    else if t[0] == MINUS || IsDigit(t[0]) then
      match ReadNumber(t)
      case None => None
      case Some((n, rest)) => Some((DInt(n), rest))
    else if t[0] == QUOTE then
      match Unescape(t[1..])
      case None => None
      case Some((s, rest)) => Some((DStr(s), rest))
    else if t[0] == LBRACKET then
      if |t| > 1 && t[1] == RBRACKET then Some((DArr([]), t[2..]))
      else
        match ReadItems(t[1..])
        case None => None
        case Some((ds, rest)) => Some((DArr(ds), rest))
    else if t[0] == LBRACE then
      if |t| > 1 && t[1] == RBRACE then Some((DObj(map[]), t[2..]))
      else
        match ReadMembers(t[1..])
        case None => None
        case Some((ms, rest)) => Some((DObj(ms), rest))
    else None
  }

  /** Items separated by commas, up to the bracket. */
  function ReadItems(t: text): (r: Option<(seq<Doc>, text)>)
    ensures r.Some? ==> |r.value.1| < |t|
    decreases |t|, 1
  {
    match ReadValue(t)
    case None => None
    case Some((d, rest)) =>
      if rest == [] then None
      else if rest[0] == RBRACKET then Some(([d], rest[1..]))
      else if rest[0] != COMMA then None
      else
        match ReadItems(rest[1..])
        case None => None
        case Some((ds, after)) => Some(([d] + ds, after))
  }

  /** A key, a colon and a value. */
  function ReadMember(t: text): (r: Option<(text, Doc, text)>)
    ensures r.Some? ==> |r.value.2| < |t|
    decreases |t|, 1
  {
    if t == [] || t[0] != QUOTE then None
    else
      match Unescape(t[1..])
      case None => None
      case Some((k, rest)) =>
        if rest == [] || rest[0] != COLON then None
        else
          match ReadValue(rest[1..])
          case None => None
          case Some((d, after)) => Some((k, d, after))
  }

  /** Members separated by commas, up to the brace; of members with one key the last stands. */
  function ReadMembers(t: text): (r: Option<(map<text, Doc>, text)>)
    ensures r.Some? ==> |r.value.1| < |t|
    decreases |t|, 2
  {
    match ReadMember(t)
    case None => None
    case Some((k, d, rest)) =>
      if rest == [] then None
      else if rest[0] == RBRACE then Some((map[k := d], rest[1..]))
      else if rest[0] != COMMA then None
      else
        match ReadMembers(rest[1..])
        case None => None
        case Some((ms, after)) => Some((map[k := d] + ms, after))
  }

  // ----- the members of an object, as a map

  /** The map a list of members spells. */
  ghost function MemberMap(es: seq<Entry>): map<text, Doc> {
    if es == [] then map[] else map[es[0].key := Denotes(es[0].value)] + MemberMap(es[1..])
  }

  lemma {:induction false} MemberMapHolds(es: seq<Entry>, e: Entry)
    requires KeysAscend(es) && e in es
    ensures e.key in MemberMap(es) && MemberMap(es)[e.key] == Denotes(e.value)
  {
    hide Denotes;
    if es[0] != e {
      MemberMapHolds(es[1..], e);
    } else if e.key in MemberMap(es[1..]) {
      var f := MemberMapOnlyHolds(es[1..], e.key);
      LessTotal(e.key, f.key);
    }
  }

  lemma {:induction false} MemberMapOnlyHolds(es: seq<Entry>, k: text) returns (e: Entry)
    requires k in MemberMap(es)
    ensures e in es && e.key == k
  {
    hide Denotes;
    if es[0].key == k && k !in MemberMap(es[1..]) {
      e := es[0];
    } else {
      e := MemberMapOnlyHolds(es[1..], k);
    }
  }

  /** The sorted members spell the same map as the entries in their own order. */
  lemma SortedMembersSame(v: Value)
    requires v.Obj? && WellFormed(v)
    ensures MemberMap(Members(v.entries)) == Denotes(v).members
  {
    hide Denotes, Members, WellFormed, MemberMap;
    var es := Members(v.entries);
    EntriesUnique(v);
    ObjectDenotes(v);
    MembersAscend(v.entries);
    var m, n := MemberMap(es), Denotes(v).members;
    forall k | k in m
      ensures k in n && m[k] == n[k]
    {
      var e := MemberMapOnlyHolds(es, k);
      MemberMapHolds(es, e);
      MemberDenoted(v, e);
    }
    forall k | k in n
      ensures k in m
    {
      KeyDenoted(v, k);
      var e :| e in es && e.key == k;
      MemberMapHolds(es, e);
    }
    assert m == n;
  }

  // ----- reading back

  /** What may follow a value inside a document. */
  predicate Ends(r: text) {
    r == [] || r[0] == COMMA || r[0] == RBRACKET || r[0] == RBRACE
  }

  /** No value's text opens with a closing bracket or a brace. */
  lemma TextStart(v: Value)
    requires Supported(v)
    ensures Text(v) != [] && Text(v)[0] != RBRACKET
  {
    if v.Int? {
      DecimalStart(v.n);
    }
  }

  /** The text of a value is read back as what the value denotes, whatever follows. */
  lemma {:induction false} ReadText(v: Value, r: text)
    requires WellFormed(v) && Supported(v) && Ends(r)
    ensures ReadValue(Text(v) + r) == Some((Denotes(v), r))
    decreases v, 1, 0
  {
    hide Quoted, Decimal, ReadNumber, Members, ItemsText, MembersText, ReadItems, ReadMembers, Unescape;
    var t := Text(v) + r;
    match v {
      case Null =>
        assert t[..4] == NULL_TEXT && t[4..] == r;
      case Bool(b) =>
        ReadBool(b, r);
      case Int(n) =>
        DecimalStart(n);
        ReadDecimal(n, r);
        assert t[0] == Decimal(n)[0];
      case Str(s) =>
        ReadString(s, r);
      case Arr(items) =>
        assert t == [LBRACKET] + (ItemsText(v, 0) + [RBRACKET] + r);
        ReadArray(v, r);
      case Obj(entries) =>
        assert t == [LBRACE] + (MembersText(v, Members(entries)) + [RBRACE] + r);
        ReadObject(v, r);
      case _ =>
    }
  }

  lemma ReadBool(b: bool, r: text)
    ensures ReadValue((if b then TRUE_TEXT else FALSE_TEXT) + r) == Some((DBool(b), r))
  {
    var t := (if b then TRUE_TEXT else FALSE_TEXT) + r;
    assert t[0] == if b then 116 else 102;
    assert b ==> t[..4] == TRUE_TEXT && t[4..] == r;
    assert !b ==> t[..5] == FALSE_TEXT && t[5..] == r;
  }

  lemma ReadString(s: text, r: text)
    ensures ReadValue(Quoted(s) + r) == Some((DStr(s), r))
  {
    hide Escape, Unescape;
    var t := Quoted(s) + r;
    UnescapeEscape(s, r);
    assert t[0] == QUOTE && t[1..] == Escape(s) + [QUOTE] + r;
  }

  // ----- arrays

  /** What follows item i: a comma and the rest, or the bracket. */
  function AfterItem(v: Value, i: nat, r: text): text
    requires v.Arr? && i < |v.items|
  {
    if i == |v.items| - 1 then [RBRACKET] + r else [COMMA] + (ItemsText(v, i + 1) + [RBRACKET] + r)
  }

  lemma ItemsUnroll(v: Value, i: nat, r: text)
    requires v.Arr? && i < |v.items|
    ensures ItemsText(v, i) + [RBRACKET] + r == Text(v.items[i]) + AfterItem(v, i, r)
    ensures Ends(AfterItem(v, i, r))
  {
    hide Text;
    if i < |v.items| - 1 {
      assert ItemsText(v, i) == Text(v.items[i]) + [COMMA] + ItemsText(v, i + 1);
    }
  }

  lemma ReadItemsStep(v: Value, i: nat, r: text, d: Doc, ds: seq<Doc>)
    requires v.Arr? && i < |v.items|
    requires ReadValue(Text(v.items[i]) + AfterItem(v, i, r)) == Some((d, AfterItem(v, i, r)))
    requires i < |v.items| - 1 ==> ReadItems(ItemsText(v, i + 1) + [RBRACKET] + r) == Some((ds, r))
    ensures ReadItems(ItemsText(v, i) + [RBRACKET] + r) == Some((if i == |v.items| - 1 then [d] else [d] + ds, r))
  {
    hide Text, ItemsText, ReadValue, Ends;
    ItemsUnroll(v, i, r);
    var rest := AfterItem(v, i, r);
    assert rest[1..] == if i == |v.items| - 1 then r else ItemsText(v, i + 1) + [RBRACKET] + r;
  }

  lemma {:induction false} ReadItemsText(v: Value, i: nat, r: text)
    requires v.Arr? && WellFormed(v) && Supported(v) && i < |v.items|
    ensures ReadItems(ItemsText(v, i) + [RBRACKET] + r) == Some((Denotes(v).items[i..], r))
    decreases v, 0, |v.items| - i
  {
    hide Text, ItemsText, ReadItems, ReadValue, AfterItem, Ends;
    ItemsUnroll(v, i, r);
    ReadText(v.items[i], AfterItem(v, i, r));
    var ds := Denotes(v).items;
    if i < |v.items| - 1 {
      ReadItemsText(v, i + 1, r);
    }
    ReadItemsStep(v, i, r, ds[i], ds[i + 1..]);
    assert ds[i..] == if i == |v.items| - 1 then [ds[i]] else [ds[i]] + ds[i + 1..];
  }

  lemma ReadArray(v: Value, r: text)
    requires v.Arr? && WellFormed(v) && Supported(v)
    ensures ReadValue([LBRACKET] + (ItemsText(v, 0) + [RBRACKET] + r)) == Some((Denotes(v), r))
    decreases v, 0, |v.items| + 1
  {
    hide Text, ItemsText, ReadItems, AfterItem, WellFormed, Ends;
    var x := ItemsText(v, 0) + [RBRACKET] + r;
    var t := [LBRACKET] + x;
    assert t[1..] == x;
    if v.items == [] {
      NoItems(v);
      assert x == [RBRACKET] + r && t[2..] == r && Denotes(v) == DArr([]);
    } else {
      ReadItemsText(v, 0, r);
      ItemsUnroll(v, 0, r);
      TextStart(v.items[0]);
      assert t[1] == x[0] == Text(v.items[0])[0];
      assert Denotes(v).items[0..] == Denotes(v).items;
    }
  }

  lemma NoItems(v: Value)
    requires v.Arr? && v.items == []
    ensures ItemsText(v, 0) == []
  {}

  // ----- objects

  /** What follows the first of some members. */
  function AfterMember(v: Value, es: seq<Entry>, r: text): text
    requires v.Obj? && es != [] && forall e :: e in es ==> e in v.entries
  {
    if |es| == 1 then [RBRACE] + r else [COMMA] + (MembersText(v, es[1..]) + [RBRACE] + r)
  }

  lemma MembersUnroll(v: Value, es: seq<Entry>, r: text)
    requires v.Obj? && es != [] && forall e :: e in es ==> e in v.entries
    ensures MembersText(v, es) + [RBRACE] + r
            == [QUOTE] + (Escape(es[0].key) + [QUOTE] + ([COLON] + (Text(es[0].value) + AfterMember(v, es, r))))
    ensures Ends(AfterMember(v, es, r))
  {
    hide Text, Escape;
    hide MembersText;
    var k, x := es[0].key, Text(es[0].value);
    var m := MemberText(v, es[0]);
    var after := AfterMember(v, es, r);
    MembersTextSplit(v, es);
    if |es| > 1 {
      RegroupRest(m, MembersText(v, es[1..]), r);
    } else {
      assert m + [RBRACE] + r == m + ([RBRACE] + r);
    }
    Regroup(Escape(k), x, after);
  }

  lemma MembersTextSplit(v: Value, es: seq<Entry>)
    requires v.Obj? && es != [] && forall e :: e in es ==> e in v.entries
    ensures MembersText(v, es) == if |es| == 1 then MemberText(v, es[0]) else MemberText(v, es[0]) + [COMMA] + MembersText(v, es[1..])
  {
    hide MemberText;
  }

  lemma RegroupRest(m: text, rest: text, r: text)
    ensures m + [COMMA] + rest + [RBRACE] + r == m + ([COMMA] + (rest + [RBRACE] + r))
  {}

  lemma Regroup(k: text, x: text, after: text)
    ensures [QUOTE] + k + [QUOTE] + [COLON] + x + after == [QUOTE] + (k + [QUOTE] + ([COLON] + (x + after)))
  {}

  lemma ReadOneMember(k: text, x: text, d: Doc, after: text)
    requires ReadValue(x + after) == Some((d, after))
    ensures ReadMember([QUOTE] + (Escape(k) + [QUOTE] + ([COLON] + (x + after)))) == Some((k, d, after))
  {
    hide Escape, Unescape, ReadValue;
    var rest := [COLON] + (x + after);
    var t := [QUOTE] + (Escape(k) + [QUOTE] + rest);
    UnescapeEscape(k, rest);
    assert t[1..] == Escape(k) + [QUOTE] + rest && rest[1..] == x + after;
  }

  lemma ReadMembersStep(v: Value, es: seq<Entry>, r: text, t: text, d: Doc, ms: map<text, Doc>)
    requires v.Obj? && es != [] && forall e :: e in es ==> e in v.entries
    requires ReadMember(t) == Some((es[0].key, d, AfterMember(v, es, r)))
    requires |es| > 1 ==> ReadMembers(MembersText(v, es[1..]) + [RBRACE] + r) == Some((ms, r))
    ensures ReadMembers(t) == Some((if |es| == 1 then map[es[0].key := d] else map[es[0].key := d] + ms, r))
  {
    hide MembersText, ReadMember;
    var rest := AfterMember(v, es, r);
    assert rest[1..] == if |es| == 1 then r else MembersText(v, es[1..]) + [RBRACE] + r;
  }

  lemma {:induction false} ReadMembersText(v: Value, es: seq<Entry>, r: text)
    requires v.Obj? && WellFormed(v) && Supported(v) && es != []
    requires forall e :: e in es ==> e in v.entries && !e.value.Undefined?
    ensures ReadMembers(MembersText(v, es) + [RBRACE] + r) == Some((MemberMap(es), r))
    decreases v, 0, |es|
  {
    hide Text, MembersText, ReadMember, ReadMembers, ReadValue, AfterMember, Denotes, Escape, Ends;
    var e, after := es[0], AfterMember(v, es, r);
    assert e in es;
    MembersUnroll(v, es, r);
    ReadText(e.value, after);
    ReadOneMember(e.key, Text(e.value), Denotes(e.value), after);
    if |es| > 1 {
      ReadMembersText(v, es[1..], r);
    }
    MemberMapUnroll(es);
    ReadMembersStep(v, es, r, MembersText(v, es) + [RBRACE] + r, Denotes(e.value), MemberMap(es[1..]));
  }

  lemma MemberMapUnroll(es: seq<Entry>)
    requires es != []
    ensures MemberMap(es) == if |es| == 1 then map[es[0].key := Denotes(es[0].value)]
                             else map[es[0].key := Denotes(es[0].value)] + MemberMap(es[1..])
  {
    hide Denotes;
    if |es| == 1 {
      assert MemberMap(es[1..]) == map[];
    }
  }

  lemma ReadObject(v: Value, r: text)
    requires v.Obj? && WellFormed(v) && Supported(v)
    ensures ReadValue([LBRACE] + (MembersText(v, Members(v.entries)) + [RBRACE] + r)) == Some((Denotes(v), r))
    decreases v, 0, |Members(v.entries)| + 1
  {
    hide Text, MembersText, ReadMembers, AfterMember, WellFormed, Supported, Denotes, Escape, Ends;
    var es := Members(v.entries);
    var x := MembersText(v, es) + [RBRACE] + r;
    var t := [LBRACE] + x;
    assert t[1..] == x;
    SortedMembersSame(v);
    ObjectDenotes(v);
    if es == [] {
      NoMembers(v);
      assert x == [RBRACE] + r && t[2..] == r;
    } else {
      ReadMembersText(v, es, r);
      MembersUnroll(v, es, r);
      assert t[1] == QUOTE;
    }
  }

  lemma ObjectDenotes(v: Value)
    requires v.Obj?
    ensures Denotes(v).DObj?
  {}

  lemma NoMembers(v: Value)
    requires v.Obj?
    ensures MembersText(v, []) == []
  {}

  // ----- the round trip and what follows from it

  /** The canonical text is JSON for exactly the document the value denotes. */
  lemma CanonicalReads(v: Value)
    requires WellFormed(v) && Supported(v)
    ensures Canonicalize(v).Ok? && ReadValue(Canonicalize(v).value) == Some((Denotes(v), []))
  {
    hide Text, ReadValue, Denotes, WellFormed, Supported;
    ReadText(v, []);
    assert Text(v) + [] == Text(v);
  }

  /**
    Two values have the same text exactly when they denote the same JSON value,
    that is, when they differ only in the order of object keys at any depth and
    in members that are undefined.
   */
  lemma CanonicalIffSameDocument(v: Value, w: Value)
    requires WellFormed(v) && WellFormed(w) && Supported(v) && Supported(w)
    ensures Canonicalize(v) == Canonicalize(w) <==> Denotes(v) == Denotes(w)
  {
    hide Text, ReadValue, Denotes, WellFormed, Supported;
    if Denotes(v) == Denotes(w) {
      SameDocSameText(v, w);
    }
    CanonicalReads(v);
    CanonicalReads(w);
  }
}
