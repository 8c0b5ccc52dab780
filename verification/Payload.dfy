/**
  The plaintext of a bid (packages/crypto/src/sealedbid.ts:39-48): printed by
  jcsCanonicalize, carried as UTF-8, and read again by JSON.parse.
 */
module Payload {
  import opened Prelude
  import opened Bytes
  import opened JsonText
  import opened Jcs
  import opened JsonReader

  datatype BidPayload = BidPayload(
    tenderId: text, amountMinorUnit: text, currency: text,
    bidNonce: text, subjectCommitment: text, createdAt: text)

  const TENDER_ID: text := Units("tenderId")
  const AMOUNT: text := Units("amountMinorUnit")
  const CURRENCY: text := Units("currency")
  const NONCE: text := Units("bidNonce")
  const SUBJECT: text := Units("subjectCommitment")
  const CREATED_AT: text := Units("createdAt")

  function PayloadMembers(p: BidPayload): seq<Entry> {
    [Entry(TENDER_ID, Str(p.tenderId)), Entry(AMOUNT, Str(p.amountMinorUnit)), Entry(CURRENCY, Str(p.currency)),
     Entry(NONCE, Str(p.bidNonce)), Entry(SUBJECT, Str(p.subjectCommitment)), Entry(CREATED_AT, Str(p.createdAt))]
  }

  /** The payload as the object jcsCanonicalize is given. */
  function PayloadValue(p: BidPayload): Value {
    Obj(PayloadMembers(p))
  }

  /** Reading a member of what JSON.parse returned. */
  function Field(d: Doc, key: text): Option<Doc> {
    if d.DObj? && key in d.members then Some(d.members[key]) else None
  }

  /** A document whose six fields are the strings of a payload. */
  predicate Carries(d: Doc, p: BidPayload) {
    && Field(d, TENDER_ID) == Some(DStr(p.tenderId)) && Field(d, AMOUNT) == Some(DStr(p.amountMinorUnit))
    && Field(d, CURRENCY) == Some(DStr(p.currency)) && Field(d, NONCE) == Some(DStr(p.bidNonce))
    && Field(d, SUBJECT) == Some(DStr(p.subjectCommitment)) && Field(d, CREATED_AT) == Some(DStr(p.createdAt))
  }

  lemma KeysDiffer()
    ensures TENDER_ID != AMOUNT && TENDER_ID != CURRENCY && TENDER_ID != NONCE && TENDER_ID != SUBJECT
    ensures TENDER_ID != CREATED_AT && AMOUNT != CURRENCY && AMOUNT != NONCE && AMOUNT != SUBJECT
    ensures AMOUNT != CREATED_AT && CURRENCY != NONCE && CURRENCY != SUBJECT && CURRENCY != CREATED_AT
    ensures NONCE != SUBJECT && NONCE != CREATED_AT && SUBJECT != CREATED_AT
  {
    assert |TENDER_ID| == 8 && |AMOUNT| == 15 && |CURRENCY| == 8 && |NONCE| == 8 && |SUBJECT| == 17 && |CREATED_AT| == 9;
    assert TENDER_ID[0] == 't' as int && CURRENCY[0] == 'c' as int && NONCE[0] == 'b' as int;
  }

  lemma PayloadIsValue(p: BidPayload)
    ensures WellFormed(PayloadValue(p)) && Supported(PayloadValue(p))
  {
    hide UniqueKeys;
    PayloadKeys(p);
  }

  lemma PayloadKeys(p: BidPayload)
    ensures UniqueKeys(PayloadMembers(p))
  {
    hide TENDER_ID, AMOUNT, CURRENCY, NONCE, SUBJECT, CREATED_AT;
    KeysDiffer();
  }

  lemma PayloadDenotes(p: BidPayload)
    ensures Carries(Denotes(PayloadValue(p)), p)
    ensures StringsOnly(Denotes(PayloadValue(p)))
  {
    hide Denotes, WellFormed, Supported, TENDER_ID, AMOUNT, CURRENCY, NONCE, SUBJECT, CREATED_AT;
    var v, es := PayloadValue(p), PayloadMembers(p);
    PayloadIsValue(p);
    ObjectDenotes(v);
    FieldDenoted(v, es[0]);
    FieldDenoted(v, es[1]);
    FieldDenoted(v, es[2]);
    FieldDenoted(v, es[3]);
    FieldDenoted(v, es[4]);
    FieldDenoted(v, es[5]);
    StringMembers(v);
  }

  lemma FieldDenoted(v: Value, e: Entry)
    requires v.Obj? && WellFormed(v) && e in v.entries && e.value.Str?
    ensures Field(Denotes(v), e.key) == Some(DStr(e.value.s))
  {
    hide WellFormed;
    ObjectDenotes(v);
    MemberDenoted(v, e);
  }

  lemma StringMembers(v: Value)
    requires v.Obj? && WellFormed(v) && forall e :: e in v.entries ==> e.value.Str?
    ensures StringsOnly(Denotes(v))
  {
    hide WellFormed, Members;
    ObjectDenotes(v);
    forall k | k in Denotes(v).members
      ensures Denotes(v).members[k].DStr?
    {
      KeyDenoted(v, k);
      var e :| e in Members(v.entries) && e.key == k;
      MemberInEntries(v, e);
      MemberDenoted(v, e);
    }
  }

  lemma MemberInEntries(v: Value, e: Entry)
    requires v.Obj? && e in Members(v.entries)
    ensures e in v.entries && !e.value.Undefined?
  {}

  /** An object whose members are all strings. */
  predicate StringsOnly(d: Doc) {
    d.DObj? && forall k :: k in d.members ==> d.members[k].DStr?
  }

  // ----- the platform's text functions

  /** TextEncoder, TextDecoder and JSON.parse. */
  datatype Platform = Platform(
    encodeText: text -> seq<byte>,
    decodeText: seq<byte> -> text,
    parseJson: text -> Option<Doc>)

  const BYTE_ORDER_MARK: unit := 0xFEFF

  /** UTF-8 carries a text unless a surrogate stands alone; a leading mark is dropped. */
  ghost predicate Utf8Inverts(f: Platform, t: text) {
    WellPaired(t) && (t == [] || t[0] != BYTE_ORDER_MARK) ==> f.decodeText(f.encodeText(t)) == t
  }

  /** On compact objects of strings JSON.parse is the reader. */
  ghost predicate ParseAgrees(f: Platform, t: text) {
    match ReadValue(t)
    case None => true
    case Some((d, rest)) => rest == [] && StringsOnly(d) ==> f.parseJson(t) == Some(d)
  }

  ghost predicate LawfulPlatform(f: Platform) {
    (forall t :: Utf8Inverts(f, t)) && (forall t :: ParseAgrees(f, t))
  }

  /** The bytes of a payload. */
  function PayloadBytes(f: Platform, p: BidPayload): Result<seq<byte>> {
    var t :- Canonicalize(PayloadValue(p));
    Ok(f.encodeText(t))
  }

  /** A payload printed, encoded, decoded and parsed is the payload, whatever its strings. */
  lemma PayloadReturns(f: Platform, p: BidPayload)
    requires LawfulPlatform(f)
    ensures PayloadBytes(f, p).Ok?
    ensures var d := f.parseJson(f.decodeText(PayloadBytes(f, p).value));
            d.Some? && Carries(d.value, p) && d.value == Denotes(PayloadValue(p))
  {
    hide Text, Denotes, WellFormed, Supported, ReadValue, WellPaired, Carries, StringsOnly;
    var v := PayloadValue(p);
    PayloadIsValue(p);
    PayloadDenotes(p);
    CanonicalReads(v);
    TextPaired(v);
    BraceOpens(v);
    assert Utf8Inverts(f, Text(v)) && ParseAgrees(f, Text(v));
  }

  lemma BraceOpens(v: Value)
    requires v.Obj?
    ensures Text(v) != [] && Text(v)[0] == LBRACE
  {}

  // ----- such a platform exists

  function TwoBytes(t: text): (bs: seq<byte>)
    ensures |bs| == 2 * |t|
  {
    if t == [] then [] else [t[0] / 256, t[0] % 256] + TwoBytes(t[1..])
  }

  function FromTwoBytes(bs: seq<byte>): text {
    if |bs| < 2 then [] else [bs[0] as int * 256 + bs[1] as int] + FromTwoBytes(bs[2..])
  }

  lemma {:induction false} TwoBytesInverse(t: text)
    ensures FromTwoBytes(TwoBytes(t)) == t
  {
    if t != [] {
      TwoBytesInverse(t[1..]);
      assert TwoBytes(t)[2..] == TwoBytes(t[1..]);
    }
  }

  function CompactParse(t: text): Option<Doc> {
    match ReadValue(t)
    case None => None
    case Some((d, rest)) => if rest == [] then Some(d) else None
  }

  const SAMPLE: Platform := Platform(TwoBytes, FromTwoBytes, CompactParse)

  lemma SamplePlatformLawful()
    ensures LawfulPlatform(SAMPLE)
  {
    hide ReadValue, WellPaired, TwoBytes, FromTwoBytes, StringsOnly;
    forall t
      ensures Utf8Inverts(SAMPLE, t)
    {
      TwoBytesInverse(t);
    }
    forall t
      ensures ParseAgrees(SAMPLE, t)
    {
    }
  }

  // ----- the plaintext, unit by unit

  /** The members in the order they are printed: amount, nonce, creation, currency, subject, tender. */
  function SortedPayload(p: BidPayload): seq<Entry> {
    [Entry(AMOUNT, Str(p.amountMinorUnit)), Entry(NONCE, Str(p.bidNonce)), Entry(CREATED_AT, Str(p.createdAt)),
     Entry(CURRENCY, Str(p.currency)), Entry(SUBJECT, Str(p.subjectCommitment)), Entry(TENDER_ID, Str(p.tenderId))]
  }

  lemma KeysInOrder()
    ensures Less(AMOUNT, NONCE) && Less(NONCE, CREATED_AT) && Less(CREATED_AT, CURRENCY)
    ensures Less(CURRENCY, SUBJECT) && Less(SUBJECT, TENDER_ID)
  {
    assert AMOUNT[0] == 97 && NONCE[0] == 98 && CREATED_AT[0] == 99 && CURRENCY[0] == 99;
    assert SUBJECT[0] == 115 && TENDER_ID[0] == 116;
    assert CREATED_AT[1..][0] == 114 && CURRENCY[1..][0] == 117;
  }

  lemma SortedAscends(p: BidPayload)
    ensures KeysAscend(SortedPayload(p))
  {
    hide Less, AMOUNT, NONCE, CREATED_AT, CURRENCY, SUBJECT, TENDER_ID;
    KeysInOrder();
    AscendingChain(SortedPayload(p));
  }

  /** Neighbours in order are enough. */
  lemma AscendingChain(es: seq<Entry>)
    requires forall i :: 0 <= i < |es| - 1 ==> Less(es[i].key, es[i + 1].key)
    ensures KeysAscend(es)
  {
    hide Less;
    forall i, j | 0 <= i < j < |es|
      ensures Less(es[i].key, es[j].key)
    {
      ChainReaches(es, i, j);
    }
  }

  lemma {:induction false} ChainReaches(es: seq<Entry>, i: nat, j: nat)
    requires i < j < |es| && forall k :: 0 <= k < |es| - 1 ==> Less(es[k].key, es[k + 1].key)
    ensures Less(es[i].key, es[j].key)
    decreases j
  {
    hide Less;
    assert Less(es[j - 1].key, es[j - 1 + 1].key);
    if i < j - 1 {
      ChainReaches(es, i, j - 1);
      LessTransitive(es[i].key, es[j - 1].key, es[j].key);
    }
  }

  /** A name, a colon and a string, as they are printed. */
  function Printed(name: string, value: text): text {
    Quoted(Units(name)) + [COLON] + Quoted(value)
  }

  /** The plaintext that is encrypted, spelled out for every payload. */
  lemma PayloadText(p: BidPayload)
    ensures Canonicalize(PayloadValue(p))
            == Ok([LBRACE] + (Printed("amountMinorUnit", p.amountMinorUnit)
                              + [COMMA] + (Printed("bidNonce", p.bidNonce)
                              + [COMMA] + (Printed("createdAt", p.createdAt)
                              + [COMMA] + (Printed("currency", p.currency)
                              + [COMMA] + (Printed("subjectCommitment", p.subjectCommitment)
                              + [COMMA] + Printed("tenderId", p.tenderId)))))) + [RBRACE])
  {
    hide WellFormed, Supported, Printed, KeysAscend, Units, MembersText, Text;
    var v, es := PayloadValue(p), SortedPayload(p);
    PayloadIsValue(p);
    SortedAscends(p);
    SameEntries(p);
    AscendingListPrints(v, es);
    PrintedFirst(v, es, "amountMinorUnit", p.amountMinorUnit);
    PrintedFirst(v, es[1..], "bidNonce", p.bidNonce);
    PrintedFirst(v, es[2..], "createdAt", p.createdAt);
    PrintedFirst(v, es[3..], "currency", p.currency);
    PrintedFirst(v, es[4..], "subjectCommitment", p.subjectCommitment);
    PrintedFirst(v, es[5..], "tenderId", p.tenderId);
  }

  lemma PrintedFirst(v: Value, es: seq<Entry>, name: string, value: text)
    requires v.Obj? && es != [] && forall e :: e in es ==> e in v.entries
    requires es[0] == Entry(Units(name), Str(value))
    ensures MembersText(v, es) == if |es| == 1 then Printed(name, value)
                                  else Printed(name, value) + [COMMA] + MembersText(v, es[1..])
  {
    hide Quoted, Units;
    UnrollMembers(v, es);
  }

  lemma SameEntries(p: BidPayload)
    ensures forall e :: e in SortedPayload(p) <==> e in PayloadValue(p).entries && !e.value.Undefined?
  {
    hide AMOUNT, NONCE, CREATED_AT, CURRENCY, SUBJECT, TENDER_ID;
  }

  lemma UnrollMembers(v: Value, es: seq<Entry>)
    requires v.Obj? && es != [] && forall e :: e in es ==> e in v.entries
    ensures MembersText(v, es) == if |es| == 1 then Quoted(es[0].key) + [COLON] + Text(es[0].value)
                                  else Quoted(es[0].key) + [COLON] + Text(es[0].value) + [COMMA] + MembersText(v, es[1..])
  {
    hide Text, Quoted;
  }
}
