/** The pure helpers of `lib/capi.ts`: phone normalisation, test-number exclusion,
    deterministic event identifiers and the pre-processing done before hashing. */
module Capi {
  import opened Results
  import opened JsText

  /** One row of the analytics question: `phone` and the two labels may be `null` or
      missing, which both read as `None`. */
  datatype MetabaseRow = MetabaseRow(
    sessionId: string,
    phone: Option<string>,
    messagesSent: int,
    sourceUrl: Option<string>,
    experimentLabel: Option<string>)

  // ---------------------------------------------------------------------------
  // Hashing

  /** The SHA-256 digest rendered as lower-case hex is not modelled: it is any function
      of its input. */
  type Digest = string -> string

  /** `sha256LowerHex`: the digest of the trimmed, lower-cased input. */
  function Sha256LowerHex(digest: Digest, input: string): string {
    digest(LowerAscii(Trim(input)))
  }

  /** The order of the two steps does not matter: the token is also the digest of the
      lower-cased input, trimmed. */
  lemma HashStepsCommute(digest: Digest, input: string)
    ensures Sha256LowerHex(digest, input) == digest(Trim(LowerAscii(input)))
  {
    LowerCommutesWithTrim(input);
  }

  /** Surrounding whitespace never changes the token. */
  lemma HashIgnoresPadding(digest: Digest, p: string, s: string, q: string)
    requires AllWhitespace(p) && AllWhitespace(q)
    ensures Sha256LowerHex(digest, p + s + q) == Sha256LowerHex(digest, s)
  {
    TrimIgnoresPadding(p, s, q);
  }

  /** Inputs that agree up to ASCII case give the same token. */
  lemma HashIgnoresAsciiCase(digest: Digest, a: string, b: string)
    requires LowerAscii(a) == LowerAscii(b)
    ensures Sha256LowerHex(digest, a) == Sha256LowerHex(digest, b)
  {
    LowerCommutesWithTrim(a);
    LowerCommutesWithTrim(b);
  }

  // ---------------------------------------------------------------------------
  // Phone normalisation

  predicate IsAsciiDigit(c: char) { '0' <= c <= '9' }

  /** The regular expression `^\+\d{8,16}$`. */
  predicate IsE164(s: string) {
    && 9 <= |s| <= 17
    && s[0] == '+'
    && forall i :: 1 <= i < |s| ==> IsAsciiDigit(s[i])
  }

  predicate StartsWithPlus(s: string) { |s| > 0 && s[0] == '+' }

  predicate IsDigitOrPlus(c: char) { IsAsciiDigit(c) || c == '+' }

  /** `t.replace(/[^\d+]/g, "")`: every character other than an ASCII digit or `+`
      is removed, the rest keep their order. */
  function KeepDigitsAndPlus(s: string): (r: string)
    ensures |r| <= |s|
    ensures forall i :: 0 <= i < |r| ==> IsDigitOrPlus(r[i])
    ensures |s| > 0 && IsDigitOrPlus(s[0]) ==> |r| > 0 && r[0] == s[0]
    decreases |s|
  {
    if |s| == 0 then ""
    else if IsDigitOrPlus(s[0]) then [s[0]] + KeepDigitsAndPlus(s[1..])
    else KeepDigitsAndPlus(s[1..])
  }

  lemma {:induction false} KeepDigitsAndPlusFixes(s: string)
    requires forall i :: 0 <= i < |s| ==> IsDigitOrPlus(s[i])
    ensures KeepDigitsAndPlus(s) == s
    decreases |s|
  {
    if |s| > 0 {
      KeepDigitsAndPlusFixes(s[1..]);
      assert [s[0]] + s[1..] == s;
    }
  }

  /** The filter works character by character, so it distributes over concatenation. */
  lemma {:induction false} KeepDigitsAndPlusAppend(a: string, b: string)
    ensures KeepDigitsAndPlus(a + b) == KeepDigitsAndPlus(a) + KeepDigitsAndPlus(b)
    decreases |a|
  {
    if |a| == 0 {
      assert a + b == b;
    } else {
      KeepDigitsAndPlusAppend(a[1..], b);
      assert (a + b)[1..] == a[1..] + b;
    }
  }

  lemma {:induction false} KeepDigitsAndPlusDrops(s: string)
    requires forall i :: 0 <= i < |s| ==> !IsDigitOrPlus(s[i])
    ensures KeepDigitsAndPlus(s) == ""
    decreases |s|
  {
    if |s| > 0 {
      KeepDigitsAndPlusDrops(s[1..]);
    }
  }

  /** `normalizePhoneToE164`. */
  function NormalizePhoneToE164(raw: Option<string>): (r: Option<string>)
    ensures r.Some? ==> IsE164(r.value)
  {
    if raw.None? || raw.value == "" then None
    else
      var t := Trim(raw.value);
      if !StartsWithPlus(t) then None
      else
        var digits := KeepDigitsAndPlus(t);
        if IsE164(digits) then Some(digits) else None
  }

  /** Null, undefined, empty input and input whose trim does not start with `+` give no
      number; otherwise the result is the trimmed input with everything but digits and
      `+` removed, provided that is `+` and 8 to 16 digits. */
  lemma NormalizeCases(raw: Option<string>)
    ensures raw.None? || raw.value == "" ==> NormalizePhoneToE164(raw).None?
    ensures raw.Some? && !StartsWithPlus(Trim(raw.value)) ==> NormalizePhoneToE164(raw).None?
    ensures NormalizePhoneToE164(raw).Some? ==>
      raw.Some? && NormalizePhoneToE164(raw).value == KeepDigitsAndPlus(Trim(raw.value))
    ensures (raw.Some? && raw.value != "" && StartsWithPlus(Trim(raw.value))
             && IsE164(KeepDigitsAndPlus(Trim(raw.value)))) ==> NormalizePhoneToE164(raw).Some?
  {
  }

  lemma E164HasNoWhitespace(e: string)
    requires IsE164(e)
    ensures forall i :: 0 <= i < |e| ==> !IsWhitespace(e[i])
  {
    forall i | 0 <= i < |e| ensures !IsWhitespace(e[i]) {
      assert i == 0 || IsAsciiDigit(e[i]);
    }
  }

  /** A number already in canonical form normalises to itself. */
  lemma NormalizeFixesE164(e: string)
    requires IsE164(e)
    ensures NormalizePhoneToE164(Some(e)) == Some(e)
  {
    E164HasNoWhitespace(e);
    TrimNoWhitespace(e);
    KeepDigitsAndPlusFixes(e);
  }

  /** Normalising twice is normalising once. */
  lemma NormalizeIdempotent(raw: Option<string>)
    ensures NormalizePhoneToE164(NormalizePhoneToE164(raw)) == NormalizePhoneToE164(raw)
  {
    var r := NormalizePhoneToE164(raw);
    if r.Some? {
      NormalizeFixesE164(r.value);
    }
  }

  /** Only the first `+` is removed before hashing a normalised number. */
  function StripLeadingPlus(s: string): (r: string)
    ensures StartsWithPlus(s) ==> [s[0]] + r == s
    ensures !StartsWithPlus(s) ==> r == s
  {
    if StartsWithPlus(s) then s[1..] else s
  }

  /** For a normalised number the hashing pre-processing is the identity: the token
      is the digest of the digits after the `+`. */
  lemma HashOfE164Digits(digest: Digest, e: string)
    ensures IsE164(e) ==> Sha256LowerHex(digest, StripLeadingPlus(e)) == digest(e[1..])
  {
    if IsE164(e) {
      var d := e[1..];
      assert forall i :: 0 <= i < |d| ==> IsAsciiDigit(d[i]) by {
        forall i | 0 <= i < |d| ensures IsAsciiDigit(d[i]) {
          assert d[i] == e[i + 1];
        }
      }
      TrimNoWhitespace(d);
      LowerWithoutUpper(d);
    }
  }

  // ---------------------------------------------------------------------------
  // Event identifiers

  const EventIdNamespace := "chat-threshold:"
  const DefaultLabel := "default"

  lemma DefaultLabelIsTrimmed()
    ensures Trim(DefaultLabel) == DefaultLabel
  {
    assert forall i :: 0 <= i < |DefaultLabel| ==> 'a' <= DefaultLabel[i] <= 'z';
    TrimNoWhitespace(DefaultLabel);
  }

  /** `experimentLabel?.trim() || "default"`. */
  function EffectiveLabel(rawLabel: Option<string>): (l: string)
    ensures l != "" && Bordered(l)
    ensures rawLabel.Some? && Trim(rawLabel.value) != "" ==> l == Trim(rawLabel.value)
    ensures rawLabel.None? || Trim(rawLabel.value) == "" ==> l == DefaultLabel
  {
    if rawLabel.None? then DefaultLabel
    else
      var t := Trim(rawLabel.value);
      if t == "" then DefaultLabel else t
  }

  /** `eventIdFor`: the namespace, then a label that is never empty, then `:` and the
      session. */
  function EventIdFor(sessionId: string, rawLabel: Option<string>): (id: string)
    ensures |id| >= |EventIdNamespace| + 2 + |sessionId|
    ensures id[..|EventIdNamespace|] == EventIdNamespace
    ensures id[|id| - |sessionId| - 1..] == ":" + sessionId
  {
    var l := EffectiveLabel(rawLabel);
    var id := EventIdNamespace + l + ":" + sessionId;
    assert id == EventIdNamespace + (l + ":" + sessionId);
    assert id == (EventIdNamespace + l) + (":" + sessionId);
    id
  }

  /** Under one label, distinct sessions never share an event id. */
  lemma EventIdInjectiveInSession(s1: string, s2: string, rawLabel: Option<string>)
    requires EventIdFor(s1, rawLabel) == EventIdFor(s2, rawLabel)
    ensures s1 == s2
  {
    var pre := EventIdNamespace + EffectiveLabel(rawLabel) + ":";
    assert EventIdFor(s1, rawLabel) == pre + s1;
    assert EventIdFor(s2, rawLabel) == pre + s2;
    assert s1 == (pre + s1)[|pre|..];
    assert s2 == (pre + s2)[|pre|..];
  }

  /** When neither effective label holds a colon, the event id determines both the label
      and the session. */
  lemma EventIdInjective(s1: string, l1: Option<string>, s2: string, l2: Option<string>)
    requires ':' !in EffectiveLabel(l1) && ':' !in EffectiveLabel(l2)
    requires EventIdFor(s1, l1) == EventIdFor(s2, l2)
    ensures s1 == s2 && EffectiveLabel(l1) == EffectiveLabel(l2)
  {
    var a1, a2 := EffectiveLabel(l1), EffectiveLabel(l2);
    var n := |EventIdNamespace|;
    assert EventIdFor(s1, l1) == EventIdNamespace + (a1 + [':'] + s1);
    assert EventIdFor(s2, l2) == EventIdNamespace + (a2 + [':'] + s2);
    assert a1 + [':'] + s1 == EventIdFor(s1, l1)[n..];
    assert a2 + [':'] + s2 == EventIdFor(s2, l2)[n..];
    SeparatorSplitUnique(a1, s1, a2, s2, ':');
  }

  /** A colon inside a label lets two different (label, session) pairs share an id. */
  lemma EventIdCollidesOnColonLabel()
    ensures EventIdFor("b:c", Some("a")) == EventIdFor("c", Some("a:b"))
  {
    assert Trim("a") == "a" by { TrimNoWhitespace("a"); }
    assert Trim("a:b") == "a:b" by { TrimNoWhitespace("a:b"); }
    assert EventIdFor("b:c", Some("a")) == "chat-threshold:a:b:c";
    assert EventIdFor("c", Some("a:b")) == "chat-threshold:a:b:c";
  }

  /** Whitespace around the label never changes the event id. */
  lemma EventIdIgnoresLabelPadding(sessionId: string, p: string, labelText: string, q: string)
    requires AllWhitespace(p) && AllWhitespace(q)
    ensures EventIdFor(sessionId, Some(p + labelText + q)) == EventIdFor(sessionId, Some(labelText))
  {
    TrimIgnoresPadding(p, labelText, q);
  }

  // ---------------------------------------------------------------------------
  // Test numbers

  /** The trimmed, non-empty entries of a comma-separated list. */
  function TestEntries(csv: string): (entries: set<string>)
    ensures forall e :: e in entries ==> e != "" && Bordered(e) && ',' !in e
    ensures forall p :: p in Split(csv, ',') && Trim(p) != "" ==> Trim(p) in entries
  {
    var parts := Split(csv, ',');
    forall p | p in parts ensures ',' !in Trim(p) {
      TrimKeepsAbsent(p, ',');
    }
    set p | p in parts && Trim(p) != "" :: Trim(p)
  }

  /** `isTestNumber`. */
  function IsTestNumber(e164: string, testListCsv: Option<string>): (b: bool)
    ensures testListCsv.None? || testListCsv.value == "" ==> !b
    ensures b ==> Trim(e164) != ""
  {
    if testListCsv.None? || testListCsv.value == "" then false
    else Trim(e164) in TestEntries(testListCsv.value)
  }

  /** A number is a test number for the list written out from `entries` exactly when
      some entry, trimmed, is non-empty and equal to the trimmed number. */
  lemma TestListMembership(e164: string, entries: seq<string>)
    requires |entries| >= 1
    requires forall i :: 0 <= i < |entries| ==> ',' !in entries[i]
    requires Join(entries, ',') != ""
    ensures IsTestNumber(e164, Some(Join(entries, ','))) <==>
      exists i :: 0 <= i < |entries| && Trim(entries[i]) != "" && Trim(entries[i]) == Trim(e164)
  {
    SplitJoin(entries, ',');
    if IsTestNumber(e164, Some(Join(entries, ','))) {
      ListedNumberHasEntry(e164, entries);
    }
    if exists i :: 0 <= i < |entries| && Trim(entries[i]) != "" && Trim(entries[i]) == Trim(e164) {
      var i :| 0 <= i < |entries| && Trim(entries[i]) != "" && Trim(entries[i]) == Trim(e164);
      EntryListsNumber(e164, entries, i);
    }
  }

  lemma ListedNumberHasEntry(e164: string, entries: seq<string>)
    requires |entries| >= 1
    requires Split(Join(entries, ','), ',') == entries
    requires IsTestNumber(e164, Some(Join(entries, ',')))
    ensures exists i :: 0 <= i < |entries| && Trim(entries[i]) != "" && Trim(entries[i]) == Trim(e164)
  {
    var p :| p in entries && Trim(p) != "" && Trim(p) == Trim(e164);
    var i :| 0 <= i < |entries| && entries[i] == p;
  }

  lemma EntryListsNumber(e164: string, entries: seq<string>, i: int)
    requires 0 <= i < |entries|
    requires Split(Join(entries, ','), ',') == entries
    requires Join(entries, ',') != ""
    requires Trim(entries[i]) != "" && Trim(entries[i]) == Trim(e164)
    ensures IsTestNumber(e164, Some(Join(entries, ',')))
  {
    assert entries[i] in Split(Join(entries, ','), ',');
    assert Trim(entries[i]) in TestEntries(Join(entries, ','));
  }
}
