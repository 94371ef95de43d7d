/** Concrete values of the helpers of `lib/capi.ts` and of the handler's small rules. */
module CronExamples {
  import opened Results
  import opened JsText
  import opened Capi
  import opened ChatThresholdCron

  /** Empty and missing numbers give nothing. */
  lemma NormalizeEmpty()
    ensures NormalizePhoneToE164(None) == None
    ensures NormalizePhoneToE164(Some("")) == None
  {
  }

  /** A number without a leading `+` is rejected. */
  lemma NormalizeNeedsPlus()
    ensures NormalizePhoneToE164(Some("5550001")) == None
  {
    TrimNoWhitespace("5550001");
  }

  /** `+` with 7 digits is rejected. */
  lemma NormalizeTooShort()
    ensures NormalizePhoneToE164(Some("+1234567")) == None
  {
    TrimNoWhitespace("+1234567");
    KeepDigitsAndPlusFixes("+1234567");
  }

  /** `+` with 8 digits is the shortest accepted number. */
  lemma NormalizeShortest()
    ensures NormalizePhoneToE164(Some("+12345678")) == Some("+12345678")
  {
    assert IsE164("+12345678");
    NormalizeFixesE164("+12345678");
  }

  /** The label is trimmed, and a missing or blank label becomes `default`. */
  lemma EventIdExamples()
    ensures EventIdFor("s1", Some("  A ")) == "chat-threshold:A:s1"
    ensures EventIdFor("s1", None) == "chat-threshold:default:s1"
    ensures EventIdFor("s1", Some("   ")) == "chat-threshold:default:s1"
  {
  }

  /** An error without a message is reported as `cron failure`. */
  lemma ErrorMessageExamples()
    ensures ErrorMessage(Some("Metabase 502")) == "Metabase 502"
    ensures ErrorMessage(Some("")) == "cron failure"
    ensures ErrorMessage(None) == "cron failure"
  {
  }

  /** The row key is the event id under `capi:`. */
  lemma LedgerKeyExample()
    ensures LedgerKey("A", "s1") == "capi:chat-threshold:A:s1"
  {
  }
}
