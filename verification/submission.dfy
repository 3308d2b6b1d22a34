/** `handle_form_submission`: turns the posted field map into the canonical
    nine-field submission record and enforces the consent-override rule. */
module Submissions {
  import opened FormFields
  import Php

  const Yes: string := "Yes"
  const No: string := "No"
  /** The newsletter answer that withdraws every channel consent. */
  const Disagree: string := "I do not agree"

  /** The canonical record, one field per stored column. */
  datatype Submission = Submission(
    entryId: string,
    timestamp: string,
    email: string,
    phone: string,
    newsletterConsent: string,
    emailConsent: string,
    phoneSmsConsent: string,
    mailConsent: string,
    termsAccepted: string)

  /** What the handler takes from WordPress: the two sanitisers and the
      formatted local time (`current_time('Y-m-d H:i:s')`). */
  datatype Env = Env(sanitizeText: Sanitizer, sanitizeEmail: Sanitizer, now: string)

  /** The three consent channels. */
  datatype Channel = EmailChannel | PhoneChannel | MailChannel

  function ChannelKey(c: Channel): string {
    match c
    case EmailChannel => EmailConsentKey
    case PhoneChannel => PhoneConsentKey
    case MailChannel => MailConsentKey
  }

  function ChannelConsent(d: Submission, c: Channel): string {
    match c
    case EmailChannel => d.emailConsent
    case PhoneChannel => d.phoneSmsConsent
    case MailChannel => d.mailConsent
  }

  /** The consent invariant every stored record must keep: a newsletter
      refusal leaves no channel consented. */
  predicate ConsentConsistent(d: Submission) {
    d.newsletterConsent == Disagree ==>
      d.emailConsent == No && d.phoneSmsConsent == No && d.mailConsent == No
  }

  /** A text field: its sanitised value if set, `""` otherwise. */
  function TextField(fields: Fields, key: string, sanitize: Sanitizer): string {
    if key in fields then sanitize(fields[key]) else ""
  }

  /** The record before any consent field is read: defaults `""` and `"No"`. */
  function InitialRecord(fields: Fields, env: Env): (r: Submission)
    ensures r.timestamp == env.now && r.newsletterConsent == ""
    ensures r.emailConsent == No && r.phoneSmsConsent == No && r.mailConsent == No
    ensures r.termsAccepted == No && ConsentConsistent(r)
  {
    Submission(
      TextField(fields, EntryIdKey, env.sanitizeText),
      env.now,
      TextField(fields, EmailKey, env.sanitizeEmail),
      TextField(fields, PhoneKey, env.sanitizeText),
      "", No, No, No, No)
  }

  /** One channel in the normal branch: `"Yes"` exactly when its field is set
      and resolves to `"Yes"`; a field that is unset keeps the default `"No"`. */
  function ChannelValue(fields: Fields, key: string, sanitize: Sanitizer): (r: string)
    ensures r == Yes <==> ResolvesTo(fields, key, sanitize, Yes)
    ensures r == Yes || r == No
  {
    if key in fields then
      (if RadioValue(fields[key], sanitize) == Yes then Yes else No)
    else No
  }

  /** `handle_form_submission` up to the call to `save_to_csv`, step by step
      as the handler builds `$data`. */
  function Normalize(fields: Fields, env: Env): (r: Submission)
    ensures r.entryId == TextField(fields, EntryIdKey, env.sanitizeText)
    ensures r.timestamp == env.now
    ensures r.email == TextField(fields, EmailKey, env.sanitizeEmail)
    ensures r.phone == TextField(fields, PhoneKey, env.sanitizeText)
    ensures NewsletterKey in fields ==> r.newsletterConsent == RadioValue(fields[NewsletterKey], env.sanitizeText)
    ensures NewsletterKey !in fields ==> r.newsletterConsent == ""
    // the override: a refusal forces every channel to "No"
    ensures r.newsletterConsent == Disagree ==>
      r.emailConsent == No && r.phoneSmsConsent == No && r.mailConsent == No
    // otherwise a channel is "Yes" exactly when its field resolves to "Yes"
    ensures r.newsletterConsent != Disagree ==>
      (r.emailConsent == Yes <==> ResolvesTo(fields, EmailConsentKey, env.sanitizeText, Yes))
    ensures r.newsletterConsent != Disagree ==>
      (r.phoneSmsConsent == Yes <==> ResolvesTo(fields, PhoneConsentKey, env.sanitizeText, Yes))
    ensures r.newsletterConsent != Disagree ==>
      (r.mailConsent == Yes <==> ResolvesTo(fields, MailConsentKey, env.sanitizeText, Yes))
    ensures r.emailConsent == Yes || r.emailConsent == No
    ensures r.phoneSmsConsent == Yes || r.phoneSmsConsent == No
    ensures r.mailConsent == Yes || r.mailConsent == No
    ensures r.termsAccepted == Yes <==>
      TermsKey in fields && !Php.Empty(RadioValue(fields[TermsKey], env.sanitizeText))
    ensures r.termsAccepted == Yes || r.termsAccepted == No
  {
    var data := InitialRecord(fields, env);
    var newsletter := if NewsletterKey in fields then RadioValue(fields[NewsletterKey], env.sanitizeText) else "";
    var data := if NewsletterKey in fields then data.(newsletterConsent := newsletter) else data;
    var data :=
      if newsletter == Disagree then
        data.(emailConsent := No, phoneSmsConsent := No, mailConsent := No)
      else
        data.(emailConsent := ChannelValue(fields, EmailConsentKey, env.sanitizeText),
              phoneSmsConsent := ChannelValue(fields, PhoneConsentKey, env.sanitizeText),
              mailConsent := ChannelValue(fields, MailConsentKey, env.sanitizeText));
    if TermsKey in fields then
      data.(termsAccepted := if !Php.Empty(RadioValue(fields[TermsKey], env.sanitizeText)) then Yes else No)
    else data
  }

  /** Every record the normaliser produces keeps the consent invariant. */
  lemma NormalizeConsentConsistent(fields: Fields, env: Env)
    ensures ConsentConsistent(Normalize(fields, env))
  {
  }

  /** Under a refusal the submitted channel fields are ignored altogether:
      dropping them, or posting anything else for them, yields the same record. */
  lemma RefusalIgnoresChannelFields(fields: Fields, other: Fields, env: Env)
    requires ResolvesTo(fields, NewsletterKey, env.sanitizeText, Disagree)
    requires fields - ChannelKeys == other - ChannelKeys
    ensures Normalize(fields, env) == Normalize(other, env)
  {
    var keep := {EntryIdKey, EmailKey, PhoneKey, NewsletterKey, TermsKey};
    forall k | k in keep
      ensures (k in fields <==> k in other) && (k in fields ==> fields[k] == other[k])
    {
      assert k !in ChannelKeys;
      assert (k in fields <==> k in fields - ChannelKeys);
      assert (k in other <==> k in other - ChannelKeys);
      if k in fields {
        assert (fields - ChannelKeys)[k] == fields[k];
        assert (other - ChannelKeys)[k] == other[k];
      }
    }
  }

  /** Outside a refusal each channel depends only on its own field: changing
      one channel's posted value leaves the other two channels as they were. */
  lemma ChannelsIndependent(fields: Fields, env: Env, c: Channel, v: Value, c': Channel)
    requires !ResolvesTo(fields, NewsletterKey, env.sanitizeText, Disagree)
    requires c' != c
    ensures ChannelConsent(Normalize(fields[ChannelKey(c) := v], env), c') == ChannelConsent(Normalize(fields, env), c')
  {
    var fields' := fields[ChannelKey(c) := v];
    assert ChannelKey(c') != ChannelKey(c);
    assert NewsletterKey != ChannelKey(c);
    assert (NewsletterKey in fields') == (NewsletterKey in fields);
    assert ResolvesTo(fields', ChannelKey(c'), env.sanitizeText, Yes) == ResolvesTo(fields, ChannelKey(c'), env.sanitizeText, Yes);
  }
}
