/** The posted form: field identifiers, posted values and the resolution of a
    radio or checkbox value to one string. */
module FormFields {

  /** A posted value: a single string, or the list a radio group or checkbox
      posts (`name[]`), indexed from 0. */
  datatype Value = Scalar(text: string) | List(items: seq<string>)

  /** The posted field map (`$_POST`): an absent key is an unset field. */
  type Fields = map<string, Value>

  /** A WordPress sanitiser (`sanitize_text_field`, `sanitize_email`). Its
      behaviour is not part of this model; it is a parameter. */
  type Sanitizer = Value -> string

  // The Bricks form field identifiers the handler reads.
  const EntryIdKey: string := "form-field-ehvmdc"
  const EmailKey: string := "form-field-2ba381"
  const PhoneKey: string := "form-field-vsjpsv"
  const NewsletterKey: string := "form-field-wfejpt"
  const EmailConsentKey: string := "form-field-vkpqeq"
  const PhoneConsentKey: string := "form-field-gakgwk"
  const MailConsentKey: string := "form-field-ytzddf"
  const TermsKey: string := "form-field-csfous"

  /** The three channel-consent fields. */
  const ChannelKeys: set<string> := {EmailConsentKey, PhoneConsentKey, MailConsentKey}

  /** `get_radio_value`: a list yields its first element, sanitised, or `""`
      when it has none; a scalar yields itself, sanitised. It never fails. */
  function RadioValue(v: Value, sanitize: Sanitizer): (r: string)
    ensures v.Scalar? ==> r == sanitize(v)
    ensures v.List? && |v.items| > 0 ==> r == sanitize(Scalar(v.items[0]))
    ensures v.List? && |v.items| == 0 ==> r == ""
  {
    match v
    case Scalar(_) => sanitize(v)
    case List(items) => if |items| > 0 then sanitize(Scalar(items[0])) else ""
  }

  /** Only the first element of a list counts: a list resolves exactly as
      its first element posted on its own would, whatever follows it. */
  lemma RadioValueFirstOnly(s: string, rest: seq<string>, sanitize: Sanitizer)
    ensures RadioValue(List([s] + rest), sanitize) == RadioValue(Scalar(s), sanitize)
  {
  }

  /** The field `key` is set and resolves exactly to `s`. */
  predicate ResolvesTo(fields: Fields, key: string, sanitize: Sanitizer, s: string) {
    key in fields && RadioValue(fields[key], sanitize) == s
  }
}
