/** One form submission end to end: normalise the posted fields, merge the
    record into the stored rows and produce the file content written back. */
module SubmissionHandler {
  import opened FormFields
  import opened Submissions
  import opened CsvStore
  import opened AdminPreview

  /** `handle_form_submission` followed by `save_to_csv`: the new file
      content. A submission adds one row unless its entry id updated some. */
  function HandleSubmission(stored: StoredFile, fields: Fields, env: Env): (written: seq<Row>)
    ensures |written| > 0 && written[0] == Header
    // the normalised record reaches the file: as the stored rows upserted with it
    ensures LoadRows(Present(written)) == Upsert(LoadRows(stored), Normalize(fields, env))
    ensures !AnyMatch(LoadRows(stored), Normalize(fields, env).entryId) ==>
      written[|written| - 1] == Cells(Normalize(fields, env))
    ensures forall i :: 0 <= i < |LoadRows(stored)| && Matches(LoadRows(stored)[i], Normalize(fields, env).entryId) ==>
      written[i + 1][1..] == Cells(Normalize(fields, env))[1..]
    ensures TableConsistent(LoadRows(stored)) ==> TableConsistent(LoadRows(Present(written)))
    ensures SubmissionCount(Present(written)) ==
      SubmissionCount(stored) + (if AnyMatch(LoadRows(stored), Normalize(fields, env).entryId) then 0 else 1)
  {
    var d := Normalize(fields, env);
    NormalizeConsentConsistent(fields, env);
    var rows := LoadRows(stored);
    assert TableConsistent(rows) ==> TableConsistent(Upsert(rows, d)) by {
      if TableConsistent(rows) {
        UpsertKeepsConsent(rows, d);
      }
    }
    CountIsLoadedRows(stored);
    var written := WriteTable(Upsert(rows, d));
    LoadAfterWrite(Upsert(rows, d));
    written
  }

  /** A submission that updated no row becomes the file's last line, so the
      dashboard's latest submission is its timestamp. */
  lemma LatestAfterNewEntry(stored: StoredFile, fields: Fields, env: Env)
    requires !AnyMatch(LoadRows(stored), Normalize(fields, env).entryId)
    ensures LatestSubmission(Present(HandleSubmission(stored, fields, env))) == env.now
  {
    var d := Normalize(fields, env);
    var written := HandleSubmission(stored, fields, env);
    assert written[|written| - 1] == Cells(d);
  }

  /** Sanitisers that keep a posted string as it is and turn a list into "". */
  function KeepText(v: Value): string {
    match v
    case Scalar(t) => t
    case List(_) => ""
  }

  const PlainEnv: Env := Env(KeepText, KeepText, "2024-01-01 10:00:00")

  /** A refusal posted next to a "Yes" for e-mail stores "No" for e-mail. */
  lemma RefusalExample()
    ensures Normalize(map[NewsletterKey := Scalar(Disagree), EmailConsentKey := Scalar(Yes)], PlainEnv).emailConsent == No
  {
  }

  /** Without a refusal a "Yes" is kept and a "No" stays "No"; a radio
      value posted as a list counts by its first element. */
  lemma ChannelExample()
    ensures var r := Normalize(map[NewsletterKey := List([Yes]), EmailConsentKey := List([Yes, No]),
                                   PhoneConsentKey := Scalar(No)], PlainEnv);
            r.emailConsent == Yes && r.phoneSmsConsent == No && r.mailConsent == No && r.newsletterConsent == Yes
  {
  }

  /** An absent terms field stores "No", a posted "on" stores "Yes", a
      posted "0" is PHP-empty and stores "No". */
  lemma TermsExample()
    ensures Normalize(map[], PlainEnv).termsAccepted == No
    ensures Normalize(map[TermsKey := Scalar("on")], PlainEnv).termsAccepted == Yes
    ensures Normalize(map[TermsKey := Scalar("0")], PlainEnv).termsAccepted == No
  {
  }
}
