/** The admin dashboard's reading of the submissions file: the statistics of
    `admin_page` and the row window and cell classes of `show_preview`. */
module AdminPreview {
  import Php
  import opened Wrappers
  import opened Submissions
  import opened CsvStore

  /** The label shown when there is no latest submission. */
  const NotAvailable: string := "N/A"
  /** At most this many submissions are previewed. */
  const PreviewLimit: nat := 10
  /** Plain cells longer than this are cut in the preview. */
  const CellLimit: nat := 50
  const Ellipsis: string := "..."

  /** `total_submissions`: the file's line count minus the header, never
      negative; no file means no submissions. */
  function SubmissionCount(f: StoredFile): (n: nat)
    ensures f.Absent? ==> n == 0
    ensures f.Present? && |f.lines| == 0 ==> n == 0
    ensures f.Present? && |f.lines| > 0 ==> n == |f.lines| - 1
  {
    match f
    case Absent => 0
    case Present(lines) => if |lines| - 1 > 0 then |lines| - 1 else 0
  }

  /** The dashboard counts exactly the rows a save would load and rewrite. */
  lemma CountIsLoadedRows(f: StoredFile)
    ensures SubmissionCount(f) == |LoadRows(f)|
  {
  }

  /** `latest_submission`: the timestamp cell of the file's last line, or
      "N/A" when there are no submissions or that line has no second cell. */
  function LatestSubmission(f: StoredFile): (s: string)
    ensures SubmissionCount(f) == 0 ==> s == NotAvailable
    ensures SubmissionCount(f) > 0 && |f.lines[|f.lines| - 1]| > 1 ==> s == f.lines[|f.lines| - 1][1]
    ensures SubmissionCount(f) > 0 && |f.lines[|f.lines| - 1]| <= 1 ==> s == NotAvailable
  {
    if SubmissionCount(f) > 0 then
      var last := f.lines[|f.lines| - 1];
      if |last| > 1 then last[1] else NotAvailable
    else NotAvailable
  }

  /** `array_reverse`. */
  function Reverse<T>(s: seq<T>): (r: seq<T>)
    ensures |r| == |s|
    ensures forall i :: 0 <= i < |s| ==> r[i] == s[|s| - 1 - i]
  {
    if s == [] then [] else Reverse(s[1..]) + [s[0]]
  }

  /** `preview_count`: `min(10, lines - 1)`, possibly zero or negative. */
  function PreviewCount(lines: seq<Row>): (k: int)
    ensures k <= PreviewLimit && k <= |lines| - 1
    ensures k == PreviewLimit || k == |lines| - 1
  {
    if PreviewLimit < |lines| - 1 then PreviewLimit else |lines| - 1
  }

  /** The previewed lines: the last `min(10, lines - 1)` lines, newest first.
      The header line is never among them. */
  function RecentLines(lines: seq<Row>): (r: seq<Row>)
    ensures PreviewCount(lines) <= 0 ==> r == []
    ensures PreviewCount(lines) > 0 ==> |r| == PreviewCount(lines)
    ensures |r| <= PreviewLimit
    ensures forall i :: 0 <= i < |r| ==> 1 <= |lines| - 1 - i && r[i] == lines[|lines| - 1 - i]
  {
    var k := PreviewCount(lines);
    if k <= 0 then [] else Reverse(lines[|lines| - k..])
  }

  /** How the preview shows one cell. */
  datatype CellView =
    | NewsletterCell(text: string, refused: bool)  // column 4, marked when a refusal
    | ConsentCell(text: string, yes: bool)         // columns 5 to 8, marked yes or no
    | TextCell(shown: string, title: string)       // every other column, shortened

  /** `substr($cell, 0, 50) . '...'` for a cell longer than 50 characters. */
  function Truncate(s: string): (r: string)
    ensures |r| <= CellLimit + |Ellipsis|
    ensures |s| <= CellLimit ==> r == s
    ensures |s| > CellLimit ==> |r| == CellLimit + |Ellipsis|
    ensures |s| > CellLimit ==> r[..CellLimit] == s[..CellLimit] && r[CellLimit..] == Ellipsis
  {
    if |s| > CellLimit then s[..CellLimit] + Ellipsis else s
  }

  /** Shortening is idempotent: a shown cell is shown unchanged again, since
      its first 50 characters are the original's and it ends in "...". */
  lemma TruncateIdempotent(s: string)
    ensures Truncate(Truncate(s)) == Truncate(s)
  {
  }

  /** The class a preview cell gets from its column index. */
  function ViewCell(index: nat, cell: string): (v: CellView)
    ensures v.NewsletterCell? <==> index == 4
    ensures v.ConsentCell? <==> 5 <= index <= 8
    ensures !v.TextCell? ==> v.text == cell
    ensures v.TextCell? ==> v.title == cell && |v.shown| <= CellLimit + |Ellipsis|
    ensures v.NewsletterCell? ==> (v.refused <==> Php.Trim(cell) == Disagree)
    ensures v.ConsentCell? ==> (v.yes <==> Php.Trim(cell) == Yes)
    ensures v.TextCell? ==> v.shown == Truncate(cell)
  {
    if index == 4 then NewsletterCell(cell, IsRefusal(cell))
    else if 5 <= index <= 8 then ConsentCell(cell, IsYes(cell))
    else TextCell(Truncate(cell), cell)
  }

  /** The newsletter column is marked when its trimmed text is the refusal. */
  predicate IsRefusal(cell: string) {
    Php.Trim(cell) == Disagree
  }

  /** A consent column is marked yes when its trimmed text is "Yes". */
  predicate IsYes(cell: string) {
    Php.Trim(cell) == Yes
  }

  function ViewRow(row: Row): (v: seq<CellView>)
    ensures |v| == |row|
  {
    seq(|row|, i requires 0 <= i < |row| => ViewCell(i, row[i]))
  }

  /** What `show_preview` renders: the stored header and the recent rows. */
  datatype PreviewTable = PreviewTable(header: Row, rows: seq<seq<CellView>>)

  /** `show_preview`: nothing for a missing file or one without submissions,
      otherwise the first line as header and the recent rows, newest first. */
  function Preview(f: StoredFile): (p: Option<PreviewTable>)
    ensures p.Some? <==> SubmissionCount(f) > 0
    ensures p.Some? ==> p.value.header == f.lines[0]
    ensures p.Some? ==> |p.value.rows| == if SubmissionCount(f) < PreviewLimit then SubmissionCount(f) else PreviewLimit
    ensures p.Some? ==> forall i :: 0 <= i < |p.value.rows| ==>
      p.value.rows[i] == ViewRow(f.lines[|f.lines| - 1 - i])
  {
    if f.Absent? || PreviewCount(f.lines) <= 0 then None
    else
      var recent := RecentLines(f.lines);
      Some(PreviewTable(f.lines[0], seq(|recent|, i requires 0 <= i < |recent| => ViewRow(recent[i]))))
  }

  /** The words the handler stores are shown as stored: trimming leaves them. */
  lemma TrimKeepsConsentWords()
    ensures Php.Trim(Yes) == Yes && Php.Trim(No) == No && Php.Trim(Disagree) == Disagree
  {
    Php.TrimFixesTrimmed(Yes);
    Php.TrimFixesTrimmed(No);
    Php.TrimFixesTrimmed(Disagree);
  }

  /** The view of a row's cell is the view of that cell at its index. */
  lemma ViewRowAt(row: Row, i: nat)
    requires i < |row|
    ensures ViewRow(row)[i] == ViewCell(i, row[i])
  {
  }

  /** The preview column of a channel's consent. */
  function Column(c: Channel): nat {
    match c
    case EmailChannel => 5
    case PhoneChannel => 6
    case MailChannel => 7
  }

  /** A stored channel consent of "Yes" or "No" is previewed as a consent
      cell marked yes exactly when it is "Yes". */
  lemma PreviewShowsChannel(d: Submission, c: Channel)
    requires ChannelConsent(d, c) == Yes || ChannelConsent(d, c) == No
    ensures ViewRow(Cells(d))[Column(c)].ConsentCell?
    ensures ViewRow(Cells(d))[Column(c)].yes <==> ChannelConsent(d, c) == Yes
  {
    var s := ChannelConsent(d, c);
    assert ViewRow(Cells(d))[Column(c)] == ViewCell(Column(c), s) by {
      ViewRowAt(Cells(d), Column(c));
      ChannelCell(d, c);
    }
    ConsentCellShown(Column(c), s);
  }

  /** A channel's consent sits in that channel's column of the record's row. */
  lemma ChannelCell(d: Submission, c: Channel)
    ensures Column(c) < |Cells(d)| && Cells(d)[Column(c)] == ChannelConsent(d, c)
  {
  }

  /** A stored refusal is previewed as a refused newsletter cell. */
  lemma PreviewShowsRefusal(d: Submission)
    requires d.newsletterConsent == Disagree
    ensures ViewRow(Cells(d))[4] == NewsletterCell(Disagree, true)
  {
    assert Cells(d)[4] == Disagree;
    ViewRowAt(Cells(d), 4);
    RefusalCellShown();
  }

  /** A stored refusal that keeps the consent invariant shows none of its
      channels marked yes. */
  lemma PreviewRefusalShowsNoChannel(d: Submission, c: Channel)
    requires d.newsletterConsent == Disagree
    requires ConsentConsistent(d)
    ensures ViewRow(Cells(d))[Column(c)].ConsentCell? && !ViewRow(Cells(d))[Column(c)].yes
  {
    PreviewShowsChannel(d, c);
  }

  lemma RefusalCellShown()
    ensures ViewCell(4, Disagree) == NewsletterCell(Disagree, true)
  {
    TrimKeepsConsentWords();
  }

  /** A channel cell holding "Yes" or "No" is marked yes exactly for "Yes". */
  lemma ConsentCellShown(k: nat, s: string)
    requires 5 <= k <= 7
    requires s == Yes || s == No
    ensures ViewCell(k, s).ConsentCell? && (ViewCell(k, s).yes <==> s == Yes)
  {
    assert ViewCell(k, s) == ConsentCell(s, IsYes(s));
    if s == Yes {
      assert IsYes(Yes) by {
        TrimKeepsConsentWords();
      }
    } else {
      assert s == No;
      assert !IsYes(No) by {
        TrimKeepsConsentWords();
      }
      assert s != Yes by {
        assert |s| != |Yes|;
      }
    }
  }
}
