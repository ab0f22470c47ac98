// AminoIsValid and FlexerIsValid: fetch a job's own page and decide whether
// the job should stay listed. The HTTP GET and the HTML parse are not
// modelled; either failing gives an Unreachable page. The selectors pick out
// the texts given here; `today` is time.Now()'s year, month and day.

module Validity {
  import opened Jobs
  import opened Calendar

  /** The (ok, err) pair a check returns; `failed` stands for err != nil. */
  datatype Check = Check(ok: bool, failed: bool)

  const AminoGone: string := "Opgaven eksisterer ikke"
  const FlexerGone: string := "Opgaven findes ikke"
  const DeadlineLabel: string := "Deadline"

  /**
   * An Amino job page: the first-child text of every
   * `span#ctl00_content_lblJobName` (None when it has no child), and the
   * first-child text of every `div#ctl00_content_pnlJobDetails2 > p.detail`.
   */
  datatype AminoPage =
    | AminoUnreachable
    | AminoPage(jobNames: seq<Option<string>>, details: seq<string>)

  /** The deadline Amino reads: the third detail paragraph, when there are exactly three and it parses. */
  function AminoDeadline(page: AminoPage): Option<Date>
    requires page.AminoPage?
  {
    if |page.details| == 3 then ParseDayMonthYear(page.details[2], true) else None
  }

  /**
   * AminoIsValid. A page that says the job does not exist, has no readable
   * deadline, or whose deadline is before today is "not valid" without error;
   * only an unreachable page is an error.
   */
  function AminoIsValid(page: AminoPage, today: Date): (c: Check)
    ensures c.failed <==> page.AminoUnreachable?
    ensures c.ok ==> !c.failed
    ensures c.ok <==> (page.AminoPage? && Some(AminoGone) !in page.jobNames
      && AminoDeadline(page).Some? && DateOnOrAfter(AminoDeadline(page).value, today))
  {
    match page
    case AminoUnreachable => Check(false, true)
    case AminoPage(names, details) =>
      if Some(AminoGone) in names then Check(false, false)
      else if |details| == 3 then
        match ParseDayMonthYear(details[2], true)
        case None => Check(false, false)
        case Some(t) =>
          if t.year < today.year || (t.year == today.year && t.month < today.month)
            || (t.year == today.year && t.month == today.month && t.day < today.day)
          then Check(false, false)
          else Check(true, false)
      else Check(false, false)
  }

  /** A row `div#content > table.listing > tbody > tr`: its label cell and its value cell. */
  datatype ListingRow = ListingRow(caption: string, text: string)

  /**
   * A Flexer job page: the first-child text of every `p` (None when it has no
   * child) and the rows of the listing table.
   */
  datatype FlexerPage =
    | FlexerUnreachable
    | FlexerPage(paragraphs: seq<Option<string>>, rows: seq<ListingRow>)

  /** A row that ends FlexerIsValid's loop: a deadline that does not parse, or is today or later. */
  predicate Decisive(row: ListingRow, today: Date) {
    row.caption == DeadlineLabel
    && match ParseYearMonthDay(row.text)
       case None => true
       case Some(t) => DateOnOrAfter(t, today)
  }

  /** `i` is the first decisive row. */
  predicate FirstDecisive(rows: seq<ListingRow>, today: Date, i: int) {
    0 <= i < |rows| && Decisive(rows[i], today) && forall k :: 0 <= k < i ==> !Decisive(rows[k], today)
  }

  /**
   * FlexerIsValid. The job is valid when the first decisive deadline row holds
   * a date today or later; an unparsable deadline there is an error, and so is
   * an unreachable page; a page without such a row is "not valid".
   */
  method FlexerIsValid(page: FlexerPage, today: Date) returns (c: Check)
    ensures c.ok ==> !c.failed
    ensures c.ok <==> (page.FlexerPage? && Some(FlexerGone) !in page.paragraphs
      && exists i :: FirstDecisive(page.rows, today, i) && ParseYearMonthDay(page.rows[i].text).Some?)
    ensures c.failed <==> (page.FlexerUnreachable? || (Some(FlexerGone) !in page.paragraphs
      && exists i :: FirstDecisive(page.rows, today, i) && ParseYearMonthDay(page.rows[i].text).None?))
  {
    if page.FlexerUnreachable? {
      return Check(false, true);
    }
    var i := 0;
    while i < |page.paragraphs|
      invariant 0 <= i <= |page.paragraphs|
      invariant forall k :: 0 <= k < i ==> page.paragraphs[k] != Some(FlexerGone)
    {
      if page.paragraphs[i] == Some(FlexerGone) {
        return Check(false, false);
      }
      i := i + 1;
    }
    var rows := page.rows;
    var j := 0;
    while j < |rows|
      invariant 0 <= j <= |rows|
      invariant forall k :: 0 <= k < j ==> !Decisive(rows[k], today)
    {
      if rows[j].caption != DeadlineLabel {
        j := j + 1;
        continue;
      }
      match ParseYearMonthDay(rows[j].text) {
        case None =>
          assert FirstDecisive(rows, today, j);
          return Check(false, true);
        case Some(t) =>
          if t.year > today.year || (t.year == today.year && t.month > today.month)
            || (t.year == today.year && t.month == today.month && t.day >= today.day) {
            assert FirstDecisive(rows, today, j);
            return Check(true, false);
          }
      }
      j := j + 1;
    }
    return Check(false, false);
  }

  /** On real dates, both field-by-field tests agree with the order of the days' midnights. */
  lemma DeadlineTestsAreChronological(t: Date, today: Date)
    requires ValidDate(t) && ValidDate(today)
    ensures DateOnOrAfter(t, today) <==> Midnight(t) >= Midnight(today)
    ensures DateBefore(t, today) <==> Midnight(t) < Midnight(today)
  {
    OnOrAfterIsNotBefore(t, today);
    DateBeforeIsChronological(t, today);
  }
}
