// The scraping adapters of frilanse.go: the tick callbacks of Ahoc,
// RightPeople, SCR and Flexer. Each keeps a `seen` map keyed by the raw href
// and (all but Flexer) a `firstRun` flag, both captured by the callback and
// carried from tick to tick; here they are the fields of one object per
// adapter. Extraction of candidates from the page (CSS selectors, the SCR
// regular expression, html.UnescapeString) happens before the tick and gives
// its input; URL resolution is the opaque, possibly failing `resolve`.

module Sources {
  import opened Jobs
  import opened Calendar
  import opened Dedup

  /** An extracted link: its text and its href attribute. */
  datatype Anchor = Anchor(title: string, href: string)

  /** A RightPeople link; `titleDate` is what `(\d+-\d+-\d+)` captured in the title, if it matched. */
  datatype TitledAnchor = TitledAnchor(title: string, href: string, titleDate: Option<string>)

  /**
   * A row `tr.hand` of the Flexer task list: its one `td.task-name > a`
   * (None when there is not exactly one) and the text of its one `td.task-date`
   * (None when the cell is missing, repeated or empty).
   */
  datatype TaskRow = TaskRow(anchor: Option<Anchor>, dateText: Option<string>)

  /** The date a newly found job gets: the zero time on the first run, else now. */
  function Dated(firstRun: bool, now: Instant): Instant {
    if firstRun then ZeroTime else now
  }

  /** `j`, sent under `key`, is the job a resolvable link `a` gives: its text, its resolved href, the first-run date. */
  predicate ResolvedJob(resolve: string -> Option<string>, firstRun: bool, now: Instant, a: Anchor, key: string, j: Job) {
    key == a.href && resolve(a.href) == Some(j.link) && j.title == a.title && j.date == Dated(firstRun, now)
  }

  // ----- Ahoc -----

  /**
   * One iteration of Ahoc's loop: a seen href is skipped; a new one is resolved
   * against the listing page, and a failed resolution returns before the href
   * is marked; otherwise the link is sent under its own href.
   */
  function AhocVisit(resolve: string -> Option<string>, firstRun: bool, now: Instant, seen: set<string>, a: Anchor): (r: Visit<Job>)
    ensures r.Skip? <==> a.href in seen
    ensures r.Abort? <==> (a.href !in seen && resolve(a.href).None?)
    ensures r.Abort? ==> r.mark.None?
    ensures r.Emit? ==> r.key !in seen && ResolvedJob(resolve, firstRun, now, a, r.key, r.out)
  {
    if a.href in seen then Skip
    else match resolve(a.href)
      case None => Abort(None)
      case Some(link) => Emit(a.href, Job(a.title, link, Dated(firstRun, now)))
  }

  function AhocDecide(resolve: string -> Option<string>, firstRun: bool, now: Instant): (set<string>, Anchor) -> Visit<Job> {
    (seen: set<string>, a: Anchor) => AhocVisit(resolve, firstRun, now, seen, a)
  }

  /**
   * An Ahoc tick sends each href at most once and never one seen before, each
   * as the job its link gives; a failure comes from a link that did not
   * resolve and marks nothing, so that href is tried again next tick; a tick
   * that ends without error has every link's href in seen.
   */
  lemma AhocSendsOnce(seen: set<string>, anchors: seq<Anchor>, resolve: string -> Option<string>, firstRun: bool, now: Instant)
    ensures var r := ScanSpec(seen, anchors, AhocDecide(resolve, firstRun, now));
      && NoDup(r.keys)
      && (forall i :: 0 <= i < |r.keys| ==> r.keys[i] !in seen)
      && r.seen == seen + Elems(r.keys)
      && EmittedBy(anchors, r.keys, r.sent, (a: Anchor, k: string, j: Job) => ResolvedJob(resolve, firstRun, now, a, k, j))
      && (forall j :: j in r.sent ==> j.date == Dated(firstRun, now))
      && (r.status.Failed? ==> r.status.mark.None? && exists a :: a in anchors && resolve(a.href).None?)
      && (r.status.Done? ==> forall a :: a in anchors ==> a.href in r.seen)
  {
    var decide := AhocDecide(resolve, firstRun, now);
    ScanFresh(seen, anchors, decide);
    ScanEmitsFrom(seen, anchors, decide, (a: Anchor, k: string, j: Job) => ResolvedJob(resolve, firstRun, now, a, k, j));
    ScanSentAll(seen, anchors, decide, (j: Job) => j.date == Dated(firstRun, now));
    ScanFailureFrom(seen, anchors, decide, (a: Anchor, m: Option<string>) => m.None? && resolve(a.href).None?);
    ScanCovers(seen, anchors, decide, (a: Anchor) => true, (a: Anchor) => a.href);
  }

  // ----- RightPeople -----

  const RightPeoplePrefix: string :=
    "http://www.rightpeople.dk/component/option,com_ckeditor/lang,da/plugin,linkBrowser/task,plugin/?option=com_content&view=article"

  /** The date a RightPeople link gives its job: the first-run date, or the midnight of the day its title names. */
  predicate TitleDated(firstRun: bool, now: Instant, titleDate: Option<string>, date: Instant) {
    match titleDate
    case None => date == Dated(firstRun, now)
    case Some(text) => ParseDayMonthYear(text, false).Some? && date == Midnight(ParseDayMonthYear(text, false).value)
  }

  /** `j`, sent under `key`, is the job the article link `a` gives. */
  predicate RightPeopleJob(parse: string -> Option<string>, firstRun: bool, now: Instant, a: TitledAnchor, key: string, j: Job) {
    key == a.href && StartsWith(a.href, RightPeoplePrefix) && parse(a.href) == Some(j.link)
    && j.title == a.title && TitleDated(firstRun, now, a.titleDate, j.date)
  }

  /** The article link `a` ends the tick with mark `m`: its href does not parse (nothing marked), or its title date does not (href marked). */
  predicate RightPeopleFailsOn(parse: string -> Option<string>, a: TitledAnchor, m: Option<string>) {
    StartsWith(a.href, RightPeoplePrefix)
    && match m
       case None => parse(a.href).None?
       case Some(k) =>
         k == a.href && parse(a.href).Some? && a.titleDate.Some? && ParseDayMonthYear(a.titleDate.value, false).None?
  }

  /**
   * One iteration of RightPeople's loop. The source tests the same prefix twice
   * in one disjunction, which is this single test. The href is marked seen
   * before the title's date is parsed, so a title date that does not parse as
   * "2-1-2006" ends the tick with the href already marked.
   */
  function RightPeopleVisit(parse: string -> Option<string>, firstRun: bool, now: Instant, seen: set<string>, a: TitledAnchor): (r: Visit<Job>)
    ensures r.Skip? <==> (!StartsWith(a.href, RightPeoplePrefix) || a.href in seen)
    ensures r.Abort? ==> a.href !in seen && RightPeopleFailsOn(parse, a, r.mark)
    ensures r.Emit? ==> r.key !in seen && RightPeopleJob(parse, firstRun, now, a, r.key, r.out)
  {
    if !StartsWith(a.href, RightPeoplePrefix) then Skip
    else if a.href in seen then Skip
    else match parse(a.href)
      case None => Abort(None)
      case Some(link) =>
        match a.titleDate
        case None => Emit(a.href, Job(a.title, link, Dated(firstRun, now)))
        case Some(text) =>
          match ParseDayMonthYear(text, false)
          case None => Abort(Some(a.href))
          case Some(d) => Emit(a.href, Job(a.title, link, Midnight(d)))
  }

  function RightPeopleDecide(parse: string -> Option<string>, firstRun: bool, now: Instant): (set<string>, TitledAnchor) -> Visit<Job> {
    (seen: set<string>, a: TitledAnchor) => RightPeopleVisit(parse, firstRun, now, seen, a)
  }

  /**
   * A RightPeople tick sends each href at most once and none seen before;
   * seen grows by the sent hrefs and the one a failure marked; a failure comes
   * from an article link whose href or title date does not parse, and only the
   * latter marks its href; a tick that ends without error has every article
   * link's href in seen.
   */
  lemma RightPeopleSendsOnce(seen: set<string>, anchors: seq<TitledAnchor>, parse: string -> Option<string>, firstRun: bool, now: Instant)
    ensures var r := ScanSpec(seen, anchors, RightPeopleDecide(parse, firstRun, now));
      && NoDup(r.keys)
      && (forall i :: 0 <= i < |r.keys| ==> r.keys[i] !in seen)
      && r.seen == seen + Elems(r.keys) + Lost(r.status)
      && (r.status.Failed? ==> exists a :: a in anchors && RightPeopleFailsOn(parse, a, r.status.mark))
      && (r.status.Done? ==> forall a :: a in anchors && StartsWith(a.href, RightPeoplePrefix) ==> a.href in r.seen)
  {
    var decide := RightPeopleDecide(parse, firstRun, now);
    ScanFresh(seen, anchors, decide);
    ScanFailureFrom(seen, anchors, decide, (a: TitledAnchor, m: Option<string>) => RightPeopleFailsOn(parse, a, m));
    ScanCovers(seen, anchors, decide, (a: TitledAnchor) => StartsWith(a.href, RightPeoplePrefix), (a: TitledAnchor) => a.href);
  }

  /**
   * Every job a RightPeople tick sends is the job one of the page's article
   * links gives: sent under that link's href, titled by its text, linked to
   * its parsed href, and dated by the day its title names or else by the
   * first-run rule.
   */
  lemma RightPeopleJobsFromLinks(seen: set<string>, anchors: seq<TitledAnchor>, parse: string -> Option<string>, firstRun: bool, now: Instant)
    ensures var r := ScanSpec(seen, anchors, RightPeopleDecide(parse, firstRun, now));
      EmittedBy(anchors, r.keys, r.sent, (a: TitledAnchor, k: string, j: Job) => RightPeopleJob(parse, firstRun, now, a, k, j))
  {
    ScanEmitsFrom(seen, anchors, RightPeopleDecide(parse, firstRun, now),
      (a: TitledAnchor, k: string, j: Job) => RightPeopleJob(parse, firstRun, now, a, k, j));
  }

  /**
   * A new article link whose title date does not parse, reached by a tick that
   * has not failed before it, ends the tick: its href is marked seen, nothing
   * is sent for it, and nothing after it is looked at.
   */
  lemma RightPeopleBadTitleDateLost(seen: set<string>, anchors: seq<TitledAnchor>, i: nat, parse: string -> Option<string>, firstRun: bool, now: Instant)
    requires i < |anchors|
    requires StartsWith(anchors[i].href, RightPeoplePrefix) && anchors[i].href !in seen && parse(anchors[i].href).Some?
    requires anchors[i].titleDate.Some? && ParseDayMonthYear(anchors[i].titleDate.value, false).None?
    requires forall k :: 0 <= k < i ==> anchors[k].href != anchors[i].href
    requires ScanSpec(seen, anchors[..i], RightPeopleDecide(parse, firstRun, now)).status.Done?
    ensures var r := ScanSpec(seen, anchors, RightPeopleDecide(parse, firstRun, now));
      && r.status == Failed(Some(anchors[i].href))
      && anchors[i].href in r.seen
      && anchors[i].href !in r.keys
      && r.sent == ScanSpec(seen, anchors[..i], RightPeopleDecide(parse, firstRun, now)).sent
  {
    var decide := RightPeopleDecide(parse, firstRun, now);
    var a, init := anchors[i], anchors[..i];
    var s := ScanSpec(seen, init, decide);
    ScanFresh(seen, init, decide);
    ScanEmitsFrom(seen, init, decide, (b: TitledAnchor, k: string, j: Job) => k == b.href);
    forall k | 0 <= k < |s.keys| ensures s.keys[k] != a.href {
      var key, x := s.keys[k], s.sent[k];
      var b :| b in init && key == b.href;
    }
    assert a.href !in s.seen;
    assert anchors[..i + 1][..i] == init;
    StopsAtFailure(seen, anchors, i + 1, decide);
  }

  // ----- SCR -----

  /**
   * One iteration of SCR's loop: a seen href is skipped; a new one is marked
   * and only then resolved, so a failed resolution ends the tick with that
   * href marked; otherwise the match is sent under its href.
   */
  function ScrVisit(resolve: string -> Option<string>, firstRun: bool, now: Instant, seen: set<string>, m: Anchor): (r: Visit<Job>)
    ensures r.Skip? <==> m.href in seen
    ensures r.Abort? <==> (m.href !in seen && resolve(m.href).None?)
    ensures r.Abort? ==> r.mark == Some(m.href)
    ensures r.Emit? ==> r.key !in seen && ResolvedJob(resolve, firstRun, now, m, r.key, r.out)
  {
    if m.href in seen then Skip
    else match resolve(m.href)
      case None => Abort(Some(m.href))
      case Some(link) => Emit(m.href, Job(m.title, link, Dated(firstRun, now)))
  }

  function ScrDecide(resolve: string -> Option<string>, firstRun: bool, now: Instant): (set<string>, Anchor) -> Visit<Job> {
    (seen: set<string>, m: Anchor) => ScrVisit(resolve, firstRun, now, seen, m)
  }

  /**
   * An SCR tick sends each href at most once and none seen before, each as the
   * job its match gives; when it fails, the failure is a match whose href did
   * not resolve, and that href is now in seen although it was neither seen
   * before nor sent: it is lost for good; a tick that ends without error has
   * every match's href in seen.
   */
  lemma ScrSendsOnce(seen: set<string>, matches: seq<Anchor>, resolve: string -> Option<string>, firstRun: bool, now: Instant)
    ensures var r := ScanSpec(seen, matches, ScrDecide(resolve, firstRun, now));
      && NoDup(r.keys)
      && (forall i :: 0 <= i < |r.keys| ==> r.keys[i] !in seen)
      && r.seen == seen + Elems(r.keys) + Lost(r.status)
      && EmittedBy(matches, r.keys, r.sent, (m: Anchor, k: string, j: Job) => ResolvedJob(resolve, firstRun, now, m, k, j))
      && (forall j :: j in r.sent ==> j.date == Dated(firstRun, now))
      && (r.status.Failed? ==>
            (r.status.mark.Some?
             && (exists m :: m in matches && m.href == r.status.mark.value && resolve(m.href).None?)
             && r.status.mark.value in r.seen
             && r.status.mark.value !in seen
             && r.status.mark.value !in r.keys))
      && (r.status.Done? ==> forall m :: m in matches ==> m.href in r.seen)
  {
    var decide := ScrDecide(resolve, firstRun, now);
    ScanFresh(seen, matches, decide);
    ScanEmitsFrom(seen, matches, decide, (m: Anchor, k: string, j: Job) => ResolvedJob(resolve, firstRun, now, m, k, j));
    ScanSentAll(seen, matches, decide, (j: Job) => j.date == Dated(firstRun, now));
    ScanFailureFrom(seen, matches, decide, (m: Anchor, mark: Option<string>) => mark == Some(m.href) && resolve(m.href).None?);
    ScanCovers(seen, matches, decide, (m: Anchor) => true, (m: Anchor) => m.href);
  }

  // ----- Flexer -----

  const Today: string := "I dag"
  /** The "yesterday" literal exactly as the source file holds it: "I g", U+221A, U+2022, "r". */
  const YesterdayAsWritten: string := "I g\U{221A}\U{2022}r"
  /** The Danish word for yesterday the literal was evidently meant to be. */
  const Yesterday: string := "I g\U{E5}r"

  /**
   * Flexer's date rule as the source has it, with the garbled "yesterday"
   * literal: "I dag" is now, the literal one day before, anything else must
   * parse as "02-01-2006" and gives that day's midnight.
   */
  function FlexerDateAsWritten(text: string, now: Instant): (r: Option<Instant>)
    ensures text == Today ==> r == Some(now)
    ensures text == YesterdayAsWritten ==> r == Some(now - SecondsPerDay)
    ensures text != Today && text != YesterdayAsWritten ==>
      (r.Some? <==> ParseDayMonthYear(text, true).Some?)
    ensures text != Today && text != YesterdayAsWritten && r.Some? ==>
      r.value == Midnight(ParseDayMonthYear(text, true).value)
  {
    if text == Today then Some(now)
    else if text == YesterdayAsWritten then Some(now - SecondsPerDay)
    else match ParseDayMonthYear(text, true)
      case None => None
      case Some(d) => Some(Midnight(d))
  }

  /** As written, a task dated "I går" is not recognised and fails to parse. */
  lemma FlexerYesterdayAsWrittenFails(now: Instant)
    ensures FlexerDateAsWritten(Yesterday, now) == None
  {
    assert Yesterday != Today && Yesterday != YesterdayAsWritten;
    assert Yesterday[0] == 'I';
  }

  /** Flexer's date rule with the literal it was meant to have. */
  function FlexerDate(text: string, now: Instant): Option<Instant> {
    if text == Today then Some(now)
    else if text == Yesterday then Some(now - SecondsPerDay)
    else match ParseDayMonthYear(text, true)
      case None => None
      case Some(d) => Some(Midnight(d))
  }

  /** "I dag" is now, "I går" one day before now, and "DD-MM-YYYY" that day's midnight. */
  lemma FlexerDateMeaning(now: Instant, d: Date)
    requires ValidDate(d) && 0 <= d.year < 10000
    ensures FlexerDate(Today, now) == Some(now)
    ensures FlexerDate(Yesterday, now) == Some(now - SecondsPerDay)
    ensures FlexerDate(FormatDayMonthYear(d), now) == Some(Midnight(d))
  {
    assert Yesterday != Today;
    DayMonthYearRoundTrip(d, true);
    var s := FormatDayMonthYear(d);
    assert s[2] == '-';
    assert s != Today && s != Yesterday;
  }

  /** A task row the loop can read: one anchor whose href resolves, and a date cell whose text the rule accepts. */
  predicate FlexerRowReadable(resolve: string -> Option<string>, now: Instant, row: TaskRow) {
    && row.anchor.Some? && resolve(row.anchor.value.href).Some?
    && row.dateText.Some? && FlexerDateAsWritten(row.dateText.value, now).Some?
  }

  /** `j`, handed on under `key`, is the job a readable row gives: its anchor's title, resolved href and date. */
  predicate FlexerJob(resolve: string -> Option<string>, now: Instant, row: TaskRow, key: string, j: Job) {
    && FlexerRowReadable(resolve, now, row)
    && key == row.anchor.value.href
    && j == Job(row.anchor.value.title, resolve(key).value, FlexerDateAsWritten(row.dateText.value, now).value)
  }

  /**
   * One iteration of Flexer's loop. The anchor, its resolution against
   * http://www.flexer.dk/, the date cell and the date are all checked before
   * the seen check, so a row that fails any of them ends the tick even when its
   * href was seen long ago; no failure marks anything.
   */
  function FlexerVisit(resolve: string -> Option<string>, now: Instant, seen: set<string>, row: TaskRow): (r: Visit<Job>)
    ensures r.Abort? <==> !FlexerRowReadable(resolve, now, row)
    ensures r.Abort? ==> r.mark.None?
    ensures r.Skip? ==> row.anchor.value.href in seen
    ensures r.Emit? ==> r.key !in seen && FlexerJob(resolve, now, row, r.key, r.out)
  {
    match row.anchor
    case None => Abort(None)
    case Some(a) =>
      match resolve(a.href)
      case None => Abort(None)
      case Some(link) =>
        match row.dateText
        case None => Abort(None)
        case Some(text) =>
          match FlexerDateAsWritten(text, now)
          case None => Abort(None)
          case Some(date) =>
            if a.href in seen then Skip else Emit(a.href, Job(a.title, link, date))
  }

  function FlexerDecide(resolve: string -> Option<string>, now: Instant): (set<string>, TaskRow) -> Visit<Job> {
    (seen: set<string>, row: TaskRow) => FlexerVisit(resolve, now, seen, row)
  }

  /**
   * A Flexer tick hands each href to a watchdog at most once, never one seen
   * before, each as the job its row gives, and marks nothing it does not hand
   * on; a failure comes from an unreadable row; a tick that ends without error
   * has every row's href in seen.
   */
  lemma FlexerHandsOnce(seen: set<string>, rows: seq<TaskRow>, resolve: string -> Option<string>, now: Instant)
    ensures var r := ScanSpec(seen, rows, FlexerDecide(resolve, now));
      && NoDup(r.keys)
      && (forall i :: 0 <= i < |r.keys| ==> r.keys[i] !in seen)
      && r.seen == seen + Elems(r.keys)
      && EmittedBy(rows, r.keys, r.sent, (row: TaskRow, k: string, j: Job) => FlexerJob(resolve, now, row, k, j))
      && (r.status.Failed? ==> exists row :: row in rows && !FlexerRowReadable(resolve, now, row))
      && (r.status.Done? ==> forall row :: row in rows && row.anchor.Some? ==> row.anchor.value.href in r.seen)
  {
    var decide := FlexerDecide(resolve, now);
    ScanFresh(seen, rows, decide);
    ScanEmitsFrom(seen, rows, decide, (row: TaskRow, k: string, j: Job) => FlexerJob(resolve, now, row, k, j));
    ScanFailureFrom(seen, rows, decide, (row: TaskRow, m: Option<string>) => m.None? && !FlexerRowReadable(resolve, now, row));
    ScanCovers(seen, rows, decide, (row: TaskRow) => row.anchor.Some?,
      (row: TaskRow) => if row.anchor.Some? then row.anchor.value.href else "");
  }

  /** A row whose date cannot be read ends every tick at that row: no later row is ever handed on. */
  lemma FlexerBadDateBlocksLaterRows(seen: set<string>, rows: seq<TaskRow>, i: nat, resolve: string -> Option<string>, now: Instant)
    requires i < |rows| && rows[i].dateText.Some? && FlexerDateAsWritten(rows[i].dateText.value, now).None?
    ensures var r := ScanSpec(seen, rows, FlexerDecide(resolve, now));
      r.status.Failed? && r.sent == ScanSpec(seen, rows[..i], FlexerDecide(resolve, now)).sent
  {
    BlockedAt(seen, rows, i, FlexerDecide(resolve, now));
  }

  /**
   * As written, a task dated "I går" fails every tick at its row, so neither it
   * nor any task listed below it is ever handed on while it stays on the page.
   */
  lemma FlexerYesterdayBlocksTick(seen: set<string>, rows: seq<TaskRow>, i: nat, resolve: string -> Option<string>, now: Instant)
    requires i < |rows| && rows[i].dateText == Some(Yesterday)
    ensures var r := ScanSpec(seen, rows, FlexerDecide(resolve, now));
      r.status.Failed? && r.sent == ScanSpec(seen, rows[..i], FlexerDecide(resolve, now)).sent
  {
    FlexerYesterdayAsWrittenFails(now);
    FlexerBadDateBlocksLaterRows(seen, rows, i, resolve, now);
  }

  // ----- the adapters' state across ticks -----

  /**
   * The captured state of the Ahoc, RightPeople or SCR callback. `history`
   * records every key sent so far over the adapter's lifetime, `lost` every key
   * a failed tick marked seen without sending it.
   */
  class DatedSource {
    var seen: set<string>
    var firstRun: bool
    ghost var history: seq<string>
    ghost var lost: set<string>

    /** No key is ever sent twice, and no lost key is ever sent. */
    ghost predicate Valid()
      reads this
    {
      NoDup(history) && Elems(history) <= seen && lost <= seen && lost !! Elems(history)
    }

    constructor ()
      ensures Valid() && seen == {} && firstRun && history == [] && lost == {}
    {
      seen, firstRun, history, lost := {}, true, [], {};
    }

    /** Close a tick: `firstRun = false` runs only when the callback reaches its end. */
    method Finish<T>(r: Scan<T>)
      requires Valid()
      requires NoDup(r.keys) && (forall i :: 0 <= i < |r.keys| ==> r.keys[i] !in seen)
      requires r.seen == seen + Elems(r.keys) + Lost(r.status)
      requires Lost(r.status) !! seen + Elems(r.keys)
      modifies this
      ensures Valid() && seen == r.seen && history == old(history) + r.keys
      ensures lost == old(lost) + Lost(r.status)
      ensures firstRun == (old(firstRun) && r.status.Failed?)
    {
      HistoryStaysDistinct(history, seen, r.keys, r.seen);
      assert Elems(history + r.keys) == Elems(history) + Elems(r.keys);
      seen := r.seen;
      history := history + r.keys;
      lost := lost + Lost(r.status);
      if r.status.Done? {
        firstRun := false;
      }
    }

    /** One run of Ahoc's callback on the links of the sub-menu. */
    method AhocTick(anchors: seq<Anchor>, now: Instant, resolve: string -> Option<string>) returns (sent: seq<Job>, ok: bool)
      requires Valid()
      modifies this
      ensures Valid()
      ensures var r := ScanSpec(old(seen), anchors, AhocDecide(resolve, old(firstRun), now));
        sent == r.sent && ok == r.status.Done? && seen == r.seen && history == old(history) + r.keys
      ensures firstRun == (old(firstRun) && !ok) && lost == old(lost)
      ensures forall j :: j in sent ==> j.date == Dated(old(firstRun), now)
    {
      var r := RunScan(seen, anchors, AhocDecide(resolve, firstRun, now));
      AhocSendsOnce(seen, anchors, resolve, firstRun, now);
      ScanFresh(seen, anchors, AhocDecide(resolve, firstRun, now));
      Finish(r);
      sent, ok := r.sent, r.status.Done?;
    }

    /** One run of RightPeople's callback on the page's links. */
    method RightPeopleTick(anchors: seq<TitledAnchor>, now: Instant, parse: string -> Option<string>) returns (sent: seq<Job>, ok: bool)
      requires Valid()
      modifies this
      ensures Valid()
      ensures var r := ScanSpec(old(seen), anchors, RightPeopleDecide(parse, old(firstRun), now));
        sent == r.sent && ok == r.status.Done? && seen == r.seen && history == old(history) + r.keys
        && lost == old(lost) + Lost(r.status)
      ensures firstRun == (old(firstRun) && !ok)
    {
      var r := RunScan(seen, anchors, RightPeopleDecide(parse, firstRun, now));
      RightPeopleSendsOnce(seen, anchors, parse, firstRun, now);
      ScanFresh(seen, anchors, RightPeopleDecide(parse, firstRun, now));
      Finish(r);
      sent, ok := r.sent, r.status.Done?;
    }

    /**
     * One run of SCR's callback. `body` is None when reading the response
     * body fails, which returns before the loop.
     */
    method ScrTick(body: Option<seq<Anchor>>, now: Instant, resolve: string -> Option<string>) returns (sent: seq<Job>, ok: bool)
      requires Valid()
      modifies this
      ensures Valid()
      ensures body.None? ==>
        (sent == [] && !ok && seen == old(seen) && firstRun == old(firstRun)
         && history == old(history) && lost == old(lost))
      ensures body.Some? ==> var r := ScanSpec(old(seen), body.value, ScrDecide(resolve, old(firstRun), now));
        sent == r.sent && ok == r.status.Done? && seen == r.seen && history == old(history) + r.keys
        && lost == old(lost) + Lost(r.status)
      ensures body.Some? ==> firstRun == (old(firstRun) && !ok)
      ensures forall j :: j in sent ==> j.date == Dated(old(firstRun), now)
    {
      if body.None? {
        return [], false;
      }
      var r := RunScan(seen, body.value, ScrDecide(resolve, firstRun, now));
      ScrSendsOnce(seen, body.value, resolve, firstRun, now);
      ScanFresh(seen, body.value, ScrDecide(resolve, firstRun, now));
      Finish(r);
      sent, ok := r.sent, r.status.Done?;
    }
  }

  /** The captured state of Flexer's callback: a seen map and no first-run flag. */
  class FlexerSource {
    var seen: set<string>
    ghost var history: seq<string>

    ghost predicate Valid()
      reads this
    {
      NoDup(history) && Elems(history) <= seen
    }

    constructor ()
      ensures Valid() && seen == {} && history == []
    {
      seen, history := {}, [];
    }

    /** One run of Flexer's callback; `handed` are the jobs given to new watchdogs. */
    method Tick(rows: seq<TaskRow>, now: Instant, resolve: string -> Option<string>) returns (handed: seq<Job>, ok: bool)
      requires Valid()
      modifies this
      ensures Valid()
      ensures var r := ScanSpec(old(seen), rows, FlexerDecide(resolve, now));
        handed == r.sent && ok == r.status.Done? && seen == r.seen && history == old(history) + r.keys
    {
      var r := RunScan(seen, rows, FlexerDecide(resolve, now));
      FlexerHandsOnce(seen, rows, resolve, now);
      HistoryStaysDistinct(history, seen, r.keys, r.seen);
      seen := r.seen;
      history := history + r.keys;
      handed, ok := r.sent, r.status.Done?;
    }
  }
}
