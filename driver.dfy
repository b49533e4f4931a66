/**
 * The driver loop (`main`): read the configuration, then fetch page after
 * page, appending each non-empty page to the dataset file and recording the
 * next page number, until a page comes back with no records.
 */
module Driver {
  import opened Wrappers
  import opened Numerals
  import opened Config
  import opened Accumulator
  import opened Store

  /** What the server answers, page by page: page p (counting from 1) is
      `remote[p - 1]`; None is a response without a `results` key. Pages
      outside the sequence have no records. */
  type Remote = seq<Option<seq<Record>>>

  /** The `results` of the response for page `page`. */
  function Fetch(remote: Remote, page: int): Option<seq<Record>> {
    if 1 <= page <= |remote| then remote[page - 1] else Some([])
  }

  /** The page has a `results` key and it is not empty. */
  predicate HasRecords(remote: Remote, page: int) {
    Fetch(remote, page).Some? && Fetch(remote, page).value != []
  }

  /** The first page from `page` on whose `results` are empty or missing:
      the page at which the loop stops. */
  function EndPage(remote: Remote, page: int): (e: int)
    ensures page <= e
    ensures forall q :: page <= q < e ==> HasRecords(remote, q)
    ensures !HasRecords(remote, e)
    decreases |remote| + 1 - page
  {
    if HasRecords(remote, page) then EndPage(remote, page + 1) else page
  }

  /** The records of the non-empty pages `lo` up to `hi` (excluded), in
      page order. */
  function Gathered(remote: Remote, lo: int, hi: int): seq<Record>
    requires lo <= hi
    requires forall q :: lo <= q < hi ==> HasRecords(remote, q)
    decreases hi - lo
  {
    if lo == hi then []
    else
      assert HasRecords(remote, lo);
      Fetch(remote, lo).value + Gathered(remote, lo + 1, hi)
  }

  /** Why the run ended. */
  datatype Outcome =
    | Finished                          // a page with empty `results`
    | NoResults(page: int)              // KeyError: the response has no `results`
    | CorruptDataset(page: int)         // the dataset file did not parse
    | BadConfig(configError: ConfigError)// `read_config` raised
    | BadSettings(settingsError: SettingsError)// a setting is missing or not a number

  /** The two files' contents. */
  datatype Snapshot = Snapshot(dataset: Option<Bytes>, status: Option<string>)

  /** The end of a run: its outcome, the value of `page_number` at exit and
      the files. */
  datatype Halt = Halt(outcome: Outcome, page: int, files: Snapshot)

  /** The loop of `main` from page `page` with the files as in `files`. */
  function RunFrom(codec: Codec, remote: Remote, page: int, files: Snapshot): (h: Halt)
    ensures page <= h.page <= EndPage(remote, page)
    ensures h.page == page ==> h.files == files
    decreases |remote| + 1 - page
  {
    match Fetch(remote, page)
    case None => Halt(NoResults(page), page, files)
    case Some(results) =>
      if results == [] then Halt(Finished, page, files)
      else
        match Appended(codec, files.dataset, results)
        case Failure(_) => Halt(CorruptDataset(page), page, files)
        case Success(bytes) => RunFrom(codec, remote, page + 1, Snapshot(Some(bytes), Some(Decimal(page + 1))))
  }

  /** The `while True` loop of `main`, from `start`. */
  method Run(files: Files, codec: Codec, remote: Remote, start: int) returns (outcome: Outcome, page: int)
    modifies files
    ensures Halt(outcome, page, Snapshot(files.dataset, files.status)) ==
            RunFrom(codec, remote, start, Snapshot(old(files.dataset), old(files.status)))
  {
    page := start;
    while true
      invariant RunFrom(codec, remote, page, Snapshot(files.dataset, files.status)) ==
                RunFrom(codec, remote, start, Snapshot(old(files.dataset), old(files.status)))
      decreases |remote| + 1 - page
    {
      var data := Fetch(remote, page);
      if data.None? {
        return NoResults(page), page;
      }
      var results := data.value;
      if results == [] {
        return Finished, page;
      }
      var ok := files.AppendData(codec, results);
      if !ok {
        return CorruptDataset(page), page;
      }
      page := page + 1;
      files.UpdateStatus(page);
    }
  }

  /** `main`: load the configuration, read the settings, run the loop from
      the configured starting page. */
  method Export(files: Files, codec: Codec, lines: seq<string>, remote: Remote) returns (outcome: Outcome)
    modifies files
    ensures LoadConfig(lines).Failure? ==>
              outcome == BadConfig(LoadConfig(lines).error) &&
              files.dataset == old(files.dataset) && files.status == old(files.status)
    ensures LoadConfig(lines).Success? && ReadSettings(LoadConfig(lines).value).Failure? ==>
              outcome == BadSettings(ReadSettings(LoadConfig(lines).value).error) &&
              files.dataset == old(files.dataset) && files.status == old(files.status)
    ensures LoadConfig(lines).Success? && ReadSettings(LoadConfig(lines).value).Success? ==>
              var h := RunFrom(codec, remote, ReadSettings(LoadConfig(lines).value).value.startingPage,
                               Snapshot(old(files.dataset), old(files.status)));
              outcome == h.outcome && Snapshot(files.dataset, files.status) == h.files
  {
    var config := ReadConfig(lines);
    if config.Failure? {
      return BadConfig(config.error);
    }
    var settings := ReadSettings(config.value);
    if settings.Failure? {
      return BadSettings(settings.error);
    }
    var page;
    outcome, page := Run(files, codec, remote, settings.value.startingPage);
  }

  /** Whatever the codec: the loop stops at or before the first empty page;
      unless the dataset file failed to parse it stops exactly there, for
      the reason that page gives; the progress file holds the exit page
      whenever at least one page was accumulated and is untouched
      otherwise. */
  lemma {:induction false} RunStops(codec: Codec, remote: Remote, page: int, files: Snapshot)
    ensures page <= RunFrom(codec, remote, page, files).page <= EndPage(remote, page)
    ensures var h := RunFrom(codec, remote, page, files);
            match h.outcome
            case Finished => h.page == EndPage(remote, page) && Fetch(remote, h.page) == Some([])
            case NoResults(q) => q == h.page == EndPage(remote, page) && Fetch(remote, h.page).None?
            case CorruptDataset(q) => q == h.page && HasRecords(remote, q)
            case _ => false
    ensures var h := RunFrom(codec, remote, page, files);
            h.files.status == if h.page == page then files.status else Some(Decimal(h.page))
    decreases |remote| + 1 - page
  {
    if HasRecords(remote, page) {
      var results := Fetch(remote, page).value;
      match Appended(codec, files.dataset, results)
      case Failure(_) =>
      case Success(bytes) =>
        RunStops(codec, remote, page + 1, Snapshot(Some(bytes), Some(Decimal(page + 1))));
    }
  }

  /** With a lawful codec and a dataset file holding `held` (or absent), the
      run reaches the first empty page `e`; the file then holds `held`
      followed by the records of pages `page` to `e - 1` in order, and the
      progress file holds `e` if any page was accumulated. */
  lemma {:induction false} RunAccumulates(codec: Codec, remote: Remote, page: int, files: Snapshot, held: seq<Record>)
    requires Lawful(codec)
    requires Holds(codec, files.dataset, held)
    ensures var e := EndPage(remote, page);
            RunFrom(codec, remote, page, files) ==
            Halt(if Fetch(remote, e).None? then NoResults(e) else Finished,
                 e,
                 if e == page then files
                 else Snapshot(Some(codec.dump(held + Gathered(remote, page, e))), Some(Decimal(e))))
    decreases |remote| + 1 - page
  {
    var e := EndPage(remote, page);
    if HasRecords(remote, page) {
      var results := Fetch(remote, page).value;
      AppendKeepsHolds(codec, files.dataset, held, results);
      var next := Snapshot(Some(codec.dump(held + results)), Some(Decimal(page + 1)));
      assert RunFrom(codec, remote, page, files) == RunFrom(codec, remote, page + 1, next);
      assert EndPage(remote, page + 1) == e;
      RunAccumulates(codec, remote, page + 1, next, held + results);
      GatheredFirst(remote, page, e);
      assert held + Gathered(remote, page, e) == (held + results) + Gathered(remote, page + 1, e);
    }
  }

  /** The records gathered from a non-empty page on are that page's records
      followed by those gathered from the next page on. */
  lemma {:induction false} GatheredFirst(remote: Remote, lo: int, hi: int)
    requires lo < hi
    requires forall q :: lo <= q < hi ==> HasRecords(remote, q)
    ensures HasRecords(remote, lo)
    ensures Gathered(remote, lo, hi) == Fetch(remote, lo).value + Gathered(remote, lo + 1, hi)
    ensures lo + 1 == hi ==> Gathered(remote, lo, hi) == Fetch(remote, lo).value
  {
    if lo + 1 == hi {
      assert Gathered(remote, lo + 1, hi) == [];
    }
  }

  /** Pages [r1, r2], [r3] and an empty page, from page 1 without a dataset
      file: both non-empty pages are accumulated in order, the run finishes
      on page 3 and the status file ends up holding "3". */
  lemma {:induction false} ThreePageRun(codec: Codec, r1: Record, r2: Record, r3: Record, status: Option<string>)
    requires Lawful(codec)
    ensures RunFrom(codec, [Some([r1, r2]), Some([r3]), Some([])], 1, Snapshot(None, status)) ==
            Halt(Finished, 3, Snapshot(Some(codec.dump([r1, r2, r3])), Some("3")))
  {
    var remote := [Some([r1, r2]), Some([r3]), Some([])];
    assert HasRecords(remote, 1) && HasRecords(remote, 2) && !HasRecords(remote, 3);
    assert EndPage(remote, 1) == 3;
    assert Gathered(remote, 1, 3) == [r1, r2, r3];
    assert [] + [r1, r2, r3] == [r1, r2, r3];
    assert Decimal(3) == "3";
    RunAccumulates(codec, remote, 1, Snapshot(None, status), []);
  }

  /** A first page whose response has no `results` (an error body): the
      run aborts on it and leaves both files as they were. */
  lemma {:induction false} ErrorBodyAborts(codec: Codec, files: Snapshot)
    ensures RunFrom(codec, [None], 1, files) == Halt(NoResults(1), 1, files)
  {
  }
}
