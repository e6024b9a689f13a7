/**
 * The filesystem the tools work on, replaced by in-memory directories: a map
 * from file name to what `read_text` and `stat` would report.  The order in
 * which `glob` lists a directory is passed to each operation as a listing of
 * that directory's names.
 */
module Files {
  import opened Text

  /** What `read_text` yields: the text, or the message of the exception it raised. */
  datatype ReadResult = Contents(text: string) | ReadError(message: string)

  /**
   * One `*.mdc` file: its contents, its size and modification time (seconds),
   * and whether moving, writing or deleting it succeeds.
   */
  datatype FileEntry = FileEntry(content: ReadResult, size: nat, mtime: int, writable: bool)

  type Dir = map<string, FileEntry>

  const SecondsPerDay: int := 86400

  /** Path of a rule file relative to the workspace root, as the reports record it. */
  const RulesDirPath: string := ".cursor/rules/"

  /** `(now - mtime).days`: whole days, rounded down as `timedelta.days` is. */
  function DaysOld(now: int, mtime: int): int {
    (now - mtime) / SecondsPerDay
  }

  /** `mtime < now - timedelta(days=days)`. */
  predicate OlderThan(mtime: int, now: int, days: int) {
    mtime < now - days * SecondsPerDay
  }

  /** `mtime > now - timedelta(days=days)`. */
  predicate NewerThan(mtime: int, now: int, days: int) {
    mtime > now - days * SecondsPerDay
  }

  /**
   * The strict cut-off in whole days: a file more than `days` whole days old
   * is past it, one fewer than `days` whole days old is not, and a file past it
   * is at least `days` whole days old.
   */
  lemma OlderThanInWholeDays(mtime: int, now: int, days: int)
    ensures DaysOld(now, mtime) > days ==> OlderThan(mtime, now, days)
    ensures DaysOld(now, mtime) < days ==> !OlderThan(mtime, now, days)
    ensures OlderThan(mtime, now, days) ==> DaysOld(now, mtime) >= days
  {
    var d := now - mtime;
    assert d == DaysOld(now, mtime) * SecondsPerDay + d % SecondsPerDay;
  }

  /** `listing` is what `glob` returned for `dir`: every name once, and exactly the names of `dir`. */
  predicate IsListing(listing: seq<string>, dir: Dir) {
    Distinct(listing) && (forall n :: n in dir ==> n in listing) && (forall n :: n in listing ==> n in dir)
  }

  /** The names of `listing` still present in `dir`, in listing order. */
  function Remaining(listing: seq<string>, dir: Dir): (r: seq<string>)
    ensures forall n :: n in r <==> n in listing && n in dir
    ensures Distinct(listing) ==> Distinct(r)
  {
    if |listing| == 0 then []
    else
      var rest := Remaining(listing[..|listing| - 1], dir);
      var last := listing[|listing| - 1];
      assert forall n :: n in listing <==> n in listing[..|listing| - 1] || n == last;
      if last in dir then rest + [last] else rest
  }

  /** `Remaining` keeps the listing order: it is the order-preserving filter of the listing. */
  lemma {:induction false} RemainingInOrder(listing: seq<string>, dir: Dir)
    ensures Remaining(listing, dir) == Select(listing, n => n in dir)
  {
    if |listing| > 0 {
      RemainingInOrder(listing[..|listing| - 1], dir);
    }
  }

  /** The three directories the tools touch: the rules, the archive and the backup snapshot. */
  class FileSystem {
    var rules: Dir
    var archive: Dir
    var backup: Dir

    constructor (rules: Dir, archive: Dir)
      ensures this.rules == rules && this.archive == archive && this.backup == map[]
    {
      this.rules := rules;
      this.archive := archive;
      this.backup := map[];
    }
  }
}
