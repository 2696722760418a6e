/** The holder of the currently loaded CSV file: not loaded at first, then
    loaded with a path that later loads replace. */
module Server {
  import opened Common

  /** The source throws an IllegalStateException when no file is loaded; a
      null path is the failure its tests expect from a load. */
  datatype HolderError = NoCsvLoaded | NullFilePath

  /** `CSVHolder`, without its singleton access.  A path of `None` stands for
      Java's `null`. */
  class CsvHolder {
    var csvFilePath: Option<string>
    var csvLoaded: bool

    /** A loaded holder has a path. */
    ghost predicate Valid()
      reads this
    {
      csvLoaded ==> csvFilePath.Some?
    }

    /** A new holder has no file loaded and no path. */
    constructor()
      ensures Valid() && !csvLoaded && csvFilePath == None
    {
      csvFilePath := None;
      csvLoaded := false;
    }

    /** `loadCSV` as written: any path is recorded, `null` included, and the
        holder counts as loaded. */
    method LoadCsvAsWritten(filePath: Option<string>)
      modifies this
      ensures csvLoaded && csvFilePath == filePath
    {
      csvFilePath := filePath;
      csvLoaded := true;
    }

    /** `loadCSV` with the null check the tests expect: a `null` path fails
        and changes nothing; any other path replaces the current one and the
        holder is loaded from then on. */
    method LoadCsv(filePath: Option<string>) returns (r: Outcome<HolderError>)
      requires Valid()
      modifies this
      ensures Valid()
      ensures r.Fail? <==> filePath == None
      ensures r.Fail? ==> r.error == NullFilePath && csvLoaded == old(csvLoaded) && csvFilePath == old(csvFilePath)
      ensures r.Pass? ==> csvLoaded && csvFilePath == filePath
      ensures old(csvLoaded) ==> csvLoaded
    {
      if filePath == None {
        return Fail(NullFilePath);
      }
      LoadCsvAsWritten(filePath);
      r := Pass;
    }

    /** `getCSVFilePath`: fails unless a file is loaded, and otherwise gives
        the path of the latest load. */
    method GetCsvFilePath() returns (r: Result<Option<string>, HolderError>)
      ensures r.Err? <==> !csvLoaded
      ensures r.Err? ==> r.error == NoCsvLoaded
      ensures r.Ok? ==> r.value == csvFilePath
      ensures Valid() && r.Ok? ==> r.value.Some?
    {
      if !csvLoaded {
        return Err(NoCsvLoaded);
      }
      r := Ok(csvFilePath);
    }

    /** `isCSVLoaded`. */
    method IsCsvLoaded() returns (loaded: bool)
      ensures loaded == csvLoaded
    {
      loaded := csvLoaded;
    }
  }

  // ---------------------------------------------------------------------
  // Uses of the holder
  // ---------------------------------------------------------------------

  /** A new holder reports that nothing is loaded and has no path to give. */
  method FreshHolder() returns (loaded: bool, path: Result<Option<string>, HolderError>)
    ensures !loaded && path == Err(NoCsvLoaded)
  {
    var holder := new CsvHolder();
    loaded := holder.IsCsvLoaded();
    path := holder.GetCsvFilePath();
  }

  /** Loading `p` and then `q`: the holder is loaded, the first read gives
      `p`, and the second gives `q`, no longer `p`. */
  method LoadTwice(p: string, q: string)
    returns (loaded: bool, first: Result<Option<string>, HolderError>, second: Result<Option<string>, HolderError>)
    ensures loaded && first == Ok(Some(p)) && second == Ok(Some(q))
    ensures p != q ==> second != first
  {
    var holder := new CsvHolder();
    var _ := holder.LoadCsv(Some(p));
    loaded := holder.IsCsvLoaded();
    first := holder.GetCsvFilePath();
    var _ := holder.LoadCsv(Some(q));
    second := holder.GetCsvFilePath();
  }

  /** As written, loading `null` succeeds: the holder then counts as loaded
      and its getter hands back `null` instead of failing. */
  method NullPathAsWritten() returns (loaded: bool, path: Result<Option<string>, HolderError>)
    ensures loaded && path == Ok(None)
  {
    var holder := new CsvHolder();
    holder.LoadCsvAsWritten(None);
    loaded := holder.IsCsvLoaded();
    path := holder.GetCsvFilePath();
  }

  /** With the null check, loading `null` fails and leaves a new holder
      unloaded. */
  method NullPathRejected() returns (outcome: Outcome<HolderError>, loaded: bool)
    ensures outcome == Fail(NullFilePath) && !loaded
  {
    var holder := new CsvHolder();
    outcome := holder.LoadCsv(None);
    loaded := holder.IsCsvLoaded();
  }
}
