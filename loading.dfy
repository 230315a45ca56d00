/**
 * `load_dataframe` (viewdf.py:36-58): the file name alone decides whether
 * the file is unpickled or parsed as delimited text, and with which field
 * separator; every failure of the reader, and a pickle that holds something
 * other than a DataFrame, becomes one load error.
 *
 * The pandas readers themselves are not modelled: what they return is
 * given as a `Readers` value.
 */
module Loading {
  import opened Wrappers

  /** How the file is read: unpickled, or parsed as text with a field separator. */
  datatype Format = Pickle | Delimited(sep: string)

  /** What the rest of the program sees of a loaded DataFrame. */
  datatype Frame = Frame(columns: seq<string>, rowCount: nat)

  /** What unpickling produced: a DataFrame, or an object of some other type. */
  datatype Unpickled = UnpickledFrame(frame: Frame) | UnpickledObject(typeName: string)

  /** Why a load failed. */
  datatype LoadCause = ReaderRaised(message: string) | NotAFrame(typeName: string)

  /** The single error `load_dataframe` raises, naming the path. */
  datatype LoadError = ReadFailed(path: string, cause: LoadCause)

  /**
   * The outcome of each pandas reader on this file: `read_pickle`, and
   * `read_csv` for a given separator (each either a value or the message of
   * the exception it raised).
   */
  datatype Readers = Readers(
    readPickle: Result<Unpickled, string>,
    readCsv: string -> Result<Frame, string>)

  /** Python's str.endswith. */
  predicate EndsWith(s: string, suffix: string)
  {
    |suffix| <= |s| && s[|s| - |suffix|..] == suffix
  }

  /** The reading strategy chosen from the path and the optional `--sep`. */
  function ChooseFormat(path: string, sep: Option<string>): Format
  {
    if EndsWith(path, ".pkl") then Pickle
    else if sep.Some? then Delimited(sep.value)
    else if EndsWith(path, ".tsv") || EndsWith(path, ".txt") then Delimited("\t")
    else Delimited(",")
  }

  /** Loading a file: choose the format, run that reader, check a pickle's type. */
  function LoadDataFrame(path: string, sep: Option<string>, readers: Readers): (r: Result<Frame, LoadError>)
    ensures r.Failure? ==> r.error.path == path
    ensures r.Success? && ChooseFormat(path, sep).Pickle? ==>
              readers.readPickle == Success(UnpickledFrame(r.value))
    ensures r.Success? && ChooseFormat(path, sep).Delimited? ==>
              readers.readCsv(ChooseFormat(path, sep).sep) == Success(r.value)
  {
    match ChooseFormat(path, sep)
    case Pickle =>
      (match readers.readPickle
       case Failure(msg) => Failure(ReadFailed(path, ReaderRaised(msg)))
       case Success(UnpickledObject(t)) => Failure(ReadFailed(path, NotAFrame(t)))
       case Success(UnpickledFrame(f)) => Success(f))
    case Delimited(s) =>
      (match readers.readCsv(s)
       case Failure(msg) => Failure(ReadFailed(path, ReaderRaised(msg)))
       case Success(f) => Success(f))
  }

  /** A path and a suffix glued together end with that suffix. */
  lemma EndsWithAppended(stem: string, suffix: string)
    ensures EndsWith(stem + suffix, suffix)
  {
    assert (stem + suffix)[|stem|..] == suffix;
  }

  /** The suffixes are exclusive: a name ending in `.tsv` or `.txt` does not end in `.pkl`. */
  lemma TextSuffixIsNotPickle(path: string)
    requires EndsWith(path, ".tsv") || EndsWith(path, ".txt")
    ensures !EndsWith(path, ".pkl")
  {
    var tail := path[|path| - 4..];
    assert tail[1] != 'p';
  }

  /**
   * The choice, case by case: a `.pkl` path is a pickle whatever `--sep`
   * says; otherwise an explicit separator wins; otherwise `.tsv` and `.txt`
   * mean tab; and everything else is a comma.
   */
  lemma ChooseFormatCases(path: string, sep: Option<string>)
    ensures ChooseFormat(path, sep) == Pickle <==> EndsWith(path, ".pkl")
    ensures !EndsWith(path, ".pkl") && sep.Some? ==> ChooseFormat(path, sep) == Delimited(sep.value)
    ensures sep.None? && (EndsWith(path, ".tsv") || EndsWith(path, ".txt")) ==>
              ChooseFormat(path, sep) == Delimited("\t")
    ensures sep.None? && !EndsWith(path, ".pkl") && !EndsWith(path, ".tsv") && !EndsWith(path, ".txt") ==>
              ChooseFormat(path, sep) == Delimited(",")
  {
    if sep.None? && (EndsWith(path, ".tsv") || EndsWith(path, ".txt")) {
      TextSuffixIsNotPickle(path);
    }
  }

  /** The separator used for text is tab exactly when `--sep` says tab or, without it, the suffix does. */
  lemma TabSeparatorIff(path: string, sep: Option<string>)
    ensures ChooseFormat(path, sep) == Delimited("\t") <==>
              !EndsWith(path, ".pkl") &&
              (sep == Some("\t") || (sep.None? && (EndsWith(path, ".tsv") || EndsWith(path, ".txt"))))
  {
    if sep.None? && (EndsWith(path, ".tsv") || EndsWith(path, ".txt")) {
      TextSuffixIsNotPickle(path);
    }
  }

  /** For every stem: `.pkl` ignores `--sep`, `.tsv` and `.txt` default to tab, `.csv` to a comma. */
  lemma SuffixDefaults(stem: string, sep: Option<string>)
    ensures ChooseFormat(stem + ".pkl", sep) == Pickle
    ensures ChooseFormat(stem + ".tsv", None) == Delimited("\t")
    ensures ChooseFormat(stem + ".txt", None) == Delimited("\t")
    ensures ChooseFormat(stem + ".csv", None) == Delimited(",")
  {
    EndsWithAppended(stem, ".pkl");
    EndsWithAppended(stem, ".tsv");
    EndsWithAppended(stem, ".txt");
    TextSuffixIsNotPickle(stem + ".tsv");
    TextSuffixIsNotPickle(stem + ".txt");
    var csv := stem + ".csv";
    assert csv[|csv| - 4..] == ".csv";
    assert !EndsWith(csv, ".pkl") && !EndsWith(csv, ".tsv") && !EndsWith(csv, ".txt") by {
      assert csv[|csv| - 4..][1] == 'c';
    }
  }

  /**
   * A load fails exactly when the chosen reader raises, or when a pickle
   * holds something other than a DataFrame; the error says which.
   */
  lemma LoadFailureCases(path: string, sep: Option<string>, readers: Readers)
    ensures LoadDataFrame(path, sep, readers).Failure? <==>
              match ChooseFormat(path, sep)
              case Pickle => !(readers.readPickle.Success? && readers.readPickle.value.UnpickledFrame?)
              case Delimited(s) => readers.readCsv(s).Failure?
    ensures EndsWith(path, ".pkl") && readers.readPickle.Success? && readers.readPickle.value.UnpickledObject? ==>
              LoadDataFrame(path, sep, readers) ==
              Failure(ReadFailed(path, NotAFrame(readers.readPickle.value.typeName)))
  {
  }
}
