/**
 Outlier handling at the level of the whole table held by the processing
 object: one named column is sanitized, every other column and the order of
 the rows stay as they were, and each way the step can fail is reported as
 the pipeline's single error kind together with its cause.
 */
module Frames {
  import opened Outliers

  /** A column of the table: numeric measurements, or text such as the class
      labels. */
  datatype Column = Numeric(values: seq<real>) | Text(labels: seq<string>)

  /** Number of rows in a column. */
  function Height(c: Column): nat {
    match c
    case Numeric(v) => |v|
    case Text(l) => |l|
  }

  /** A table maps each column name to its column. */
  type Frame = map<string, Column>

  /** Every column of the table has exactly `n` rows. */
  predicate HasRows(df: Frame, n: nat) {
    forall name :: name in df ==> Height(df[name]) == n
  }

  datatype Option<T> = None | Some(value: T)

  /** Why outlier handling failed: no table has been loaded yet, the table has
      no column of that name, or the column does not hold numbers. */
  datatype Cause = NotLoaded | MissingColumn | NonNumericColumn

  /** The pipeline's single error kind, naming the column being handled. */
  datatype Error = OutlierHandlingFailed(column: string, cause: Cause)

  datatype Result<T> = Ok(value: T) | Err(error: Error)

  /** Outlier handling of `column` in the loaded table `df`. On success the
      table has the same column names, the named column is replaced by its
      sanitized version, and every other column is unchanged. It fails exactly
      when there is no table, no such column, or the column holds text. A text
      column without rows is the exception: its quartiles and median are
      undefined, nothing compares as an outlier, and the table comes back
      unchanged. */
  function HandleOutliers(df: Option<Frame>, column: string): (r: Result<Frame>)
    ensures r.Ok? <==> df.Some? && column in df.value && (df.value[column].Numeric? || Height(df.value[column]) == 0)
    ensures r.Err? ==> r.error.column == column
    ensures r.Err? ==> (r.error.cause == NotLoaded <==> df.None?)
    ensures r.Err? && df.Some? ==> (r.error.cause == MissingColumn <==> column !in df.value)
    ensures r.Ok? ==> r.value.Keys == df.value.Keys
    ensures r.Ok? && df.value[column].Numeric? ==> r.value[column] == Numeric(Sanitize(df.value[column].values))
    ensures r.Ok? && df.value[column].Text? ==> r.value == df.value
    ensures r.Ok? ==> forall name :: name in df.value && name != column ==> r.value[name] == df.value[name]
  {
    match df
    case None => Err(OutlierHandlingFailed(column, NotLoaded))
    case Some(table) =>
      if column !in table then Err(OutlierHandlingFailed(column, MissingColumn))
      else
        match table[column]
        case Text(l) => if |l| == 0 then Ok(table) else Err(OutlierHandlingFailed(column, NonNumericColumn))
        case Numeric(v) => Ok(table[column := Numeric(Sanitize(v))])
  }

  /** Outlier handling keeps the table rectangular: every column still has the
      same number of rows as before. */
  lemma HandleOutliersKeepsRows(df: Frame, column: string, n: nat)
    requires HasRows(df, n)
    requires HandleOutliers(Some(df), column).Ok?
    ensures HasRows(HandleOutliers(Some(df), column).value, n)
  {
    var r := HandleOutliers(Some(df), column).value;
    forall name | name in r
      ensures Height(r[name]) == n
    {
      if name == column {
        assert Height(df[column]) == n;
      }
    }
  }
}
