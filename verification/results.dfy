/**
 Option and Result datatypes used throughout the model, and the errors that
 replace the panics (and out-of-range reads) of the generator and the type
 scanner.
 */
module Results {

  datatype Option<+T> = None | Some(value: T)

  /** The three insertion markers of the loader skeleton. */
  datatype Marker = MergeMarker | DefaultsMarker | ExecuteMarker

  /** Every way a scanning, generating or loading step can fail. */
  datatype Error =
    /** A marker line is the last line, so the line after it cannot be read. */
    | MarkerOnLastLine(line: nat)
    /** The line after a marker is shorter than two characters once trimmed. */
    | ShortAnnotationCheck(line: nat)
    /** A marker index points past the end of the file. */
    | MissingDeclaration(line: nat)
    /** The declaration line yields an empty type name and no alias is given. */
    | EmptyTypeName(line: nat)
    /** The brace count never returns to zero before the end of the file. */
    | UnbalancedBlock(line: nat)
    /** No line contains `package`. */
    | NoPackage
    /** The first line containing `package` is too short to cut the name from. */
    | ShortPackageLine(line: nat)
    /** An import scan runs past the last line. */
    | UnterminatedImport(line: nat)
    /** A line with a single double quote, which cannot be sliced. */
    | SingleQuote(line: nat)
    /** A type used as a field or default target has no (or an empty) alias. */
    | EmptyAlias(name: string)
    /** A skeleton insertion marker appears on two lines. */
    | DuplicateMarker(marker: Marker, line: nat)
    /** A skeleton insertion marker is absent. */
    | MissingMarker
    /** Two insertion markers share one line. */
    | MarkerConflict
    /** A command-line argument is the empty string. */
    | EmptyArgument(position: nat)
    /** A `-` argument with no `=`. */
    | ArgumentWithoutValue(position: nat)
    /** Cloud loading is enabled but the cloud address is blank. */
    | BlankCloudAddress
    /** The directory to scan is blank. */
    | BlankConfigDir

  datatype Result<+T> = Ok(value: T) | Fail(error: Error) {

    predicate IsFailure() {
      Fail?
    }

    function PropagateFailure<U>(): Result<U>
      requires Fail?
    {
      Fail(error)
    }

    function Extract(): T
      requires Ok?
    {
      value
    }
  }

  /** The values of a sequence of results when every one is Ok; otherwise
      the error of the first one that is not. */
  function All<T>(rs: seq<Result<T>>): (r: Result<seq<T>>)
    ensures r.Ok? <==> forall k :: 0 <= k < |rs| ==> rs[k].Ok?
    ensures r.Ok? ==> |r.value| == |rs| && forall k :: 0 <= k < |rs| ==> rs[k] == Ok(r.value[k])
    ensures r.Fail? ==> exists k :: FirstFailure(rs, k) && r.error == rs[k].error
    decreases |rs|
  {
    if |rs| == 0 then Ok([])
    else if rs[0].Fail? then
      assert FirstFailure(rs, 0);
      Fail(rs[0].error)
    else
      var rest := All(rs[1..]);
      assert forall k :: 1 <= k < |rs| ==> rs[k] == rs[1..][k - 1];
      if rest.Fail? then
        assert exists k :: FirstFailure(rs, k) && rest.error == rs[k].error by {
          var k :| FirstFailure(rs[1..], k) && rest.error == rs[1..][k].error;
          assert FirstFailure(rs, k + 1);
        }
        Fail(rest.error)
      else Ok([rs[0].value] + rest.value)
  }

  /** `rs[k]` is the first result that is not Ok. */
  ghost predicate FirstFailure<T>(rs: seq<Result<T>>, k: int) {
    && 0 <= k < |rs|
    && rs[k].Fail?
    && forall j :: 0 <= j < k ==> rs[j].Ok?
  }
}
