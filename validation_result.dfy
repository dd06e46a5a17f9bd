/** ValidationResult: the ordered list of error strings a validation produced,
    its validity and its one-line message. */
module ValidationResults {

  /** The message of a result without errors. */
  const SuccessMessage: string := "Validation successful"

  /** The separator `string.Join` puts between errors in the message. */
  const Separator: string := "; "

  datatype ValidationResult = ValidationResult(errors: seq<string>) {

    /** `IsValid => !Errors.Any()`. */
    predicate IsValid() {
      |errors| == 0
    }

    /** `Message`: the success text, or the errors joined with "; ". */
    function Message(): string {
      if IsValid() then SuccessMessage else Join(errors)
    }
  }

  /** `ValidationResult.Success()`. */
  function Success(): (r: ValidationResult)
    ensures r.IsValid() && r.errors == []
    ensures r.Message() == SuccessMessage
  {
    ValidationResult([])
  }

  /** `ValidationResult.Failure(string error)`. */
  function Failure(error: string): (r: ValidationResult)
    ensures r.errors == [error]
    ensures !r.IsValid()
    ensures r.Message() == error
  {
    ValidationResult([error])
  }

  /** `ValidationResult.Failure(IEnumerable<string> errors)`: keeps the errors
      in order; an empty sequence gives a valid result. */
  function FailureOf(errors: seq<string>): (r: ValidationResult)
    ensures r.errors == errors
    ensures r.IsValid() <==> errors == []
    ensures !r.IsValid() ==> r.Message() == Join(errors)
  {
    ValidationResult(errors)
  }

  /** `string.Join("; ", xs)`. */
  function Join(xs: seq<string>): string {
    if |xs| == 0 then ""
    else if |xs| == 1 then xs[0]
    else xs[0] + Separator + Join(xs[1..])
  }

  /** Does the text contain the separator "; "? */
  predicate ContainsSeparator(s: string) {
    exists i :: 0 <= i < |s| - 1 && s[i] == ';' && s[i + 1] == ' '
  }

  /** Cuts a text at every "; ", left to right. */
  function Split(s: string): (parts: seq<string>)
    ensures |parts| >= 1
    decreases |s|
  {
    if |s| == 0 then [""]
    else if |s| >= 2 && s[0] == ';' && s[1] == ' ' then [""] + Split(s[2..])
    else
      var rest := Split(s[1..]);
      [[s[0]] + rest[0]] + rest[1..]
  }

  lemma {:induction false} SplitPiece(x: string, y: string)
    requires !ContainsSeparator(x)
    ensures Split(x) == [x]
    ensures Split(x + Separator + y) == [x] + Split(y)
    decreases |x|
  {
    if x == [] {
      assert (x + Separator + y)[2..] == y;
    } else {
      var x' := x[1..];
      SplitPiece(x', y);
      var s := x + Separator + y;
      assert s[1..] == x' + Separator + y;
      assert |x'| > 0 ==> s[1] == x'[0] && x[1] == x'[0];
      assert !(s[0] == ';' && s[1] == ' ');
      assert [x[0]] + x' == x;
      if |x'| > 0 {
        assert !(x[0] == ';' && x[1] == ' ');
      }
    }
  }

  /** The message of a failed validation splits back into exactly its errors,
      in order, as long as no error itself contains "; ". */
  lemma {:induction false} SplitJoin(xs: seq<string>)
    requires |xs| > 0
    requires forall i :: 0 <= i < |xs| ==> !ContainsSeparator(xs[i])
    ensures Split(Join(xs)) == xs
  {
    if |xs| == 1 {
      SplitPiece(xs[0], "");
    } else {
      SplitJoin(xs[1..]);
      SplitPiece(xs[0], Join(xs[1..]));
      assert [xs[0]] + xs[1..] == xs;
    }
  }

  /** The message of an invalid result lists its errors in order: splitting it
      at "; " gives back the errors. */
  lemma MessageListsErrors(r: ValidationResult)
    requires !r.IsValid()
    requires forall i :: 0 <= i < |r.errors| ==> !ContainsSeparator(r.errors[i])
    ensures Split(r.Message()) == r.errors
  {
    SplitJoin(r.errors);
  }
}
