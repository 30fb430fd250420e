/**
 * The argument checks of Source/CSP/Utilities.cs. A C# array reference that may be null is
 * an `Option` of a sequence; a check that returns normally is `Pass`, one that throws an
 * `ArgumentException` is `Fail` carrying the exception's message.
 */
module Utilities {
  import opened Wrappers
  import opened Strings

  datatype ArgumentException = ArgumentException(message: string)

  const NullArrayMessage: string := "Array is null."

  /** The message of a length mismatch, with both numbers in decimal. */
  function LengthMessage(given: nat, required: int): string {
    "Array has given length of " + IntToString(given) +
    " but is required to have length " + IntToString(required) + "."
  }

  /** `EnsureNotNull`: raise with the given message exactly when the object is null. */
  function EnsureNotNull<T>(obj: Option<T>, message: string): (r: Outcome<ArgumentException>)
    ensures r.Pass? <==> obj.Some?
    ensures r.Fail? ==> r.error.message == message
  {
    if obj.None? then Fail(ArgumentException(message)) else Pass
  }

  /** `EnsureDimensions(int[] array, int elementCount)`. */
  function EnsureDimensions(arr: Option<seq<int>>, elementCount: int): (r: Outcome<ArgumentException>)
    ensures r.Pass? <==> arr.Some? && |arr.value| == elementCount
    ensures arr.None? ==> r == Fail(ArgumentException(NullArrayMessage))
    ensures arr.Some? && |arr.value| != elementCount ==>
              r == Fail(ArgumentException(LengthMessage(|arr.value|, elementCount)))
  {
    var notNull := EnsureNotNull(arr, NullArrayMessage);
    if notNull.Fail? then notNull
    else if |arr.value| != elementCount then
      Fail(ArgumentException(LengthMessage(|arr.value|, elementCount)))
    else Pass
  }

  /** The `foreach` of the two-dimensional check: the first row that fails decides. */
  function EnsureRows(rows: seq<Option<seq<int>>>, columnCount: int): (r: Outcome<ArgumentException>)
    ensures r.Pass? <==> forall i :: 0 <= i < |rows| ==> EnsureDimensions(rows[i], columnCount).Pass?
    ensures r.Fail? ==> exists k :: 0 <= k < |rows| && r == EnsureDimensions(rows[k], columnCount) &&
                                    forall i :: 0 <= i < k ==> EnsureDimensions(rows[i], columnCount).Pass?
  {
    if rows == [] then Pass
    else
      var first := EnsureDimensions(rows[0], columnCount);
      if first.Fail? then first
      else
        var rest := EnsureRows(rows[1..], columnCount);
        if rest.Fail? then
          var k :| 0 <= k < |rows[1..]| && rest == EnsureDimensions(rows[1..][k], columnCount) &&
                   forall i :: 0 <= i < k ==> EnsureDimensions(rows[1..][i], columnCount).Pass?;
          assert rows[k + 1] == rows[1..][k];
          assert forall i :: 1 <= i < k + 1 ==> rows[i] == rows[1..][i - 1];
          rest
        else
          assert forall i :: 1 <= i < |rows| ==> rows[i] == rows[1..][i - 1];
          rest
  }

  /** `EnsureDimensions(int[][] array, int rowCount, int columnCount)`. */
  function EnsureDimensions2D(arr: Option<seq<Option<seq<int>>>>, rowCount: int, columnCount: int)
    : (r: Outcome<ArgumentException>)
    ensures r.Pass? <==>
      && arr.Some? && |arr.value| == rowCount
      && forall i :: 0 <= i < rowCount ==> arr.value[i].Some? && |arr.value[i].value| == columnCount
    ensures arr.None? ==> r == Fail(ArgumentException(NullArrayMessage))
    // the row count is checked before any row is looked at
    ensures arr.Some? && |arr.value| != rowCount ==>
              r == Fail(ArgumentException(LengthMessage(|arr.value|, rowCount)))
  {
    var notNull := EnsureNotNull(arr, NullArrayMessage);
    if notNull.Fail? then notNull
    else if |arr.value| != rowCount then
      Fail(ArgumentException(LengthMessage(|arr.value|, rowCount)))
    else EnsureRows(arr.value, columnCount)
  }

  /** A well-formed grid passes the two-dimensional check. */
  lemma RectangularPasses(rows: seq<seq<int>>, columnCount: nat)
    requires forall i :: 0 <= i < |rows| ==> |rows[i]| == columnCount
    ensures EnsureDimensions2D(Some(seq(|rows|, i requires 0 <= i < |rows| => Some(rows[i]))), |rows|, columnCount).Pass?
  {
  }

  /** With the right row count, a null row fails the check with the null-array message. */
  lemma NullRowFails(rows: seq<Option<seq<int>>>, columnCount: int, k: nat)
    requires k < |rows| && rows[k].None?
    requires forall i :: 0 <= i < k ==> rows[i].Some? && |rows[i].value| == columnCount
    ensures EnsureDimensions2D(Some(rows), |rows|, columnCount) == Fail(ArgumentException(NullArrayMessage))
  {
    var r := EnsureRows(rows, columnCount);
    var j :| 0 <= j < |rows| && r == EnsureDimensions(rows[j], columnCount) &&
             forall i :: 0 <= i < j ==> EnsureDimensions(rows[i], columnCount).Pass?;
    assert EnsureDimensions(rows[k], columnCount).Fail?;
  }
}
