/** F.NavigateBounds from PathHinter/F.cs: one up/down step of an index into
    an array that may be null. The step is not a plain wraparound: from the
    first index going up it lands on the second-to-last, and from the last
    index going down it lands on the second. */
module Navigation {
  import opened DotNet

  /** Where NavigateBounds leaves the index, stated per case. */
  function Navigated<T>(arr: Option<seq<T>>, currentIndex: int, up: bool): int
  {
    if arr.None? || |arr.value| <= 1 then currentIndex
    else if up then (if currentIndex == 0 then |arr.value| - 2 else currentIndex - 1)
    else (if currentIndex >= |arr.value| - 1 then 1 else currentIndex + 1)
  }

  /** NavigateBounds: the `ref` index comes in as `currentIndex` and goes out
      as `index`; the method also returns that final index as `result`. */
  method NavigateBounds<T>(arr: Option<seq<T>>, currentIndex: int, up: bool) returns (result: int, index: int)
    ensures result == index
    ensures arr.None? || |arr.value| <= 1 ==> index == currentIndex
    ensures arr.Some? && |arr.value| >= 2 ==>
              (up && currentIndex == 0 ==> index == |arr.value| - 2) &&
              (up && currentIndex != 0 ==> index == currentIndex - 1) &&
              (!up && currentIndex >= |arr.value| - 1 ==> index == 1) &&
              (!up && currentIndex < |arr.value| - 1 ==> index == currentIndex + 1)
    ensures arr.Some? && |arr.value| >= 2 && 0 <= currentIndex < |arr.value| ==> 0 <= index < |arr.value|
    ensures index == Navigated(arr, currentIndex, up)
  {
    index := currentIndex;
    if arr.None? || |arr.value| <= 1 {
      return index, index;
    }
    var length := |arr.value|;
    if up && index == 0 {
      index := length - 1;
    }
    if !up && index >= length - 1 {
      index := 0;
    }
    if up {
      index := index - 1;
    } else {
      index := index + 1;
    }
    result := index;
  }

  /** From an in-range index the step stays in range. */
  lemma NavigatedInRange<T>(arr: seq<T>, currentIndex: int, up: bool)
    requires 0 <= currentIndex < |arr|
    ensures 0 <= Navigated(Some(arr), currentIndex, up) < |arr|
  {
  }

  /** With two entries the index only records the last direction. */
  lemma NavigatedTwoEntries<T>(arr: seq<T>, currentIndex: int, up: bool)
    requires |arr| == 2 && 0 <= currentIndex < 2
    ensures Navigated(Some(arr), currentIndex, up) == if up then 0 else 1
  {
  }
}
