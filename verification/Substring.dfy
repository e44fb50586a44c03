/** Python's `part in text` on strings. */
module Substring {
  predicate Occurs(text: string, part: string, i: int) {
    0 <= i <= |text| - |part| && forall j :: 0 <= j < |part| ==> text[i + j] == part[j]
  }

  predicate Contains(text: string, part: string) {
    exists i :: 0 <= i <= |text| - |part| && Occurs(text, part, i)
  }
}
