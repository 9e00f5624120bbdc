/** Text as UTF-16 code units. */
module Utf16 {
  type Unit = u: int | 0 <= u < 65536

  type Text = seq<Unit>
}
