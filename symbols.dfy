/** The two display symbols the editor shows for `*` and `/`, and which the
    backend rewrites back to those operators. */
module Symbols {
  const TimesSign: char := '\U{00D7}'
  const DivideSign: char := '\U{00F7}'
}
