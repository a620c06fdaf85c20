/** Where the code as written and the evidently intended behaviour part
    ways (see the findings in README.md), the operations that are affected
    take the reading to follow as a parameter. */
module Readings {
  /** `AsWritten` follows the code as it stands; `Corrected` follows the
      repaired helper. */
  datatype Reading = AsWritten | Corrected
}
