// Sizes that the enrollment, its template and the matcher agree on.
module Sizes {
  const RECORD_BYTES: nat := 60
  const MAX_RECORDS: nat := 120

  // One as a Q16 fraction.
  const Q16_ONE: nat := 65536
}
