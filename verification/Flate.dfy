/** What both halves of the backend report about a call that did not fail. */
module Flate {
  datatype Status = Fine | BufError | StreamEnd
}
