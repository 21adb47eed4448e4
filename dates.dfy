/**
 * The date line of a post card (`formatDate` in src/pages/blog.tsx). The
 * calendar conversion itself is done by the host's `Date` and
 * `toLocaleDateString("pl-PL", ...)`, which are outside this model and are
 * passed in as `longDate`.
 */
module Dates {

  /**
   * An empty date string gives an empty line; any other is handed to the
   * locale formatter unchanged.
   */
  function FormatDate(dateString: string, longDate: string -> string): (r: string)
    ensures dateString == "" ==> r == ""
    ensures dateString != "" ==> r == longDate(dateString)
  {
    if dateString == "" then "" else longDate(dateString)
  }
}
