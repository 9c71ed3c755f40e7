/** What a page's toast tells the user, without its wording. */
module Feedback {

  /** `toast.info`, `toast.success` or `toast.error`. */
  datatype Notice = Info | Success | Failure
}
