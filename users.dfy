/** The key both limiters scope their decisions to. */
module Users {

  /** An opaque user identifier, compared only for equality. */
  type UserId = string
}
