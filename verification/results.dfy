/** Outcome types shared by the store and the views. */
module Results {

  /** An optional value; used for the nullable group reference of a post. */
  datatype Option<T> = None | Some(value: T)

  /** The failures the store and the views can report. */
  datatype Error =
    | NotFound                  // the looked-up post, group or user does not exist (HTTP 404)
    | IntegrityError            // a write breaks a database constraint

  /** Either a value or the reason there is none. */
  datatype Result<T> = Success(value: T) | Failure(error: Error)
}
