/** Shared vocabulary: document identifiers and the optional value. */
module Common {

  /** A MongoDB ObjectId, abstracted to a number. Fresh identifiers come from a counter
      in the store, which stands in for ObjectId generation. */
  type Id = nat

  datatype Option<+T> = None | Some(value: T)

  /** A route parameter such as `:id` or `:courseId`: either text that casts to an ObjectId,
      or text that cannot be cast to one. A cast succeeds for other spellings too (upper-case
      hex digits, a 12-character string); `canonical` says whether the text is the id's own
      lower-case hex form, the text that the id's `toString()` gives back. */
  datatype IdParam = ObjectId(id: Id, canonical: bool) | Malformed(text: string)
}
