/** Small value wrappers shared by the new-tab model: JavaScript's `null`
    (or a missing value) as `None`. */
module Common {

  datatype Option<T> = None | Some(value: T)

}
