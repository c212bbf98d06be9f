/** Small shared vocabulary: an optional value, standing for JavaScript's null. */
module Common {

  datatype Option<+T> = None | Some(value: T)
}
