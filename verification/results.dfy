/** The failure-carrying value used wherever the translator raises (a missing
    vocabulary key, an empty `min`, an index out of range). */
module Results {

  datatype Option<+T> = None | Some(value: T)

}
