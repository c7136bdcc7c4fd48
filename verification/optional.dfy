/** The absent-or-present value used for store reads, table lookups and
    partial primitives such as field decryption. */
module Optional {

  datatype Option<+T> = None | Some(value: T)

}
