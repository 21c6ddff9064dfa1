/** Small datatypes shared by the models. */
module Prelude {

  type Bytes = seq<bv8>

  datatype Option<+T> = None | Some(value: T)

  /** SHA-256 is modelled as injective: a digest carries what it was computed from.  `Zero` is the
      all-zero placeholder that a manifest holds while its own digest is computed. */
  datatype Digest<T> = Zero | Digest(preimage: T)

  /** A file or directory on disk. `Torn` is one that a crash interrupted while it was being
      written or removed in place; renames never produce it. */
  datatype Stored<+T> = Absent | Torn | Whole(value: T)
}
