/** The nullable values of the page (`string | null`, `Barang | null`, a missing user). */
module Optional {

  datatype Option<+T> = None | Some(value: T)

}
