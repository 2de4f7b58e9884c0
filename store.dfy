/** What both stores hold: the Data Lake file system and the blob
    container keep raw bytes under a path. */
module Store {
  type Bytes = seq<bv8>
}
