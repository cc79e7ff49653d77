/** A typed catalog response. An `Option` field is `None` when the record has no
    such key. */
module Catalog {
  import opened Wrappers

  /** The metadata of one catalog record that the command reads. */
  datatype VolumeInfo = VolumeInfo(title: Option<string>, authors: Option<seq<string>>, publisher: Option<string>)

  /** One entry of the response's `items` array. */
  datatype Item = Item(volumeInfo: Option<VolumeInfo>)
}
