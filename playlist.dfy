/** The record the loader builds and the report reads. */
module Playlist {
  import opened Int32Text

  /** One playlist entry: the eight columns of a data line, the last four as 32-bit integers. */
  datatype PlaylistInfo = PlaylistInfo(
    name: string,
    artist: string,
    album: string,
    genre: string,
    size: int32,
    time: int32,
    year: int32,
    plays: int32)
}
