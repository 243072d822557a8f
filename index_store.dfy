/**
 * The index of a photo collection, in the shape the commands use: the list
 * of tracked photos and the user configuration.
 */
module IndexStore {
  import opened Paths

  /** A hex-encoded content digest; the digest itself is not modelled. */
  type Hash = string

  /** One tracked photo: its root-relative path, the name it had when first indexed, and its content hash. */
  datatype IndexEntry = IndexEntry(filepath: Path, origFilename: string, filehash: Hash)

  /** The user configuration: each type tag ("IMG", "VID", ...) with the file extensions it stands for. */
  datatype UserConfig = UserConfig(fileTypes: map<string, seq<string>>)

  /** What the index file holds, as it is read and written whole. */
  datatype IndexFile = IndexFile(photos: seq<IndexEntry>, userConfig: UserConfig)

  /** The index loaded in memory, which `update` changes in place. */
  class Index {
    var photos: seq<IndexEntry>
    var userConfig: UserConfig

    constructor (file: IndexFile)
      ensures Contents() == file
    {
      photos := file.photos;
      userConfig := file.userConfig;
    }

    function Contents(): IndexFile
      reads this
    {
      IndexFile(photos, userConfig)
    }

    /** `index.clone()`: a new object with the same contents. */
    method Clone() returns (c: Index)
      ensures fresh(c) && c.Contents() == Contents()
    {
      c := new Index(Contents());
    }
  }
}
