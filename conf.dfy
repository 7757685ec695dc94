/** The parts of the configuration the archiving code reads. Loading and
    serialising the configuration are not part of this model. */
module Conf {

  /** A configured source directory: its path as written in the configuration,
      and its inclusion rule, a predicate on the full path of a file. */
  datatype SourceDir = SourceDir(path: string, shouldInclude: seq<string> -> bool)

  /** The folder the archive is written to, and the directories to back up, in order. */
  datatype Config = Config(localFolder: string, dirs: seq<SourceDir>)
}
