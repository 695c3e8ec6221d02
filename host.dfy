/**
 * What the streamer reads from the machine it runs on, passed in as a value: the working
 * directory, the files on disk and their contents, the clock, the md5 hex digest, and what
 * ffprobe reports for a path.
 */
module Host {
  import opened FilePaths
  import opened Bytes

  /** ffprobe's answer for a file: its JSON text and the duration parsed from it, or a failure. */
  datatype Probe = Probed(data: string, videoLength: int) | ProbeFailed

  datatype Host = Host(
    cwd: AbsPath,
    disk: map<string, seq<byte>>,
    now: int,
    md5Hex: string -> string,
    ffprobe: string -> Probe)
  {
    /** os.Stat succeeds. */
    predicate Exists(path: string) {
      path in disk
    }

    function FileSize(path: string): (n: nat)
      requires Exists(path)
      ensures n == |disk[path]|
    {
      |disk[path]|
    }

    /** GetFFProbeData with the "{}" fallback used by every caller on failure. */
    function ProbeData(path: string): (data: string)
      ensures ffprobe(path).ProbeFailed? ==> data == "{}"
      ensures ffprobe(path).Probed? ==> data == ffprobe(path).data
    {
      match ffprobe(path)
      case Probed(data, _) => data
      case ProbeFailed => "{}"
    }

    /** ParseDuration of ProbeData: ParseDuration("{}") finds no duration and gives 0. */
    function ProbeLength(path: string): (len: int)
      ensures ffprobe(path).ProbeFailed? ==> len == 0
      ensures ffprobe(path).Probed? ==> len == ffprobe(path).videoLength
    {
      match ffprobe(path)
      case Probed(_, len) => len
      case ProbeFailed => 0
    }
  }
}
