/**
 * `Compressor.compress_file`: run the encoder's ffmpeg command on one file and report
 * success. What ffmpeg does is an oracle: a function of the command line.
 */
module Compressor {
  import opened Wrappers
  import opened FileStore
  import Encoders

  /**
   * One ffmpeg run: it exits with a code, leaving the output file it wrote (or none);
   * or starting or waiting for it raises, possibly after a partial output was written.
   */
  datatype FfmpegRun =
    | Exited(code: int, written: Option<Content>)
    | Raised(partial: Option<Content>)

  /** The command `compress_file` runs for quality `q`. */
  function Command(e: Encoders.Encoder, input: string, output: string, q: int): seq<string>
  {
    Encoders.FfmpegArgs(e, input, output, q)
  }

  /**
   * `compress_file` once ffmpeg's run is known. A missing input returns `False` untouched
   * (ffmpeg is not run); a non-zero exit deletes the output; after a zero exit both files
   * are `stat`ed, and a missing one raises, which is caught and gives `False`; any
   * exception leaves the output where it is.
   */
  function CompressWith(d: Disk, input: string, output: string, run: FfmpegRun): (r: (Disk, bool))
    ensures input !in d ==> r == (d, false)
    ensures r.1 ==> output in r.0
  {
    if input !in d then (d, false)
    else
      match run
      case Exited(code, written) =>
        var after := if written.Some? then d[output := written.value] else d - {output};
        if code != 0 then (after - {output}, false)
        else (after, output in after && input in after)
      case Raised(partial) =>
        (if partial.Some? then d[output := partial.value] else d, false)
  }

  /** Only the output path can change on disk, whatever ffmpeg does. */
  lemma CompressWithFrame(d: Disk, input: string, output: string, run: FfmpegRun)
    ensures AgreeOutside(CompressWith(d, input, output, run).0, d, {output})
  {
  }

  /** `compress_file(input, output, quality=q)`: the disk afterwards and the returned flag. */
  function CompressFile(e: Encoders.Encoder, d: Disk, input: string, output: string, q: int,
                        ffmpeg: seq<string> -> FfmpegRun): (r: (Disk, bool))
    ensures AgreeOutside(r.0, d, {output})
    ensures input !in d ==> r == (d, false)
    ensures r.1 ==> output in r.0
  {
    CompressWith(d, input, output, ffmpeg(Command(e, input, output, q)))
  }

  /**
   * Success means ffmpeg exited with 0 and the output is what it wrote; a non-zero exit
   * leaves no output; an exception never deletes one, so a file already at the output
   * path (or a partial one) stays behind.
   */
  lemma CompressFileOutcome(d: Disk, input: string, output: string, run: FfmpegRun)
    requires input in d
    ensures var r := CompressWith(d, input, output, run);
      && (r.1 <==> run.Exited? && run.code == 0 && run.written.Some?)
      && (r.1 ==> r.0[output] == run.written.value && input in r.0)
      && (run.Exited? && run.code != 0 ==> output !in r.0 && !r.1)
      && (run.Raised? ==> !r.1 && (output in d ==> output in r.0))
  {
  }
}
