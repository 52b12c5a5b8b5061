# Video-Compress-Toolkit, modelled in Dafny

Video-Compress-Toolkit compresses `.mp4` videos with ffmpeg's hardware HEVC encoders: Intel QSV,
NVIDIA NVENC and Apple VideoToolbox. It searches for the smallest encode whose VMAF score still
meets a target. It also sweeps quality ranges for calibration, and reads the resulting files back
for VMAF tables and efficiency charts. This project models the program's logic:

- the three encoder profiles: their quality ranges, search step, default quality and the Mac
  skip table;
- the argument vectors every encoder and script builds;
- the output naming (`_intel_q{q}`, `_nvidia_qp{q}`, `_mac_qv{q}`) and its removal;
- the smart scheduler: a compression queue and an analysis queue, each task moving through
  encode, score and re-queue until it is finalized;
- the compressor;
- the one-shot recursive compression script;
- the five batch sweep scripts;
- the VMAF command line, the parsing of its score and its batch matching of references;
- the file-name parsers of the two plotting tools;
- the console helpers, `print_table` among them.

Each core file is modelled in the form its source takes:

- Functions that only compute become Dafny functions with lemmas about them.
- The scheduler, whose methods update its queues and counters, is a `class`.
- Loops (the sweeps, the directory walk, the table widths, the result collection) are
  `method`s with invariants. Each is proved equal to a specification function, and the
  properties are proved about that function.

The file system is a map from path to content or size. ffmpeg, the VMAF run and the directory
listings are parameters. The lemmas hold for every exit code, output size and score those
programs report, with one assumption: an ffmpeg run that exits with 0 has written its output
file (see "## Left out").

A size breach during the quality search finalizes the video task with the source file
(`src/core/scheduler.py:194-196`), and finalizing deletes any best-effort encode
(`src/core/scheduler.py:277-278`); `VideoTasks.SizeBreachFallsBackToSource` states this.

The Intel sweep script's docstring names its outputs `<stem>_q{quality}.mp4`
(`batch_intel_qsv_gq.py:11`), while its code writes `<stem>_intel_q{gq}.mp4`
(`batch_intel_qsv_gq.py:73`), the suffix `src/utils/naming.py:5-6` also gives. The model follows
the code.

## Model

| member | source | states |
|---|---|---|
| Encoders.GetEncoder | src/encoders/__init__.py:6-15 | the factory answers exactly for `intel`, `nvidia` and `mac`, with the profile of that name; any other name is the `ValueError` |
| Encoders.GetEncoderByName | src/encoders/__init__.py:8-12 | each registered name yields its own profile, so name and factory are inverse |
| Encoders.BaseDefaults | src/encoders/base.py:30-42 | a profile that does not override them gets the base range 0..100, the empty codec name, and accepts every quality |
| Encoders.IntelNvidiaAcceptEveryQuality | src/encoders/base.py:40-42 | Intel and Nvidia accept every quality, in their range or not, since they keep the base validity test |
| Encoders.IntelProfile | src/encoders/intel.py:6-26 | Intel is `hevc_qsv` over 1..51, search default 25, step -1, and its argument default 21 differs from the search default |
| Encoders.NvidiaProfile | src/encoders/nvidia.py:6-30 | Nvidia is `hevc_nvenc` over 0..51, default 24, step -1, and its argument default equals the search default |
| Encoders.MacProfile | src/encoders/mac.py:18-40 | Mac is `hevc_videotoolbox` over 1..100, default 58, step +1, and its argument default equals the search default |
| Encoders.MacValidity | src/encoders/mac.py:53-66 | a Mac quality is invalid exactly when it is in the skip table; values outside the range are still valid |
| Encoders.MacDefaultSkipped | src/encoders/mac.py:9-28 | the Mac search default 58 is itself in the skip table, so it is never encoded |
| Encoders.MacSkipTableInRange | src/encoders/mac.py:9-36 | every skipped Mac quality lies inside the Mac range |
| Encoders.StepIsUnit | src/encoders/base.py:24-28 | every profile's search step is +1 or -1, and positive only for Mac |
| Encoders.ArgsShape | src/encoders/base.py:7-10 | every profile's argument vector starts with `ffmpeg`, reads the input after `-i`, the profile's codec after `-c:v`, `hvc1` after `-vtag`, and ends with `-y` and the output |
| Encoders.IntelArgs | src/encoders/intel.py:26-41 | the Intel vector decodes on QSV, encodes with `hevc_qsv`, preset `veryslow`, `-global_quality` the quality |
| Encoders.NvidiaArgs | src/encoders/nvidia.py:26-56 | the Nvidia vector uses `hevc_nvenc`, preset `p7`, `-multipass fullres`, `-rc constqp` and `-qp` the quality |
| Encoders.NvidiaQpOnce | src/encoders/nvidia.py:44-47 | `-rc` and `-qp` each occur exactly once |
| Encoders.NvidiaQualityOccurrences | src/encoders/nvidia.py:44-54 | the quality's text occurs once in the vector, except for quality 0, which also matches `-map_metadata 0` |
| Encoders.MacArgs | src/encoders/mac.py:38-51 | the Mac vector decodes with VideoToolbox, encodes with `hevc_videotoolbox` and `-q:v` the quality |
| Naming.StripParamSuffix | src/utils/naming.py:19-33 | the result is a prefix of the stem; when shorter, the rest is one pattern match; no earlier match exists |
| Naming.BuildParamSuffix | src/utils/naming.py:36-45 | a suffix exactly for `intel`, `mac` and `nvidia`, namely the encoder's tag and the quality; otherwise the `ValueError` |
| Naming.BuildOutputFilename | src/utils/naming.py:56-60 | the output name is the input's stem, the parameter suffix and the input's extension |
| Naming.EncoderTagUnique | src/utils/naming.py:19-21 | each written tag is an alternative of the pattern and no other alternative ends in its last character |
| Naming.StripBuiltSuffix | src/utils/naming.py:24-45 | stripping undoes building: `strip(stem + build(e, q)) == stem` for every stem and q >= 0 |
| Naming.StripRemovesOneSuffix | src/utils/naming.py:19-33 | only the last suffix goes: a doubly suffixed stem keeps its inner one |
| Naming.StripNoMatch | src/utils/naming.py:24-33 | a stem the pattern does not match comes back unchanged |
| Naming.StripDocExampleIntel | src/utils/naming.py:28 | `demo_intel_q25` strips to `demo` |
| Naming.StripDocExampleNvidia | src/utils/naming.py:29 | `demo_nvidia_qp24` strips to `demo` |
| Naming.StripDocExampleMac | src/utils/naming.py:30 | `demo_mac_qv58` strips to `demo` |
| Naming.OutputFilenameRoundTrip | src/utils/naming.py:56-60 | the output name keeps the input's extension and its stem strips back to the input's stem |
| CompressVideo.BuildFfmpegCmd | CompressScript/compress_video.py:17-95 | a command exactly for the three modes; any other mode is `Unknown mode: <mode>` |
| CompressVideo.BuildCmdIsProfileDefault | CompressScript/compress_video.py:22-93 | each mode's command is that encoder profile's argument vector at its keyword default (21, 24, 58) |
| CompressVideo.IntelCmd | CompressScript/compress_video.py:22-46 | the Intel command equals the Intel profile's vector at quality 21 |
| CompressVideo.NvidiaCmd | CompressScript/compress_video.py:47-71 | the Nvidia command equals the Nvidia profile's vector at quality 24 |
| CompressVideo.MacCmd | CompressScript/compress_video.py:72-93 | the Mac command equals the Mac profile's vector at quality 58 |
| CompressVideo.BuildCmdShape | CompressScript/compress_video.py:17-95 | every command starts with `ffmpeg`, reads the input after `-i` and ends with `-y` and the output |
| CompressVideo.BuildCmdQuality | CompressScript/compress_video.py:38-86 | the calibrated quality each mode sets: `-global_quality 21`, `-rc constqp -qp 24`, `-q:v 58` |
| CompressVideo.Mp4AnyCase | CompressScript/compress_video.py:132-133 | the `.mp4` test ignores case and refuses other extensions |
| CompressVideo.DirJobsMembers | CompressScript/compress_video.py:130-139 | a directory's jobs are exactly its `.mp4` names, read in the source directory and written in the mirrored one |
| CompressVideo.JobsMembers | CompressScript/compress_video.py:113-139 | the walk's jobs are the `.mp4` names of directories outside the target, mirrored under the target |
| CompressVideo.JobsWriteUnderTarget | CompressScript/compress_video.py:116-136 | every output lies strictly inside the target root |
| CompressVideo.RunJobsConcat | CompressScript/compress_video.py:113-171 | running two job lists in turn is running their concatenation; an error stops the run |
| CompressVideo.CompressDir | CompressScript/compress_video.py:130-171 | the loop over one directory's names does that directory's jobs in order |
| CompressVideo.CompressAllVideos | CompressScript/compress_video.py:104-171 | the walk loop does every job of the walk in order |
| CompressVideo.CompressedNotLarger | CompressScript/compress_video.py:151-171 | after a successful encode the output has the smaller of the two sizes and the original is unchanged |
| CompressVideo.FailedRunKeepsOutput | CompressScript/compress_video.py:144-149 | a failed encode deletes nothing and leaves whatever partial output ffmpeg wrote |
| CompressVideo.CompressFileFrame | CompressScript/compress_video.py:135-171 | one file's compression changes only its output path |
| CompressVideo.RunJobsFrame | CompressScript/compress_video.py:130-171 | paths no job writes keep their presence and size |
| CompressVideo.SourceTreeUntouched | CompressScript/compress_video.py:104-171 | nothing outside the target tree changes, the original videos included |
| CompressVideo.UnknownModeFails | CompressScript/compress_video.py:94-95 | an unknown mode raises at the first file to compress, and only when there is one |
| FileStore.Remove | src/core/scheduler.py:268-269 | after `unlink` of an existing path, or of none, the path is absent |
| FileStore.Rename | src/core/scheduler.py:273-274 | a rename succeeds exactly when the source exists; the target then holds the source's content and the source is gone |
| FileStore.Copy | src/core/scheduler.py:271-272 | `copy2` succeeds exactly when the source exists and is not the target; the target then holds the source's content and the source stays |
| Compressor.CompressWith | src/core/compressor.py:11-62 | a missing input returns `False` with the disk untouched; `True` only with the output on disk |
| Compressor.CompressWithFrame | src/core/compressor.py:26-62 | whatever ffmpeg does, only the output path changes |
| Compressor.CompressFile | src/core/compressor.py:11-62 | runs the encoder's command for the quality; only the output path changes; `True` only with the output on disk |
| Compressor.CompressFileOutcome | src/core/compressor.py:36-62 | `True` exactly when ffmpeg exited with 0 and wrote the output, which then holds what it wrote; a non-zero exit leaves no output; an exception deletes nothing |
| VideoTasks.SiblingShape | src/core/scheduler.py:164-166 | a sibling path is the output with the tag inserted between stem and suffix |
| VideoTasks.SiblingApart | src/core/scheduler.py:164-166 | siblings whose tags differ differ from each other and from the output |
| VideoTasks.SiblingsApart | src/core/scheduler.py:164-242 | the candidate `_temp_q{q}`, the `_best_effort` file and the output are three different paths |
| VideoTasks.NewTaskWaiting | src/core/scheduler.py:94-117 | a new task starts one step before the encoder's default on the lower-quality side, inside the range, with no candidate and no best effort |
| VideoTasks.Finalize | src/core/scheduler.py:251-281 | finalizing always ends with the video task finished or, when a file operation raises, lost |
| VideoTasks.FinalizeOutcome | src/core/scheduler.py:251-281 | it raises exactly when the source must be copied and is missing; otherwise the output holds the chosen file's content, no best-effort file remains and only the output and best-effort paths change |
| VideoTasks.OnlyValidQualitiesEncoded | src/core/scheduler.py:145-169 | ffmpeg runs only for an in-range, valid quality of an existing source |
| VideoTasks.CompressionRequeued | src/core/scheduler.py:153-179 | a requeued task moves one step from an in-range quality, keeps its search and best effort, and only the candidate's path changed on disk |
| VideoTasks.CompressionAnalyzed | src/core/scheduler.py:160-199 | a task handed to the analysis was encoded at an in-range valid quality with exit code 0, its candidate holds what ffmpeg wrote and is within the size limit |
| VideoTasks.SizeBreachFallsBackToSource | src/core/scheduler.py:186-196 | a candidate over the size limit is deleted and the output becomes a copy of the source, whatever best effort existed, and no best-effort file remains |
| VideoTasks.ScoreMissingFallsBack | src/core/scheduler.py:216-220 | without a score the candidate is deleted and the video task finishes with its best effort when one exists, else with the source |
| VideoTasks.TargetMetKeepsSource | src/core/scheduler.py:225-235 | reaching the target moves the candidate onto the output, but finalizing with the default `use_best_effort=False` copies the source over it; candidate and best effort are gone |
| VideoTasks.BelowTargetBecomesBestEffort | src/core/scheduler.py:237-249 | below the target the candidate replaces the best effort, this score is recorded, the candidate slot is cleared and the quality moves one step; only a missing candidate raises |
| VideoTasks.UnitStep | src/core/scheduler.py:97-98 | every encoder's step is +1 or -1 |
| VideoTasks.CompressionKeepsInvariant | src/core/scheduler.py:145-199 | a compression turn requeues a task with a smaller budget of qualities left, and hands the analysis a task whose candidate is at an in-range quality |
| VideoTasks.AnalysisKeepsInvariant | src/core/scheduler.py:201-249 | an analysis turn never requeues to analysis, and a task sent back to compression has a smaller budget |
| Scheduler.CompressionAdvance | src/core/scheduler.py:124-133 | taking the head of the compression queue and placing the video task where its turn says keeps both queues valid, loses or finishes at most one task, and lowers the work left |
| Scheduler.AnalysisAdvance | src/core/scheduler.py:135-143 | the same for the head of the analysis queue |
| Scheduler.NewTasksMembers | src/core/scheduler.py:59-122 | a task is created exactly for each listed pair whose input exists, sized from that input |
| Scheduler.SmartScheduler.constructor | src/core/scheduler.py:33-49 | a new scheduler has empty queues and no active task |
| Scheduler.SmartScheduler.CreateAndQueueTask | src/core/scheduler.py:89-122 | a missing input changes nothing; otherwise the new task is appended to the compression queue and the active count grows by one |
| Scheduler.SmartScheduler.QueueAll | src/core/scheduler.py:59-61 | the compression queue gains exactly the new tasks of the list, in order, and the count grows by their number |
| Scheduler.SmartScheduler.ProcessCompression | src/core/scheduler.py:124-199 | one compression turn: queues, disk and count are those the turn prescribes, the invariant holds and the work left shrinks |
| Scheduler.SmartScheduler.ProcessAnalysis | src/core/scheduler.py:135-249 | one analysis turn: queues, disk and count are those the turn prescribes, the invariant holds and the work left shrinks |
| Scheduler.SmartScheduler.Drain | src/core/scheduler.py:63-82 | in any order of the workers' turns both queues empty, and the active count then equals the video tasks lost to an exception |
| Scheduler.SmartScheduler.Start | src/core/scheduler.py:51-87 | an empty list returns at once; otherwise every task is queued and the workers run both queues dry |
| Sweep.KeptMembers | batch_intel_qsv_gq.py:62 | a name is listed exactly when some accepted directory entry carries it |
| Sweep.Mp4NamesCount | batch_intel_qsv_gq.py:62 | each name is listed as often as a `.mp4` file entry carries it |
| Sweep.Mp4NamesMembers | batch_intel_qsv_gq.py:62 | a name is listed exactly when some file entry with a `.mp4` suffix in any case carries it |
| Sweep.BelowTotal | batch_intel_qsv_gq.py:62 | Python's string order is total |
| Sweep.Insert | batch_intel_qsv_gq.py:62 | insertion adds exactly the one element |
| Sweep.InsertSorted | batch_intel_qsv_gq.py:62 | inserting into a sorted list keeps it sorted |
| Sweep.Sort | batch_intel_qsv_gq.py:62 | `sorted` is a permutation of its input |
| Sweep.SortSorted | batch_intel_qsv_gq.py:62 | `sorted` yields a sorted list |
| Sweep.VideosSpec | batch_intel_qsv_gq.py:62 | the videos are sorted and hold each listed `.mp4` file as often as it is listed |
| Sweep.VideosMembers | batch_intel_qsv_gq.py:62 | every video is a listed `.mp4` file and every listed `.mp4` file is a video |
| Sweep.VideoStem | batch_intel_qsv_gq.py:62-70 | a video's stem is a non-empty single path component |
| Sweep.VideosPlainStems | batch_intel_qsv_gq.py:62-70 | every video's stem is a non-empty single path component |
| Sweep.QRange | batch_intel_qsv_gq.py:72 | `range(lo, hi + 1)` for one video: hi - lo + 1 values, from lo upward, none when hi < lo |
| Sweep.JobsExact | batch_intel_qsv_gq.py:68-72 | the sweep encodes a video at a value exactly when the video is listed and the value lies in the inclusive range |
| Sweep.RunConcat | batch_intel_qsv_gq.py:68-94 | running two job lists in turn is running their concatenation |
| Sweep.RunFiles | batch_intel_qsv_gq.py:68-94 | afterwards a path exists exactly when it existed before or some job writing it encoded successfully |
| Sweep.StepFiles | batch_intel_qsv_gq.py:73-94 | one job adds its output when the encode succeeds, deletes a failed one's, and touches no other path |
| Sweep.ProducesSnoc | batch_intel_qsv_gq.py:68-94 | the outputs a list produces, extended by one job, are its own plus that job's on success |
| Sweep.NewOutputs | batch_intel_qsv_gq.py:68-94 | every file the sweep creates is the output of a listed video at a value of the range whose encode succeeded |
| Sweep.RunKeepsFiles | batch_intel_qsv_gq.py:76-78 | a file that existed before the sweep still exists after it |
| Sweep.RunSkipsExisting | batch_intel_qsv_gq.py:76-84 | ffmpeg runs only for jobs of the sweep whose output did not exist when the sweep began |
| Sweep.RunVideo | batch_intel_qsv_gq.py:72-94 | the inner loop does the video's jobs over the whole range in order |
| Sweep.RunAll | batch_intel_qsv_gq.py:68-94 | the outer loop does every video's jobs in sorted order |
| Sweep.CheckRange | batch_intel_qsv_gq.py:131-132 | the scripts refuse a range exactly when its minimum exceeds its maximum, with the given message |
| BatchIntel.BuildCmdReads | batch_intel_qsv_gq.py:23-48 | ffmpeg reads every option of the command with the value written after it: QSV decoding, `hevc_qsv`, preset `veryslow`, `-global_quality` the value; the command ends with `-y` and the output |
| BatchIntel.ReadsEveryPair | batch_intel_qsv_gq.py:23-48 | each option of the command is read with its own value |
| BatchIntel.OutNameParses | batch_intel_qsv_gq.py:73 | the plotting reads an output back as an Intel point at its value, for its source stem |
| BatchIntel.CompressWithGqRange | batch_intel_qsv_gq.py:51-94 | the script's sweep is the shared sweep over the sorted `.mp4` files and the inclusive `global_quality` range |
| BatchIntel.CreatedFilesParse | batch_intel_qsv_gq.py:68-94 | every created file is the output of a listed video at a value of the range, and parses back as that Intel point |
| BatchIntel.JobParses | batch_intel_qsv_gq.py:70-74 | one job's output parses back at the job's value and stem |
| BatchIntel.CheckRange | batch_intel_qsv_gq.py:131-132 | the range is refused exactly when `gq-min` exceeds `gq-max`, with the script's message |
| BatchMac.BuildCmdReads | batch_mac_qv.py:23-44 | ffmpeg reads every option of the command with the value written after it: VideoToolbox decoding, `hevc_videotoolbox`, `-q:v` the value; the command ends with `-y` and the output |
| BatchMac.ReadsEveryPair | batch_mac_qv.py:23-44 | each option of the command is read with its own value |
| BatchMac.OutNameParses | batch_mac_qv.py:69 | the plotting reads an output back as a `MAC` point at its value, for its source stem |
| BatchMac.CompressWithQvRange | batch_mac_qv.py:47-89 | the script's sweep is the shared sweep over the sorted `.mp4` files and the inclusive `qv-min`..`qv-max` range |
| BatchMac.CreatedFilesParse | batch_mac_qv.py:47-89 | every created file is the output of a listed video at a value of the range, and parses back as that `MAC` point |
| BatchMac.JobParses | batch_mac_qv.py:66-69 | one job's output parses back at the job's value and stem |
| BatchMac.CheckRange | batch_mac_qv.py:126-127 | the range is refused exactly when `qv-min` exceeds `qv-max`, with the script's message |
| BatchQmax.BuildCmdReads | batch_nvidia_qmax.py:24-51 | ffmpeg reads every option of the command with the value written after it: `hevc_nvenc`, `-cq 27`, `-qmin 0`, `-qmax` the value; the command ends with `-y` and the output |
| BatchQmax.ReadsEveryPair | batch_nvidia_qmax.py:24-51 | each option of the command is read with its own value |
| BatchQmax.OutNameParses | batch_nvidia_qmax.py:76 | the plotting reads an output back as a `Nvidia (qmax)` point at its value, for its source stem |
| BatchQmax.CompressWithQmaxRange | batch_nvidia_qmax.py:54-96 | the script's sweep is the shared sweep over the sorted `.mp4` files and the inclusive `qmax-min`..`qmax-max` range |
| BatchQmax.CreatedFilesParse | batch_nvidia_qmax.py:54-96 | every created file is the output of a listed video at a value of the range, and parses back as that `Nvidia (qmax)` point |
| BatchQmax.JobParses | batch_nvidia_qmax.py:73-76 | one job's output parses back at the job's value and stem |
| BatchQmax.CheckRange | batch_nvidia_qmax.py:133-134 | the range is refused exactly when `qmax-min` exceeds `qmax-max`, with the script's message |
| BatchConstQp.BuildCmdReads | batch_nvidia_constqp.py:29-54 | ffmpeg reads every option of the command with the value written after it: `hevc_nvenc`, `-rc constqp`, `-qp` the value; the command ends with `-y` and the output |
| BatchConstQp.ReadsEveryPair | batch_nvidia_constqp.py:29-54 | each option of the command is read with its own value |
| BatchConstQp.OutNameParses | batch_nvidia_constqp.py:79 | the plotting reads an output back as a `Nvidia (QP)` point at its value, for its source stem |
| BatchConstQp.CompressWithQpRange | batch_nvidia_constqp.py:57-99 | the script's sweep is the shared sweep over the sorted `.mp4` files and the inclusive `qp-min`..`qp-max` range |
| BatchConstQp.CreatedFilesParse | batch_nvidia_constqp.py:57-99 | every created file is the output of a listed video at a value of the range, and parses back as that `Nvidia (QP)` point |
| BatchConstQp.JobParses | batch_nvidia_constqp.py:76-79 | one job's output parses back at the job's value and stem |
| BatchConstQp.CheckRange | batch_nvidia_constqp.py:136-137 | the range is refused exactly when `qp-min` exceeds `qp-max`, with the script's message |
| BatchConstQpAq.PrefixLookups | batch_nvidia_constqp_aq.py:50-64 | the fixed prefix carries the input, `-rc constqp` and the QP |
| BatchConstQpAq.NoSwitchOutsideAq | batch_nvidia_constqp_aq.py:50-82 | neither the fixed prefix nor the tail holds an AQ switch |
| BatchConstQpAq.SwitchReads | batch_nvidia_constqp_aq.py:50-84 | ffmpeg reads an AQ switch from the AQ options alone, and the switch occurs exactly when it is read |
| BatchConstQpAq.AqLookups | batch_nvidia_constqp_aq.py:66-72 | `-spatial-aq 1` exactly with spatial AQ, `-aq-strength` exactly with spatial AQ and a strength, `-temporal-aq 1` exactly with temporal AQ |
| BatchConstQpAq.AqSwitches | batch_nvidia_constqp_aq.py:33-84 | the command reads the input, `-rc constqp` and the QP; each AQ switch is present exactly when its condition holds, with its value; it ends with `-y` and the output |
| BatchConstQpAq.SwitchPresent | batch_nvidia_constqp_aq.py:33-84 | an option occurs in the command exactly when ffmpeg finds a value for it |
| BatchConstQpAq.NoAqIsConstQp | batch_nvidia_constqp_aq.py:50-84 | without AQ the command is exactly the plain constant-QP script's command |
| BatchConstQpAq.NoAqName | batch_nvidia_constqp_aq.py:108-109 | without AQ the output name is exactly the plain constant-QP script's name |
| BatchConstQpAq.OutNameParses | batch_nvidia_constqp_aq.py:108-109 | the plotting reads an output back at its QP, as an AQ point exactly when `_aq` was written |
| BatchConstQpAq.CompressWithQpRange | batch_nvidia_constqp_aq.py:87-129 | the script's sweep is the shared sweep over the sorted `.mp4` files and the inclusive QP range, with the AQ command and name |
| BatchConstQpAq.CreatedFilesParse | batch_nvidia_constqp_aq.py:103-129 | every created file is the output of a listed video at a QP of the range, and parses back at that QP, as an AQ point exactly when AQ was on |
| BatchConstQpAq.JobParses | batch_nvidia_constqp_aq.py:105-110 | one job's output parses back at the job's QP and stem |
| BatchConstQpAq.Validate | batch_nvidia_constqp_aq.py:183-199 | refuses a range whose minimum exceeds its maximum, then a strength outside 1..15 with spatial AQ on; otherwise the output directory switches to `NVENC_QP_AQ_Compressed` exactly when AQ is on and the requested one resolves to the default |
| BatchConstQpAq.Launch | batch_nvidia_constqp_aq.py:183-209 | fails exactly when validation does, with its message; otherwise it runs the sweep into the chosen directory with the parsed strength |
| Vmaf.ModelString | src/analysis/vmaf.py:67 | the model option names the `neg` variant exactly when asked for, and always starts with `version=vmaf_v0.6.1` |
| Vmaf.VmafArgsInputs | src/analysis/vmaf.py:71-80 | the reference is ffmpeg's input 0 and the candidate its input 1, so `[1:v][0:v]` feeds libvmaf the candidate first |
| Vmaf.TwoInputs | src/analysis/vmaf.py:73-80 | a command of that shape reads exactly its two `-i` values, in order |
| Vmaf.FilterComplexOpening | src/analysis/vmaf.py:71 | the filter graph opens with the two stream labels, candidate first |
| Vmaf.SkipSpaces | src/analysis/vmaf.py:96 | `\s*` consumes exactly the maximal run of whitespace |
| Vmaf.SkipNumber | src/analysis/vmaf.py:96 | `[0-9.]+` consumes exactly the maximal run of digits and dots |
| Vmaf.ScoreAt | src/analysis/vmaf.py:96 | at an occurrence of the key the pattern matches exactly when `:` (or `=` where allowed) follows the key and a digit or '.' follows the whitespace after it; the capture is then the whole run of digits and dots that starts there |
| Vmaf.ScoreSearch | src/analysis/vmaf.py:96 | a capture is a non-empty run of digits and dots, and only a line containing the key has one |
| Vmaf.ScoreText | src/analysis/vmaf.py:95-97 | the captured score text is a non-empty run of digits and dots from a line containing `VMAF score` |
| Vmaf.ScoreSearchAtStart | src/analysis/vmaf.py:96 | text opening with `VMAF score: ` and a number captures exactly that number, whatever non-number follows |
| Vmaf.ScoreTextOfScoreLine | src/analysis/vmaf.py:92-97 | the line `VMAF score: <number>` yields that number |
| Vmaf.ScoreTextWithoutSeparator | src/analysis/vmaf.py:96 | `VMAF score 95.1`, without `:` or `=`, yields nothing |
| Vmaf.ScoreSearchNone | src/analysis/vmaf.py:95-96 | the search finds nothing where the key does not occur |
| Vmaf.ScoreSearchLeftmost | src/analysis/vmaf.py:96 | the search returns the capture at the leftmost position where the pattern matches |
| Vmaf.ScoreSearchNoneIff | src/analysis/vmaf.py:96 | the search finds nothing exactly when the pattern matches at no position |
| Vmaf.ScoreTextLeftmost | src/analysis/vmaf.py:95-97 | a line's score text is the capture at the leftmost match of `VMAF score[:=]\s*([0-9.]+)` |
| Vmaf.ScoreTextNoneIff | src/analysis/vmaf.py:95-97 | a line has no score text exactly when the pattern matches nowhere in it |
| Vmaf.FirstDot | src/analysis/vmaf.py:98 | the index of the first dot, or the length when there is none |
| Vmaf.DecimalValueDefined | src/analysis/vmaf.py:98 | `float` accepts the captured text exactly when it has at most one dot and some digit |
| Vmaf.DecimalValueOf | src/analysis/vmaf.py:98 | digits, one dot and digits read back as that decimal |
| Vmaf.FirstDotAt | src/analysis/vmaf.py:98 | the first dot is at k when none precedes k and one is at k |
| Vmaf.DecimalValueOfNat | src/analysis/vmaf.py:98 | what `str` writes for a natural number reads back as that number |
| Vmaf.DecimalExample | src/analysis/vmaf.py:92-98 | `95.5` reads as 95.5 |
| Vmaf.DecimalValueTwoDots | src/analysis/vmaf.py:98-103 | `9.5.1` makes `float` raise, which ends in no score |
| Vmaf.CalculateVmaf | src/analysis/vmaf.py:58-103 | a raised ffmpeg run gives no score; otherwise the score is read from its diagnostics |
| Vmaf.ParseScoreLastWins | src/analysis/vmaf.py:93-98 | the last matching line decides the score, whatever earlier lines say |
| Vmaf.ParseScoreIgnoresTrailingNoise | src/analysis/vmaf.py:94-97 | lines after the score line that do not match leave the score unchanged |
| Vmaf.ParseScoreNoMatch | src/analysis/vmaf.py:94-100 | output without a matching line gives no score |
| Vmaf.ParseScoreOfScoreLine | src/analysis/vmaf.py:92-98 | a last line `VMAF score: <whole>.<frac>` reads as that decimal |
| Vmaf.GetBitrate | src/analysis/vmaf.py:40-56 | no bitrate when ffprobe raised or printed blank or `N/A` or a non-number; otherwise its value divided by 1000 |
| VmafBatch.CleanStem | src/analysis/vmaf.py:131-139 | the cleaned stem is a prefix of the stem; when shorter, the rest is one match of the suffix pattern; no earlier match exists |
| VmafBatch.CleanStemAq | src/analysis/vmaf.py:135-139 | an AQ candidate `<stem>_nvidia_qp<q>_aq` cleans to its source's stem |
| VmafBatch.FirstReference | src/analysis/vmaf.py:141-148 | no reference exactly when no extension's candidate exists; a reference found exists |
| VmafBatch.FindReference | src/analysis/vmaf.py:141-148 | the extension loop with its `break` returns the first existing candidate, or none |
| VmafBatch.FirstReferenceIsFirst | src/analysis/vmaf.py:144-148 | the reference found is the candidate of the first extension, in the order `.mp4`, `.mkv`, `.mov`, `.avi`, that exists |
| VmafBatch.AnalyzeSingle | src/analysis/vmaf.py:182-190 | a row exactly when both the score and the bitrate are known, naming the candidate's file name |
| VmafBatch.ExpectedRows | src/analysis/vmaf.py:125-168 | at most one row per candidate |
| VmafBatch.ExpectedRowsStep | src/analysis/vmaf.py:127-155 | one more candidate adds its row, if it has one, after the earlier rows |
| VmafBatch.ProcessFiles | src/analysis/vmaf.py:105-180 | the table written is the header `FileSpec`, `VMAF-Value`, `Bitrate` and the row of every candidate that has one, and the completed count is the number of rows |
| VmafBatch.ExpectedRowsSound | src/analysis/vmaf.py:125-168 | every row comes from a candidate whose reference exists and for which both tools answered |
| VmafBatch.NoReferenceNoRow | src/analysis/vmaf.py:150-152 | a candidate without a reference in any of the four extensions contributes no row |
| VmafKeys.NormalizeWith | test_vmaf_scores.py:128-138 | the key is always a tail of the backslash-separated path |
| VmafKeys.Normalize | test_vmaf_scores.py:119-138 | the key never holds `/` |
| VmafKeys.NormalizeWithShape | test_vmaf_scores.py:128-138 | a path with a known directory, as a `\dir\` token or as its opening, gives a key opening with a known directory name; any other path gives its bare final component |
| VmafKeys.NormalizeWithFirst | test_vmaf_scores.py:128-137 | the first directory name that applies decides the key: the text after the first backslash of its first `\dir\` token (ignoring case), or the whole path when it only opens with `dir\` |
| VmafKeys.NormalizeWithNoDir | test_vmaf_scores.py:128-138 | when no directory name applies, the key is the final backslash component |
| VmafKeys.NormalizeNestedQsv | test_vmaf_scores.py:128-137 | `x\QSV_Compressed\Compressed\f` is keyed `QSV_Compressed\Compressed\f`: the first name in the list wins, not the innermost directory |
| VmafKeys.FoundOpensWithDir | test_vmaf_scores.py:129-132 | the text after the first backslash of a found `\dir\` opens with `dir\`, ignoring case |
| VmafKeys.NormalizePlainName | test_vmaf_scores.py:127-138 | a bare file name is its own key |
| VmafKeys.NormalizeWithPlain | test_vmaf_scores.py:128-138 | a path without backslashes passes every directory step unchanged |
| VmafKeys.UnderscoreDirMisses | test_vmaf_scores.py:129-135 | a directory name holding `_` is never found in a key without `_` |
| VmafKeys.KnownCompDirNamesShape | test_vmaf_scores.py:38-45 | six names; the first five hold `_`, the last is `Compressed` |
| VmafKeys.NormalizeWithoutUnderscore | test_vmaf_scores.py:128-138 | without `_` in the path only the `Compressed` step can apply |
| VmafKeys.SkipUnderscoreDirs | test_vmaf_scores.py:128-135 | directory names holding `_` at the front of the list are all passed over for a path without `_` |
| VmafKeys.NormalizeNotIdempotent | test_vmaf_scores.py:119-138 | the key of `/Compressed/Compressed/f` is `Compressed\Compressed\f`, and normalizing that key again gives `Compressed\f` |
| VmafKeys.NormalizeCompressedToken | test_vmaf_scores.py:129-132 | a path whose first backslash opens `\Compressed\` is cut just after that backslash |
| VmafKeys.CompressedTokenFound | test_vmaf_scores.py:130 | the first `\compressed\` in the lowered path is the token after a backslash-free prefix |
| VmafOriginals.OriginalTagsValid | test_vmaf_scores.py:156-161 | the four tags end in a non-digit, each in a different character |
| VmafOriginals.BaseFrom | test_vmaf_scores.py:163-171 | the base is a prefix of the stem; the first pattern that matches gives the text before its tag; when none matches the stem is its own base |
| VmafOriginals.BaseFromNoMatch | test_vmaf_scores.py:170-171 | a stem that no pattern matches, such as `clip_01`, is its own base |
| VmafOriginals.FirstExisting | test_vmaf_scores.py:179-182 | none exactly when no candidate exists; otherwise the first candidate that exists |
| VmafOriginals.OriginalCandidates | test_vmaf_scores.py:173-178 | the candidates are the base stem with `.mp4`, `.MP4`, `.mov` and `.MOV` in the reference directory, in that order |
| VmafOriginals.MatchOriginal | test_vmaf_scores.py:141-182 | no original exactly when none of the four extensions exists for the base stem; otherwise the first of `.mp4`, `.MP4`, `.mov`, `.MOV` that exists |
| VmafOriginals.BaseFromHits | test_vmaf_scores.py:164-168 | when exactly one tag matches, the base is the text before it |
| VmafOriginals.BaseStemRoundTrip | test_vmaf_scores.py:153-171 | `<stem><tag><digits>` and `<stem><tag><digits>_aq` both lead back to `<stem>` |
| VmafOriginals.BaseFromNoDigits | test_vmaf_scores.py:163-171 | a stem not ending in a digit is its own base |
| VmafOriginals.AqStrippedEverywhere | test_vmaf_scores.py:155 | `_aq` is dropped from every stem here, while the analyser's reference pattern keeps it unless it follows `_nvidia_qp<digits>` |
| VmafResults.OptionalIndex | test_vmaf_scores.py:339-340 | a column index exists exactly when the header names the column, and it points at that name |
| VmafResults.ColumnsOf | test_vmaf_scores.py:335-342 | a header with `FileSpec` places the key at its first `FileSpec` cell and the value columns only when named; any other first line (or none) means columns 0, 1, 2 |
| VmafResults.CellOr | test_vmaf_scores.py:350-351 | a value cell is the row's cell at the column when the column exists and the row reaches it, and empty otherwise |
| VmafResults.ReadRows | test_vmaf_scores.py:344-355 | a successful read lists each key once, in first-seen order, with cells for every listed key and no other; a failure is the `IndexError` of `row[idx_spec]` |
| VmafResults.ReadRowsErrIff | test_vmaf_scores.py:344-347 | the read fails exactly when some non-empty row is too short for the key column |
| VmafResults.EmptyRowSkipped | test_vmaf_scores.py:345-346 | an empty row leaves the result unchanged |
| VmafResults.DuplicateKeepsFirst | test_vmaf_scores.py:352-354 | a row whose normalized key is already on file leaves the result unchanged, so the first cells are kept |
| VmafResults.NewKeyAppended | test_vmaf_scores.py:347-354 | a row with a new normalized key appends the key and records its two value cells |
| VmafResults.ReadRowsErrSticks | test_vmaf_scores.py:347 | once a prefix of the rows raises, reading all of them raises the same error |
| VmafResults.ReadExisting | test_vmaf_scores.py:333-355 | reading a file gives the header's columns applied to the rows after it |
| VmafResults.ReadBody | test_vmaf_scores.py:344-355 | the loop returns what `ReadRows` specifies, stopping at the first short row |
| VmafScores.RunVmafFilter | test_vmaf_scores.py:242-246 | the plain `libvmaf` filter is used exactly when the neg model is not asked for |
| VmafScores.RunVmafArgsInputs | test_vmaf_scores.py:249-260 | this tool gives ffmpeg the candidate as input 0 and the reference as input 1, the reverse of the analyser's order |
| VmafScores.RunVmaf | test_vmaf_scores.py:265-278 | a non-zero exit code gives no score |
| VmafScores.RunVmafLeftmost | test_vmaf_scores.py:270-278 | after a clean exit the score is `float` of the capture at the leftmost match of `VMAF score:\s*([0-9.]+)` in the whole diagnostic text |
| VmafScores.RunVmafNoMatch | test_vmaf_scores.py:272-276 | after a clean exit, text in which the pattern matches nowhere gives no score |
| VmafScores.FirstScoreVersusLastScore | test_vmaf_scores.py:272-278 | with two score lines this tool reads the first and the analyser (src/analysis/vmaf.py) the last |
| VmafScores.ProcessOne | test_vmaf_scores.py:308-320 | a row exists exactly when both the bit rate and the score are known, and it carries the key, the score and the bit rate |
| VmafScores.OriginalForSpec | test_vmaf_scores.py:378-388 | a candidate is kept exactly when an original is found and its key is not on file, and then it is paired with that existing original |
| VmafScores.CollectSound | test_vmaf_scores.py:376-388 | every collected task is a candidate paired with the original chosen for it |
| VmafScores.CollectComplete | test_vmaf_scores.py:376-388 | every candidate that is given an original is collected with it |
| VmafScores.TasksExact | test_vmaf_scores.py:375-388 | a candidate has a task exactly when its original exists and its normalized key is not yet on file |
| VmafScores.CollectTasks | test_vmaf_scores.py:375-388 | the loop collects exactly the measuring tasks `Tasks` specifies, in candidate order |
| VmafScores.MeasuredRows | test_vmaf_scores.py:396-420 | there are never more measured rows than tasks |
| VmafScores.MeasureAll | test_vmaf_scores.py:398-420 | the loop keeps exactly the rows `process_one` returns, in task order |
| VmafScores.ExistingCells | test_vmaf_scores.py:434-436 | one written row per key on file, in first-seen order, with its key and both cells as read |
| VmafScores.MeasuredCells | test_vmaf_scores.py:438-440 | one written row per measured row, the score with four decimals and the bit rate with two |
| VmafScores.Written | test_vmaf_scores.py:390-440 | nothing is written when there are no tasks, or no new rows and nothing on file; otherwise the header, then the rows on file, then the new rows |
| VmafScores.MergeResults | test_vmaf_scores.py:323-440 | a results file with a short row raises; otherwise the output is the merge `Written` specifies of the rows read, the measuring tasks collected and the rows measured |
| Plotting.FirstMatch | src/analysis/plotting.py:59-66 | the pattern chosen is the first in list order whose regular expression matches; no earlier one matches, and none matches when none is chosen |
| Plotting.Parse | src/analysis/plotting.py:43-78 | the AQ flag handed in is the one returned |
| Plotting.ExtractInfo | src/analysis/plotting.py:36-41 | the AQ flag is set exactly when the stem ends in `_aq` |
| Plotting.ParseNoMatch | src/analysis/plotting.py:43-46 | a stem no pattern matches gives the unknown device, parameter 0 and the stem as source |
| Plotting.ParseFirstMatch | src/analysis/plotting.py:59-66 | under the first matching pattern the stem is `source + tag + digits` with a non-empty source, and the parameter is the digits' value |
| Plotting.GetColor | src/analysis/plotting.py:128-137 | a colour is missing exactly when the lowered name contains none of `nvidia`, `intel`, `mac` |
| Plotting.DeviceColors | src/analysis/plotting.py:128-137 | Intel is blue, MAC orange, the three Nvidia display names green and the unknown device has no colour |
| Plotting.PatternDevice | src/analysis/plotting.py:49-76 | every pattern's refined device is one of Intel, MAC and the three Nvidia display names |
| Plotting.ExtractedColor | src/analysis/plotting.py:36-78 | a parsed name lacks a colour exactly when its device is unknown |
| Plotting.ParseTagged | src/analysis/plotting.py:49-66 | `stem + tag + digits` parses by that tag's pattern when no earlier tag ends in the same character |
| Plotting.ParseAt | src/analysis/plotting.py:59-66 | the first matching pattern's split gives device, parameter and source |
| Plotting.ExtractInfoOfTagged | src/analysis/plotting.py:36-78 | a file `<stem><tag><digits>[_aq]<ext>` parses to that tag's device, the digits' value, the stem and the AQ flag |
| Plotting.ExtractInfoOfBuiltName | src/analysis/plotting.py:36-78 | every name `build_output_filename` produces parses back to the encoder's device, the quality and the input stem |
| Plotting.ExtractInfoOfAqName | src/analysis/plotting.py:36-78 | the AQ batch names parse as `Nvidia (QP+AQ)` with the quality and the stem |
| Plotting.ExtractInfoOfMp4 | src/analysis/plotting.py:36-78 | a batch output `<dir>/<stem><tag><q>[_aq].mp4` parses to the tag's device, `q` and the stem |
| Plotting.TagsEndApart | src/analysis/plotting.py:49-57 | no pattern listed before `_intel_q`, `_nvidia_qmax`, `_nvidia_qp` or `_mac_qv` ends in the same character, so none of them can shadow these |
| Plotting.DataRows | src/analysis/plotting.py:93-105 | the cleaned table holds only rows with a recognised device, never more than the file |
| Plotting.DataRowsComplete | src/analysis/plotting.py:94-105 | every row with a recognised name reaches the cleaned table |
| Plotting.CollectRows | src/analysis/plotting.py:93-105 | the loop builds exactly the cleaned table |
| Plotting.Unique | src/analysis/plotting.py:116 | the unique values are pairwise distinct and are exactly the values present |
| Plotting.UniqueMany | src/analysis/plotting.py:116-126 | more than one unique value exactly when two values differ |
| Plotting.KeepSources | src/analysis/plotting.py:113-114 | a row is kept exactly when it is in the table and its source is named |
| Plotting.KeptSources | src/analysis/plotting.py:113-116 | a source remains exactly when some recognised row has it and, when sources are named, it is one of them |
| Plotting.Plot | src/analysis/plotting.py:80-126 | a missing or unreadable file ends with no chart, and a table with no recognised row ends with no data |
| Plotting.ChartedSources | src/analysis/plotting.py:116-122 | one chart per distinct source of the kept rows, each source once |
| Plotting.ChartedOverall | src/analysis/plotting.py:124-126 | the overall chart is drawn exactly when two kept rows differ in source |
| Plotting.SafeSource | src/analysis/plotting.py:170 | the file-name part has no slash or backslash, keeps the length and keeps every other character |
| Plotting.SafeSourceIdempotent | src/analysis/plotting.py:170 | making a name safe twice gives the same as once |
| PlotEfficiency.FileName | plot_compression_efficiency.py:55 | the file name holds no slash or backslash and ends the FileSpec |
| PlotEfficiency.FileNameBoundary | plot_compression_efficiency.py:55 | the file name is the whole FileSpec or follows a `\` or a `/` |
| PlotEfficiency.FileNameAfterSeparator | plot_compression_efficiency.py:55 | the file name of `dir/name` or `dir\name` is `name` |
| PlotEfficiency.DotStem | plot_compression_efficiency.py:56 | the stem opens the file name; it is the whole name exactly when there is no '.', and otherwise stops at the last '.' |
| PlotEfficiency.ParseOwn | plot_compression_efficiency.py:59-89 | the AQ flag is set exactly when the stem ends in `_aq` |
| PlotEfficiency.ExtractInfo | plot_compression_efficiency.py:44-89 | the AQ flag is set exactly when the file name's stem ends in `_aq` |
| PlotEfficiency.ParseOwnUnknown | plot_compression_efficiency.py:66-69 | without a match the device is `Unknown`, the parameter 0 and the source the stem with its `_aq` still on |
| PlotEfficiency.ParseOwnMatched | plot_compression_efficiency.py:81-87 | the first matching pattern gives its own device (`Intel`, `Nvidia`, `MAC`) and the same source and parameter as the plotter's parse |
| PlotEfficiency.FileNamePlain | plot_compression_efficiency.py:55 | a name without separators is its own file name |
| PlotEfficiency.DotStemOf | plot_compression_efficiency.py:56 | the stem of `base + ext` is `base` |
| PlotEfficiency.PlainStem | plot_compression_efficiency.py:55-56 | for a plain name this script and the plotter (src/analysis/plotting.py:36) take the same stem |
| PlotEfficiency.DefaultSourceKeepsAq | plot_compression_efficiency.py:60-69 | an unrecognised `<x>_aq.mp4` keeps `_aq` in this script's source but loses it in the plotter's (src/analysis/plotting.py:39-45) |
| PlotEfficiency.NoPatternWithoutDigitEnd | plot_compression_efficiency.py:71-87 | no pattern matches a stem that does not end in a digit |
| PlotEfficiency.Alias | plot_compression_efficiency.py:94-102 | `intel` and `qsv` stand for `Intel`, `nvidia` and `nvenc` for `Nvidia`, `mac`, `macos` and `videotoolbox` for `MAC`, and nothing else is an alias |
| PlotEfficiency.NormalizeDeviceName | plot_compression_efficiency.py:92-103 | after trimming and lowering, the seven aliases give their device; any other name comes back as given |
| PlotEfficiency.NormalizeDeviceNameIdempotent | plot_compression_efficiency.py:92-103 | normalising twice is normalising once |
| PlotEfficiency.Where | plot_compression_efficiency.py:184 | a row is kept exactly when it is present and accepted, never adding rows |
| PlotEfficiency.ParseAll | plot_compression_efficiency.py:187-192 | every row is paired with its parse and nothing else is added |
| PlotEfficiency.Wanted | plot_compression_efficiency.py:198 | the wanted devices are exactly the normalised names given |
| PlotEfficiency.SelectRows | plot_compression_efficiency.py:178-205 | the rows left are exactly the parsed rows that are not old qmax results and pass the source, device and AQ filters; when none is left the script stops with its message |
| PlotEfficiency.StemInside | plot_compression_efficiency.py:55-62 | the stem the patterns see is a piece of the FileSpec |
| PlotEfficiency.NoQmaxAfterFilter | plot_compression_efficiency.py:178-184 | after the qmax filter no row can parse through the `_nvidia_qmax` or `_max_` pattern, so every Nvidia row left is constant QP |
| PlotEfficiency.TagMisses | plot_compression_efficiency.py:180-184 | a pattern whose tag holds a piece missing from the lowered FileSpec cannot match |
| Console.Emit | src/utils/console.py:11-19 | a blank line first exactly when asked; the last line ends in the message, and is `[tag] message` exactly when the tag is non-empty and the bare message otherwise |
| Console.EmitTagged | src/utils/console.py:14-18 | with a non-empty tag the output is the optional blank line and `[tag] message` |
| Console.LevelLines | src/utils/console.py:22-43 | info, success, warn and error print one line tagged 信息, 成功, 警告, 错误, after a blank line on request |
| Console.PhaseLines | src/utils/console.py:46-55 | phase start and end always print a blank line, then `[开始]` or `[完成]` with `scope \| message` |
| Console.ProgressLine | src/utils/console.py:58-61 | progress prints a single `[进度] [current/total] message` line |
| Console.SectionLines | src/utils/console.py:64-69 | a section is a blank line, then the title between two runs of sixteen '=' |
| Console.ColumnWidth | src/utils/console.py:79-83 | a column's width is at least every cell in that column |
| Console.ColumnWidthAttained | src/utils/console.py:80-83 | a non-zero width is the length of some cell of the column |
| Console.Widths | src/utils/console.py:79-83 | one width per header column, each that column's width |
| Console.FormatRows | src/utils/console.py:85-91 | one formatted line per row, in row order |
| Console.ColumnWidthSnoc | src/utils/console.py:81-83 | one more row widens each column to that row's cell where it is wider |
| Console.WidenRow | src/utils/console.py:82-83 | the inner loop succeeds exactly when the row is no longer than the header, and then each width becomes the larger of itself and the row's cell |
| Console.ComputeWidths | src/utils/console.py:79-83 | the widths are computed exactly when no row is longer than the first, and are then the column maxima |
| Console.PrintTable | src/utils/console.py:72-91 | the table prints exactly when no row is longer than the header, and then prints the header, the rule and the rows as `TableLines` specifies |
| Console.FormatBody | src/utils/console.py:90-91 | the row loop yields one formatted line per row, in order |
| Console.FormatRowLength | src/utils/console.py:85-86 | a row of `m` cells that fit is as long as the first `m` widths plus three per gap |
| Console.SeparatorLength | src/utils/console.py:89 | the rule is as long as all the widths plus three per gap |
| Console.TableAligned | src/utils/console.py:72-91 | with rows as long as the header, the header line, the rule and every row line have the same length |
| Console.HeaderLineLength | src/utils/console.py:85-88 | the header line is as long as a full row |
| Console.RowLineLength | src/utils/console.py:85-91 | a row as long as the header prints as long as a full row |
| Console.WidthsAreMaxima | src/utils/console.py:79-83 | each column's width fits the header and every row's cell and equals the header's or some row's cell length |
| Console.OneShotRowsPrintNoBody | src/utils/console.py:75-91 | when `rows` is a one-shot iterator only the header and the rule are printed; otherwise one line per row follows |

## Left out

- Threads of the scheduler: the worker threads, the `queue.Queue` timeouts, the lock, the `time.sleep` polling and the `KeyboardInterrupt` handling (`src/core/scheduler.py:41-87`, `124-143`) are not modelled. `Scheduler.SmartScheduler.Drain` takes the order of the two workers' turns as a parameter, and every order is covered. An interrupt only stops the workers, and the video tasks still queued then are never finalized. The model does not include this.
- A file operation that raises inside a worker ends that worker's turn without finalizing the video task. The model keeps such a task in a ghost counter of lost tasks and does not model the thread itself dying.
- ffmpeg, ffprobe and the libvmaf run are not executed. `src/core/compressor.py`'s subprocess call, the encoder output, the VMAF score and the probed bit rate arrive as parameters. `VMAFAnalyzer._check_vmaf_support` and the two `run_ffprobe_bitrate` copies are not part of this model.
- The `run_ffprobe_bitrate` queries of `test_vmaf_scores.py` and `plot_compression_efficiency.py` are a parameter returning an optional bit rate. Their float parsing is not modelled.
- `src/utils/file_ops.py`, `main.py` and every `parse_args` are not part of this model. They are file enumeration, display formatting and argument dispatch. Directory listings (`os.walk`, `rglob`, `iterdir`) arrive as parameters.
- Drawing is not modelled: matplotlib and pandas rendering, fonts, the `CompressPercent` ratios, the original-bit-rate map and `human_mb` are left out. Charts are modelled by the sources they are drawn for.
- Floating point: sizes, ratios and scores are Dafny reals or naturals, so binary rounding and the `.4f` and `.2f` rendering are not modelled. `VmafScores.MeasuredCells` records the number of decimals instead of the text.
- Regular expressions are hand-written, end-anchored matchers over ASCII: Unicode digits for `\d`, Unicode case mapping in `lower()` and `strip()`, and `$` matching before a final newline are not modelled.
- Paths follow POSIX `pathlib` rules (only '/' separates). Windows drive letters, `Path.resolve()` and `relative_to(Path.cwd())` are not modelled. `VmafScores` keys a candidate by the normalized form of the path it is given, and `BatchConstQpAq.Validate` takes `resolve` as a parameter.
- `process_files` and `main` in the VMAF tools collect results through `as_completed`, whose order depends on timing. The model keeps the order of the measuring tasks.
- `VideoTask.attempts` is declared but never updated by the source; the model carries it unchanged.
- Encoders.IntelArgs: assumes the input and output paths do not start with '-', which the source does not demand; the assumption keeps a path from being read as an option when the vector is looked up by flag.
- Encoders.NvidiaArgs: assumes the input and output paths do not start with '-', which the source does not demand; the assumption keeps a path from being read as an option when the vector is looked up by flag.
- Encoders.MacArgs: assumes the input and output paths do not start with '-', which the source does not demand; the assumption keeps a path from being read as an option when the vector is looked up by flag.
- Encoders.ArgsShape: assumes the input and output paths do not start with '-', which the source does not demand; the assumption keeps a path from being read as an option when the vector is looked up by flag.
- Encoders.NvidiaQpOnce: assumes the input and output paths do not start with '-', which the source does not demand; the assumption keeps a path from being read as an option when the vector is looked up by flag.
- CompressVideo.BuildCmdShape: assumes the input and output paths do not start with '-', which the source does not demand; the assumption keeps a path from being read as an option when the vector is looked up by flag.
- CompressVideo.BuildCmdQuality: assumes the input and output paths do not start with '-', which the source does not demand; the assumption keeps a path from being read as an option when the vector is looked up by flag.
- BatchIntel.BuildCmdReads: assumes the input and output paths do not start with '-', which the source does not demand; the assumption keeps a path from being read as an option when the vector is looked up by flag.
- BatchIntel.ReadsEveryPair: assumes the input and output paths do not start with '-', which the source does not demand; the assumption keeps a path from being read as an option when the vector is looked up by flag.
- BatchMac.BuildCmdReads: assumes the input and output paths do not start with '-', which the source does not demand; the assumption keeps a path from being read as an option when the vector is looked up by flag.
- BatchMac.ReadsEveryPair: assumes the input and output paths do not start with '-', which the source does not demand; the assumption keeps a path from being read as an option when the vector is looked up by flag.
- BatchQmax.BuildCmdReads: assumes the input and output paths do not start with '-', which the source does not demand; the assumption keeps a path from being read as an option when the vector is looked up by flag.
- BatchQmax.ReadsEveryPair: assumes the input and output paths do not start with '-', which the source does not demand; the assumption keeps a path from being read as an option when the vector is looked up by flag.
- BatchConstQp.BuildCmdReads: assumes the input and output paths do not start with '-', which the source does not demand; the assumption keeps a path from being read as an option when the vector is looked up by flag.
- BatchConstQp.ReadsEveryPair: assumes the input and output paths do not start with '-', which the source does not demand; the assumption keeps a path from being read as an option when the vector is looked up by flag.
- BatchConstQpAq.SwitchReads: assumes the input and output paths do not start with '-', which the source does not demand; the assumption keeps a path from being read as an option when the vector is looked up by flag.
- BatchConstQpAq.AqSwitches: assumes the input and output paths do not start with '-', which the source does not demand; the assumption keeps a path from being read as an option when the vector is looked up by flag.
- BatchConstQpAq.Launch: the parsed `--aq-strength` always has a value (its default is 8), so the sweep is launched with a strength present. The argument-vector builder still takes an optional strength, as its `None` check in the source allows.
- BatchConstQpAq.DefaultOutputDir is `NVENC_QP_Compressed` without the leading `./`, because `pathlib` drops it.
- Sweep.RunSkipsExisting: the skip-if-exists check reads the files present when the sweep starts, plus those it has written so far. A file that another process creates during the sweep is not modelled.
- VideoTasks.Finalize: the branch for a candidate that vanished before its analysis turn (`src/core/scheduler.py:182-184`) cannot be reached in the sequential model. No other actor deletes the candidate between the two turns.
- An ffmpeg run that exits with 0 but writes no output file is not modelled. The stand-in for ffmpeg writes the output whenever it reports success: `CompressVideo.RunOutcome.Succeeded(n)` writes `n` bytes, and a sweep's step adds the output path when the command succeeds. `Sweep.RunFiles` (a successful job's output exists afterwards) and `CompressVideo.CompressedNotLarger` rest on this. In the source, the `stat()` of a missing output raises instead (`CompressScript/compress_video.py:151-152`).
- Vmaf.ScoreSearch: its own contract states only the form of a capture; the leftmost match and the no-match case are stated by `Vmaf.ScoreSearchLeftmost` and `Vmaf.ScoreSearchNoneIff`.
- Vmaf.ScoreText: its own contract states only the form of a capture; the leftmost match and the no-match case are stated by `Vmaf.ScoreTextLeftmost` and `Vmaf.ScoreTextNoneIff`.
- VmafScores.RunVmaf: its own contract states only the failed-exit case; the score after a clean exit is stated by `VmafScores.RunVmafLeftmost` and `VmafScores.RunVmafNoMatch`.
- VmafKeys.NormalizeWith: its own contract states only that the key is a tail of the path; which directory decides the key is stated by `VmafKeys.NormalizeWithFirst` and `VmafKeys.NormalizeWithNoDir`.
- VmafKeys.Normalize: its own contract states only that no '/' is left; the key itself is given by `VmafKeys.NormalizeWithFirst` and `VmafKeys.NormalizeWithNoDir` on the backslash form.
- VmafKeys.NormalizeWithShape: states the shape of the key only; which directory decides it is stated by `VmafKeys.NormalizeWithFirst`.
- VmafKeys.Normalize is not idempotent when the matched directory token occurs again in the key (`VmafKeys.NormalizeNotIdempotent`). The merge therefore compares keys exactly as the source does, and does not assume that normalizing twice changes nothing.
