# Plex preview generator, modelled in Dafny

This project models the core of a Plex video-preview generator. The model follows `src/plex/generator.py` and `scripts/merge.py`.

For every media part of every movie and episode in a Plex library, the generator does three things:

1. It runs ffmpeg to extract one frame every `interval` seconds into a temporary folder.
2. It renames the frames after their timestamps.
3. It packs them into a Roku BIF (Base Index Frames) trick-play file, `index-sd.bif`, in the item's bundle.

The companion script `merge.py` flattens a repository into one text file. The file opens with a listing of the paths, followed by one block per file.

Modules, one per part of the program:

- **`LittleEndian`:** `struct.pack("<I", …)`, which packs a u32 in little-endian order and raises when the value does not fit.
- **`Bif`:** the BIF layout, its writer (`generate_bif`'s loops) and a reader. The reader is proved to recover the images.
- **`Frames`:** ffmpeg's `img-%06d.jpg` names, the `strip`-based frame-number parse and the `{frame*interval:010d}.jpg` timestamp names.
- **`Rename`:** the rename loop of `generate_images`, over the file system.
- **`Output`:** what ffmpeg leaves in the output folder, and how listing, sorting and renaming it behave.
- **`Ffmpeg`:** the filter chain (SDR or HDR), the argument list, and its NVIDIA and AMD (VAAPI) rewrites.
- **`Gpu`:** the `detect_gpu` decision, the two GPU-contention counts and the admission rule.
- **`Paths`:** `os.path.join`, `sanitize_path`, bundle sharding and the derived paths.
- **`FileSystem`:** a file system as a class. Its fields are the files (path to bytes) and the directories. Its methods are the `os`/`shutil` calls the generator makes.
- **`Generator`:** `generate_images` and `generate_bif` as methods on that file system.
- **`Job`:** the per-item loop `process_item`.
- **`Library`:** the section loop `run`.
- **`Merge`:** `get_file_structure` and `merge_files`.
- **`Text`, `Sorting`, `Wrappers`:** Python's `str.replace`, `str.strip`, `int()`, `str()`, `:010d` and `sorted()` on strings, plus `Option`.

Everything the program learns from outside the file system enters as a value:

- MediaInfo's answer.
- The GPU process lists from gpustat and amdsmi.
- The probe results of pynvml, amdsmi and `/dev/dri`.
- What an ffmpeg run returns: its exit code and frames.
- The Plex sections and each item's media parts.
- The settings.

The model follows the code where the code and its documented intent differ:

- **Non-zero ffmpeg exit.** `generate_images` only logs and returns (src/plex/generator.py:160-163). `process_item` therefore still writes a BIF, built from whatever `img-*.jpg` frames ffmpeg left, under their ffmpeg names.
- **Interval 0.** It raises `ZeroDivisionError` inside `generate_images`, so the temporary folder is removed and no BIF is written.
- **BIF header.** The 56 bytes of padding the source writes make a 76-byte header. The table's offsets assume 64 bytes. `generate_bif` and `process_item` are modelled as writing that file, `Bif.BifAsWritten`. `Bif.Bif` is the corrected 64-byte layout, which the reader is proved against. See Findings.
- **Pool size.** A pool of `CPU_THREADS + GPU_THREADS <= 0` workers raises `ValueError` in `run` at the first supported section.
- **`merge.py` exclusions.** A file named `merge.py` is still listed: `EXCLUDED_DIRS` prunes directories only.

## Model

| member | source | states |
|---|---|---|
| LittleEndian.PackU32 | src/plex/generator.py:191-193 | a value below 2^32 packs into four bytes that read back as that value |
| LittleEndian.PackUnpack | src/plex/generator.py:191-193 | any four bytes are the packing of the u32 they read as (packing is onto) |
| Bif.HeaderFields | src/plex/generator.py:184-194 | the file starts with the 8-byte magic, then LE u32 version 0, the image count N and 1000·interval, then zero padding |
| Bif.TableFields | src/plex/generator.py:196-209 | table entry i holds frame number i (the sentinel 0xFFFFFFFF at i = N) and the offset header + 8 + 8N + sizes of images 0..i-1 |
| Bif.OffsetsOrdered | src/plex/generator.py:196-206 | the table's offsets never decrease and never pass the file size, and strictly increase when no image is empty |
| Bif.ImageFields | src/plex/generator.py:211-214 | image i's bytes lie in the file at the offset its entry records (shifted by any padding beyond 44 bytes) |
| Bif.Bif | src/plex/generator.py:182-214 | the BIF with a 64-byte header is exactly as long as the offset its sentinel records |
| Bif.DecodeEncode | src/plex/generator.py:182-214 | reading the BIF back gives version 0, the interval in ms, frame numbers 0..N-1, the layout's offsets and exactly the input images, in order |
| Bif.FramesOfBif | src/plex/generator.py:200-214 | slicing the file between consecutive table offsets gives back the images |
| Bif.BifAsWritten | src/plex/generator.py:189-214 | the file the source writes is 12 bytes longer than the end offset it records |
| Bif.AsWrittenMisplaced | src/plex/generator.py:194-197 | with 56 bytes of padding the header is 76 bytes: the sentinel records a length 12 short and every image starts 12 bytes after its recorded offset |
| Bif.AsWrittenUnreadable | src/plex/generator.py:194-209 | for interval 5 and no images, a reader trusting the 64-byte header finds no sentinel in the file as written |
| Bif.WriteTable | src/plex/generator.py:196-209 | the table loop accumulates frame number and offset per image and ends with the sentinel; it fails exactly when an offset does not fit in a u32 |
| Bif.WritePayload | src/plex/generator.py:211-214 | the payload loop writes the images' bytes concatenated in table order |
| Bif.WriteBif | src/plex/generator.py:189-214 | the writer succeeds exactly when every packed field fits a u32, and then writes the header, table and payload layout |
| Generator.CommandFilter | src/plex/generator.py:106-151 | the filter MediaInfo's HDR answer selects follows `-vf` in the command line: at 15 on the CPU path, at 17 after NVIDIA's inserts; for AMD the list ends with the VAAPI flags and holds the filter rewritten for VAAPI |
| Generator.Truncated | src/plex/generator.py:189 | opening the BIF for writing leaves it empty and touches no other path |
| Generator.GenerateBif | src/plex/generator.py:182-214 | lists the folder's files and subdirectories, keeps the `.jpg` names in sorted order and writes the file as written (56 bytes of padding); it fails exactly when the folder is missing, the BIF cannot be opened (empty path, a directory, or a missing parent directory), a listed `.jpg` name is not a file or a field does not fit; on failure the BIF path is untouched or empty |
| Generator.GenerateImages | src/plex/generator.py:105-177 | raises (ok false, nothing changed, no command run) when MediaInfo fails, the interval is 0 or the GPU query fails; otherwise the command line run is `Command`: the base list with the SDR or HDR filter MediaInfo's answer picks, rewritten for NVIDIA or AMD exactly when the admission rule lets the GPU in, and the hardware flag says so; only the output folder changes; into an existing empty folder it leaves ffmpeg's frames under timestamp names (exit 0) or under ffmpeg's names (other exit codes) |
| Generator.PlaceFrames | src/plex/generator.py:153-177 | after the ffmpeg run nothing outside the folder changes; a non-zero exit returns without raising; into an existing empty folder the frames end under their timestamp names (exit 0) or ffmpeg's names (otherwise) |
| Frames.FrameNumberOfImg | src/plex/generator.py:175 | the `strip`-based parse of ffmpeg's k-th file name gives frame k - 1 |
| Frames.FrameNumberOfDigits | src/plex/generator.py:175 | `img-<digits>.jpg` parses to the digits' value minus one |
| Frames.NewNameNotGlob | src/plex/generator.py:174-177 | a timestamp name never matches `img*.jpg` |
| Frames.NewNameInjective | src/plex/generator.py:176-177 | for a non-zero interval, distinct frames get distinct timestamp names |
| Frames.NewNameOrder | src/plex/generator.py:176-177 | for a positive interval and timestamps below 10^10, name order is frame order |
| Frames.TimeNamesSorted | src/plex/generator.py:176-177 | the timestamp names of frames 0..n-1 are in sorted order |
| Frames.SortTimeNames | src/plex/generator.py:187 | sorting any arrangement of the timestamp names restores frame order |
| Rename.RenameFrames | src/plex/generator.py:174-177 | the rename loop's final files and success are those of renaming each `img*.jpg` name in turn to its timestamp name |
| Rename.RenameApart | src/plex/generator.py:174-177 | when sources and targets do not collide, the loop succeeds exactly when every name parses, and each frame then arrives at its timestamp name |
| Rename.RenameInside | src/plex/generator.py:174-177 | renaming never changes a path outside the output folder |
| Output.WriteFrames | src/plex/generator.py:126 | ffmpeg's frames land at `img-000001.jpg`, `img-000002.jpg`, … in the folder, and nothing else changes |
| Output.FreshOutput | src/plex/generator.py:126 | into an empty folder, the folder holds exactly ffmpeg's frames under `img-%06d.jpg` names |
| Output.RenameFresh | src/plex/generator.py:173-177 | renaming a fresh output succeeds and leaves exactly the frames under their timestamp names; paths outside the folder do not change |
| Output.HoldsListing | src/plex/generator.py:187 | listing a folder that holds exactly the given names returns those names |
| Output.GlobNames | src/plex/generator.py:174 | `glob` of `img*.jpg` keeps exactly the listed names that match |
| Output.JpgNames | src/plex/generator.py:187 | the `.jpg` filter keeps exactly the listed names ending in `.jpg` |
| Output.ImgNameOrder | src/plex/generator.py:126 | below a million frames, ffmpeg's names sort in frame order |
| Output.ImgNamesListable | src/plex/generator.py:126 | below a million frames, ffmpeg's names are distinct, sorted plain `.jpg` names |
| Output.TimeNamesListable | src/plex/generator.py:176-177 | for a positive interval and timestamps below 10^10, the timestamp names are distinct, sorted plain `.jpg` names |
| Output.SortedListing | src/plex/generator.py:187 | in whatever order the folder is listed, `sorted` of its `.jpg` names is frame order and the images read are the frames |
| Ffmpeg.Filter | src/plex/generator.py:108-119 | the filter chain starts with the fps stage and ends with the 320x240 scale stage |
| Ffmpeg.BaseArgs | src/plex/generator.py:121-127 | the 17 arguments hold `-i` and the video at 7-8, `-vf` and the filter at 14-15, and the output pattern last |
| Ffmpeg.BuildArgs | src/plex/generator.py:130-151 | hardware acceleration is used exactly for a detected GPU admitted by `count < GPU_THREADS or CPU_THREADS == 0`; otherwise the list is unchanged; NVIDIA inserts `-hwaccel cuda` at 5 and 6; AMD appends the VAAPI flags and rewrites the element after `-vf` |
| Ffmpeg.NvidiaLayout | src/plex/generator.py:138-139 | after the inserts, `-hwaccel cuda` sit at 5-6 ahead of `-threads:0` and `-i`, and the rest is shifted by two |
| Ffmpeg.AmdLayout | src/plex/generator.py:145-151 | the first `-vf` is at 14, only the filter at 15 changes, and the VAAPI flags end the list |
| Ffmpeg.VaapiFilter | src/plex/generator.py:147-150 | the rewrite replaces exactly the final scale stage with the VAAPI upload and scale chain, for SDR and HDR |
| Gpu.FirstRender | src/plex/generator.py:75-78 | finds the first `/dev/dri` entry starting with `renderD`, or reports that none does |
| Gpu.DetectGpuDecision | src/plex/generator.py:44-85 | NVIDIA exactly when pynvml counts a device; otherwise the first `renderD` entry of `/dev/dri` exactly when amdsmi reports a GPU; otherwise none |
| Gpu.NvidiaCountMeaning | src/plex/generator.py:133-134 | the NVIDIA count is bounded by the process count and is 0 exactly when no lowercased command contains `ffmpeg` |
| Gpu.AmdOverMembers | src/plex/generator.py:95-99 | a process is collected exactly when it is on one of the GPUs and its lowercased name starts with `ffmpeg` |
| Gpu.AmdFfmpegProcesses | src/plex/generator.py:87-103 | the loop collects the fold over all GPUs, and only ffmpeg processes |
| Paths.JoinRelative | src/plex/generator.py:247-250 | joining a relative component puts a single slash between the parts |
| Paths.JoinAbsolute | src/plex/generator.py:247-250 | an absolute second component discards the first |
| Paths.Sanitize | src/plex/generator.py:216-218 | on Windows every backslash becomes a slash and nothing else changes; elsewhere the path is unchanged |
| Paths.SanitizeIdempotent | src/plex/generator.py:216-218 | a sanitized path has no backslash on Windows, and sanitizing twice is sanitizing once |
| Paths.BundleFile | src/plex/generator.py:241-245 | a non-empty hash h shards to `h[0]/h[1:].bundle`; the empty hash raises |
| Paths.DerivePaths | src/plex/generator.py:241-250 | the paths exist exactly when the hash is non-empty |
| Paths.BifInIndexes | src/plex/generator.py:248-249 | the BIF is `index-sd.bif` directly in the indexes directory |
| Paths.BifPathLayout | src/plex/generator.py:242-249 | the BIF path is `<media>/localhost/h[0]/h[1:].bundle/Contents/Indexes/index-sd.bif` |
| FileSystem.FileSystem.MakeDirs | src/plex/generator.py:255-256 | creates the directory and its ancestors unless a file is in the way; files are untouched |
| FileSystem.FileSystem.RemoveTree | src/plex/generator.py:262 | removes the directory and everything below it, and does nothing when it is not a directory |
| FileSystem.FileSystem.Remove | src/plex/generator.py:268-269 | removes exactly an existing file |
| FileSystem.FileSystem.Rename | src/plex/generator.py:177 | moves a file's bytes to the target, replacing any file there, unless the target is a directory |
| FileSystem.FileSystem.WriteFile | src/plex/generator.py:189 | writes the bytes exactly when the path is not empty, not a directory and its parent directory exists; otherwise nothing changes |
| FileSystem.FileSystem.ListDir | src/plex/generator.py:187 | lists each file and each subdirectory directly in the directory once, in no promised order |
| FileSystem.DistinctListings | src/plex/generator.py:187 | two listings of the same folder are permutations of each other |
| Job.ProcessPart | src/plex/generator.py:224-273 | skips exactly a part without hash, filtered out, without media file, with empty hash or with an existing BIF, and then changes nothing; every generation path removes the temporary folder; failed images leave no BIF; a failed BIF leaves nothing at the BIF path; after a generation the part is skipped next time; a skipped part runs no command line, any other runs `generate_images`' `Command` for its media file and temporary folder; into an empty temporary folder the BIF written is the as-written file of ffmpeg's frames in frame order |
| Job.Generate | src/plex/generator.py:252-273 | the generation branch: directories made, images generated, BIF written, temporary folder removed, with the same guarantees per outcome; the BIF written is the as-written file; any command line run is `generate_images`' `Command` for the media file and the temporary folder |
| Job.Attempt | src/plex/generator.py:258-273 | once both folders exist: the command line run is `Command` whenever `generate_images` gets that far, the temporary folder is removed, and the BIF outcome is as for Job.Generate |
| Job.WriteAndClean | src/plex/generator.py:265-273 | `generate_bif` then the `finally` removal: the temporary folder is gone, a failed BIF is removed, no other file disappears, and sorted frames give their as-written BIF |
| Job.FramesForBif | src/plex/generator.py:187 | the sorted `.jpg` listing of a folder holding sorted frames is those frames, still readable after the BIF is truncated |
| Job.ProcessItem | src/plex/generator.py:220-273 | a failed tree query raises; one step per part until the first exception, which ends the item; step i belongs to part i: no hash skips, a filtered part skips, a hash without media file raises, and an attempt has hash, file and paths; parts that all skip change nothing |
| Library.MediaKeysMembers | src/plex/generator.py:277-291 | a key is submitted exactly when a movie or episode section lists it |
| Library.RunSection | src/plex/generator.py:290-296 | every key of the section is processed in submission order; a failed tree query is logged as a failure; an all-skipping section changes nothing |
| Library.Run | src/plex/generator.py:275-296 | raises exactly when the pool size is not positive and a supported section exists, changing nothing; otherwise one outcome per submitted key in order, whatever the others did |
| Sorting.Sort | src/plex/generator.py:187 | `sorted()` returns a sorted permutation |
| Sorting.SortedUnique | src/plex/generator.py:187 | two sorted permutations of the same names are equal |
| Sorting.SortPermutation | src/plex/generator.py:187 | the sorted result depends only on which names there are, not on listing order |
| Sorting.SortSorted | src/plex/generator.py:187 | sorting sorted names changes nothing |
| Text.ParseDigits | src/plex/generator.py:175 | `int()` of a digit string is its decimal value |
| Text.Decimal | src/plex/generator.py:177 | zero-padded decimal is at least as wide as asked, all digits, and denotes the value |
| Text.DecimalInjective | src/plex/generator.py:177 | distinct values give distinct zero-padded decimals |
| Text.DecimalOrder | src/plex/generator.py:177 | at a fixed width, lexicographic order of zero-padded decimals is numeric order |
| Text.StripLeftShape | src/plex/generator.py:175 | `lstrip` with a character set removes the longest prefix made of those characters |
| Text.StripRightShape | src/plex/generator.py:175 | `rstrip` with a character set removes the longest suffix made of those characters |
| Text.ReplaceAbsent | src/plex/generator.py:233-235 | `replace` leaves a string without the pattern unchanged |
| Text.ReplaceChar | src/plex/generator.py:218 | replacing one character by another maps each position independently |
| Text.ReplaceEmptyLength | src/plex/generator.py:233-235 | replacing the empty string inserts the replacement at every one of the n + 1 positions |
| Text.ReplaceSkip | src/plex/generator.py:147-150 | text that cannot start the pattern passes through `replace` unchanged |
| Merge.AppendFiles | scripts/merge.py:39-46 | the file loop appends each file's path but the output file's |
| Merge.GetFileStructure | scripts/merge.py:19-47 | the walk returns the top-down pre-order listing of the tree with excluded directory names pruned |
| Merge.OutputNeverListed | scripts/merge.py:40-42 | no listed path is named `merged_repository.txt` |
| Merge.TopFilesListed | scripts/merge.py:39-46 | every file of a walked directory other than the output file is listed |
| Merge.MergeScriptListed | scripts/merge.py:17 | a top-level file `merge.py` is listed although `merge.py` is in `EXCLUDED_DIRS` |
| Merge.ExcludedPruned | scripts/merge.py:35-37 | nothing below a subdirectory with an excluded name is listed |
| Merge.ListedBelow | scripts/merge.py:43-45 | every path listed from a directory starts with that directory's path |
| Merge.MergeFiles | scripts/merge.py:49-78 | the output is the title, the rule, the listing, a blank line and one block per path, in listing order |
| Merge.ListingLines | scripts/merge.py:61-63 | splitting the listing at newlines gives back the paths, in order |
| Merge.BlockOf | scripts/merge.py:66-78 | each path's block is `===== p =====\n`, its content and `\n\n`, placed between the blocks of the paths before and after it |

## Left out

- Plex connection and queries (`requests`, `plexapi`, `sys.exit`): the sections, their item keys and each item's media parts enter as data.
- pynvml, amdsmi, gpustat and MediaInfo: their results enter as probe values, process-name lists and an HDR value; exceptions inside `detect_gpu` are folded into "no result".
- The ffmpeg subprocess, `time.sleep`, wall-clock timing, the `speed=` parse, `insert_metric` and all logging. An ffmpeg run is a value (exit code, frames written).
- `round(1 / interval, 6)` is floating point: the fps text is a setting. Only its division by zero at interval 0 is modelled.
- `ProcessPoolExecutor`: items run one after another in submission order. The Windows limit of 61 workers is not modelled.
- Generator.GenerateBif: on failure the BIF path is stated to be untouched or empty, not which partial bytes the source wrote before raising.
- Generator.GenerateImages: states the folder's final contents only when it exists and starts empty. Leftover files from an earlier run are covered only by "nothing outside the folder changes".
- Job.ProcessPart: the BIF's content is stated only for an empty temporary folder, and only when the names sort in frame order: timestamps below 10^10 after exit code 0, fewer than a million frames after any other exit code.
- Rename.RenameFrames: a directory whose name matches `img*.jpg` makes the modelled rename fail, where `os.rename` would move the directory.
- FileSystem.FileSystem.Rename: does not check that the target's parent directory exists; every target in the program lies in the folder being renamed in.
- Paths are taken as normalised strings. `os.path.join` follows POSIX rules on both systems; `ntpath` joining on Windows is not modelled.
- `int()` accepts optional sign and ASCII digits only. Surrounding whitespace, underscores and non-ASCII digits are treated as a `ValueError`.
- `str.lower` folds ASCII letters only.
- merge.py: `os.walk` is a directory tree given as data, in the order the walk reports entries. `normpath` is applied only as the stripping of the leading `./`. File contents are given as strings, so the UTF-8 reading and its replacement decoding are not modelled. `main`'s printing is left out.
- src/config/settings.py, src/metrics/db.py, src/metrics/webserver.py and src/config/logger.py are not part of this model. The settings are parameters.

## Findings

| source | as written | input that shows it | evidently intended | confidence | as-written member | corrected member |
|---|---|---|---|---|---|---|
| src/plex/generator.py:194-197 | 56 zero bytes follow the 20 bytes of fields, giving a 76-byte header, while `image_index = 64 + table` assumes 64 | interval 5 with no images: the reader expects the sentinel at byte 64 but finds zero padding; for any images every recorded offset is 12 bytes short | 44 bytes of padding, so that the header is 64 bytes and the offsets hold | not executed | Bif.AsWrittenMisplaced | Bif.DecodeEncode |
