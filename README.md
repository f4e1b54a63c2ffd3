# ZIP image converter: a Dafny model

`img_converter.py` is a small desktop tool. It takes a ZIP archive and
converts every JPG and PNG image inside to WebP or AVIF at a chosen quality.
All other entries are copied unchanged, and the result is written to a new
ZIP archive. A worker thread does the conversion and reports through a
progress queue; the window's consumer takes the events off that queue and
updates a progress bar, a percentage label and a status line.

This project models the logic under that tool and proves what it promises:

- **Quality check** (module `Quality`). The quality text is read with
  Python's `int()`, modelled in `Numerals` with ASCII whitespace, an optional
  sign and `_` digit separators. It is accepted when the integer is between 1
  and 100; otherwise it is reset to `"80"`.
- **Naming rules** (modules `PosixPath` and `Naming`):
  - the POSIX `os.path.split`, `splitext`, `basename` and `join`;
  - which archive entries are images;
  - the name of a converted image;
  - the output archive name proposed from the input archive name.
- **Image discovery** (module `Discovery`):
  - the task list built while walking the extracted files;
  - the set of entries a successful job packs.
- **The application object** (module `Converter`, class `App`). It holds:
  - the window's settings;
  - the shared `running` flag;
  - the two counters;
  - the progress queue (a `seq` of events);
  - the scratch directory, as a set of relative paths;
  - what the window shows.

  Its methods are the start and cancel buttons, the per-image conversion and
  the conversion job. The job is run sequentially. The user's cancel arrives
  just before check number `cancelBefore` of the pool loop. The job's
  behaviour is stated against specification functions (`JobEvents`,
  `RunEvents`, `ConversionEvents`, `JobArchive`).
- **The consumer** (module `Events`, and `App.Handle`, `App.ConsumeNext` and
  `App.DrainQueue`). It works on a four-field view of the window: the bar,
  the label, the status line and `running`.
- **Whole-job properties** (module `Jobs`).

The image library is a `Codec` value. It says which files fail to open, and
which fail to save at a given quality, and with what message. The input
archive is an `Input`: missing, unreadable with a message, or extracted into
its files' relative paths in walk order. A failure while packing is a
`packError` parameter.

## Model

| member | source | states |
|---|---|---|
| Numerals.IntToString | img_converter.py:151 | `str()` of an integer: `-` before the digits of a negative value, the digits of `NatToString` otherwise (definition) |
| Numerals.ParseInt | img_converter.py:132 | `int()` of a text: whitespace stripped, one optional sign, then decimal digits with single `_` separators between them; anything else is the `ValueError` (`None`) (definition; its properties are the `Parse*` lemmas below) |
| Numerals.NatToString | img_converter.py:239-242 | `str()` of a count is a non-empty run of decimal digits with no leading zero |
| Numerals.StripLeadingRemovesSpace | img_converter.py:132 | stripping leading whitespace before `int()` removes exactly a whitespace prefix and stops at the first other character |
| Numerals.StripTrailingRemovesSpace | img_converter.py:132 | stripping trailing whitespace before `int()` removes exactly a whitespace suffix and stops at the last other character |
| Numerals.RunValueOfNatToString | img_converter.py:132 | the value of the digits `str(n)` writes is `n` |
| Numerals.StripPadded | img_converter.py:132 | whitespace around a text that starts and ends with something else is what `int()` strips |
| Numerals.ParseDecimal | img_converter.py:132 | `int()` reads every decimal numeral back, with surrounding whitespace and an optional `+` or `-` sign |
| Numerals.ParseUnsignedDecimal | img_converter.py:132 | `int()` of a padded unsigned numeral is its value |
| Numerals.ParseSignedDecimal | img_converter.py:132 | `int()` of a padded signed numeral is its value, negated for `-` |
| Numerals.ParseIntToString | img_converter.py:132 | `int(str(v)) == v` for every integer |
| Numerals.ParseNatural | img_converter.py:132 | `int(str(n)) == n` for every natural number |
| Numerals.ParseNegative | img_converter.py:132 | `int("-" + str(n)) == -n` for every natural number, `"-0"` included |
| Numerals.NoDigitNoInt | img_converter.py:131-138 | a text without a digit is never an integer, so it raises `ValueError` |
| Numerals.LeadingStrayNoInt | img_converter.py:132 | a text that starts with a character other than whitespace, a sign, a digit or `_` raises `ValueError`; the ASCII information separators 0x1C-0x1F are such characters |
| Quality.Validate | img_converter.py:129-142 | accepted exactly when `int()` reads an integer in 1..100; the text is kept when accepted and becomes "80" otherwise |
| Quality.AcceptsEveryQuality | img_converter.py:129-142 | every quality 1..100, with or without `+` and with any surrounding whitespace, is accepted and kept as written |
| Quality.RejectsOutOfRange | img_converter.py:133-142 | every integer outside 1..100 is rejected and the text reset to "80" |
| Quality.RejectsSeparatorPadding | img_converter.py:129-142 | a quality text led by one of 0x1C-0x1F is rejected and reset to "80", since `int()` never skips those characters |
| Quality.ValidatedTextValidates | img_converter.py:129-142 | whatever the check leaves in the field passes the next check unchanged |
| PosixPath.Split | img_converter.py:124 | `os.path.split`: the tail after the last slash, the head before it with its trailing slashes removed unless it is all slashes (definition) |
| PosixPath.Basename | img_converter.py:177 | `os.path.basename`: what follows the last slash (definition) |
| PosixPath.Join | img_converter.py:127 | `os.path.join` of two components: an absolute second component replaces the first; otherwise one slash is put between them unless the first is empty or ends in a slash (definition) |
| PosixPath.SplitExt | img_converter.py:125 | `os.path.splitext`: the extension runs from the last dot of the last component when a non-dot comes before that dot in the component (definition) |
| PosixPath.LastIndexOf | img_converter.py:124-125 | the position `rfind` returns is -1 or an index of the text |
| PosixPath.LastIndexOfFacts | img_converter.py:124-125 | the position found holds the character and no later position does |
| PosixPath.StripTrailingSlashes | img_converter.py:124 | `rstrip('/')` never lengthens the text |
| PosixPath.StripTrailingSlashesFacts | img_converter.py:124 | `rstrip('/')` keeps a prefix, removes only slashes and leaves no slash at the end |
| PosixPath.SplitFacts | img_converter.py:124 | `split` returns a possible directory part and a tail without a slash |
| PosixPath.SplitReassembles | img_converter.py:124 | head, the separating slashes and tail put the path back together, and the tail is what follows the last slash |
| PosixPath.SplitJoin | img_converter.py:124-127 | `split` undoes `join` of a directory and a plain file name |
| PosixPath.SplitExtFacts | img_converter.py:125 | `splitext` cuts the path in two; the extension is empty or starts with a dot, and no dot or slash follows the cut |
| PosixPath.SplitExtOfName | img_converter.py:125 | on a file name, `splitext` cuts at a dot only when a non-dot comes before it, and finds no extension only when no dot follows a non-dot |
| Naming.Lower | img_converter.py:126 | `lower()`: each ASCII capital becomes its small letter (definition) |
| Naming.IsImageName | img_converter.py:221-225 | a file name whose lower-cased form ends in `.jpg`, `.jpeg` or `.png` (definition) |
| Naming.IsImageEntry | img_converter.py:223-225 | an extracted file is converted when its last path component is an image name (definition) |
| Naming.ConvertedPath | img_converter.py:226-228 | the converted file: the image's directory joined with its `splitext` stem, a dot and the lower-cased format (definition) |
| Naming.DefaultOutputPath | img_converter.py:119-127 | the proposed output path: unchanged for an empty input path, otherwise the input's directory joined with stem + `_` + lower-cased format + extension (definition) |
| Naming.LowerOfLowercase | img_converter.py:126 | `lower()` leaves text without capital letters unchanged |
| Naming.ImageExtensionAnyCase | img_converter.py:221-222 | a name ending in `.jpg`, `.jpeg` or `.png` in any letter case is an image |
| Naming.ImageExtension | img_converter.py:221-222 | a name ending in one of the three extensions as written is an image |
| Naming.TargetNameIsNotImage | img_converter.py:221-226 | a name ending in `.webp` or `.avif` is never an image |
| Naming.ConvertedPathParts | img_converter.py:223-226 | a converted file keeps its image's directory, is named by the image's stem (case kept), a dot and the lower-cased format, and is never itself an image |
| Naming.ConvertedNameFacts | img_converter.py:226 | joining a directory and `stem.<format>` splits back into both, ends in the format and is not an image name |
| Naming.DefaultOutputPathParts | img_converter.py:119-127 | an empty input path leaves the output path as it is; otherwise the output is in the input's directory, named stem + `_` + lower-cased format + extension |
| Naming.SplitExtOfStemAndExt | img_converter.py:125 | `splitext` of a stem with a non-dot and a one-dot extension gives both back |
| Naming.ConvertedPathOfImage | img_converter.py:223-226 | the image `dir/name.ext` is converted to `dir/name.<format>` |
| Naming.DefaultOutputPathOfArchive | img_converter.py:119-127 | the input archive `dir/name.ext` proposes the output `dir/name_<format>.ext` |
| Discovery.Tasks | img_converter.py:220-229 | the walk's image files in order, each paired with its converted path (definition) |
| Discovery.PackedEntries | img_converter.py:256-268 | what a successful job packs: every extracted file that is not an image and the converted path of every image (definition) |
| Discovery.TasksAreImages | img_converter.py:221-227 | every task is an extracted image paired with its converted path, and there are no more tasks than files |
| Discovery.TaskSets | img_converter.py:221-227 | the tasks' sources are exactly the image files and their targets exactly the converted names |
| Discovery.NoTasksIffNoImages | img_converter.py:221-233 | the job finds nothing to convert exactly when no extracted file is an image |
| Discovery.Discover | img_converter.py:220-227 | the collecting loop builds exactly the image tasks, in walk order |
| Discovery.SourcesBeforeIsPrefix | img_converter.py:257-259 | deleting sources one task at a time deletes the sources of the tasks seen so far |
| Discovery.TargetsBeforeIsPrefix | img_converter.py:247-250 | writing targets one task at a time writes the targets of the tasks converted so far |
| Discovery.PackedEntriesHoldNoImages | img_converter.py:256-270 | a successfully packed archive holds no JPG or PNG image |
| Discovery.ScratchAfterConversion | img_converter.py:256-270 | the extracted and converted files, less the images, are the packed entries; no converted file is deleted with the originals |
| Discovery.ScratchAfterRemoval | img_converter.py:256-270 | the scratch directory after converting all tasks and deleting their sources holds exactly the packed entries |
| Discovery.SimpleImage | img_converter.py:221-226 | a top-level `stem.png` or `stem.jpg` is an image and becomes `stem.<format>` |
| Discovery.TextFile | img_converter.py:221-222 | a top-level `stem.txt` is not an image |
| Discovery.PhotosExample | img_converter.py:256-270 | an archive of `a.png`, `b.jpg` and `notes.txt` packs `a.<format>`, `b.<format>` and `notes.txt` |
| Discovery.PackedOfThree | img_converter.py:256-270 | two images and one other file pack the two converted names and the other file |
| Discovery.ConvertedNamesCollide | img_converter.py:221-226 | `x.png` and `x.jpg` are both converted to `x.<format>`, so the archive gets one entry for the two images |
| Events.PercentLabel | img_converter.py:151 | the label for a bar value: `int()` of the value followed by `%` (definition) |
| Events.Render | img_converter.py:148-165 | one event on the window: progress sets the bar and label, status the status line, complete and error their status and stop the run (definition) |
| Events.RenderAll | img_converter.py:144-166 | the events taken off the queue oldest first, each rendered in turn (definition) |
| Events.Trunc | img_converter.py:151 | `int()` of a float rounds toward zero |
| Events.LabelReadsBack | img_converter.py:151 | the label is the integer part of the bar value followed by `%`, and `int()` reads that integer back |
| Events.RenderOne | img_converter.py:148-165 | progress moves only the bar and label; status only the status line; complete and error set their status and stop the run |
| Events.LabelTracksProgress | img_converter.py:149-151 | consuming events keeps the label in step with the bar |
| Events.NoProgressKeepsBar | img_converter.py:149-151 | without a progress event the bar and label stay as they were |
| Events.LatestProgressWins | img_converter.py:149-151 | the bar shows the latest progress value and the label its integer part |
| Events.NoStatusKeepsLine | img_converter.py:152-165 | without a status-writing event the status line stays |
| Events.LatestStatusWins | img_converter.py:152-165 | the status line shows what the latest status-writing event writes |
| Events.RunningUntilTerminal | img_converter.py:154-164 | after a run of events the application is running exactly when it was before and none of the events was complete or error |
| Events.RenderAllConcat | img_converter.py:144-166 | consuming two runs of events in turn is consuming their concatenation |
| Events.FinishedScreen | img_converter.py:149-158 | events ending in a progress value, a status line and the complete event leave that bar value, the finished status and a stopped run |
| Converter.ReadLevel | img_converter.py:182 | the quality a conversion reads: `int()` of the current quality text, or the text itself when `int()` raises (definition) |
| Converter.ConversionError | img_converter.py:180-188 | a conversion fails with the opening error, else the `int()` error on the quality text, else the saving error, if any (definition) |
| Converter.StepEvents | img_converter.py:171-200 | one conversion queues the processing status and then the new percentage, or the failure that stops the run (definition) |
| Converter.ConversionEvents | img_converter.py:244-251 | a run over the first `n` tasks queues each task's two events up to and including the first failure (definition) |
| Converter.RunEvents | img_converter.py:235-274 | a run over the images found queues the reset bar, the count, the conversions and, when every image converted without a cancel, the packing events (definition) |
| Converter.PackEvents | img_converter.py:261-280 | packing queues its status, then complete with the output path or the packing error (definition) |
| Converter.JobEvents | img_converter.py:202-285 | a job queues the missing-input error, or the unpacking status and then the extraction error, the no-images error or the run (definition) |
| Converter.JobArchive | img_converter.py:253-274 | a job writes an archive, of the packed entries, exactly when it extracts images that all convert without a cancel and packing succeeds (definition) |
| Converter.Percent | img_converter.py:191-192 | the progress after `done` of `total` images lies in 0..100 and is 100 exactly when all are done |
| Converter.StepShape | img_converter.py:169-200 | one conversion queues the processing status, then the new percentage or an error |
| Converter.ConversionProgressInRange | img_converter.py:191-193 | every progress value a run reports is in 0..100 |
| Converter.ConversionTerminalLast | img_converter.py:195-200 | a run's only terminal event is its last, an error, present exactly when a conversion failed |
| Converter.ConversionEncodedRun | img_converter.py:189-193 | a run without failure queues two events per image and ends on its final percentage |
| Converter.ConversionEventsStop | img_converter.py:171-172 | after the first failure the remaining tasks queue nothing |
| Converter.ConvertedCount | img_converter.py:191 | the images counted among the first `n`, which is never more than `n` |
| Converter.ConvertedCountFacts | img_converter.py:171-200 | every task before the count converts, and when the count falls short the task at the count fails: the counter stops at the first failure |
| Converter.ConvertedCountNext | img_converter.py:189-200 | in a run without failure so far, the next task is counted, and its converted file written, exactly when it converts |
| Converter.ConvertedCountStop | img_converter.py:171-172 | tasks after the first failure add nothing to the count |
| Converter.ConvertedCountOfConverted | img_converter.py:246-254 | a run in which every image converted counts every image |
| Converter.StoppedRun | img_converter.py:246-254 | a stopped run ends at the cancel, or at the check after the first failure, with the events and count of the run up to there, and reaches the cancel exactly when it stopped there |
| Converter.App.constructor | img_converter.py:14-83 | a fresh window: no paths, WebP at quality "80", zero counters, an empty queue, the bar at 0 with label "0%", the ready status, not running |
| Converter.App.ValidateQuality | img_converter.py:129-142 | returns the check's verdict, and only the quality text changes, to what the check leaves |
| Converter.App.UpdateOutputSuffix | img_converter.py:119-127 | only the output path changes, to the path proposed from the input path and format |
| Converter.App.Start | img_converter.py:287-308 | a job starts exactly when the quality is accepted and both paths are chosen; it then runs in an empty scratch directory |
| Converter.App.Cancel | img_converter.py:310-315 | a confirmed cancel stops the run and shows the cancelling status; otherwise nothing changes |
| Converter.App.ConvertImage | img_converter.py:169-200 | when stopped, does nothing; otherwise queues the processing status, then counts the image, writes its file and queues the percentage, or queues the error and stops the run |
| Converter.App.ConvertTask | img_converter.py:247-250 | one pool step extends the queued run by that task's events and keeps the run going exactly when the task converts; it then counts the image and writes its converted file, and otherwise leaves the counter and the scratch directory as they were |
| Converter.App.RunConversions | img_converter.py:244-254 | the pool loop queues exactly the run's events; it counts the images converted before the first failure or cancel and writes exactly their converted files; afterwards the job is running exactly when nothing was cancelled and every image converted, and then all images are counted and every converted file is written |
| Converter.App.BackgroundProcess | img_converter.py:202-285 | the job queues `JobEvents` and packs `JobArchive`; the scratch directory is removed on every path; after a run the total is the number of images found, the processed count is `ConvertedCount` of the run, equal to the total when the run is still going, and the running state and status are those of the run |
| Converter.App.ProcessFiles | img_converter.py:216-285 | no images: one error event, the counters untouched and the run still going; otherwise the events, archive, counters and running state of the run over the images found |
| Converter.App.ConvertAndPack | img_converter.py:235-277 | the total set to the images found and the processed count to those converted before the first failure or cancel, the run's events queued, and the archive packed exactly when every image converted and packing succeeded |
| Converter.App.FinishRun | img_converter.py:253-285 | a stopped run packs nothing and queues nothing; a running one packs exactly the packed entries and queues the packing status and outcome |
| Converter.App.RemoveOriginals | img_converter.py:256-259 | exactly the sources still present are removed from the scratch directory |
| Converter.App.Pack | img_converter.py:261-285 | queues the packing status then complete with the output path, or the packing error; the archive holds the scratch directory's files |
| Converter.App.Handle | img_converter.py:148-165 | the window changes as `Render` says, and nothing else |
| Converter.App.ConsumeNext | img_converter.py:146-165 | takes the oldest event, if any, off the queue and renders it |
| Converter.App.DrainQueue | img_converter.py:144-166 | empties the queue, leaving the window as `RenderAll` of the queued events says |
| Jobs.ConversionNeverCompletes | img_converter.py:169-200 | converting images never queues the complete event |
| Jobs.RunEndsOnce | img_converter.py:235-277 | a run's events end with one terminal event, with none before it, unless a cancel stopped it before any failure |
| Jobs.JobEndsOnce | img_converter.py:202-285 | every job ends with one complete or error event, with none before it, unless a cancel stopped it before any failure |
| Jobs.RunCompletesIffPacked | img_converter.py:253-274 | a run ends with complete exactly when every image converted, nothing was cancelled and packing succeeded |
| Jobs.ArchiveIffComplete | img_converter.py:202-285 | a job ends with complete, carrying the output path, exactly when it packs an archive |
| Jobs.JobProgressInRange | img_converter.py:236-238 | every progress value a job reports is in 0..100 |
| Jobs.FullLabel | img_converter.py:151 | the label for a full bar is "100%" |
| Jobs.ConvertedRunEnd | img_converter.py:253-274 | a fully converted run that packs ends with progress 100, the packing status and complete |
| Jobs.SuccessfulJobEnd | img_converter.py:202-285 | a job that packs ends with progress 100, the packing status and complete with the output path |
| Jobs.SuccessfulJobScreen | img_converter.py:144-166 | after a successful job the window shows 100, "100%", the finished status and a stopped run |
| Jobs.JobScreen | img_converter.py:144-166 | after a job's events the window still runs exactly when a clean cancel stopped the job; a failed job leaves the failure status |

## Left out

- The tkinter window, its widgets, dialogs, message boxes and button states,
  `create_widgets`, `select_input`, `select_output`, `on_close` and the
  AVIF-support probe at start-up. They are user interface. The two
  `messagebox` errors in `start_process` are only the `false` result of
  `App.Start`.
- Threads and timing. The model leaves out:
  - the worker thread;
  - the thread pool and `executor.shutdown`;
  - the unsynchronised `processed_files += 1`;
  - the consumer's `while True` loop with `time.sleep(0.1)`.

  The job runs sequentially, one conversion after another, with the user's
  cancel at a chosen check (`cancelBefore`). Interleavings the pool allows
  are not modelled. Examples: conversions finishing out of order, a cancel
  landing in the middle of a conversion, the consumer running between two
  puts.

  The source runs up to `min(os.cpu_count() or 4, total_files)` conversions
  at once (lines 245-251), and the running check at line 171 stops only the
  conversions that have not passed it yet. So, unlike in the model:
  - a conversion already under way when another fails still finishes; it
    raises `processed_files` and queues a progress event after the error;
  - a second concurrent failure queues a second error event;
  - a conversion that passes line 171 just before a failure sets `is_running`
    to false can queue its processing status after the error, so the window
    does not end on the failure status.

  These rows therefore hold for the sequential run only:
  `Converter.ConversionTerminalLast`, `Converter.ConversionEventsStop`,
  `Converter.ConvertedCountFacts`, `Converter.ConvertedCountStop`,
  `Converter.StoppedRun`, `Jobs.RunEndsOnce`, `Jobs.JobEndsOnce` and
  `Jobs.JobScreen`.
- Edits of the quality field while a job runs. Each conversion reads the
  quality text afresh, and so does `App.ConvertImage`; but nothing in the
  model changes that text during a job.
- PIL's `Image.open` and `save` and their AVIF option. They are replaced by
  the `Codec` value.
- Filesystem and ZIP I/O: extraction, the directory walk, `os.remove`,
  `tempfile.mkdtemp`, `shutil.rmtree` and the ZIP writer. The scratch
  directory is a set of relative paths. Extraction's result is an `Input`.
  A failure while writing the archive is `packError`. The model does not
  capture the following:
  - a partially written archive or a partial extraction;
  - errors from `os.remove`;
  - the relation between archive entry names and the walk of `temp_dir`
    beyond the set of relative paths;
  - a converted file that overwrites an entry already in the archive (it is
    one entry of the set).
- Unicode. `int()` and `lower()` are modelled on ASCII: Unicode digits and
  whitespace in the quality field, and non-ASCII capitals in file names, are
  treated as other characters. Of the ASCII characters, `int()` skips only
  tab, line feed, vertical tab, form feed, carriage return and the space, as
  the model does. A text holding a non-ASCII character is first rewritten by
  Python, every non-ASCII whitespace character becoming a space and every
  non-ASCII decimal digit its ASCII digit; the model does not do that
  rewriting.
- Floating point. Progress values are exact `real`s; the float rounding of
  `processed/total*100` is not modelled.
- Converter.App.BackgroundProcess: requires `running` and an empty scratch
  directory. Those are the state `App.Start` leaves before it launches the
  job; a job launched otherwise is not modelled.
- Converter.App.ConvertImage: its `level` parameter is ghost and must equal
  the reading of the current quality text. The method itself computes the
  quality from the text, as the source does.
- Windows path separators: paths are POSIX, `/`-separated.
- Numerals.ParseInt: has no limit on the number of digits. Since Python 3.11
  (and the security releases of 3.7 to 3.10), `int()` raises `ValueError` on
  a decimal text of more than 4300 digits, so a quality text such as 4299
  zeros followed by `50` is rejected there and accepted by `Quality.Validate`.
- Converter.NotAnInteger: writes the text between single quotes as it
  stands. Python writes `repr` of the text cut to 200 characters, so a text
  that is longer or holds quotes, backslashes or control characters gives a
  different message.
- Converter.App.RunConversions: the user's cancel is taken only at one of the
  pool loop's checks (lines 246-251) or the check after the loop (line 253).
  A cancel that arrives later, while the originals are deleted or the archive
  is written (lines 256-274), is not modelled; the source then still writes
  the archive and queues the complete event, while the window shows the
  cancelling status until that event arrives.

## Notes

Converted names need not be distinct. The code converts both `x.png` and
`x.jpg` to `x.webp`; the second conversion overwrites the first, and the
output archive holds one entry for the two images
(`Discovery.ConvertedNamesCollide`). The model does not assume converted
names are distinct.
