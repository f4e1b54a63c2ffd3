/**
 * Step 3 of the conversion job: walking the extracted archive for images, and
 * the set of entries the output archive ends up holding.
 *
 * The extracted archive is given as the sequence of its files' relative paths
 * in the order the directory walk yields them.
 */
module Discovery {
  import opened PosixPath
  import opened Naming

  /** One image to convert: the extracted file and the converted file written next to it. */
  datatype Task = Task(src: string, dst: string)

  /** The images among the extracted files, in walk order, each paired with its converted name. */
  function Tasks(files: seq<string>, format: Format): seq<Task>
  {
    if files == [] then []
    else
      var last := files[|files| - 1];
      Tasks(files[..|files| - 1], format) + (if IsImageEntry(last) then [Task(last, ConvertedPath(last, format))] else [])
  }

  /** Each task is an extracted image paired with its converted name, and there are no more tasks than files. */
  lemma {:induction false} TasksAreImages(files: seq<string>, format: Format)
    ensures |Tasks(files, format)| <= |files|
    ensures forall t :: t in Tasks(files, format) ==>
              t.src in files && IsImageEntry(t.src) && t.dst == ConvertedPath(t.src, format)
  {
    if files != [] {
      TasksAreImages(files[..|files| - 1], format);
    }
  }

  function Sources(tasks: seq<Task>): set<string> { set t | t in tasks :: t.src }

  function Targets(tasks: seq<Task>): set<string> { set t | t in tasks :: t.dst }

  /** The extracted files that are images. */
  function ImageFiles(files: seq<string>): set<string>
  {
    set f | f in files && IsImageEntry(f)
  }

  /** The converted names of the extracted images. */
  function ConvertedFiles(files: seq<string>, format: Format): set<string>
  {
    set f | f in files && IsImageEntry(f) :: ConvertedPath(f, format)
  }

  /** The extracted files that are passed through unchanged. */
  function OtherFiles(files: seq<string>): set<string>
  {
    set f | f in files && !IsImageEntry(f)
  }

  /**
   * Every image among the extracted files gets exactly its converted name as
   * a task, and nothing else becomes a task.
   */
  lemma {:induction false} TaskSets(files: seq<string>, format: Format)
    ensures Sources(Tasks(files, format)) == ImageFiles(files)
    ensures Targets(Tasks(files, format)) == ConvertedFiles(files, format)
  {
    if files != [] {
      var init := files[..|files| - 1];
      var last := files[|files| - 1];
      var before := Tasks(init, format);
      var extra := if IsImageEntry(last) then [Task(last, ConvertedPath(last, format))] else [];
      assert Tasks(files, format) == before + extra;
      assert files == init + [last];
      TaskSets(init, format);
      TaskSetsConcat(before, extra);
      assert Sources(extra) == (if IsImageEntry(last) then {last} else {}) &&
             Targets(extra) == (if IsImageEntry(last) then {ConvertedPath(last, format)} else {}) by {
        if IsImageEntry(last) {
          SingleTask(last, ConvertedPath(last, format));
        }
      }
      FileSetsSnoc(init, last, format);
    }
  }

  lemma SingleTask(src: string, dst: string)
    ensures Sources([Task(src, dst)]) == {src} && Targets([Task(src, dst)]) == {dst}
  {
  }

  lemma TaskSetsConcat(a: seq<Task>, b: seq<Task>)
    ensures Sources(a + b) == Sources(a) + Sources(b)
    ensures Targets(a + b) == Targets(a) + Targets(b)
  {
  }

  lemma FileSetsSnoc(init: seq<string>, last: string, format: Format)
    ensures OtherFiles(init + [last]) == OtherFiles(init) + (if IsImageEntry(last) then {} else {last})
    ensures ImageFiles(init + [last]) == ImageFiles(init) + (if IsImageEntry(last) then {last} else {})
    ensures ConvertedFiles(init + [last], format) ==
              ConvertedFiles(init, format) + (if IsImageEntry(last) then {ConvertedPath(last, format)} else {})
  {
    OtherFilesSnoc(init, last);
    ConvertedFilesSnoc(init, last, format);
  }

  lemma OtherFilesSnoc(init: seq<string>, last: string)
    ensures OtherFiles(init + [last]) == OtherFiles(init) + (if IsImageEntry(last) then {} else {last})
  {
  }

  lemma ConvertedFilesSnoc(init: seq<string>, last: string, format: Format)
    ensures ConvertedFiles(init + [last], format) ==
              ConvertedFiles(init, format) + (if IsImageEntry(last) then {ConvertedPath(last, format)} else {})
  {
  }

  /** The job finds nothing to convert exactly when no extracted file is an image. */
  lemma NoTasksIffNoImages(files: seq<string>, format: Format)
    ensures Tasks(files, format) == [] <==> forall f :: f in files ==> !IsImageEntry(f)
  {
    TaskSets(files, format);
    var tasks := Tasks(files, format);
    if tasks != [] {
      assert tasks[0].src in Sources(tasks);
    }
    if exists f :: f in files && IsImageEntry(f) {
      var f :| f in files && IsImageEntry(f);
      assert f in ImageFiles(files);
    }
  }

  /** The collecting loop of the job: it appends each image it walks past. */
  method Discover(files: seq<string>, format: Format) returns (tasks: seq<Task>)
    ensures tasks == Tasks(files, format)
  {
    tasks := [];
    for i := 0 to |files|
      invariant tasks == Tasks(files[..i], format)
    {
      assert files[..i + 1][..i] == files[..i];
      if IsImageEntry(files[i]) {
        tasks := tasks + [Task(files[i], ConvertedPath(files[i], format))];
      }
    }
    assert files[..|files|] == files;
  }

  /** The tasks before index `i + 1` are those before `i` and task `i`. */
  lemma PrefixSets(tasks: seq<Task>, i: nat)
    requires i < |tasks|
    ensures Sources(tasks[..i + 1]) == Sources(tasks[..i]) + {tasks[i].src}
    ensures Targets(tasks[..i + 1]) == Targets(tasks[..i]) + {tasks[i].dst}
  {
    assert tasks[..i + 1] == tasks[..i] + [tasks[i]];
    TaskSetsConcat(tasks[..i], [tasks[i]]);
    SingleTask(tasks[i].src, tasks[i].dst);
  }

  /** The sources of the first `n` tasks, one task at a time. */
  function SourcesBefore(tasks: seq<Task>, n: nat): set<string>
    requires n <= |tasks|
  {
    if n == 0 then {} else SourcesBefore(tasks, n - 1) + {tasks[n - 1].src}
  }

  /** The targets of the first `n` tasks, one task at a time. */
  function TargetsBefore(tasks: seq<Task>, n: nat): set<string>
    requires n <= |tasks|
  {
    if n == 0 then {} else TargetsBefore(tasks, n - 1) + {tasks[n - 1].dst}
  }

  /** Counting the tasks one at a time gathers the sources of the first `n`. */
  lemma {:induction false} SourcesBeforeIsPrefix(tasks: seq<Task>, n: nat)
    requires n <= |tasks|
    ensures SourcesBefore(tasks, n) == Sources(tasks[..n])
  {
    if n == 0 {
      assert tasks[..0] == [];
    } else {
      SourcesBeforeIsPrefix(tasks, n - 1);
      PrefixSets(tasks, n - 1);
    }
  }

  /** Counting the tasks one at a time gathers the targets of the first `n`. */
  lemma {:induction false} TargetsBeforeIsPrefix(tasks: seq<Task>, n: nat)
    requires n <= |tasks|
    ensures TargetsBefore(tasks, n) == Targets(tasks[..n])
  {
    if n == 0 {
      assert tasks[..0] == [];
    } else {
      TargetsBeforeIsPrefix(tasks, n - 1);
      PrefixSets(tasks, n - 1);
    }
  }

  /** The files extraction writes to the scratch directory. */
  function FileSet(files: seq<string>): set<string>
  {
    set f | f in files
  }

  /**
   * What a successful job packs: every extracted file that is not an image,
   * and the converted name of every image.
   */
  function PackedEntries(files: seq<string>, format: Format): set<string>
  {
    OtherFiles(files) + ConvertedFiles(files, format)
  }

  /** No image is left in a successfully packed archive. */
  lemma PackedEntriesHoldNoImages(files: seq<string>, format: Format)
    ensures forall e :: e in PackedEntries(files, format) ==> !IsImageEntry(e)
  {
    forall f | f in files && IsImageEntry(f)
      ensures !IsImageEntry(ConvertedPath(f, format))
    {
      ConvertedPathParts(f, format);
    }
  }

  /**
   * Writing every converted file next to the extracted ones and then deleting
   * the originals leaves exactly the packed entries: no converted name is an
   * image, so deleting the images never deletes a converted file.
   */
  lemma ScratchAfterConversion(files: seq<string>, format: Format)
    ensures (FileSet(files) + ConvertedFiles(files, format)) - ImageFiles(files) == PackedEntries(files, format)
  {
    PackedEntriesHoldNoImages(files, format);
    var left := (FileSet(files) + ConvertedFiles(files, format)) - ImageFiles(files);
    forall e | e in PackedEntries(files, format)
      ensures e in left
    {
      assert !IsImageEntry(e);
    }
  }

  /**
   * The scratch directory after the run: the extracted files and the
   * converted ones, less the sources deleted one task at a time, are the
   * packed entries.
   */
  lemma ScratchAfterRemoval(files: seq<string>, format: Format)
    ensures var tasks := Tasks(files, format);
      (FileSet(files) + Targets(tasks)) - SourcesBefore(tasks, |tasks|) == PackedEntries(files, format)
  {
    var tasks := Tasks(files, format);
    SourcesBeforeIsPrefix(tasks, |tasks|);
    assert tasks[..|tasks|] == tasks;
    TaskSets(files, format);
    ScratchAfterConversion(files, format);
  }

  /** A file name with no dot and no slash, such as `a` or `notes`. */
  predicate PlainStem(stem: string)
  {
    |stem| > 0 && forall i :: 0 <= i < |stem| ==> stem[i] != '.' && stem[i] != '/'
  }

  /** A top-level `stem.png` or `stem.jpg` is an image and is converted to `stem.<format>`. */
  lemma SimpleImage(stem: string, ext: string, format: Format)
    requires PlainStem(stem)
    requires ext == ".png" || ext == ".jpg"
    ensures IsImageEntry(stem + ext)
    ensures ConvertedPath(stem + ext, format) == stem + "." + format.Suffix()
  {
    assert stem[0] != '.';
    assert Join("", stem + ext) == stem + ext;
    assert Join("", stem + "." + format.Suffix()) == stem + "." + format.Suffix();
    ConvertedPathOfImage("", stem, ext, format);
    SplitJoin("", stem + ext);
    ImageExtension(stem, ext);
  }

  /** A top-level `stem.txt` is not an image. */
  lemma TextFile(stem: string)
    requires PlainStem(stem)
    ensures !IsImageEntry(stem + ".txt")
  {
    var name := stem + ".txt";
    assert '/' !in name by {
      assert forall i :: 0 <= i < |name| ==> name[i] != '/' by {
        forall i | 0 <= i < |name| ensures name[i] != '/' {
          if i < |stem| { assert name[i] == stem[i]; }
        }
      }
    }
    LastIndexAbsent(name, '/');
    assert Basename(name) == name;
    var l := Lower(name);
    assert l[|l| - 1] == 't';
  }

  /**
   * An archive holding `a.png`, `b.jpg` and `notes.txt` packs `a.webp`,
   * `b.webp` and `notes.txt` (for AVIF, `a.avif` and `b.avif`).
   */
  lemma PhotosExample(a: string, b: string, notes: string, format: Format)
    requires PlainStem(a) && PlainStem(b) && PlainStem(notes)
    ensures PackedEntries([a + ".png", b + ".jpg", notes + ".txt"], format) ==
              {a + "." + format.Suffix(), b + "." + format.Suffix(), notes + ".txt"}
  {
    SimpleImage(a, ".png", format);
    SimpleImage(b, ".jpg", format);
    TextFile(notes);
    PackedOfThree(a + ".png", b + ".jpg", notes + ".txt", format);
  }

  lemma PackedOfThree(p: string, q: string, r: string, format: Format)
    requires IsImageEntry(p) && IsImageEntry(q) && !IsImageEntry(r)
    ensures PackedEntries([p, q, r], format) == {ConvertedPath(p, format), ConvertedPath(q, format), r}
  {
    assert [p, q] + [r] == [p, q, r];
    assert OtherFiles([p, q, r]) == {r} by {
      PackedOfTwo(p, q, format);
      OtherFilesSnoc([p, q], r);
    }
    assert ConvertedFiles([p, q, r], format) == {ConvertedPath(p, format), ConvertedPath(q, format)} by {
      PackedOfTwo(p, q, format);
      ConvertedFilesSnoc([p, q], r, format);
    }
  }

  lemma PackedOfTwo(p: string, q: string, format: Format)
    requires IsImageEntry(p) && IsImageEntry(q)
    ensures OtherFiles([p, q]) == {}
    ensures ConvertedFiles([p, q], format) == {ConvertedPath(p, format), ConvertedPath(q, format)}
  {
    assert [p] + [q] == [p, q];
    assert OtherFiles([p, q]) == {} by {
      FileSetsOfOne(p, format);
      OtherFilesSnoc([p], q);
    }
    assert ConvertedFiles([p, q], format) == {ConvertedPath(p, format), ConvertedPath(q, format)} by {
      FileSetsOfOne(p, format);
      ConvertedFilesSnoc([p], q, format);
    }
  }

  lemma FileSetsOfOne(p: string, format: Format)
    ensures OtherFiles([p]) == (if IsImageEntry(p) then {} else {p})
    ensures ConvertedFiles([p], format) == (if IsImageEntry(p) then {ConvertedPath(p, format)} else {})
  {
    OtherFilesSnoc([], p);
    ConvertedFilesSnoc([], p, format);
    assert [] + [p] == [p];
  }

  /**
   * Converted names need not be distinct: `x.png` and `x.jpg` are both
   * converted to `x.webp`, so the second conversion overwrites the first and
   * the output holds one entry for the two images.
   */
  lemma ConvertedNamesCollide(x: string, format: Format)
    requires PlainStem(x)
    ensures ConvertedPath(x + ".png", format) == ConvertedPath(x + ".jpg", format)
    ensures PackedEntries([x + ".png", x + ".jpg"], format) == {x + "." + format.Suffix()}
  {
    SimpleImage(x, ".png", format);
    SimpleImage(x, ".jpg", format);
    PackedOfTwo(x + ".png", x + ".jpg", format);
  }
}
