/**
 * The upload slot (`FileUpload`): how it locates the target directory of a
 * Local storage, extracts and rewrites file extensions, and hands the
 * original file name from `sanitizeFileName` over to `preFileAdd` through
 * a static field. The image resizer, the file renames and the site path are
 * inputs of the model.
 */
module FileUpload {
  import opened Wrappers
  import opened PhpStrings
  import opened PhpArrays

  // ---------------------------------------------------------------------
  // The host objects the slot reads
  // ---------------------------------------------------------------------

  /** A file storage: its driver and the `pathType` and `basePath` of its configuration. */
  datatype Storage = Storage(driver: string, pathType: string, basePath: string)

  datatype Folder = Folder(storage: Storage, identifier: string)

  datatype File = File(name: string, parent: Folder)

  /** The slot arguments `sanitizeFileName` hands back: the file name and the folder. */
  datatype SlotArgs = SlotArgs(fileName: string, folder: Folder)

  /** What a call of the resizer's `processFile` yields: the new file and the metadata it kept. */
  datatype Processed = Processed(newFileName: string, metadata: Value)

  /**
   * The image resizer, whose behaviour is not part of this model:
   * `getProcessedFileName` (null when the file is left alone) and
   * `processFile` followed by `getLastMetadata`.
   */
  datatype Resizer = Resizer(
    processedFileName: string -> Option<string>,
    processFile: (string, string, string, Option<File>) -> Processed)

  /** A call of `FAL::indexFile` with the computed width and height and the whole metadata. */
  datatype IndexCall = IndexCall(file: File, width: Value, height: Value, metadata: seq<Entry>)

  // ---------------------------------------------------------------------
  // Target directory
  // ---------------------------------------------------------------------

  /** Only the Local driver is supported; every entry point returns at once otherwise. */
  predicate Supported(folder: Folder)
  {
    folder.storage.driver == "Local"
  }

  /** The site path for a storage whose paths are relative, nothing otherwise. */
  function DirectoryPrefix(sitePath: string, storage: Storage): string
  {
    if storage.pathType == "relative" then sitePath else ""
  }

  /**
   * The folder's place inside the storage: the base path without trailing
   * slashes, then the folder identifier, then trailing slashes removed again.
   */
  function DirectorySuffix(folder: Folder): (r: string)
    ensures |r| == 0 || r[|r| - 1] != '/'
    ensures var whole := RTrimChar(folder.storage.basePath, '/') + folder.identifier;
            |r| <= |whole| && r == whole[..|r|] && forall i :: |r| <= i < |whole| ==> whole[i] == '/'
  {
    RTrimChar(RTrimChar(folder.storage.basePath, '/') + folder.identifier, '/')
  }

  /** The target directory all three entry points compute. */
  function TargetDirectory(sitePath: string, folder: Folder): string
  {
    DirectoryPrefix(sitePath, folder.storage) + DirectorySuffix(folder)
  }

  /** After the prefix, the target directory never ends in a slash, and a relative storage starts at the site path. */
  lemma TargetDirectoryShape(sitePath: string, folder: Folder)
    ensures var d := TargetDirectory(sitePath, folder);
            var p := DirectoryPrefix(sitePath, folder.storage);
            |p| <= |d| && d[..|p|] == p && (|d| == |p| || d[|d| - 1] != '/')
    ensures folder.storage.pathType == "relative" ==>
            TargetDirectory(sitePath, folder)[..|sitePath|] == sitePath
    ensures folder.storage.pathType != "relative" ==>
            TargetDirectory(sitePath, folder) == DirectorySuffix(folder)
  {
    var p := DirectoryPrefix(sitePath, folder.storage);
    var q := DirectorySuffix(folder);
    assert (p + q)[..|p|] == p;
  }

  // ---------------------------------------------------------------------
  // Extensions
  // ---------------------------------------------------------------------

  /**
   * `strtolower(substr($name, strrpos($name, '.') + 1))`: the lower-cased
   * text after the last dot. Without a dot, `strrpos` yields false, which
   * counts as 0, so the name loses its first character.
   */
  function Extension(name: string): (r: string)
    ensures |r| < |name| || |name| == 0
    ensures '.' !in r
  {
    match LastIndexOfChar(name, '.')
    case Some(i) =>
      var r := ToLower(name[i + 1..]);
      assert forall k :: 0 <= k < |r| ==> r[k] != '.' by {
        forall k | 0 <= k < |r| ensures r[k] != '.' {
          assert name[i + 1..][k] in name[i + 1..];
        }
      }
      r
    case None =>
      if |name| == 0 then ""
      else
        var r := ToLower(name[1..]);
        assert forall k :: 0 <= k < |r| ==> r[k] != '.' by {
          forall k | 0 <= k < |r| ensures r[k] != '.' {
            assert name[1..][k] == name[k + 1];
          }
        }
        r
  }

  /** With a last dot at `i`, the extension is the lower-cased text after it. */
  lemma ExtensionAfterLastDot(name: string, i: nat)
    requires i < |name| && name[i] == '.' && '.' !in name[i + 1..]
    ensures Extension(name) == ToLower(name[i + 1..])
    ensures |Extension(name)| == |name| - i - 1
  {
    var j := LastIndexOfChar(name, '.');
    assert j.Some?;
  }

  /** Without a dot, the extension is the lower-cased name minus its first character. */
  lemma ExtensionWithoutDot(name: string)
    requires '.' !in name && |name| > 0
    ensures Extension(name) == ToLower(name[1..])
  {
  }

  /** `substr($t, 0, -strlen($ext)) . $newExt`; `-0` is 0, so an empty extension keeps nothing of `t`. */
  function RewriteTarget(t: string, ext: string, newExt: string): string
  {
    (if |ext| == 0 || |ext| > |t| then "" else t[..|t| - |ext|]) + newExt
  }

  /**
   * The rewritten target name keeps everything up to and including its last
   * dot and ends in the new extension; when the old extension is empty, only
   * the new extension is left.
   */
  lemma RewriteKeepsStem(t: string, i: nat, newExt: string)
    requires i < |t| && t[i] == '.' && '.' !in t[i + 1..]
    ensures |Extension(t)| > 0 ==> RewriteTarget(t, Extension(t), newExt) == t[..i + 1] + newExt
    ensures |Extension(t)| == 0 ==> RewriteTarget(t, Extension(t), newExt) == newExt
  {
    ExtensionAfterLastDot(t, i);
  }

  /** After the rewrite, the target name's extension is the new one. */
  lemma RewrittenExtension(t: string, i: nat, newExt: string)
    requires i < |t| && t[i] == '.' && '.' !in t[i + 1..]
    requires |Extension(t)| > 0 && '.' !in newExt
    ensures Extension(RewriteTarget(t, Extension(t), newExt)) == ToLower(newExt)
  {
    RewriteKeepsStem(t, i, newExt);
    var r := t[..i + 1] + newExt;
    assert r[i] == '.';
    assert r[i + 1..] == newExt;
    ExtensionAfterLastDot(r, i);
  }

  // ---------------------------------------------------------------------
  // The entry points, as specifications
  // ---------------------------------------------------------------------

  /** PHP's truthiness of the remembered name: null, "" and "0" are false. */
  predicate Remembered(original: Option<string>)
  {
    original.Some? && original.value != "" && original.value != "0"
  }

  datatype SanitizeResult = SanitizeResult(args: Option<SlotArgs>, original: Option<string>)

  /**
   * `sanitizeFileName`: when the resizer will process the file, the original
   * name is remembered and the arguments come back with the processed name's
   * basename; otherwise nothing is returned and nothing is remembered.
   */
  function Sanitized(original: Option<string>, fileName: string, folder: Folder,
                     resizer: Resizer, sitePath: string): (r: SanitizeResult)
    ensures !Supported(folder) ==> r == SanitizeResult(None, original)
    ensures r.args.Some? ==> r.original == Some(fileName) && r.args.value.folder == folder
                             && '/' !in r.args.value.fileName
    ensures r.args.None? ==> r.original == original
    ensures Supported(folder) ==>
      (r.args.Some? <==> resizer.processedFileName(TargetDirectory(sitePath, folder) + "/" + fileName).Some?)
    ensures r.args.Some? ==>
      r.args.value.fileName == Basename(resizer.processedFileName(TargetDirectory(sitePath, folder) + "/" + fileName).value)
  {
    if !Supported(folder) then SanitizeResult(None, original)
    else match resizer.processedFileName(TargetDirectory(sitePath, folder) + "/" + fileName)
      case None => SanitizeResult(None, original)
      case Some(p) => SanitizeResult(Some(SlotArgs(Basename(p), folder)), Some(fileName))
  }

  datatype AddResult = AddResult(target: string, original: Option<string>, metadata: Value)

  /** The target name `preFileAdd` starts from: the remembered name if there is one. */
  function StartTarget(original: Option<string>, target: string): string
  {
    if Remembered(original) then original.value else target
  }

  /**
   * `preFileAdd`: the target name it leaves, the remembered name and the
   * metadata afterwards. The source file is renamed to carry the target's
   * extension; only when that rename succeeds is the file processed, and the
   * target then takes the processed file's extension.
   */
  function PreFileAdded(original: Option<string>, metadata: Value, target: string, folder: Folder,
                        sourceFile: string, resizer: Resizer, sitePath: string,
                        rename: (string, string) -> bool): (r: AddResult)
    ensures !Supported(folder) ==> r == AddResult(target, original, metadata)
    ensures Supported(folder) ==> !Remembered(r.original)
    ensures Supported(folder) && !Remembered(original) ==> r.original == original
  {
    if !Supported(folder) then AddResult(target, original, metadata)
    else
      var t := StartTarget(original, target);
      var o := if Remembered(original) then None else original;
      var ext := Extension(t);
      var working := sourceFile + "." + ext;
      if !rename(sourceFile, working) then AddResult(t, o, metadata)
      else
        var p := resizer.processFile(working, t, TargetDirectory(sitePath, folder), None);
        var newExt := Extension(p.newFileName);
        AddResult(if newExt != ext then RewriteTarget(t, ext, newExt) else t, o, p.metadata)
  }

  /**
   * After a successful first rename on a supported storage, `preFileAdd`
   * returns the resizer's metadata. The target keeps its name when the
   * processed file has the same extension; otherwise everything up to its
   * last dot stays and the processed file's extension follows, so the new
   * target carries that extension. A target ending in a dot is replaced by
   * the bare new extension.
   */
  lemma PreFileAddedRenamed(original: Option<string>, metadata: Value, target: string, folder: Folder,
                            sourceFile: string, resizer: Resizer, sitePath: string,
                            rename: (string, string) -> bool, i: nat)
    requires Supported(folder)
    requires rename(sourceFile, sourceFile + "." + Extension(StartTarget(original, target)))
    requires var t := StartTarget(original, target); i < |t| && t[i] == '.' && '.' !in t[i + 1..]
    ensures var t := StartTarget(original, target);
            var p := resizer.processFile(sourceFile + "." + Extension(t), t, TargetDirectory(sitePath, folder), None);
            var r := PreFileAdded(original, metadata, target, folder, sourceFile, resizer, sitePath, rename);
            && r.metadata == p.metadata
            && (Extension(p.newFileName) == Extension(t) ==> r.target == t)
            && (Extension(p.newFileName) != Extension(t) && |Extension(t)| > 0 ==>
                  r.target == t[..i + 1] + Extension(p.newFileName)
                  && Extension(r.target) == Extension(p.newFileName))
            && (Extension(p.newFileName) != Extension(t) && |Extension(t)| == 0 ==>
                  r.target == Extension(p.newFileName))
  {
    var t := StartTarget(original, target);
    var p := resizer.processFile(sourceFile + "." + Extension(t), t, TargetDirectory(sitePath, folder), None);
    var newExt := Extension(p.newFileName);
    RewriteKeepsStem(t, i, newExt);
    if newExt != Extension(t) && |Extension(t)| > 0 {
      RewrittenExtension(t, i, newExt);
      ExtensionLower(p.newFileName);
    }
  }

  /** An extension is already lower-case. */
  lemma ExtensionLower(name: string)
    ensures ToLower(Extension(name)) == Extension(name)
  {
    match LastIndexOfChar(name, '.')
    case Some(i) =>
      ToLowerIdempotent(name[i + 1..]);
    case None =>
      if |name| > 0 {
        ToLowerIdempotent(name[1..]);
      }
  }


  function Computed(metadata: seq<Entry>, field: string): Value
  {
    match Get(metadata, ["COMPUTED", field])
    case None => Null
    case Some(v) => v
  }

  /** `populateMetadata`: the file is indexed only with non-empty metadata at hand. */
  function IndexCallFor(metadata: Value, file: File): (r: Option<IndexCall>)
    ensures r.Some? <==> metadata.Arr? && |metadata.entries| > 0
    ensures r.Some? ==> r.value.file == file && r.value.metadata == metadata.entries
    ensures r.Some? ==> r.value.width == Computed(metadata.entries, "Width")
                        && r.value.height == Computed(metadata.entries, "Height")
  {
    if metadata.Arr? && |metadata.entries| > 0 then
      Some(IndexCall(file, Computed(metadata.entries, "Width"), Computed(metadata.entries, "Height"), metadata.entries))
    else None
  }

  /** `postFileReplace`: the replaced file processed in place, in its directory. */
  function Replaced(file: File, resizer: Resizer, sitePath: string): Processed
  {
    var dir := TargetDirectory(sitePath, file.parent);
    var targetFileName := dir + "/" + file.name;
    resizer.processFile(targetFileName, Basename(targetFileName), dir, Some(file))
  }

  // ---------------------------------------------------------------------
  // The slot and its static state
  // ---------------------------------------------------------------------

  /**
   * The static state of the slot class, shared by all its instances: the
   * name remembered by `sanitizeFileName` and the metadata of the last
   * processed file.
   */
  class FileUpload {
    var originalFileName: Option<string>
    var metadata: Value

    /** Both static fields start out as null. */
    constructor()
      ensures originalFileName == None && metadata == Null
    {
      originalFileName := None;
      metadata := Null;
    }

    method SanitizeFileName(fileName: string, folder: Folder, resizer: Resizer, sitePath: string)
      returns (args: Option<SlotArgs>)
      modifies this
      ensures SanitizeResult(args, originalFileName)
              == Sanitized(old(originalFileName), fileName, folder, resizer, sitePath)
      ensures metadata == old(metadata)
    {
      if folder.storage.driver != "Local" {
        return None;
      }
      var targetDirectory := TargetDirectory(sitePath, folder);
      var processed := resizer.processedFileName(targetDirectory + "/" + fileName);
      if processed.Some? {
        originalFileName := Some(fileName);
        return Some(SlotArgs(Basename(processed.value), folder));
      }
      return None;
    }

    /** Runs the resizer and keeps the metadata it reports. */
    method ProcessFile(fileName: string, targetFileName: string, targetDirectory: string,
                       file: Option<File>, resizer: Resizer) returns (newFileName: string)
      modifies this
      ensures newFileName == resizer.processFile(fileName, targetFileName, targetDirectory, file).newFileName
      ensures metadata == resizer.processFile(fileName, targetFileName, targetDirectory, file).metadata
      ensures originalFileName == old(originalFileName)
    {
      var p := resizer.processFile(fileName, targetFileName, targetDirectory, file);
      metadata := p.metadata;
      newFileName := p.newFileName;
    }

    method PopulateMetadata(file: File) returns (call: Option<IndexCall>)
      ensures call == IndexCallFor(metadata, file)
    {
      if metadata.Arr? && |metadata.entries| > 0 {
        var width := Computed(metadata.entries, "Width");
        var height := Computed(metadata.entries, "Height");
        call := Some(IndexCall(file, width, height, metadata.entries));
      } else {
        call := None;
      }
    }

    method PostFileReplace(file: File, resizer: Resizer, sitePath: string) returns (call: Option<IndexCall>)
      modifies this
      ensures !Supported(file.parent) ==> call == None && metadata == old(metadata)
      ensures Supported(file.parent) ==> metadata == Replaced(file, resizer, sitePath).metadata
                                         && call == IndexCallFor(metadata, file)
      ensures originalFileName == old(originalFileName)
    {
      var folder := file.parent;
      if folder.storage.driver != "Local" {
        return None;
      }
      var targetDirectory := TargetDirectory(sitePath, folder);
      var targetFileName := targetDirectory + "/" + file.name;
      var _ := ProcessFile(targetFileName, Basename(targetFileName), targetDirectory, Some(file), resizer);
      call := PopulateMetadata(file);
    }

    method PreFileAdd(targetFileName: string, folder: Folder, sourceFile: string, resizer: Resizer,
                      sitePath: string, rename: (string, string) -> bool) returns (target: string)
      modifies this
      ensures AddResult(target, originalFileName, metadata)
              == PreFileAdded(old(originalFileName), old(metadata), targetFileName, folder,
                              sourceFile, resizer, sitePath, rename)
    {
      target := targetFileName;
      if folder.storage.driver != "Local" {
        return;
      }
      if Remembered(originalFileName) {
        target := originalFileName.value;
        originalFileName := None;
      }
      var targetDirectory := TargetDirectory(sitePath, folder);
      var extension := Extension(target);
      var originalSourceFile := sourceFile;
      var workingFile := sourceFile + "." + extension;
      if rename(originalSourceFile, workingFile) {
        var newSourceFile := ProcessFile(workingFile, target, targetDirectory, None, resizer);
        var newExtension := Extension(newSourceFile);
        if newExtension != extension {
          target := RewriteTarget(target, extension, newExtension);
        }
      }
    }
  }

  // ---------------------------------------------------------------------
  // The hand-off of the original name
  // ---------------------------------------------------------------------

  /** A failed rename leaves the target as `preFileAdd` started from it, and the metadata alone. */
  lemma RenameFailureKeepsTarget(original: Option<string>, metadata: Value, target: string, folder: Folder,
                                 sourceFile: string, resizer: Resizer, sitePath: string,
                                 rename: (string, string) -> bool)
    requires Supported(folder)
    requires !rename(sourceFile, sourceFile + "." + Extension(StartTarget(original, target)))
    ensures PreFileAdded(original, metadata, target, folder, sourceFile, resizer, sitePath, rename).target
            == StartTarget(original, target)
    ensures PreFileAdded(original, metadata, target, folder, sourceFile, resizer, sitePath, rename).metadata
            == metadata
  {
  }

  /** A supported `preFileAdd` acts as if it had been given the name it starts from and nothing was remembered. */
  lemma StartsFromRemembered(original: Option<string>, metadata: Value, target: string, folder: Folder,
                             sourceFile: string, resizer: Resizer, sitePath: string,
                             rename: (string, string) -> bool)
    requires Supported(folder)
    ensures PreFileAdded(original, metadata, target, folder, sourceFile, resizer, sitePath, rename).target
            == PreFileAdded(None, Null, StartTarget(original, target), folder, sourceFile, resizer, sitePath, rename).target
  {
  }

  /**
   * An upload as the host runs it: `sanitizeFileName` and then `preFileAdd`
   * on the same slot state, and a second `preFileAdd` after it. The first
   * `preFileAdd` works on the name `sanitizeFileName` remembered when the
   * resizer chose to process the file, the second on the target it is given:
   * the remembered name is used at most once.
   */
  method Upload(fileName: string, folder: Folder, target: string, sourceFile: string,
                resizer: Resizer, sitePath: string, rename: (string, string) -> bool)
    returns (first: string, second: string)
    ensures var remembered := Sanitized(None, fileName, folder, resizer, sitePath).args.Some?
                              && Remembered(Some(fileName));
            first == PreFileAdded(None, Null, if remembered then fileName else target, folder,
                                  sourceFile, resizer, sitePath, rename).target
    ensures second == PreFileAdded(None, Null, target, folder, sourceFile, resizer, sitePath, rename).target
  {
    var slot := new FileUpload();
    var _ := slot.SanitizeFileName(fileName, folder, resizer, sitePath);
    var o1, m1 := slot.originalFileName, slot.metadata;
    first := slot.PreFileAdd(target, folder, sourceFile, resizer, sitePath, rename);
    var o2, m2 := slot.originalFileName, slot.metadata;
    second := slot.PreFileAdd(target, folder, sourceFile, resizer, sitePath, rename);
    if Supported(folder) {
      StartsFromRemembered(o1, m1, target, folder, sourceFile, resizer, sitePath, rename);
      StartsFromRemembered(o2, m2, target, folder, sourceFile, resizer, sitePath, rename);
    }
  }
}
