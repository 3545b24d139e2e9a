/** The older exporter component (Import): one Load runs parsing, the GLB copy,
    the .bin load and the export in a row.  Its Convert has no reuse flag and
    adds the Basis extension with a plain Dictionary.Add, the JSON is written
    with the serializer's flag set, and the output goes to `path/fileName.glb`. */
module LegacyImport {
  import opened Wrappers
  import opened Exceptions
  import opened Gltf
  import opened Glb
  import opened GlbExport
  import opened ExportPipeline

  /** Path.Combine(path1, path2) on a platform whose only directory separator
      is '/' (on Windows a backslash and ':' also count, and a backslash is
      inserted): a null argument is rejected, an empty one yields the other, a rooted second path
      replaces the first, and otherwise a separator is put between them unless
      the first already ends in one. */
  function CombinePath(path1: Option<string>, path2: Option<string>): (r: Result<string, Exception>)
    ensures path1.None? ==> r == Failure(ArgumentNull("path1"))
    ensures path1.Some? && path2.None? ==> r == Failure(ArgumentNull("path2"))
    ensures path1.Some? && path2.Some? ==> r.Success?
    ensures path1.Some? && path2.Some? && path2.value != "" && path2.value[0] == '/' ==> r == Success(path2.value)
    ensures path1.Some? && path2.Some? && path1.value != "" && path2.value != "" && path2.value[0] != '/' ==>
              r.value == path1.value + (if path1.value[|path1.value| - 1] == '/' then "" else "/") + path2.value
    ensures path1.Some? && path2.Some? && (path1.value == "" || path2.value == "") ==>
              r.value == path1.value + path2.value
  {
    if path1.None? then Failure(ArgumentNull("path1"))
    else if path2.None? then Failure(ArgumentNull("path2"))
    else
      var first, second := path1.value, path2.value;
      if first == "" then Success(second)
      else if second == "" then Success(first)
      else if second[0] == '/' then Success(second)
      else if first[|first| - 1] == '/' then Success(first + second)
      else Success(first + "/" + second)
  }

  /** The output file: the combined path with ".glb" appended. */
  function OutputPath(path: Option<string>, fileName: Option<string>): (r: Result<string, Exception>)
    ensures r.Success? <==> path.Some? && fileName.Some?
    ensures r.Success? ==> |r.value| >= 4 && r.value[|r.value| - 4..] == ".glb"
  {
    match CombinePath(path, fileName)
    case Failure(e) => Failure(e)
    case Success(p) => Success(p + ".glb")
  }

  /** The older ExportStream on a prepared copy `d`: the .bin, the MIME
      inference, the older Convert, and the image embedding and container with
      the serializer's flag set. */
  function LegacyPack(d: Doc, bin: Option<seq<byte>>, cancelled: bool, files: map<string, seq<byte>>,
                      root: Root, bufferId: BufferId, serialize: (Doc, bool) -> string)
    : (r: (Doc, Result<seq<byte>, Exception>))
    requires |d.buffers| > 0
    ensures r.0.isGLB == d.isGLB
    ensures bin.None? ==> r.1.Failure?
  {
    if bin.None? then (d, Failure(NullReference("binLoader.LoadedStream")))
    else
      var mime := ApplyEach(d.images, InferMime);
      var d1 := d.(images := mime.0);
      if mime.1.Some? then (d1, Failure(mime.1.value))
      else
        var converted := ConvertDocLegacy(d1, cancelled);
        if converted.1.Some? then (converted.0, Failure(converted.1.value))
        else
          PackDocIsGLB(converted.0, root, bufferId, bin.value, files, serialize, true);
          PackDoc(converted.0, root, bufferId, bin.value, files, serialize, true)
  }

  /** Once the .bin is there and MIME inference and the older Convert complete,
      the rest is PackDoc. */
  lemma LegacyPackPacks(d: Doc, bin: Option<seq<byte>>, cancelled: bool, files: map<string, seq<byte>>,
                        root: Root, bufferId: BufferId, serialize: (Doc, bool) -> string)
    requires |d.buffers| > 0 && bin.Some?
    requires ApplyEach(d.images, InferMime).1.None?
    requires ConvertDocLegacy(d.(images := ApplyEach(d.images, InferMime).0), cancelled).1.None?
    ensures var c := ConvertDocLegacy(d.(images := ApplyEach(d.images, InferMime).0), cancelled).0;
            && |c.buffers| > 0
            && LegacyPack(d, bin, cancelled, files, root, bufferId, serialize)
               == PackDoc(c, root, bufferId, bin.value, files, serialize, true)
  {
  }

  /** The older export agrees with the current one on a prepared copy: when its
      texture loop completes, the document it leaves and the bytes it writes are
      those of the current export without `useExistingBasis` and with the
      serializer's flag set. */
  lemma LegacyPackAgrees(source: Doc, bin: seq<byte>, cancelled: bool, files: map<string, seq<byte>>,
                         root: Root, serialize: (Doc, bool) -> string)
    requires ApplyEach(source.textures, ConvertTextureLegacy).1.None?
    ensures var r := LegacyPack(PrepDoc(source), Some(bin), cancelled, files, root, BufferId(0, root), serialize);
            var x := ExportDoc(source, Some(bin), false, cancelled, files, root, (d: Doc, flag: bool) => serialize(d, true));
            r == x
  {
    var d0 := PrepDoc(source);
    var mime := ApplyEach(d0.images, InferMime);
    var d1 := d0.(images := mime.0);
    if mime.1.None? {
      var legacy := ConvertDocLegacy(d1, cancelled);
      var current := ConvertDoc(d1, false, cancelled);
      if ApplyEach(d1.images, ConvertImageStep(cancelled)).1.None? {
        ConvertDocLegacyAgrees(d1, cancelled);
        ApplyEachSucceeds(d1.textures, ConvertTextureLegacy);
        assert legacy == current;
        assert current.0.buffers == [Buffer(None, 0)];
        PackDocFlagged(current.0, root, BufferId(0, root), bin, files, serialize);
      }
    }
  }

  /** An export completes exactly when a .bin was loaded, every image without a
      MIME type has a URI, the older Convert completes and every image's file
      opens. */
  lemma LegacyPackSucceeds(d: Doc, bin: Option<seq<byte>>, cancelled: bool, files: map<string, seq<byte>>,
                           root: Root, bufferId: BufferId, serialize: (Doc, bool) -> string)
    requires |d.buffers| > 0
    ensures var r := LegacyPack(d, bin, cancelled, files, root, bufferId, serialize);
            var mime := ApplyEach(d.images, InferMime);
            var converted := ConvertDocLegacy(d.(images := mime.0), cancelled);
            var loaded := LoadImages(converted.0.images, files);
            r.1.Success? <==> bin.Some? && mime.1.None? && converted.1.None? && loaded.1.None?
  {
    var mime := ApplyEach(d.images, InferMime);
    var converted := ConvertDocLegacy(d.(images := mime.0), cancelled);
    if bin.Some? && mime.1.None? && converted.1.None? {
      LegacyPackPacks(d, bin, cancelled, files, root, bufferId, serialize);
      PackDocImages(converted.0, root, bufferId, bin.value, files, serialize, true);
    }
  }

  /** The output file and the bytes written, or the exception that stopped the
      export. */
  function Located(path: string, glb: Result<seq<byte>, Exception>): (r: Result<(string, seq<byte>), Exception>)
    ensures r.Success? <==> glb.Success?
    ensures r.Success? ==> r.value == (path, glb.value)
    ensures r.Failure? ==> r.error == glb.error
  {
    match glb
    case Failure(e) => Failure(e)
    case Success(bytes) => Success((path, bytes))
  }

  class Import {
    var path: Option<string>
    var fileName: Option<string>
    var gltfRoot: Root
    var glbRoot: Root
    var bufferId: BufferId
    var loadedBin: Option<seq<byte>>   // binLoader.LoadedStream, None while binLoader is null

    /** The component's initial state: the given output directory and file name,
        empty documents and no .bin. */
    constructor (path: Option<string>, fileName: Option<string>)
      ensures this.path == path && this.fileName == fileName
      ensures fresh(gltfRoot) && gltfRoot.Value() == EmptyDoc
      ensures fresh(glbRoot) && glbRoot.Value() == EmptyDoc && glbRoot != gltfRoot
      ensures loadedBin.None?
    {
      this.path, this.fileName := path, fileName;
      gltfRoot := new Root(EmptyDoc);
      glbRoot := new Root(EmptyDoc);
      bufferId := BufferId(0, null);
      loadedBin := None;
    }

    /** The older Convert on the export copy. */
    method Convert(cancelled: bool) returns (error: Option<Exception>)
      modifies glbRoot
      ensures glbRoot.Value() == ConvertDocLegacy(old(glbRoot.Value()), cancelled).0
      ensures error == ConvertDocLegacy(old(glbRoot.Value()), cancelled).1
    {
      error := ConvertImages(glbRoot, cancelled);
      if error.Some? {
        return;
      }
      error := ConvertTexturesLegacy(glbRoot);
      if error.Some? {
        return;
      }
      AddBasisExtensionNames(glbRoot);
    }

    /** ExportStream on the prepared copy: the output path is composed first,
        then the stages of LegacyPack run on the copy. */
    method ExportStream(cancelled: bool, files: map<string, seq<byte>>, serialize: (Doc, bool) -> string)
      returns (written: Result<(string, seq<byte>), Exception>)
      requires |glbRoot.buffers| > 0
      modifies glbRoot
      ensures OutputPath(path, fileName).Failure? ==>
                written == Failure(OutputPath(path, fileName).error) && glbRoot.Value() == old(glbRoot.Value())
      ensures OutputPath(path, fileName).Success? ==>
                var r := LegacyPack(old(glbRoot.Value()), loadedBin, cancelled, files, glbRoot, bufferId, serialize);
                && glbRoot.Value() == r.0
                && written == Located(OutputPath(path, fileName).value, r.1)
    {
      var fullPath := OutputPath(path, fileName);
      if fullPath.Failure? {
        return Failure(fullPath.error);
      }
      ghost var d := glbRoot.Value();
      if loadedBin.None? {
        return Failure(NullReference("binLoader.LoadedStream"));
      }
      var bin := loadedBin.value;
      var e := InferMimeTypes(glbRoot);
      if e.Some? {
        return Failure(e.value);
      }
      assert glbRoot.Value() == d.(images := ApplyEach(d.images, InferMime).0);
      e := Convert(cancelled);
      if e.Some? {
        return Failure(e.value);
      }
      LegacyPackPacks(d, loadedBin, cancelled, files, glbRoot, bufferId, serialize);
      var glb := PackInto(glbRoot, bufferId, bin, files, serialize, true);
      written := Located(fullPath.value, glb);
    }

    /** Load: the parsed document becomes the loaded one; the export copy is
        prepared from it; a non-GLB document's .bin is loaded; then the export
        runs.  A parse failure changes nothing, a .bin failure stops after the
        copy is prepared. */
    method Load(parsed: Result<Doc, Exception>, files: map<string, seq<byte>>, cancelled: bool,
                serialize: (Doc, bool) -> string)
      returns (written: Result<(string, seq<byte>), Exception>)
      modifies this
      ensures path == old(path) && fileName == old(fileName)
      ensures parsed.Failure? ==>
                written == Failure(parsed.error) && gltfRoot == old(gltfRoot) && glbRoot == old(glbRoot)
                && loadedBin == old(loadedBin) && bufferId == old(bufferId)
      ensures parsed.Success? ==>
                var bin := LoadBin(parsed.value, files, old(loadedBin));
                && fresh(gltfRoot) && gltfRoot.Value() == parsed.value
                && fresh(glbRoot) && glbRoot != gltfRoot && bufferId == BufferId(0, glbRoot)
                && loadedBin == bin.0
                && (bin.1.Some? ==> written == Failure(bin.1.value) && glbRoot.Value() == PrepDoc(parsed.value))
                && (bin.1.None? && OutputPath(path, fileName).Failure? ==>
                      written == Failure(OutputPath(path, fileName).error) && glbRoot.Value() == PrepDoc(parsed.value))
                && (bin.1.None? && OutputPath(path, fileName).Success? ==>
                      var r := LegacyPack(PrepDoc(parsed.value), loadedBin, cancelled, files, glbRoot, bufferId, serialize);
                      glbRoot.Value() == r.0 && written == Located(OutputPath(path, fileName).value, r.1))
    {
      if parsed.Failure? {
        return Failure(parsed.error);
      }
      gltfRoot := new Root(parsed.value);
      glbRoot, bufferId := PrepCopy(gltfRoot);
      if !gltfRoot.isGLB {
        if |gltfRoot.buffers| == 0 {
          return Failure(ArgumentOutOfRange(0));
        }
        var uri := gltfRoot.buffers[0].uri;
        if uri.None? {
          return Failure(ArgumentNull("path2"));
        }
        if uri.value !in files {
          return Failure(FileNotFound(uri.value));
        }
        loadedBin := Some(files[uri.value]);
      }
      written := ExportStream(cancelled, files, serialize);
    }
  }
}
