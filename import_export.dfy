/** The current exporter component (ImportExport): the loaded document and .bin,
    the export copy, the two file paths with their buttons, and the export run
    from document preparation to the bytes of the .glb file. */
module ExportPipeline {
  import opened Wrappers
  import opened Exceptions
  import opened Gltf
  import opened Glb
  import opened GlbExport

  /** The document `new GLTFRoot()` starts with. */
  const EmptyDoc: Doc := Doc([], [], None, [], [], None, None, false)

  /** What LoadStream does about the .bin: a document that is not a GLB names
      its .bin as the URI of its first buffer, which is read from the glTF's
      directory; a GLB document leaves the previously loaded .bin in place. */
  function LoadBin(d: Doc, files: map<string, seq<byte>>, previous: Option<seq<byte>>)
    : (r: (Option<seq<byte>>, Option<Exception>))
    ensures d.isGLB ==> r == (previous, None)
    ensures r.1.Some? ==> r.0 == previous
    ensures r.1.None? && !d.isGLB ==>
              |d.buffers| > 0 && d.buffers[0].uri.Some? && d.buffers[0].uri.value in files
              && r.0 == Some(files[d.buffers[0].uri.value])
  {
    if d.isGLB then (previous, None)
    else if |d.buffers| == 0 then (previous, Some(ArgumentOutOfRange(0)))
    else if d.buffers[0].uri.None? then (previous, Some(ArgumentNull("path2")))
    else if d.buffers[0].uri.value !in files then (previous, Some(FileNotFound(d.buffers[0].uri.value)))
    else (Some(files[d.buffers[0].uri.value]), None)
  }

  /** ExportStream on snapshots, from the loaded document `source` and .bin to
      the export copy and the bytes of the .glb file.  `root` is the export copy
      the ids refer to; the stages stop at the first exception. */
  function ExportDoc(source: Doc, bin: Option<seq<byte>>, useExistingBasis: bool, cancelled: bool,
                     files: map<string, seq<byte>>, root: Root, serialize: (Doc, bool) -> string)
    : (r: (Doc, Result<seq<byte>, Exception>))
    ensures r.0.isGLB
    ensures bin.None? ==> r.1.Failure?
  {
    var d0 := PrepDoc(source);
    if bin.None? then (d0, Failure(NullReference("loadedBinStream.Position")))
    else
      var mime := ApplyEach(d0.images, InferMime);
      var d1 := d0.(images := mime.0);
      if mime.1.Some? then (d1, Failure(mime.1.value))
      else
        var converted := ConvertDoc(d1, useExistingBasis, cancelled);
        if converted.1.Some? then (converted.0, Failure(converted.1.value))
        else
          PackDocIsGLB(converted.0, root, BufferId(0, root), bin.value, files, serialize, false);
          PackDoc(converted.0, root, BufferId(0, root), bin.value, files, serialize, false)
  }

  /** Once the .bin is loaded and MIME inference and Convert complete, the
      export is PackDoc on the converted copy. */
  lemma ExportDocPacks(source: Doc, bin: Option<seq<byte>>, useExistingBasis: bool, cancelled: bool,
                       files: map<string, seq<byte>>, root: Root, serialize: (Doc, bool) -> string)
    requires bin.Some?
    requires ApplyEach(PrepDoc(source).images, InferMime).1.None?
    requires ConvertDoc(PrepDoc(source).(images := ApplyEach(PrepDoc(source).images, InferMime).0),
                        useExistingBasis, cancelled).1.None?
    ensures var d0 := PrepDoc(source);
            var c := ConvertDoc(d0.(images := ApplyEach(d0.images, InferMime).0), useExistingBasis, cancelled).0;
            && |c.buffers| == 1
            && ExportDoc(source, bin, useExistingBasis, cancelled, files, root, serialize)
               == PackDoc(c, root, BufferId(0, root), bin.value, files, serialize, false)
  {
    var d0 := PrepDoc(source);
    var c := ConvertDoc(d0.(images := ApplyEach(d0.images, InferMime).0), useExistingBasis, cancelled).0;
    assert c.buffers == [Buffer(None, 0)];
  }

  /** An export completes exactly when a .bin is loaded, every image without a
      MIME type has a URI, Convert completes and every image's file opens. */
  lemma ExportDocSucceeds(source: Doc, bin: Option<seq<byte>>, useExistingBasis: bool, cancelled: bool,
                          files: map<string, seq<byte>>, root: Root, serialize: (Doc, bool) -> string)
    ensures var r := ExportDoc(source, bin, useExistingBasis, cancelled, files, root, serialize);
            var d0 := PrepDoc(source);
            var mime := ApplyEach(d0.images, InferMime);
            var converted := ConvertDoc(d0.(images := mime.0), useExistingBasis, cancelled);
            var loaded := LoadImages(converted.0.images, files);
            r.1.Success? <==> bin.Some? && mime.1.None? && converted.1.None? && loaded.1.None?
  {
    var r := ExportDoc(source, bin, useExistingBasis, cancelled, files, root, serialize);
    var d0 := PrepDoc(source);
    var mime := ApplyEach(d0.images, InferMime);
    var converted := ConvertDoc(d0.(images := mime.0), useExistingBasis, cancelled);
    if bin.Some? && mime.1.None? && converted.1.None? {
      var c := converted.0;
      assert c.buffers == [Buffer(None, 0)];
      assert r == PackDoc(c, root, BufferId(0, root), bin.value, files, serialize, false);
      PackDocImages(c, root, BufferId(0, root), bin.value, files, serialize, false);
    }
  }

  /** What a completed export writes: the export copy has one buffer, flagged
      as a GLB, whose length is the unpadded .bin plus the padded images, and
      the file is the container of the copy's JSON, the zero-padded .bin and the
      zero-padded image bytes. */
  lemma ExportDocWrites(source: Doc, bin: Option<seq<byte>>, useExistingBasis: bool, cancelled: bool,
                        files: map<string, seq<byte>>, root: Root, serialize: (Doc, bool) -> string)
    requires ExportDoc(source, bin, useExistingBasis, cancelled, files, root, serialize).1.Success?
    ensures var r := ExportDoc(source, bin, useExistingBasis, cancelled, files, root, serialize);
            var d0 := PrepDoc(source);
            var converted := ConvertDoc(d0.(images := ApplyEach(d0.images, InferMime).0), useExistingBasis, cancelled);
            var img := Pad(Concat(LoadImages(converted.0.images, files).0), 0);
            && bin.Some?
            && |r.0.buffers| == 1 && r.0.buffers[0].uri.None?
            && r.0.buffers[0].byteLength == |bin.value| + |img|
            && r.0.isGLB
            && r.1.value == Container(Pad(AsciiBytes(serialize(r.0, false)), Space), Pad(bin.value, 0), img)
  {
    var r := ExportDoc(source, bin, useExistingBasis, cancelled, files, root, serialize);
    var d0 := PrepDoc(source);
    var mime := ApplyEach(d0.images, InferMime);
    var converted := ConvertDoc(d0.(images := mime.0), useExistingBasis, cancelled);
    var c := converted.0;
    assert c.buffers == [Buffer(None, 0)];
    var p := PackDoc(c, root, BufferId(0, root), bin.value, files, serialize, false);
    assert r == p;
    PackDocIsGLB(c, root, BufferId(0, root), bin.value, files, serialize, false);
  }

  /** Writing the file: `new FileStream(path)` rejects a missing or empty path. */
  function WriteGlb(path: Option<string>, glb: Result<seq<byte>, Exception>): (r: Result<(string, seq<byte>), Exception>)
    ensures r.Success? <==> glb.Success? && path.Some? && path.value != ""
    ensures r.Success? ==> r.value == (path.value, glb.value)
  {
    if glb.Failure? then Failure(glb.error)
    else if path.None? then Failure(ArgumentNull("path"))
    else if path.value == "" then Failure(Argument("Empty path name is not legal"))
    else Success((path.value, glb.value))
  }

  class ImportExport {
    var importFilePath: Option<string>
    var exportFilePath: Option<string>
    var useExistingBasis: bool
    var importEnabled: bool   // importButton.interactable
    var exportEnabled: bool   // exportButton.interactable
    var gltfRoot: Root?
    var glbRoot: Root
    var bufferId: BufferId
    var loadedBin: Option<seq<byte>>

    /** The component's initial state: no document, no .bin, no paths, an empty
        export copy and `useExistingBasis` off. */
    constructor ()
      ensures importFilePath.None? && exportFilePath.None? && !useExistingBasis
      ensures gltfRoot == null && loadedBin.None?
      ensures fresh(glbRoot) && glbRoot.Value() == EmptyDoc
    {
      importFilePath, exportFilePath := None, None;
      useExistingBasis := false;
      importEnabled, exportEnabled := true, true;
      gltfRoot := null;
      glbRoot := new Root(EmptyDoc);
      bufferId := BufferId(0, null);
      loadedBin := None;
    }

    predicate CanExport()
      reads this
      ensures CanExport() ==> gltfRoot != null && exportFilePath.Some? && |exportFilePath.value| > 0
    {
      exportFilePath.Some? && exportFilePath.value != "" && gltfRoot != null
    }

    predicate CanImport()
      reads this
      ensures CanImport() ==> importFilePath.Some? && |importFilePath.value| > 0
    {
      importFilePath.Some? && importFilePath.value != ""
    }

    /** The import button follows `path != ""`, which agrees with CanImport
        except for a null path, which it enables. */
    method SetImportPath(path: Option<string>)
      modifies this
      ensures importFilePath == path && importEnabled == (path != Some(""))
      ensures path.Some? ==> importEnabled == CanImport()
      ensures path.None? ==> importEnabled && !CanImport()
      ensures exportFilePath == old(exportFilePath) && exportEnabled == old(exportEnabled)
      ensures gltfRoot == old(gltfRoot) && glbRoot == old(glbRoot) && loadedBin == old(loadedBin)
      ensures useExistingBasis == old(useExistingBasis) && bufferId == old(bufferId)
    {
      importFilePath := path;
      importEnabled := path != Some("");
    }

    method SetExportPath(path: Option<string>)
      modifies this
      ensures exportFilePath == path && exportEnabled == CanExport()
      ensures exportEnabled <==> path.Some? && path.value != "" && gltfRoot != null
      ensures importFilePath == old(importFilePath) && importEnabled == old(importEnabled)
      ensures gltfRoot == old(gltfRoot) && glbRoot == old(glbRoot) && loadedBin == old(loadedBin)
      ensures useExistingBasis == old(useExistingBasis) && bufferId == old(bufferId)
    {
      exportFilePath := path;
      exportEnabled := CanExport();
    }

    /** LoadStream with the reading and parsing of the glTF file as `parsed`: a
        parsed document becomes the loaded document, and its .bin is loaded as
        LoadBin says.  A parse failure leaves everything as it was. */
    method LoadStream(parsed: Result<Doc, Exception>, files: map<string, seq<byte>>) returns (error: Option<Exception>)
      modifies this
      ensures parsed.Failure? ==> error == Some(parsed.error) && gltfRoot == old(gltfRoot) && loadedBin == old(loadedBin)
      ensures parsed.Success? ==> gltfRoot != null && fresh(gltfRoot) && gltfRoot.Value() == parsed.value
                                  && (loadedBin, error) == LoadBin(parsed.value, files, old(loadedBin))
      ensures importFilePath == old(importFilePath) && exportFilePath == old(exportFilePath)
      ensures importEnabled == old(importEnabled) && exportEnabled == old(exportEnabled)
      ensures glbRoot == old(glbRoot) && useExistingBasis == old(useExistingBasis) && bufferId == old(bufferId)
    {
      if parsed.Failure? {
        return Some(parsed.error);
      }
      gltfRoot := new Root(parsed.value);
      error := None;
      if !gltfRoot.isGLB {
        if |gltfRoot.buffers| == 0 {
          return Some(ArgumentOutOfRange(0));
        }
        var uri := gltfRoot.buffers[0].uri;
        if uri.None? {
          return Some(ArgumentNull("path2"));
        }
        if uri.value !in files {
          return Some(FileNotFound(uri.value));
        }
        loadedBin := Some(files[uri.value]);
      }
    }

    /** Import (LoadGLTF without preview): both buttons are disabled, the file is
        loaded, and whatever the outcome the buttons end up as CanImport and
        CanExport say; an exception is caught and logged. */
    method Import(parsed: Result<Doc, Exception>, files: map<string, seq<byte>>) returns (error: Option<Exception>)
      modifies this
      ensures importEnabled == CanImport() && exportEnabled == CanExport()
      ensures parsed.Failure? ==> error == Some(parsed.error) && gltfRoot == old(gltfRoot) && loadedBin == old(loadedBin)
      ensures parsed.Success? ==> gltfRoot != null && fresh(gltfRoot) && gltfRoot.Value() == parsed.value
                                  && (loadedBin, error) == LoadBin(parsed.value, files, old(loadedBin))
      ensures importFilePath == old(importFilePath) && exportFilePath == old(exportFilePath)
      ensures glbRoot == old(glbRoot) && useExistingBasis == old(useExistingBasis) && bufferId == old(bufferId)
    {
      exportEnabled, importEnabled := false, false;
      error := LoadStream(parsed, files);
      importEnabled := CanImport();
      exportEnabled := CanExport();
    }

    /** PrepGLBRoot: the export copy is a fresh copy of the loaded document with
        one new buffer, whose id is 0 and which refers to the copy, the GLB flag,
        and the sampler policy.  The copy constructor of a missing document
        throws. */
    method PrepGLBRoot() returns (error: Option<Exception>)
      modifies this
      ensures gltfRoot == old(gltfRoot) && loadedBin == old(loadedBin)
      ensures old(gltfRoot) == null ==> error == Some(NullReference("new GLTFRoot(null)"))
                                        && glbRoot == old(glbRoot) && bufferId == old(bufferId)
      ensures old(gltfRoot) != null ==> error.None? && fresh(glbRoot) && glbRoot != gltfRoot
                                        && glbRoot.Value() == PrepDoc(gltfRoot.Value())
                                        && bufferId == BufferId(0, glbRoot)
      ensures importFilePath == old(importFilePath) && exportFilePath == old(exportFilePath)
      ensures importEnabled == old(importEnabled) && exportEnabled == old(exportEnabled)
      ensures useExistingBasis == old(useExistingBasis)
    {
      if gltfRoot == null {
        return Some(NullReference("new GLTFRoot(null)"));
      }
      glbRoot, bufferId := PrepCopy(gltfRoot);
      error := None;
    }

    /** Convert on the export copy. */
    method Convert(cancelled: bool) returns (error: Option<Exception>)
      modifies glbRoot
      ensures glbRoot.Value() == ConvertDoc(old(glbRoot.Value()), useExistingBasis, cancelled).0
      ensures error == ConvertDoc(old(glbRoot.Value()), useExistingBasis, cancelled).1
    {
      error := None;
      if !useExistingBasis {
        error := ConvertImages(glbRoot, cancelled);
        if error.Some? {
          return;
        }
      }
      ConvertTextures(glbRoot);
      AddBasisExtensionNames(glbRoot);
      assert glbRoot.textures == seq(|old(glbRoot.textures)|, k requires 0 <= k < |old(glbRoot.textures)| =>
                                       ConvertTexture(old(glbRoot.textures)[k]));
    }

    /** ExportStream: prepares the export copy, infers MIME types, converts,
        embeds the images, sets the buffer's length, serializes the copy and
        builds the .glb bytes, which go to the export path. */
    method ExportStream(cancelled: bool, files: map<string, seq<byte>>, serialize: (Doc, bool) -> string)
      returns (written: Result<(string, seq<byte>), Exception>)
      modifies this
      ensures gltfRoot == old(gltfRoot) && loadedBin == old(loadedBin)
      ensures old(gltfRoot) == null ==> written == Failure(NullReference("new GLTFRoot(null)"))
                                        && glbRoot == old(glbRoot) && bufferId == old(bufferId)
      ensures old(gltfRoot) != null ==>
                var r := ExportDoc(gltfRoot.Value(), loadedBin, useExistingBasis, cancelled, files, glbRoot, serialize);
                && fresh(glbRoot) && bufferId == BufferId(0, glbRoot)
                && glbRoot.Value() == r.0
                && written == WriteGlb(exportFilePath, r.1)
      ensures importFilePath == old(importFilePath) && exportFilePath == old(exportFilePath)
      ensures importEnabled == old(importEnabled) && exportEnabled == old(exportEnabled)
      ensures useExistingBasis == old(useExistingBasis)
    {
      var e := PrepGLBRoot();
      if e.Some? {
        return Failure(e.value);
      }
      ghost var source := gltfRoot.Value();
      ghost var r := ExportDoc(source, loadedBin, useExistingBasis, cancelled, files, glbRoot, serialize);
      if loadedBin.None? {
        return WriteGlb(exportFilePath, Failure(NullReference("loadedBinStream.Position")));
      }
      var bin := loadedBin.value;
      ghost var d0 := glbRoot.Value();
      e := InferMimeTypes(glbRoot);
      if e.Some? {
        assert r.0 == glbRoot.Value();
        return WriteGlb(exportFilePath, Failure(e.value));
      }
      ghost var d1 := glbRoot.Value();
      assert d1 == d0.(images := ApplyEach(d0.images, InferMime).0);
      e := Convert(cancelled);
      if e.Some? {
        assert r.0 == glbRoot.Value();
        return WriteGlb(exportFilePath, Failure(e.value));
      }
      ExportDocPacks(source, loadedBin, useExistingBasis, cancelled, files, glbRoot, serialize);
      var glb := PackInto(glbRoot, bufferId, bin, files, serialize, false);
      written := WriteGlb(exportFilePath, glb);
    }

    /** Export (ExportGLB): both buttons are disabled, the export runs, and
        whatever the outcome the buttons end up as CanImport and CanExport say. */
    method Export(cancelled: bool, files: map<string, seq<byte>>, serialize: (Doc, bool) -> string)
      returns (written: Result<(string, seq<byte>), Exception>)
      modifies this
      ensures gltfRoot == old(gltfRoot) && loadedBin == old(loadedBin)
      ensures importEnabled == CanImport() && exportEnabled == CanExport()
      ensures old(gltfRoot) == null ==> written.Failure?
      ensures old(gltfRoot) != null ==>
                var r := ExportDoc(gltfRoot.Value(), loadedBin, useExistingBasis, cancelled, files, glbRoot, serialize);
                && fresh(glbRoot) && glbRoot.Value() == r.0
                && written == WriteGlb(exportFilePath, r.1)
      ensures importFilePath == old(importFilePath) && exportFilePath == old(exportFilePath)
    {
      exportEnabled, importEnabled := false, false;
      written := ExportStream(cancelled, files, serialize);
      importEnabled := CanImport();
      exportEnabled := CanExport();
    }
  }
}
