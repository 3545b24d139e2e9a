# ZenCompress GLB export, modelled in Dafny

ZenCompress reads a glTF document (a `.gltf` JSON file with a `.bin` buffer and
image files next to it) and writes one binary `.glb` file. On the way it:

- rewrites every image and texture to refer to Basis Universal textures;
- embeds the image bytes in the binary chunk;
- packs the glTF text and the binary data into the GLB container of the Khronos
  glTF 2.0 specification (header in section 4.4, JSON and BIN chunks in section 4.5).

This project models that export path and proves what it does. The path has these steps:

- **the export copy** (`PrepGLBRoot`): one fresh buffer, `IsGLB`, and the sampler policy;
- **MIME inference** (from the URI's last `.`-segment);
- **Convert**: image URIs and MIME types become `.basis` / `image/basis`. Every texture gets a
  `MOZ_HUBS_texture_basis` payload in place of its source. The extension name is added to
  `extensionsUsed` and `extensionsRequired`;
- **AddImage**: each image's bytes are appended, and it gets a BufferView;
- **the container**: header, JSON chunk, BIN chunk.

Two versions of the path are modelled:

- the current component, `ImportExport` (`import_export.dfy`);
- the older `Import` (`legacy_import.dfy`). Its Convert has no reuse flag, adds the payload
  with a plain `Dictionary.Add`, and it writes to `path/fileName.glb`.

Both run the shared operations in `glb_export.dfy`. Byte layout and the GLB container are in `glb.dfy`.

The smaller cores are modelled too:

- the three extension codecs: `MOZ_lightmap`, `MOZ_HUBS_texture_basis` and `KHR_texture_basisu`
  (`codecs.dfy`);
- `GLTFTexture`'s copy constructor, reader and writer (`gltf_texture.dfy`);
- the HDR swap-out/swap-in pair (`hdr_swap.dfy`);
- the options panel: clamping and the sub-format state machine (`options_panel.dfy`);
- the texture list's two-key stable ordering (`texture_listing.dfy`);
- the JSON writer helpers `WriteProperty`/`WriteExtensions` (`json_writer.dfy`);
- the integer-array and matrix helpers of `SchemaExtensions` (`schema_ext.dfy`).

`text.dfy` holds the .NET string operations the code relies on:

- `String.Replace` and `Split`;
- the two regular expressions, as functions;
- `Int32.Parse` and `ToString`.

**How the model is built:**

- A document (`GLTFRoot`) is the class `Gltf.Root`. Its lists are sequence fields that the
  methods reassign.
- Images, textures, samplers and views are values inside those sequences. An index update
  stands for the C# field assignment on that element.
- References carry the document they point into (`ImageId(id, root)`), so `Root = glbRoot`
  is stated exactly.
- Exceptions are values. A loop that throws stops at the failing element and leaves the
  earlier elements changed, as the C# does.
- File contents are a map from relative path to bytes. The JSON serializer,
  `JToken.ToString`, `float.Parse` and the string comparer are parameters.

**Integer widths:**

- the GLB header's length fields are reduced to 32 bits explicitly (`Glb.U32`);
- the `(int)` cast of `ToIntArrayRaw` is the two's-complement reinterpretation (`SchemaExt.ToInt32`);
- `Int32.Parse` rejects values outside the 32-bit range.

**Behaviours of the code worth noting:**

- Each image is copied into the buffer at its raw length. Only each view's declared
  `ByteLength` is rounded up to 4, and the image block as a whole is padded at the end. The
  next offset advances by the raw length, and offsets are taken from the unpadded `.bin`
  length (see Findings).
- `extensionsUsed`/`extensionsRequired` get `MOZ_HUBS_texture_basis` on every export, even
  when the document has no textures.
- Every texture gets the payload, whether or not its image was converted. A texture without
  a source gets the default `ImageId` (index 0).
- `Options.SetQuality` uses the sub-format to pick the bound (4 or 255), not the stored
  `qualityLimiter`.
- `Options.SetTextureFormat` can throw after it has already changed part of its state. That
  partial state is modelled: `OptionsPanel.ToUastc` and `OptionsPanel.ToEtc1s`.

**An edge case of the URI rename:**

- A URI whose extension match is `".."` (for example `a...`) becomes `a.basis.`, not a
  `.basis` name (`Text.TrailingDotsRename`).
- Every other URI ends in `.basis` after Convert, or in `.basis` followed by a line feed when
  the URI ends in one: the regex's `$` also matches just before a final line feed, so `a.png\n`
  becomes `a.basis\n` (`GlbExport.ConvertImageRenames`, `Text.NewlineRename`).

## Model

| member | source | states |
|---|---|---|
| Glb.U32 | Assets/Scripts/ImportExport.cs:251-252 | the `(int)`/`uint` reduction of a length field lies in [0, 2^32) and is the identity on values that fit |
| Glb.LE32 | Assets/Scripts/ImportExport.cs:258-260 | `BinaryWriter.Write` of a 32-bit field writes exactly four bytes |
| Glb.ReadLE32 | Assets/Scripts/ImportExport.cs:258-260 | a 32-bit field read little-endian lies in [0, 2^32) |
| Glb.ReadWriteLE32 | Assets/Scripts/ImportExport.cs:258-269 | reading a written 32-bit field back little-endian gives the value written |
| Glb.RoundUp4 | Assets/Scripts/ImportExport.cs:157 | the aligned length is a multiple of 4, at least n and less than n + 4 |
| Glb.CalculateAlignmentIsRoundUp4 | Assets/Scripts/ImportExport.cs:157 | the exporter's `CalculateAlignment(n, 4)` formula `(n + 3) / 4 * 4` is RoundUp4 |
| Glb.Pad | Assets/Scripts/ImportExport.cs:240 | `AlignToBoundary` keeps the stream as a prefix, extends it to RoundUp4 of its length and fills only with the pad byte |
| Glb.AsciiByte | Assets/Scripts/ImportExport.cs:217 | a character below 128 is written as its code; any other character is written as some other byte ('?') |
| Glb.AsciiBytes | Assets/Scripts/ImportExport.cs:217 | the ASCII `StreamWriter` writes one byte per character (a character being a Unicode scalar value; see Left out) |
| Glb.AsciiBytesAt | Assets/Scripts/ImportExport.cs:217 | byte i of the JSON chunk is the ASCII byte of character i |
| Glb.ConcatSlice | Assets/Scripts/ImportExport.cs:158 | the bytes of image k sit in the image stream at the sum of the raw lengths of the images before it |
| Glb.ImageViewsAt | Assets/Scripts/ImportExport.cs:230-238 | view k has offset pre-image `.bin` length plus the raw lengths of the earlier images, and length RoundUp4 of its own raw length |
| Glb.ImageViewsSnoc | Assets/Scripts/ImportExport.cs:167-173 | each AddImage appends exactly one view, at the end of the bytes copied before it |
| Glb.ImageViewsAddressWhenAligned | Assets/Scripts/ImportExport.cs:230-249 | when the `.bin` length is a multiple of 4, every view addresses exactly its image's bytes in the BIN payload |
| Glb.ImageViewsMisaddressUnalignedBin | Assets/Scripts/ImportExport.cs:230 | with a 1-byte `.bin`, the first image's view points at padding, not at the image |
| Glb.ImageViewsOverrunBuffer | Assets/Scripts/ImportExport.cs:156-157 | with images of 1 and 2 bytes the views overlap, and the last one ends past the padded image block |
| Glb.AlignedImageViews | Assets/Scripts/ImportExport.cs:156-157 | the corrected placement: view k starts at the padded `.bin` length plus the padded lengths of the earlier images |
| Glb.AlignedImageViewsAddress | Assets/Scripts/ImportExport.cs:230-249 | with the corrected placement every view is 4-aligned, lies inside the BIN payload and addresses exactly its image |
| Glb.AlignedImageViewsDisjoint | Assets/Scripts/ImportExport.cs:156-157 | with the corrected placement each view ends exactly where the next begins |
| Glb.Header | Assets/Scripts/ImportExport.cs:258-260 | the header is 12 bytes |
| Glb.HeaderFields | Assets/Scripts/ImportExport.cs:40-41 | the header's fields read back as magic 0x46546C67, version 2 and the 32-bit total length |
| Glb.Chunk | Assets/Scripts/ImportExport.cs:262-269 | a chunk is its 8-byte header followed by its data |
| Glb.ChunkFields | Assets/Scripts/ImportExport.cs:262-269 | a chunk header reads back as its length and type, followed by exactly its data |
| Glb.Container | Assets/Scripts/ImportExport.cs:251-252 | the file length is 12 + 8 + JSON + 8 + `.bin` + images |
| Glb.ContainerParts | Assets/Scripts/ImportExport.cs:254-276 | the file is its header, then the JSON chunk (type 0x4E4F534A), then the BIN chunk (type 0x004E4942) over `.bin` followed by images |
| Glb.ContainerHeader | Assets/Scripts/ImportExport.cs:258-260 | bytes 0-12 read back as magic, version and the file's own length |
| Glb.ContainerJsonChunk | Assets/Scripts/ImportExport.cs:262-266 | bytes 12-20 give the JSON length and type, and the JSON follows |
| Glb.ContainerBinChunk | Assets/Scripts/ImportExport.cs:268-275 | after the JSON, the BIN header gives `.bin` + images as length, then the `.bin` bytes, then the image bytes |
| Glb.ContainerLayout | Assets/Scripts/ImportExport.cs:251-276 | every field of the layout at once, at its byte position |
| Glb.ContainerAligned | Assets/Scripts/ImportExport.cs:248-252 | with padded parts the file length is a multiple of 4 |
| GlbExport.ApplyEach | Assets/Scripts/ImportExport.cs:298-315 | a `foreach` whose body may throw keeps the list's length |
| GlbExport.ApplyEachSucceeds | Assets/Scripts/ImportExport.cs:298-299 | a loop that does not throw has stepped every element |
| GlbExport.ApplyEachFails | Assets/Scripts/ImportExport.cs:298-299 | an exception out of the loop comes from some element's step |
| GlbExport.RunEach | Assets/Scripts/ImportExport.cs:298-315 | the imperative element loop ends in the state and exception of ApplyEach |
| GlbExport.SamplerPolicy | Assets/Scripts/ImportExport.cs:187-204 | no samplers, or an empty list, gives exactly the default sampler (mag Linear, min Nearest, Repeat/Repeat); otherwise the samplers are the same ones with MinFilter Nearest |
| GlbExport.PrepDoc | Assets/Scripts/ImportExport.cs:176-205 | the export copy has exactly one empty buffer, `IsGLB`, the sampler policy, and otherwise the source's contents |
| GlbExport.ApplySamplerPolicy | Assets/Scripts/ImportExport.cs:187-204 | the document after the sampler step differs only in its samplers |
| GlbExport.PrepCopy | Assets/Scripts/ImportExport.cs:176-185 | a fresh document equal to PrepDoc of the source, and buffer id 0 in that document |
| GlbExport.MimeFromUri | Assets/Scripts/ImportExport.cs:223-224 | an inferred MIME type starts with `image/` |
| GlbExport.MimeFromUriSegment | Assets/Scripts/ImportExport.cs:223-224 | the subtype is the lower-cased final `.`-free segment of the URI |
| GlbExport.InferMime | Assets/Scripts/ImportExport.cs:222-225 | an image with a MIME type is untouched; one with a null or empty MIME type gets the inferred one; a null URI throws |
| GlbExport.InferMimeTypes | Assets/Scripts/ImportExport.cs:221-226 | the MIME loop rewrites only the images, as ApplyEach of InferMime |
| GlbExport.InferMimeAll | Assets/Scripts/ImportExport.cs:221-226 | the loop succeeds iff every image lacking a MIME type has a URI, and then each image is inferred or kept |
| GlbExport.ConvertImage | Assets/Scripts/ImportExport.cs:299-312 | a cancelled token throws before any change; a converted image has MIME `image/basis`, a URI, and its name and view kept |
| GlbExport.ConvertImageRenames | Assets/Scripts/ImportExport.cs:311-312 | a converted image's URI ends in `.basis`, or in `.basis` and a line feed when the URI ends in one, unless the matched extension is `..` |
| GlbExport.DoubleExtensionMatch | Assets/Scripts/ImportExport.cs:311 | the regex picks `.png` in `tex.png.png` |
| GlbExport.DoubleExtensionReplace | Assets/Scripts/ImportExport.cs:312 | `Replace` turns `tex.png.png` into `tex.basis.basis` |
| GlbExport.RenameExtension | Assets/Scripts/ImportExport.cs:312 | the corrected rename ends in `.basis` (and the URI's final line feed, if any) and keeps everything before the matched extension |
| GlbExport.RenameExtensionKeepsStem | Assets/Scripts/ImportExport.cs:312 | the corrected rename of stem + extension is stem + `.basis` |
| GlbExport.ConvertImages | Assets/Scripts/ImportExport.cs:297-316 | the image loop rewrites only the images, as ApplyEach of ConvertImage |
| GlbExport.ConvertTexture | Assets/Scripts/ImportExport.cs:318-332 | no source; the sampler kept, or id 0 when null; an existing payload kept; otherwise the payload appended with the old source or the default id; nothing else changed |
| GlbExport.ConvertTextureIdempotent | Assets/Scripts/ImportExport.cs:318-332 | converting a converted texture changes nothing |
| GlbExport.ConvertTextures | Assets/Scripts/ImportExport.cs:318-332 | the texture loop converts each texture and changes nothing else |
| GlbExport.ConvertTextureLegacy | Assets/Scripts/Import.cs:296-309 | a null source throws in the payload constructor; an existing payload makes `Add` throw before any change; otherwise the same result as the current Convert |
| GlbExport.ConvertTextureLegacyNotRepeatable | Assets/Scripts/Import.cs:297-303 | a second legacy conversion of a texture always throws |
| GlbExport.ConvertTexturesLegacy | Assets/Scripts/Import.cs:296-309 | the legacy texture loop is ApplyEach of ConvertTextureLegacy, stopping at the first throw |
| GlbExport.AddIfAbsent | Assets/Scripts/ImportExport.cs:334-344 | the list afterwards contains the name; an existing list that already has it is unchanged; otherwise the name is appended to the list (an empty one when null) |
| GlbExport.AddIfAbsentIdempotent | Assets/Scripts/ImportExport.cs:340-344 | adding the name a second time adds no duplicate |
| GlbExport.AddBasisExtensionNames | Assets/Scripts/ImportExport.cs:334-344 | both name lists get the Basis name, and nothing else changes |
| GlbExport.ConvertDoc | Assets/Scripts/ImportExport.cs:295-346 | Convert leaves buffers, views, samplers and `IsGLB` unchanged |
| GlbExport.ConvertDocLegacy | Assets/Scripts/Import.cs:264-324 | the older Convert leaves buffers, views, samplers and `IsGLB` unchanged |
| GlbExport.ConvertDocLegacyAgrees | Assets/Scripts/Import.cs:264-324 | the older Convert succeeds iff every texture has a source and no payload yet, and then agrees with the current one without the reuse flag |
| GlbExport.ConvertDocResult | Assets/Scripts/ImportExport.cs:295-346 | after Convert, the reuse flag keeps the images and otherwise each is converted; every texture has no source, a sampler and the payload; both name lists contain the Basis name |
| GlbExport.ConvertDocTwice | Assets/Scripts/ImportExport.cs:318-344 | a second Convert (reusing the images) changes nothing: no second payload, no duplicate name |
| GlbExport.LoadImages | Assets/Scripts/ImportExport.cs:154 | loading stops short exactly when some image fails |
| GlbExport.LoadImagesReadsFiles | Assets/Scripts/ImportExport.cs:154 | each loaded image is its URI's file; the load stops at the first null URI or missing file |
| GlbExport.FirstWithUri | Assets/Scripts/ImportExport.cs:160 | `First` finds the earliest image with an equal URI, and fails only when none has it |
| GlbExport.EmbedFirst | Assets/Scripts/ImportExport.cs:160-165 | the first n images are embedded with consecutive view ids; the rest are unchanged |
| GlbExport.AddedImagesDescribed | Assets/Scripts/ImportExport.cs:230-238 | the AddImage loop stops with the loader's exception at the first null URI or missing file; each image k before it loses its URI and refers to view `first + k`, appended with offset `\|bin\| +` the raw lengths of the earlier images and length RoundUp4 of its own; the image stream is the raw bytes back to back; everything else is unchanged |
| GlbExport.PackDoc | Assets/Scripts/ImportExport.cs:230-276 | on success, the output is the container of the space-padded JSON, the zero-padded `.bin` and the zero-padded images, and buffer 0's length is the unpadded `.bin` plus the padded images |
| GlbExport.Finish | Assets/Scripts/ImportExport.cs:240-276 | after the loop only buffer 0's length changes, and the container is written around the final document's text |
| GlbExport.PackDocImages | Assets/Scripts/ImportExport.cs:230-241 | packing succeeds iff every image loads; the document is the AddImage loop's result; a failure leaves the buffer length untouched |
| GlbExport.PackDocAfterAdd | Assets/Scripts/ImportExport.cs:240-276 | the packed document and bytes, expressed from the AddImage loop's result |
| GlbExport.PackInto | Assets/Scripts/ImportExport.cs:230-276 | the imperative packing changes the document and returns the bytes of PackDoc |
| GlbExport.SealGlb | Assets/Scripts/ImportExport.cs:240-276 | the image stream padded, buffer 0's length set, and the container written |
| GlbExport.PackDocFlagged | Assets/Scripts/Import.cs:195 | the serializer flag reaches only the serializer |
| GlbExport.PackDocIsGLB | Assets/Scripts/ImportExport.cs:230-276 | packing does not change `IsGLB` |
| GlbExport.AddImageDoc | Assets/Scripts/ImportExport.cs:152-174 | textures, samplers, buffers and the number of images are kept; the image stream only grows; success appends exactly one view; a failure changes nothing in the document |
| GlbExport.AddImageEmbeds | Assets/Scripts/ImportExport.cs:152-174 | for a loadable image: its bytes appended raw, one view with offset stream position + pre-image length and length RoundUp4, the first image with that URI embedded, nothing else changed |
| GlbExport.AddImageRejects | Assets/Scripts/ImportExport.cs:154 | a null URI or a missing file throws before anything changes |
| GlbExport.AddImage | Assets/Scripts/ImportExport.cs:152-174 | the method's new document, stream and exception are those of AddImageDoc |
| GlbExport.AddImages | Assets/Scripts/ImportExport.cs:232-238 | the AddImage loop establishes AddedImagesDescribed's description |
| ExportPipeline.LoadBin | Assets/Scripts/ImportExport.cs:143-147 | a GLB source keeps the previous `.bin`; otherwise buffer 0's URI must name a file, which becomes the `.bin` |
| ExportPipeline.ExportDoc | Assets/Scripts/ImportExport.cs:207-279 | the export copy is always marked `IsGLB`; without a `.bin` no file is produced (its stages are stated by the three rows below) |
| ExportPipeline.ExportDocPacks | Assets/Scripts/ImportExport.cs:207-279 | with a `.bin` and a successful Convert, the export is PackDoc on the converted copy, with one buffer |
| ExportPipeline.ExportDocSucceeds | Assets/Scripts/ImportExport.cs:207-279 | the export succeeds iff there is a `.bin`, MIME inference succeeds, Convert succeeds and every image loads |
| ExportPipeline.ExportDocWrites | Assets/Scripts/ImportExport.cs:207-279 | a successful export writes the GLB container around the final document, with one URI-less buffer of the unpadded `.bin` + padded images length |
| ExportPipeline.WriteGlb | Assets/Scripts/ImportExport.cs:254 | the file is written iff packing succeeded and the path is non-null and non-empty |
| ExportPipeline.ImportExport.constructor | Assets/Scripts/ImportExport.cs:29-69 | no paths, reuse flag off, no source document, no `.bin`, an empty export document |
| ExportPipeline.ImportExport.CanExport | Assets/Scripts/ImportExport.cs:128 | export is possible only with a loaded document and a non-null, non-empty export path |
| ExportPipeline.ImportExport.CanImport | Assets/Scripts/ImportExport.cs:130 | import is possible only with a non-null, non-empty import path |
| ExportPipeline.ImportExport.SetImportPath | Assets/Scripts/ImportExport.cs:77-80 | stores the path; the import button is enabled iff the path is not `""`; nothing else changes |
| ExportPipeline.ImportExport.SetExportPath | Assets/Scripts/ImportExport.cs:82-85 | stores the path; the export button is enabled iff the path is non-empty and a document is loaded |
| ExportPipeline.ImportExport.LoadStream | Assets/Scripts/ImportExport.cs:136-150 | a parse failure propagates; otherwise the parsed document is held and the `.bin` is loaded by LoadBin |
| ExportPipeline.ImportExport.Import | Assets/Scripts/ImportExport.cs:91-109 | LoadStream, then both buttons reflect CanImport/CanExport, also after an exception |
| ExportPipeline.ImportExport.PrepGLBRoot | Assets/Scripts/ImportExport.cs:176-205 | without a source document the copy constructor throws; otherwise a fresh copy equal to PrepDoc and buffer id 0 |
| ExportPipeline.ImportExport.Convert | Assets/Scripts/ImportExport.cs:295-346 | the export copy becomes ConvertDoc's document, with its exception |
| ExportPipeline.ImportExport.ExportStream | Assets/Scripts/ImportExport.cs:207-279 | the export copy is ExportDoc's document, and the file written is WriteGlb of the export path and ExportDoc's bytes |
| ExportPipeline.ImportExport.Export | Assets/Scripts/ImportExport.cs:111-126 | ExportStream, then both buttons reflect CanImport/CanExport |
| LegacyImport.CombinePath | Assets/Scripts/Import.cs:161 | `Path.Combine`: a null argument throws, an empty one yields the other, a rooted second path wins, otherwise one separator between |
| LegacyImport.OutputPath | Assets/Scripts/Import.cs:161 | the output path exists iff both parts are non-null, and ends in `.glb` |
| LegacyImport.LegacyPack | Assets/Scripts/Import.cs:160-234 | `IsGLB` is kept; without a `.bin` no file is produced (its stages are stated by the rows below) |
| LegacyImport.LegacyPackPacks | Assets/Scripts/Import.cs:160-234 | with a `.bin` and a successful older Convert, the export is PackDoc with the serializer flag set |
| LegacyImport.LegacyPackAgrees | Assets/Scripts/Import.cs:160-234 | when no texture conversion throws, the older export equals the current one without reuse and with the flag set |
| LegacyImport.LegacyPackSucceeds | Assets/Scripts/Import.cs:160-234 | the older export succeeds iff there is a `.bin`, MIME inference succeeds, the older Convert succeeds and every image loads |
| LegacyImport.Located | Assets/Scripts/Import.cs:208 | the bytes go to the given path iff packing succeeded; a failure passes through |
| LegacyImport.Import.constructor | Assets/Scripts/Import.cs:24-57 | the given path and file name, two distinct empty documents, no `.bin` |
| LegacyImport.Import.Convert | Assets/Scripts/Import.cs:264-324 | the export copy becomes ConvertDocLegacy's document, with its exception |
| LegacyImport.Import.ExportStream | Assets/Scripts/Import.cs:160-234 | a bad output path throws before anything changes; otherwise the document and file of LegacyPack at that path |
| LegacyImport.Import.Load | Assets/Scripts/Import.cs:73-131 | parse, the export copy (PrepDoc), the `.bin`, then the export, each failure stopping the rest with the state left so far |
| Hdr.EntryFor | Assets/Scripts/HDRSwap.cs:11-12 | a dictionary lookup finds a value iff the key was recorded, and returns a recorded value |
| Hdr.NullUriFrom | Assets/Scripts/HDRSwap.cs:19 | the scan meets its first null URI at the returned index |
| Hdr.HdrEntries | Assets/Scripts/HDRSwap.cs:17-29 | hdrMap gets no more entries than there are scanned images |
| Hdr.HdrEntriesSound | Assets/Scripts/HDRSwap.cs:17-29 | every hdrMap entry is a scanned `.hdr` image's index with its `uri\|mime` text |
| Hdr.HdrEntriesDescribed | Assets/Scripts/HDRSwap.cs:17-29 | hdrMap holds, under index k, `uri + "\|" + mime` exactly for the scanned `.hdr` images |
| Hdr.HdrEntriesAscending | Assets/Scripts/HDRSwap.cs:21-23 | hdrMap's keys are image indices in increasing order |
| Hdr.OutImages | Assets/Scripts/HDRSwap.cs:17-29 | `.hdr` images before the first null URI become the placeholder PNG; others unchanged; a null URI throws |
| Hdr.RgbeSource | Assets/Scripts/HDRSwap.cs:37-40 | a payload that is not a DefaultExtension throws; otherwise the source is Int32.Parse of the regex match |
| Hdr.RgbeSourceOfKey | Assets/Scripts/HDRSwap.cs:37-40 | extension text `"source": n` yields source n |
| Hdr.RgbeEntries | Assets/Scripts/HDRSwap.cs:30-42 | texMap gets no more entries than there are scanned textures |
| Hdr.RgbeEntriesSound | Assets/Scripts/HDRSwap.cs:30-42 | every texMap entry is a scanned texture's index with its `MOZ_texture_rgbe` payload |
| Hdr.RgbeEntriesDescribed | Assets/Scripts/HDRSwap.cs:30-35 | texMap holds, under index k, exactly the `MOZ_texture_rgbe` payloads of the scanned textures |
| Hdr.RgbeEntriesAscending | Assets/Scripts/HDRSwap.cs:34-35 | texMap's keys are texture indices in increasing order |
| Hdr.RgbeFailFrom | Assets/Scripts/HDRSwap.cs:30-40 | the texture loop stops at the first rgbe texture whose source cannot be parsed, and at none before it |
| Hdr.OutTextures | Assets/Scripts/HDRSwap.cs:30-42 | only sources change; rgbe textures get the parsed source; a failing one keeps a default source and ends the loop; the payloads stay in place |
| Hdr.InImages | Assets/Scripts/HDRSwap.cs:47-53 | the swap-in loop over hdrMap keeps the number of images |
| Hdr.InImagesRestores | Assets/Scripts/HDRSwap.cs:47-53 | every recorded image gets back the URI and MIME parts of its entry; the others are unchanged |
| Hdr.InTextures | Assets/Scripts/HDRSwap.cs:54-58 | the swap-in loop over texMap keeps the number of textures |
| Hdr.InTexturesClears | Assets/Scripts/HDRSwap.cs:54-58 | exactly the recorded textures lose their source; nothing else changes |
| Hdr.SwapImagesRoundTrip | Assets/Scripts/HDRSwap.cs:17-53 | swap-out then swap-in restores each `.hdr` image's URI and MIME type (a null MIME type comes back as `""`), provided no such URI contains `\|` |
| Hdr.SwapTexturesRoundTrip | Assets/Scripts/HDRSwap.cs:30-58 | swap-out then swap-in leaves each rgbe texture without a source and every other texture unchanged |
| Hdr.HdrSwap.constructor | Assets/Scripts/HDRSwap.cs:11-12 | both dictionaries start empty |
| Hdr.HdrSwap.SwapOut | Assets/Scripts/HDRSwap.cs:13-43 | both maps cleared, then the image pass and, if that did not throw, the texture pass |
| Hdr.HdrSwap.SaveImages | Assets/Scripts/HDRSwap.cs:17-29 | the image pass's document, hdrMap and exception are OutImages' |
| Hdr.HdrSwap.SaveTextures | Assets/Scripts/HDRSwap.cs:30-42 | the texture pass's document, texMap and exception are OutTextures'; hdrMap unchanged |
| Hdr.HdrSwap.SaveTextureLoop | Assets/Scripts/HDRSwap.cs:30-42 | the texture ForEach stops at the first texture whose id cannot be read, with the textures before it re-sourced, that one reset to `new ImageId()` and its payload recorded; otherwise every texture is passed |
| Hdr.HdrSwap.SaveTexture | Assets/Scripts/HDRSwap.cs:32-40 | one texture's turn: a recorded payload and its parsed source, or the exception with a default source |
| Hdr.HdrSwap.SwapIn | Assets/Scripts/HDRSwap.cs:45-59 | images restored from hdrMap, then sources cleared from texMap; the maps are not cleared |
| OptionsPanel.Clamp | Assets/Scripts/Options.cs:115-118 | the result lies in [lo, hi], equals v inside the range and the violated bound outside |
| OptionsPanel.QualityMax | Assets/Scripts/Options.cs:114 | the quality bound is 4 for UASTC and 255 otherwise |
| OptionsPanel.WithQuality | Assets/Scripts/Options.cs:108-127 | only the quality and its text change, and a changed quality lies in [0, max] |
| OptionsPanel.WithQualityStores | Assets/Scripts/Options.cs:108-127 | a parse failure changes nothing; otherwise quality is clamped into [0, max], stored with its text, and nothing else changes |
| OptionsPanel.WithQualityIdempotent | Assets/Scripts/Options.cs:113-121 | the stored text parses back to the stored quality, and re-entering it changes nothing |
| OptionsPanel.WithLevel | Assets/Scripts/Options.cs:145-163 | only the level and its text change, and a changed level lies in [1, 5] |
| OptionsPanel.WithLevelStores | Assets/Scripts/Options.cs:145-163 | a parse failure changes nothing; otherwise level is clamped into [1, 5], stored with its text, and nothing else changes |
| OptionsPanel.WithLevelIdempotent | Assets/Scripts/Options.cs:150-157 | the stored text parses back to the stored level, and re-entering it changes nothing |
| OptionsPanel.FormatOf | Assets/Scripts/Options.cs:34 | format is 1 iff the choice is below 2, else 0 |
| OptionsPanel.SubFormatOf | Assets/Scripts/Options.cs:35 | the sub-format is UASTC iff the choice is even, else ETC1S (enum values inferred; see Left out) |
| OptionsPanel.ToUastc | Assets/Scripts/Options.cs:37-49 | the labels are set, the ETC1S texts are saved and the UASTC texts restored; parse failures stop it part-way |
| OptionsPanel.ToEtc1s | Assets/Scripts/Options.cs:50-62 | the mirror image of ToUastc |
| OptionsPanel.FormatSwitched | Assets/Scripts/Options.cs:32-64 | format and sub-format follow the choice; a switch that completes remembers the new sub-format |
| OptionsPanel.FormatSwitchedSets | Assets/Scripts/Options.cs:34-63 | format and sub-format always follow the choice; re-selecting the current sub-format changes nothing else |
| OptionsPanel.FormatSwitchedSwaps | Assets/Scripts/Options.cs:37-62 | a switch saves the current texts under the old sub-format and restores and parses the new one's |
| OptionsPanel.FormatSwitchBack | Assets/Scripts/Options.cs:37-62 | switching away and back restores the visible texts and the previous sub-format |
| OptionsPanel.Regrouped | Assets/Scripts/Options.cs:97-103 | the regrouped list has the same length (its contents are stated by RegroupedSets) |
| OptionsPanel.RegroupedSets | Assets/Scripts/Options.cs:97-103 | entries of map type t get the new value; every other entry and field stays |
| OptionsPanel.ToggleTwice | Assets/Scripts/Options.cs:93-103 | toggling the same group twice restores the toggles and the list |
| OptionsPanel.Options.constructor | Assets/Scripts/Options.cs:18-25 | the limiter and saved-text defaults: 4, 0.2, 3.0, sub-format 1, "4", "255", "0.75", "1.05" |
| OptionsPanel.Options.SetTextureFormat | Assets/Scripts/Options.cs:32-64 | the new state and exception are FormatSwitched's |
| OptionsPanel.Options.SwitchToUastc | Assets/Scripts/Options.cs:37-49 | the UASTC branch's new state and exception are ToUastc's |
| OptionsPanel.Options.SwitchToEtc1s | Assets/Scripts/Options.cs:50-62 | the ETC1S branch's new state and exception are ToEtc1s's |
| OptionsPanel.Options.SetUseExistingBasis | Assets/Scripts/Options.cs:66-69 | only `useExistingBasis` changes, to the argument |
| OptionsPanel.Options.SetPreview | Assets/Scripts/Options.cs:71-74 | only `showPreview` changes, to the argument |
| OptionsPanel.Options.SetUseMultithreading | Assets/Scripts/Options.cs:76-79 | only `useMultithreading` changes, to the argument |
| OptionsPanel.Options.SetPreserveAlpha | Assets/Scripts/Options.cs:81-84 | only `preserveAlpha` changes, to the argument |
| OptionsPanel.Options.SetConvertLightmaps | Assets/Scripts/Options.cs:86-89 | only `convertLightmaps` changes, to the argument |
| OptionsPanel.Options.SetTextureToggle | Assets/Scripts/Options.cs:91-106 | t in range flips exactly toggle t and regroups the list; t at or past the length changes nothing; a negative t throws |
| OptionsPanel.Options.SetQuality | Assets/Scripts/Options.cs:108-127 | the new state is WithQuality's |
| OptionsPanel.Options.SetCompLevel | Assets/Scripts/Options.cs:145-163 | the new state is WithLevel's |
| TextureListing.Ordinal | Assets/Scripts/TextureList.cs:13-21 | the enum values are 0-5 in declaration order, DIFFUSE being 0 |
| TextureListing.OrdinalInjective | Assets/Scripts/TextureList.cs:13-21 | different map types have different values |
| TextureListing.EntryOf | Assets/Scripts/TextureList.cs:55-59 | an entry copies map type, name, index, URI and toggled from its image |
| TextureListing.Entries | Assets/Scripts/TextureList.cs:50-63 | one entry per ordered image, in order |
| TextureListing.SortBy | Assets/Scripts/TextureList.cs:47-48 | `OrderBy` returns a permutation of its input |
| TextureListing.SortBySorted | Assets/Scripts/TextureList.cs:47-48 | `OrderBy` sorts by its key |
| TextureListing.SortByStable | Assets/Scripts/TextureList.cs:47-48 | `OrderBy` is stable: elements with equal keys keep their order |
| TextureListing.ByName | Assets/Scripts/TextureList.cs:47 | the first key compares names |
| TextureListing.ByMapType | Assets/Scripts/TextureList.cs:48 | the second key compares map types by enum value |
| TextureListing.Ordered | Assets/Scripts/TextureList.cs:47-48 | the ordered images are a permutation of the input |
| TextureListing.SortByTypeOfNameOrdered | Assets/Scripts/TextureList.cs:47-48 | a stable sort by map type of a name-sorted list is ordered by map type, then name |
| TextureListing.OrderedIsTypeThenName | Assets/Scripts/TextureList.cs:47-48 | the list order is by map type, ties broken by name |
| TextureListing.TextureList.constructor | Assets/Scripts/TextureList.cs:10 | the list starts empty |
| TextureListing.TextureList.PopulateFromImages | Assets/Scripts/TextureList.cs:36-69 | the old entries are all removed and the list becomes the entries of the ordered images |
| TextureListing.TextureList.ToggleGroups | Assets/Scripts/TextureList.cs:71-76 | the list is unchanged |
| TextureListing.PopulateDescribed | Assets/Scripts/TextureList.cs:36-69 | one entry per image, a permutation, each entry matching its ordered image, ordered by map type then name |
| GltfTexture.NewTexture | Assets/GLTFSerialization/GLTFSerialization/Schema/GLTFTexture.cs:21-26 | a new texture has nothing set and `originalIndex` -1 |
| GltfTexture.CopyOf | Assets/GLTFSerialization/GLTFSerialization/Schema/GLTFTexture.cs:28-41 | Sampler is copied iff present, Source iff present, both re-homed; `originalIndex` is -1; a null texture gives a new one |
| GltfTexture.Deserialize | Assets/GLTFSerialization/GLTFSerialization/Schema/GLTFTexture.cs:43-66 | the reader loop reads the members in order into a new texture |
| GltfTexture.ReadMemberRouting | Assets/GLTFSerialization/GLTFSerialization/Schema/GLTFTexture.cs:51-62 | "sampler" sets Sampler, "source" sets Source (a non-integer, or one outside the `int` range, throws), any other key goes to the default handler |
| GltfTexture.Serialize | Assets/GLTFSerialization/GLTFSerialization/Schema/GLTFTexture.cs:68-87 | "sampler" written iff present, then "source" iff present, then the base properties |
| GltfTexture.ReadInertMembers | Assets/GLTFSerialization/GLTFSerialization/Schema/GLTFTexture.cs:59-61 | members the default handler takes leave Sampler and Source alone |
| GltfTexture.SerializeThenDeserialize | Assets/GLTFSerialization/GLTFSerialization/Schema/GLTFTexture.cs:43-87 | reading back what Serialize wrote gives the same sampler and source ids, homed in the reading document, for ids in the `int` range of the `Id` fields |
| MozLightmap.FactoryName | Assets/GLTFSerialization/GLTFSerialization/Extensions/MOZ_lightmapExtensionFactory.cs:11-19 | the factory reads `MOZ_lightmap` |
| MozLightmap.New | Assets/GLTFSerialization/GLTFSerialization/Extensions/MOZ_lightmapExtension.cs:14-18 | the constructor stores exactly the given intensity and texture info |
| MozLightmap.Clone | Assets/GLTFSerialization/GLTFSerialization/Extensions/MOZ_lightmapExtension.cs:20-23 | same intensity, index and texCoord, re-homed to the given document |
| MozLightmap.Serialize | Assets/GLTFSerialization/GLTFSerialization/Extensions/MOZ_lightmapExtension.cs:25-36 | a `MOZ_lightmap` property with exactly intensity, index and texCoord, in that order |
| MozLightmap.MemberOr | Assets/GLTFSerialization/GLTFSerialization/Extensions/MOZ_lightmapExtensionFactory.cs:28-35 | a present member is read, an absent one gives the default, and a non-object token throws |
| MozLightmap.Deserialize | Assets/GLTFSerialization/GLTFSerialization/Extensions/MOZ_lightmapExtensionFactory.cs:21-40 | a null token gives intensity 1, index 0 and texCoord 0; the texture reference is homed in the given document |
| MozLightmap.DeserializeKeywise | Assets/GLTFSerialization/GLTFSerialization/Extensions/MOZ_lightmapExtensionFactory.cs:26-36 | each of the three fields is read when present and defaults when absent, independently |
| MozLightmap.RoundTrip | Assets/GLTFSerialization/GLTFSerialization/Extensions/MOZ_lightmapExtension.cs:25-36 | Deserialize of Serialize(e) gives e's intensity, index id and texCoord, for the `int` values those fields hold |
| MozLightmap.DeserializeOverflow | Assets/GLTFSerialization/GLTFSerialization/Extensions/MOZ_lightmapExtensionFactory.cs:32 | an index outside the `int` range, such as `{"index": 3000000000}`, makes Deserialize throw an OverflowException |
| HubsBasis.NewFactory | Assets/Scripts/MozHubsTextureBasisExtensionFactory.cs:9-16 | the factory's name is `MOZ_HUBS_texture_basis`, and it stores the given source |
| HubsBasis.New | Assets/Scripts/MozHubsTextureBasisExtension.cs:9-14 | the payload copies Id and Root into its own ImageId; a null argument throws |
| HubsBasis.Clone | Assets/Scripts/MozHubsTextureBasisExtension.cs:16-18 | the clone equals the original; the document argument is ignored |
| HubsBasis.Serialize | Assets/Scripts/MozHubsTextureBasisExtension.cs:20-26 | a `MOZ_HUBS_texture_basis` property with exactly one key, `source` = the image index |
| HubsBasis.SerializeClone | Assets/Scripts/MozHubsTextureBasisExtension.cs:16-26 | a clone serializes as the original |
| HubsBasis.Deserialize | Assets/Scripts/MozHubsTextureBasisExtensionFactory.cs:18-25 | a null token or a missing `source` gives the default ImageId; any result is a Basis payload |
| HubsBasis.SerializedSourceUnreadable | Assets/Scripts/MozHubsTextureBasisExtensionFactory.cs:22 | what Serialize writes cannot be read back |
| HubsBasis.DeserializeSourceIndex | Assets/Scripts/MozHubsTextureBasisExtensionFactory.cs:18-25 | the corrected reader: the same defaults, with `source` read as the image index |
| HubsBasis.RoundTripSourceIndex | Assets/Scripts/MozHubsTextureBasisExtension.cs:20-26 | the corrected reader reads back what Serialize wrote, for an `int` image index |
| Ktx2.NewFactory | Assets/Scripts/TextureKTX2ExtensionFactory.cs:9-16 | the factory's name is `KHR_texture_basisu`, and it stores the given source |
| Ktx2.New | Assets/Scripts/TextureKTX2Extension.cs:9-14 | the payload copies Id and Root into its own ImageId; a null argument throws |
| Ktx2.Clone | Assets/Scripts/TextureKTX2Extension.cs:16-18 | the clone equals the original; the document argument is ignored |
| Ktx2.Serialize | Assets/Scripts/TextureKTX2Extension.cs:20-26 | a `KHR_texture_basisu` property with exactly one key, `source` = the image index |
| Ktx2.SameShapeAsBasis | Assets/Scripts/TextureKTX2Extension.cs:20-26 | the same object as the Basis payload's, under a different name |
| Ktx2.DeserializeAsWritten | Assets/Scripts/TextureKTX2ExtensionFactory.cs:18-25 | a null token gives the default; every result is a Basis payload |
| Ktx2.AsWrittenReserializesAsBasis | Assets/Scripts/TextureKTX2ExtensionFactory.cs:24 | what the factory returns is written back as `MOZ_HUBS_texture_basis`, not `KHR_texture_basisu` |
| Ktx2.Deserialize | Assets/Scripts/TextureKTX2ExtensionFactory.cs:18-25 | the corrected factory: the same defaults, and always a KTX2 payload |
| Ktx2.RoundTrip | Assets/Scripts/TextureKTX2Extension.cs:20-26 | the corrected factory reads back what Serialize wrote, for an `int` image index, and it is written again under `KHR_texture_basisu` |
| Json.Lookup | Assets/GLTFSerialization/GLTFSerialization/Extensions/MOZ_lightmapExtensionFactory.cs:28 | the indexer finds a value iff some member has the key, and returns that member's value |
| Json.Child | Assets/Scripts/MozHubsTextureBasisExtensionFactory.cs:21 | a child access succeeds iff the token is an object, and then is Lookup |
| Json.AsDouble | Assets/GLTFSerialization/GLTFSerialization/Extensions/MOZ_lightmapExtensionFactory.cs:29 | the number reader accepts integer and floating-point tokens and returns their value (see Left out for String and Boolean tokens) |
| Json.AsInt | Assets/GLTFSerialization/GLTFSerialization/Extensions/MOZ_lightmapExtensionFactory.cs:32 | the integer reader accepts an integer token exactly when it fits a C# `int`, returns its value, and throws an OverflowException otherwise (see Left out for the other token kinds) |
| Gltf.Find | Assets/Scripts/HDRSwap.cs:32-35 | a key is found iff the dictionary has it, with a value stored under it |
| JsonWriter.WriteProperty | Assets/Scripts/ImportExport.cs:525-530 | a member is written iff the property is non-null and not the `compare` object, as its name then its value |
| JsonWriter.WritePropertyReadsBack | Assets/Scripts/ImportExport.cs:525-530 | what WriteProperty writes reads back as that one member, or as none |
| JsonWriter.SerializeExtension | Assets/Scripts/ImportExport.cs:538 | each payload kind serializes through its own codec |
| JsonWriter.WriteExtensions | Assets/Scripts/ImportExport.cs:532-543 | nothing for a null dictionary; otherwise an `extensions` object with two tokens per entry |
| JsonWriter.WriteExtensionsReadsBack | Assets/Scripts/ImportExport.cs:532-543 | the object reads back as one member per entry, named by the dictionary key and holding the payload's serialized value |
| JsonWriter.WrittenMembersLookup | Assets/Scripts/ImportExport.cs:536-540 | the member written under a key is the serialized payload stored under that key |
| JsonWriter.ConvertedTextureWritesBasis | Assets/Scripts/ImportExport.cs:319-325 | after Convert, a texture's written extensions hold `MOZ_HUBS_texture_basis: {"source": id}` with its old source index |
| SchemaExt.Rewound | Assets/UnityGLTF/Scripts/Extensions/SchemaExtensions.cs:480-488 | the rewound index sequence has the same length (its contents are stated by the rows below) |
| SchemaExt.RewoundTriple | Assets/UnityGLTF/Scripts/Extensions/SchemaExtensions.cs:482-487 | in each complete triple, elements 0 and 2 swap and the middle stays |
| SchemaExt.RewoundTail | Assets/UnityGLTF/Scripts/Extensions/SchemaExtensions.cs:482-487 | elements past the last complete triple do not move |
| SchemaExt.RewoundInvolution | Assets/UnityGLTF/Scripts/Extensions/SchemaExtensions.cs:480-488 | flipping twice restores the indices |
| SchemaExt.RewoundPermutation | Assets/UnityGLTF/Scripts/Extensions/SchemaExtensions.cs:480-488 | flipping permutes the indices |
| SchemaExt.FlipTriangleFaces | Assets/UnityGLTF/Scripts/Extensions/SchemaExtensions.cs:480-488 | the array becomes Rewound of its old contents; a length that is not a multiple of 3 throws at index i + 2 after the complete triples |
| SchemaExt.ToInt32 | Assets/UnityGLTF/Scripts/Extensions/SchemaExtensions.cs:358 | the cast is congruent mod 2^32, lies in the int range, and is the identity up to int.MaxValue |
| SchemaExt.ToInt32Injective | Assets/UnityGLTF/Scripts/Extensions/SchemaExtensions.cs:358 | two different uints never cast to the same int |
| SchemaExt.ToIntArrayRaw | Assets/UnityGLTF/Scripts/Extensions/SchemaExtensions.cs:351-362 | a fresh array of the same length holding each element's cast, equal to the input when every element fits |
| SchemaExt.ConvertArray | Assets/UnityGLTF/Scripts/Extensions/SchemaExtensions.cs:259-267 | a fresh array of the same length whose element i is the conversion of input element i |
| SchemaExt.Stored | Assets/UnityGLTF/Scripts/Extensions/SchemaExtensions.cs:269-275 | the elements stored before the first out-of-range write all lie inside the output |
| SchemaExt.StoredAll | Assets/UnityGLTF/Scripts/Extensions/SchemaExtensions.cs:269-275 | every element is stored iff the input is empty or fits at the offset |
| SchemaExt.ConvertInto | Assets/UnityGLTF/Scripts/Extensions/SchemaExtensions.cs:269-275 | exactly the slots from the offset are written, with the conversions; every other slot is unchanged; an overrun throws at its index |
| SchemaExt.GetColumn | Assets/UnityGLTF/Scripts/Extensions/SchemaExtensions.cs:113-136 | columns 0-3 give (M1(n+1), M2(n+1), M3(n+1), M4(n+1)); any other number throws |
| SchemaExt.SetColumn | Assets/UnityGLTF/Scripts/Extensions/SchemaExtensions.cs:236-239 | Unity's SetColumn replaces that column and keeps the others |
| SchemaExt.ToUnityMatrix4x4 | Assets/UnityGLTF/Scripts/Extensions/SchemaExtensions.cs:490-511 | column n of the Unity matrix is `GetColumn(n)` of the glTF matrix |
| SchemaExt.ToUnityMatrix4x4Entries | Assets/UnityGLTF/Scripts/Extensions/SchemaExtensions.cs:490-511 | each Unity entry m(r)(c) is glTF's M(r+1)(c+1) |
| SchemaExt.ToUnityMatrix4x4Injective | Assets/UnityGLTF/Scripts/Extensions/SchemaExtensions.cs:490-511 | the conversion loses nothing: equal results come from equal matrices |
| SchemaExt.GetColumnOfUnity | Assets/UnityGLTF/Scripts/Extensions/SchemaExtensions.cs:113-136 | column n of a glTF matrix is column n of its Unity conversion |
| SchemaExt.ToUnityMatrix4x4Raw | Assets/UnityGLTF/Scripts/Extensions/SchemaExtensions.cs:229-242 | each column of the result is the glTF matrix's column of the same number |
| SchemaExt.RawConversionAgrees | Assets/UnityGLTF/Scripts/Extensions/SchemaExtensions.cs:229-242 | the column-by-column conversion equals the field-by-field one |
| Text.ReplaceAll | Assets/Scripts/ImportExport.cs:300 | ordinal `String.Replace`: replacing the pattern by itself changes nothing, and a replacement of the same length keeps the length |
| Text.ReplaceAllFront | Assets/Scripts/ImportExport.cs:300 | `Replace` rewrites an occurrence at the front and continues after it |
| Text.ReplaceAllAbsent | Assets/Scripts/ImportExport.cs:300 | `Replace` changes nothing when the pattern does not occur |
| Text.ReplaceAllTwice | Assets/Scripts/ImportExport.cs:312 | two trailing occurrences are both replaced |
| Text.ReplaceAllEndsWith | Assets/Scripts/ImportExport.cs:312 | replacing a final occurrence that no earlier one overlaps leaves a string ending in the replacement |
| Text.LastSegment | Assets/Scripts/ImportExport.cs:223-224 | the last `Split` element is the longest separator-free suffix |
| Text.Split | Assets/Scripts/HDRSwap.cs:50 | `Split` yields at least one segment, none containing the separator |
| Text.SplitNoSep | Assets/Scripts/HDRSwap.cs:50 | a string without the separator is its only segment |
| Text.SplitJoin | Assets/Scripts/HDRSwap.cs:50 | a separator-free prefix and the separator form the first segment |
| Text.ToLowerAscii | Assets/Scripts/ImportExport.cs:224 | lower-casing keeps the length and maps each character |
| Text.LineEnd | Assets/Scripts/ImportExport.cs:311 | where `$` lets a match end: the end of the URI, or just before a final line feed |
| Text.ExtensionFrom | Assets/Scripts/ImportExport.cs:311 | the regex finds the leftmost position at which a `.`-extension matches up to the end or up to a final line feed, or "" when none does |
| Text.ExtensionMatch | Assets/Scripts/ImportExport.cs:311 | `Match(u).Value`: "" iff no position matches; otherwise the leftmost match, running to LineEnd |
| Text.ExtensionMatchIsSuffix | Assets/Scripts/ImportExport.cs:311 | the regex match starts with a dot, holds no line feed and no dot after its second character, and is followed in the URI by nothing or by the final line feed |
| Text.ExtensionMatchNoOverlap | Assets/Scripts/ImportExport.cs:311-312 | except for `..`, no earlier occurrence of the match overlaps the final one |
| Text.RenameEndsWithBasis | Assets/Scripts/ImportExport.cs:311-312 | except for a `..` match, the renamed URI ends in `.basis`, or in `.basis` and a line feed when the URI ends in one |
| Text.ReplaceAllBeforeNewline | Assets/Scripts/ImportExport.cs:312 | `Replace` of a pattern without line feeds leaves a final line feed in place |
| Text.NewlineRename | Assets/Scripts/ImportExport.cs:311-312 | `a.png\n` matches `.png` and is renamed to `a.basis\n` |
| Text.TrailingDotsRename | Assets/Scripts/ImportExport.cs:311-312 | `a...` matches `..` and is renamed to `a.basis.` |
| Text.TrimStart | Assets/Scripts/Options.cs:113 | the leading white space is removed and nothing else |
| Text.TrimEnd | Assets/Scripts/Options.cs:113 | the trailing white space is removed and nothing else |
| Text.ParseInt32 | Assets/Scripts/Options.cs:113 | a parsed value lies in the 32-bit range |
| Text.ParseDigits | Assets/Scripts/Options.cs:113 | a run of digits parses to its value, or overflows |
| Text.ParseEmpty | Assets/Scripts/HDRSwap.cs:40 | parsing the empty match throws a format error |
| Text.ParseIntToString | Assets/Scripts/Options.cs:120 | printing a 32-bit value and parsing it back gives the value |
| Text.DigitRun | Assets/Scripts/HDRSwap.cs:38-39 | the `\d+` run is the longest run of digits at that position |
| Text.SourceIdFrom | Assets/Scripts/HDRSwap.cs:38-39 | the lookbehind regex finds the leftmost digits preceded by `"source":` and `\s` white space (the regex's Unicode set), or "" when there are none |
| Text.SourceIdMatch | Assets/Scripts/HDRSwap.cs:38-39 | `Match(s).Value`: "" iff no position matches; otherwise the digits at the leftmost match |
| Text.SourceIdMatchOfKey | Assets/Scripts/HDRSwap.cs:38-40 | in `"source": n` the regex matches the printed n |

## Left out

- File and stream input/output are not modelled. Files are a map from relative path to bytes
  (`LoadStreamAsync` gives `FileNotFound` or `ArgumentNull`), and the written `.glb` is a
  returned path and byte sequence. The `Path.GetDirectoryName` and `FileLoader` details of
  locating files are not modelled.
- The `basisu.exe` encoder process (`RunProcessAsync`, `OnApplicationQuit`) is an opaque step
  that always succeeds, and its exit code is ignored. The argument strings built for it are not
  modelled.
- Cancellation is a flag checked at the start of each image (`ThreadingUtility.QuitToken`);
  threads and async ordering are out of scope.
- Unity UI state is not modelled beyond the two button flags and the options panel's strings.
  This covers TextMeshPro labels, toggles' `isOn`, `Instantiate`/`Destroy` of list entries and
  `Setup()`.
- Logging, `Time.time` timings and `PrintJson` (a debug dump to the log) are not modelled.
  `ExportJson` is never called and is not modelled.
- The library parser and serializer are parameters, not models:
  - `GLTFParser.ParseJson` is a parameter result;
  - `GLTFRoot.Serialize` is a function parameter from document to text;
  - Newtonsoft's `Value<ImageId>` conversion is a parameter.

  Their own behaviour is not modelled.
- `JToken.ToString` in HDRSwap is a render parameter, and `float.Parse` is a parameter.
  Floating point is `real`.
- The `GLTFRoot` copy constructor is modelled as a copy of the document's contents. Re-homing
  of nested ids to the new document is not modelled.
- The two regular expressions are modelled as their match functions
  (`Text.ExtensionMatch`, `Text.SourceIdMatch`), not as a regex engine.
- Text.ToLowerAscii: `ToLower` uses the current culture; the model lower-cases ASCII letters
  only, as the invariant culture does for them. Culture-specific case mapping (the Turkish
  dotted and dotless i) and non-ASCII letters are not modelled.
- Hdr.IsHdr: `Uri.EndsWith(".hdr")` is a current-culture comparison; the model compares
  ordinally. A URI that ends in a code point the culture ignores (such as U+00AD after
  `.hdr`) matches in .NET but not in the model.
- Text.ParseInt32: `Int32.Parse` reads the sign symbols of the current culture; the model uses
  the invariant culture's `-` and `+`. `Text.IntToString` likewise prints the invariant
  culture's `-`.
- The name comparer behind `OrderBy(img => img.name)` is a parameter, assumed to be a total
  preorder.
- GlbExport.PackDoc: does not model the `uint`/`int` wrap of buffer, view and stream lengths
  above 2^31 or 2^32, because lengths are unbounded. Only the GLB header fields are reduced to
  32 bits.
- SchemaExt.ToIntArrayRaw: `Debug.Assert` is a no-op in release builds and is not modelled.
  The cast itself is modelled.
- SchemaExt.ConvertInto: requires distinct input and output arrays, which the C# element types
  guarantee. The int overflow of `offset + i` is not modelled.
- The element conversions of the `*Raw` array helpers (`ToUnityVector2Raw` and the others) are
  one generic `convert` parameter.
- The floating-point parts of SchemaExtensions are not modelled: the coordinate-space
  conversions, `GetTRSProperties`, quaternions and `FlipTexCoordArrayV`.
- `ToGltfMatrix4x4Raw` is not modelled, because the `GLTF.Math.Matrix4x4` constructor's
  argument order is not part of this model.
- `Options.SetThreshold` is not modelled: a floating-point clamp with `"0.00"` formatting.
  `TextureList.Awake`/`Options.Awake` singletons are not modelled either.
- The `Images`, `Textures` and `BufferViews` lists are always present. The C# throws on a null
  list there too, apart from the `gltfRoot.Images != null` guard, which is therefore always true.
- `IndexOf(image)` in HDRSwap is the loop index. That is the same thing unless two list slots
  hold the same object, which the value model cannot express.
- `Import.Load`'s `GLTFUri.TrimStart` and `Application.streamingAssetsPath` are not modelled;
  the parsed document is a parameter.
- Glb.AsciiBytes: one byte per Dafny character, and a Dafny character is a Unicode scalar
  value. A C# `char` is a UTF-16 code unit, so `Encoding.ASCII` writes two `?` bytes for a
  character outside the Basic Multilingual Plane where the model writes one. For such text the
  JSON chunk length, its padding and the header's total length are not byte-exact.
- OptionsPanel.SubFormatOf: the `ImportExport.SubFormat` enum declaration is not part of this
  model, so `OptionsPanel.UASTC` = 1 and `OptionsPanel.ETC1S` = 0 (and with them
  `OptionsPanel.QualityMax`) are inferred. The evidence is `previousSubFormat = 1`
  (Assets/Scripts/Options.cs:21), set beside the UASTC defaults `"4"` and `"0.75"` (:22, :24)
  and the UASTC `qualityLimiter = 4` (:18).
- Json.AsInt: the int readers (`DeserializeAsInt`, `ReadAsInt32`) are library code that is not
  part of this model. The model accepts integer tokens in the `int` range only. Newtonsoft's
  `(int)` conversion also converts Float tokens (rounding), String tokens (parsed) and Boolean
  tokens (`true` is 1); the model fails on those.
- Json.AsDouble: likewise, Newtonsoft's `(double)` conversion also converts String and Boolean
  tokens; the model accepts only integer and floating-point tokens. Floating point is `real`.
- The model's ids and texture coordinate sets are unbounded integers, while the C# fields are
  `int`. The round-trip lemmas (`MozLightmap.RoundTrip`, `HubsBasis.RoundTripSourceIndex`,
  `Ktx2.RoundTrip`, `GltfTexture.SerializeThenDeserialize`) therefore require the values to be
  in the `int` range, which the C# types guarantee; `MozLightmap.DeserializeOverflow` shows
  what happens outside it.
- LegacyImport.CombinePath: models `Path.Combine` on a platform whose only directory separator
  is `/`. The program runs on Windows, where `\` and `:` also count as separators and `\` is
  inserted; that is not modelled. Nor are the `ArgumentException`s that the `Path.Combine`
  calls in the BASIS conversion (Assets/Scripts/ImportExport.cs:303-307) can raise for invalid
  path characters; those calls only build the encoder's arguments, which are not modelled.

## Findings

| source | as written | input that shows it | evidently intended | confidence | as-written member | corrected member |
|---|---|---|---|---|---|---|
| Assets/Scripts/ImportExport.cs:230 | image offsets start at the unpadded `.bin` length, but the `.bin` is zero-padded to 4 before the images in the BIN chunk | a 1-byte `.bin` and one 1-byte image: the view says offset 1, the image sits at offset 4 | offsets measured from the padded `.bin` | not executed | Glb.ImageViewsMisaddressUnalignedBin | Glb.AlignedImageViewsAddress |
| Assets/Scripts/ImportExport.cs:156-157 | each view's length is rounded up to 4, but the next image starts right after the raw bytes | images of 1 and 2 bytes: view 0 covers 0-4, view 1 starts at 1 and ends at 5, past the 4-byte padded block | images padded one by one, offsets advanced by the padded length | not executed | Glb.ImageViewsOverrunBuffer | Glb.AlignedImageViewsDisjoint |
| Assets/Scripts/TextureKTX2ExtensionFactory.cs:24 | the KTX2 factory builds a `MozHubsTextureBasisExtension` | any token: re-serialising the result writes `MOZ_HUBS_texture_basis` | a `TextureKTX2Extension` | not executed | Ktx2.AsWrittenReserializesAsBasis | Ktx2.RoundTrip |
| Assets/Scripts/MozHubsTextureBasisExtensionFactory.cs:22 | reads `source` as an object with a nested `source` key | the payload's own output `{"source": 3}`: the nested lookup on the number 3 throws | read `source` as the image index | not executed | HubsBasis.SerializedSourceUnreadable | HubsBasis.RoundTripSourceIndex |
| Assets/Scripts/ImportExport.cs:312 | `String.Replace` rewrites every occurrence of the matched extension | `tex.png.png` becomes `tex.basis.basis` | replace only the final extension | not executed | GlbExport.DoubleExtensionReplace | GlbExport.RenameExtensionKeepsStem |
