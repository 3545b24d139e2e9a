/** The export pipeline stages shared by both versions of the exporter, each as a
    specification function on document snapshots (`Doc`) and, where the code loops
    over a document's lists, as a method with the loop that is proved to compute
    that function. */
module GlbExport {
  import opened Wrappers
  import opened Exceptions
  import opened Text
  import opened Gltf
  import opened Glb
  import HubsBasis

  // ---------------------------------------------------------------------------
  // Running a per-element step over a list until the first exception.
  // ---------------------------------------------------------------------------

  /** A `foreach` whose body may throw: every element up to and including the
      failing one is replaced by what the body left behind; the rest are untouched. */
  function ApplyEach<T>(xs: seq<T>, step: T -> (T, Option<Exception>)): (r: (seq<T>, Option<Exception>))
    ensures |r.0| == |xs|
    decreases |xs|
  {
    if |xs| == 0 then ([], None)
    else
      var (y, e) := step(xs[0]);
      if e.Some? then ([y] + xs[1..], e)
      else
        var rest := ApplyEach(xs[1..], step);
        ([y] + rest.0, rest.1)
  }

  /** Without an exception, every element is stepped. */
  lemma {:induction false} ApplyEachSucceeds<T>(xs: seq<T>, step: T -> (T, Option<Exception>))
    requires ApplyEach(xs, step).1.None?
    ensures forall k :: 0 <= k < |xs| ==> step(xs[k]).1.None? && ApplyEach(xs, step).0[k] == step(xs[k]).0
    decreases |xs|
  {
    if |xs| > 0 {
      ApplyEachSucceeds(xs[1..], step);
      forall k | 1 <= k < |xs| ensures xs[k] == xs[1..][k - 1] { }
    }
  }

  /** An exception comes from some element's step. */
  lemma {:induction false} ApplyEachFails<T>(xs: seq<T>, step: T -> (T, Option<Exception>))
    requires ApplyEach(xs, step).1.Some?
    ensures exists k :: 0 <= k < |xs| && step(xs[k]).1.Some?
    decreases |xs|
  {
    if step(xs[0]).1.None? {
      ApplyEachFails(xs[1..], step);
      var k :| 0 <= k < |xs[1..]| && step(xs[1..][k]).1.Some?;
      assert xs[1..][k] == xs[k + 1];
    }
  }

  lemma ApplyEachUnfold<T>(xs: seq<T>, step: T -> (T, Option<Exception>))
    requires |xs| > 0
    ensures step(xs[0]).1.Some? ==> ApplyEach(xs, step) == ([step(xs[0]).0] + xs[1..], step(xs[0]).1)
    ensures step(xs[0]).1.None? ==>
              ApplyEach(xs, step) == ([step(xs[0]).0] + ApplyEach(xs[1..], step).0, ApplyEach(xs[1..], step).1)
  {
  }

  /** The loop stops at a failing element. */
  lemma ApplyEachStops<T>(xs: seq<T>, done: seq<T>, step: T -> (T, Option<Exception>))
    requires |done| < |xs| && step(xs[|done|]).1.Some?
    requires ApplyEach(xs, step).0 == done + ApplyEach(xs[|done|..], step).0
    requires ApplyEach(xs, step).1 == ApplyEach(xs[|done|..], step).1
    ensures ApplyEach(xs, step).0 == done + [step(xs[|done|]).0] + xs[|done| + 1..]
    ensures ApplyEach(xs, step).1 == step(xs[|done|]).1
  {
    var tail := xs[|done|..];
    assert tail[0] == xs[|done|] && tail[1..] == xs[|done| + 1..];
    ApplyEachUnfold(tail, step);
    var y := step(xs[|done|]).0;
    assert ApplyEach(tail, step).0 == [y] + xs[|done| + 1..];
    assert done + ([y] + xs[|done| + 1..]) == done + [y] + xs[|done| + 1..];
  }

  /** The loop moves past a succeeding element. */
  lemma ApplyEachContinues<T>(xs: seq<T>, done: seq<T>, step: T -> (T, Option<Exception>))
    requires |done| < |xs| && step(xs[|done|]).1.None?
    requires ApplyEach(xs, step).0 == done + ApplyEach(xs[|done|..], step).0
    requires ApplyEach(xs, step).1 == ApplyEach(xs[|done|..], step).1
    ensures ApplyEach(xs, step).0 == (done + [step(xs[|done|]).0]) + ApplyEach(xs[|done| + 1..], step).0
    ensures ApplyEach(xs, step).1 == ApplyEach(xs[|done| + 1..], step).1
  {
    var tail := xs[|done|..];
    assert tail[0] == xs[|done|] && tail[1..] == xs[|done| + 1..];
    ApplyEachUnfold(tail, step);
  }

  /** The `foreach` itself: the list is updated element by element, and the loop
      stops at the first exception. */
  method RunEach<T>(xs: seq<T>, step: T -> (T, Option<Exception>)) returns (ys: seq<T>, error: Option<Exception>)
    ensures ys == ApplyEach(xs, step).0 && error == ApplyEach(xs, step).1
  {
    ys := xs;
    var i := 0;
    assert xs[0..] == xs;
    while i < |ys|
      invariant i <= |ys| == |xs|
      invariant ys[i..] == xs[i..]
      invariant ApplyEach(xs, step).0 == ys[..i] + ApplyEach(xs[i..], step).0
      invariant ApplyEach(xs, step).1 == ApplyEach(xs[i..], step).1
    {
      ghost var done := ys[..i];
      var (y, e) := step(ys[i]);
      assert ys[i + 1..] == xs[i + 1..];
      ys := ys[i := y];
      assert ys[..i + 1] == done + [y];
      if e.Some? {
        ApplyEachStops(xs, done, step);
        assert ys == done + [y] + xs[i + 1..];
        return ys, e;
      }
      ApplyEachContinues(xs, done, step);
      i := i + 1;
    }
    assert ys[..i] == ys;
    assert xs[i..] == [];
    return ys, None;
  }

  // ---------------------------------------------------------------------------
  // PrepGLBRoot: one buffer, the GLB flag, the sampler policy.
  // ---------------------------------------------------------------------------

  /** The sampler added to a document without samplers. */
  const DefaultSampler: Sampler := Sampler(None, MagLinear, MinNearest, Repeat, Repeat)

  /** The samplers after PrepGLBRoot: the default sampler when there were none,
      otherwise the same samplers with MinFilter Nearest and nothing else changed. */
  function SamplerPolicy(samplers: Option<seq<Sampler>>): (r: seq<Sampler>)
    ensures samplers.None? || |samplers.value| == 0 ==> r == [DefaultSampler]
    ensures samplers.Some? && |samplers.value| > 0 ==>
              |r| == |samplers.value|
              && forall i :: 0 <= i < |r| ==> r[i] == samplers.value[i].(minFilter := MinNearest)
  {
    var s := samplers.GetOr([]);
    if |s| == 0 then [DefaultSampler]
    else seq(|s|, i requires 0 <= i < |s| => s[i].(minFilter := MinNearest))
  }

  /** The export copy of a document after PrepGLBRoot. */
  function PrepDoc(d: Doc): (p: Doc)
    ensures p.buffers == [Buffer(None, 0)] && p.isGLB
    ensures p.samplers == Some(SamplerPolicy(d.samplers))
    ensures p.images == d.images && p.textures == d.textures && p.bufferViews == d.bufferViews
    ensures p.extensionsUsed == d.extensionsUsed && p.extensionsRequired == d.extensionsRequired
  {
    d.(buffers := [Buffer(None, 0)], isGLB := true, samplers := Some(SamplerPolicy(d.samplers)))
  }

  /** The sampler part of PrepGLBRoot on the export copy. */
  method ApplySamplerPolicy(root: Root)
    modifies root
    ensures root.Value() == old(root.Value()).(samplers := Some(SamplerPolicy(old(root.samplers))))
  {
    if root.samplers.None? {
      root.samplers := Some([]);
    }
    var samplers := root.samplers.value;
    if |samplers| == 0 {
      root.samplers := Some([DefaultSampler]);
    } else {
      var i := 0;
      while i < |samplers|
        invariant 0 <= i <= |samplers| == |old(root.samplers).value|
        invariant forall k :: 0 <= k < i ==> samplers[k] == old(root.samplers).value[k].(minFilter := MinNearest)
        invariant forall k :: i <= k < |samplers| ==> samplers[k] == old(root.samplers).value[k]
      {
        samplers := samplers[i := samplers[i].(minFilter := MinNearest)];
        i := i + 1;
      }
      assert samplers == SamplerPolicy(old(root.samplers));
      root.samplers := Some(samplers);
    }
  }

  /** PrepGLBRoot: a fresh copy of the document, its buffer list replaced by one
      new buffer whose id (the list's count before the add, 0) refers to the
      copy, the GLB flag set and the sampler policy applied. */
  method PrepCopy(source: Root) returns (copy: Root, bufferId: BufferId)
    ensures fresh(copy) && copy.Value() == PrepDoc(source.Value())
    ensures bufferId == BufferId(0, copy)
  {
    copy := new Root(source.Value());
    copy.buffers := [];
    bufferId := BufferId(|copy.buffers|, copy);
    copy.buffers := copy.buffers + [Buffer(None, 0)];
    copy.isGLB := true;
    ApplySamplerPolicy(copy);
  }

  // ---------------------------------------------------------------------------
  // MIME type inference (ExportStream's first loop).
  // ---------------------------------------------------------------------------

  predicate MissingMime(img: Image)
  {
    img.mimeType.None? || img.mimeType == Some("")
  }

  /** The MIME type inferred from a URI: "image/" and the lower-cased text after
      the last '.'. */
  function MimeFromUri(uri: string): (m: string)
    ensures StartsWith(m, "image/")
  {
    "image/" + ToLowerAscii(LastSegment(uri, '.'))
  }

  /** The inferred subtype is the URI's final '.'-free segment, lower-cased. */
  lemma MimeFromUriSegment(uri: string)
    ensures var ext := MimeFromUri(uri)[|"image/"|..];
            && |ext| <= |uri|
            && (forall i :: 0 <= i < |ext| ==> ext[i] == LowerChar(uri[|uri| - |ext| + i]))
            && (forall i :: |uri| - |ext| <= i < |uri| ==> uri[i] != '.')
            && (|ext| == |uri| || uri[|uri| - |ext| - 1] == '.')
  {
    var seg := LastSegment(uri, '.');
    var ext := ToLowerAscii(seg);
    var off := |uri| - |seg|;
    assert MimeFromUri(uri)[|"image/"|..] == ext;
    assert uri[off..] == seg;
    forall i | 0 <= i < |seg| ensures uri[off + i] == seg[i] {
      assert uri[off..][i] == uri[off + i];
    }
    forall i | 0 <= i < |ext| ensures ext[i] == LowerChar(uri[off + i]) {
    }
    forall i | off <= i < |uri| ensures uri[i] != '.' {
      assert uri[i] == seg[i - off];
    }
  }

  /** One image of the MIME loop: a missing type is inferred from the URI, which
      must then be present; a present type is kept. */
  function InferMime(img: Image): (r: (Image, Option<Exception>))
    ensures !MissingMime(img) ==> r == (img, None)
    ensures MissingMime(img) && img.uri.Some? ==> r == (img.(mimeType := Some(MimeFromUri(img.uri.value))), None)
    ensures MissingMime(img) && img.uri.None? ==> r.0 == img && r.1.Some?
  {
    if !MissingMime(img) then (img, None)
    else if img.uri.None? then (img, Some(NullReference("image.Uri.Split")))
    else (img.(mimeType := Some(MimeFromUri(img.uri.value))), None)
  }

  method InferMimeTypes(root: Root) returns (error: Option<Exception>)
    modifies root
    ensures (root.images, error) == ApplyEach(old(root.images), InferMime)
    ensures root.Value() == old(root.Value()).(images := root.images)
  {
    var updated, e := RunEach(root.images, InferMime);
    root.images := updated;
    return e;
  }

  /** The MIME loop completes exactly when every image without a type has a URI,
      and then each image without a type has the inferred one and every other
      image is unchanged. */
  lemma InferMimeAll(images: seq<Image>)
    ensures var (r, e) := ApplyEach(images, InferMime);
            && (e.None? <==> forall k :: 0 <= k < |images| ==> !MissingMime(images[k]) || images[k].uri.Some?)
            && (e.None? ==> forall k :: 0 <= k < |images| ==>
                  r[k] == if MissingMime(images[k]) then images[k].(mimeType := Some(MimeFromUri(images[k].uri.value)))
                          else images[k])
  {
    if ApplyEach(images, InferMime).1.None? {
      ApplyEachSucceeds(images, InferMime);
    } else {
      ApplyEachFails(images, InferMime);
    }
  }

  // ---------------------------------------------------------------------------
  // Convert: images to Basis, textures to the Basis extension, extension names.
  // ---------------------------------------------------------------------------

  const BasisName: string := HubsBasis.ExtensionName
  const BasisMime: string := "image/basis"

  /** The body of Convert's image loop.  The encoder run between the URI clean-up
      and the MIME update is an external process whose outcome is ignored.  A
      cancellation request is checked first; a missing URI or MIME type throws at
      its first use; an empty extension match makes String.Replace throw. */
  function ConvertImage(cancelled: bool, img: Image): (r: (Image, Option<Exception>))
    ensures cancelled ==> r == (img, Some(OperationCanceled))
    ensures r.1.None? ==> r.0.mimeType == Some(BasisMime) && r.0.uri.Some?
                          && r.0.name == img.name && r.0.bufferView == img.bufferView
  {
    if cancelled then (img, Some(OperationCanceled))
    else if img.uri.None? then (img, Some(NullReference("image.Uri.Replace")))
    else
      var uri := ReplaceAll(img.uri.value, "%20", " ");
      var cleaned := img.(uri := Some(uri));
      if cleaned.mimeType.None? then (cleaned, Some(NullReference("image.MimeType.ToLower")))
      else
        var typed := cleaned.(mimeType := Some(BasisMime));
        var ext := ExtensionMatch(uri);
        if ext == "" then (typed, Some(Argument("String.Replace with an empty value")))
        else (typed.(uri := Some(ReplaceAll(uri, ext, ".basis"))), None)
  }

  function ConvertImageStep(cancelled: bool): Image -> (Image, Option<Exception>)
  {
    img => ConvertImage(cancelled, img)
  }

  /** A converted image ends in ".basis" (followed by the final line feed of a
      URI that has one), unless its extension is "..". */
  lemma ConvertImageRenames(img: Image)
    requires img.uri.Some? && img.mimeType.Some?
    requires var uri := ReplaceAll(img.uri.value, "%20", " ");
             ExtensionMatch(uri) != "" && ExtensionMatch(uri) != ".."
    ensures var uri := ReplaceAll(img.uri.value, "%20", " ");
            var r := ConvertImage(false, img);
            && r.1.None? && r.0.mimeType == Some(BasisMime)
            && (EndsWith(uri, "\n") ==> EndsWith(r.0.uri.value, ".basis\n"))
            && (!EndsWith(uri, "\n") ==> EndsWith(r.0.uri.value, ".basis"))
  {
    RenameEndsWithBasis(ReplaceAll(img.uri.value, "%20", " "));
  }

  /** "tex.png.png" has the extension ".png" ... */
  lemma DoubleExtensionMatch()
    ensures ExtensionMatch("tex.png.png") == ".png"
  {
    var u := "tex.png.png";
    assert !ExtensionAt(u, 0) && !ExtensionAt(u, 1) && !ExtensionAt(u, 2);
    assert !ExtensionAt(u, 3) by { assert u[7] == '.'; }
    assert !ExtensionAt(u, 4) && !ExtensionAt(u, 5) && !ExtensionAt(u, 6);
    assert ExtensionAt(u, 7);
    assert ExtensionFrom(u, 7) == ".png";
  }

  /** ... and Replace rewrites both of its occurrences. */
  lemma DoubleExtensionReplace()
    ensures ReplaceAll("tex.png.png", ".png", ".basis") == "tex.basis.basis"
  {
    ReplaceAllTwice("tex", ".png", ".basis");
    assert "tex" + ".png" + ".png" == "tex.png.png";
    assert "tex" + ".basis" + ".basis" == "tex.basis.basis";
  }

  /** The ".basis" file name the code evidently means: only the matched final
      extension is replaced; a final line feed after it stays. */
  function RenameExtension(uri: string): (r: string)
    requires ExtensionMatch(uri) != ""
    ensures EndsWith(r, ".basis" + uri[LineEnd(uri)..])
    ensures r[..|r| - |".basis" + uri[LineEnd(uri)..]|] == uri[..LineEnd(uri) - |ExtensionMatch(uri)|]
  {
    ExtensionMatchIsSuffix(uri);
    var e := LineEnd(uri);
    var stem := uri[..e - |ExtensionMatch(uri)|];
    var t := ".basis" + uri[e..];
    SplitAfter(stem, t);
    stem + t
  }

  /** A concatenation ends in its second part and starts with its first. */
  lemma SplitAfter(a: string, b: string)
    ensures EndsWith(a + b, b) && (a + b)[..|a|] == a
  {
    assert (a + b)[|a + b| - |b|..] == b;
  }

  /** Everything before the matched extension is kept. */
  lemma RenameExtensionKeepsStem(stem: string, ext: string)
    requires ext != "" && ExtensionMatch(stem + ext) == ext
    ensures RenameExtension(stem + ext) == stem + ".basis"
  {
    var u := stem + ext;
    ExtensionMatchIsSuffix(u);
    assert u[|u| - 1] == ext[|ext| - 1] != '\n';
    assert LineEnd(u) == |u|;
    assert u[..|stem|] == stem;
    assert ".basis" + u[|u|..] == ".basis";
    Rejoin(RenameExtension(u), stem, ".basis");
  }

  /** A string that ends in `b` and starts, before that, with `a` is `a + b`. */
  lemma Rejoin(r: string, a: string, b: string)
    requires EndsWith(r, b) && r[..|r| - |b|] == a
    ensures r == a + b
  {
    assert r == r[..|r| - |b|] + r[|r| - |b|..];
  }

  method ConvertImages(root: Root, cancelled: bool) returns (error: Option<Exception>)
    modifies root
    ensures (root.images, error) == ApplyEach(old(root.images), ConvertImageStep(cancelled))
    ensures root.Value() == old(root.Value()).(images := root.images)
  {
    var updated, e := RunEach(root.images, ConvertImageStep(cancelled));
    root.images := updated;
    return e;
  }

  /** The body of Convert's texture loop: the Basis payload (of the texture's
      source, or of a default reference) is added unless an entry of that name
      exists, the source is dropped, and a missing sampler becomes sampler 0. */
  function ConvertTexture(t: Texture): (r: Texture)
    ensures r.source.None? && r.sampler.Some?
    ensures t.sampler.Some? ==> r.sampler == t.sampler
    ensures t.sampler.None? ==> r.sampler == Some(SamplerId(0, null))
    ensures r.extensions.Some? && HasKey(r.extensions.value, BasisName)
    ensures t.extensions.Some? && HasKey(t.extensions.value, BasisName) ==> r.extensions == t.extensions
    ensures !(t.extensions.Some? && HasKey(t.extensions.value, BasisName)) ==>
              r.extensions == Some(t.extensions.GetOr([]) + [(BasisName, BasisPayload(t.source.GetOr(DefaultImageId)))])
    ensures r.name == t.name && r.extras == t.extras && r.originalIndex == t.originalIndex
  {
    var source := t.source.GetOr(DefaultImageId);
    var moz := BasisPayload(ImageId(source.id, source.root));
    var ext := t.extensions.GetOr([]);
    var ext' := if HasKey(ext, BasisName) then ext else ext + [(BasisName, moz)];
    assert HasKey(ext', BasisName) by {
      if !HasKey(ext, BasisName) {
        assert ext'[|ext|].0 == BasisName;
      }
    }
    t.(extensions := Some(ext'), source := None,
       sampler := if t.sampler.None? then Some(SamplerId(0, null)) else t.sampler)
  }

  /** Converting a texture twice adds nothing the first conversion did not. */
  lemma ConvertTextureIdempotent(t: Texture)
    ensures ConvertTexture(ConvertTexture(t)) == ConvertTexture(t)
  {
  }

  method ConvertTextures(root: Root)
    modifies root
    ensures |root.textures| == |old(root.textures)|
    ensures forall k :: 0 <= k < |root.textures| ==> root.textures[k] == ConvertTexture(old(root.textures)[k])
    ensures root.Value() == old(root.Value()).(textures := root.textures)
  {
    var i := 0;
    while i < |root.textures|
      invariant i <= |root.textures| == |old(root.textures)|
      invariant forall k :: 0 <= k < i ==> root.textures[k] == ConvertTexture(old(root.textures)[k])
      invariant forall k :: i <= k < |root.textures| ==> root.textures[k] == old(root.textures)[k]
      invariant root.Value() == old(root.Value()).(textures := root.textures)
    {
      root.textures := root.textures[i := ConvertTexture(root.textures[i])];
      i := i + 1;
    }
  }

  /** The older variant's texture loop body: the payload constructor rejects a
      missing source before anything is changed, and the bare `Add` rejects an
      existing entry after Extensions has been created. */
  function ConvertTextureLegacy(t: Texture): (r: (Texture, Option<Exception>))
    ensures t.source.None? ==> r == (t, Some(NullReference("MozHubsTextureBasisExtension(null)")))
    ensures t.source.Some? && t.extensions.Some? && HasKey(t.extensions.value, BasisName) ==>
              r.1 == Some(Argument("Dictionary.Add of an existing key")) && r.0 == t
    ensures t.source.Some? && !(t.extensions.Some? && HasKey(t.extensions.value, BasisName)) ==>
              r == (ConvertTexture(t), None)
  {
    if t.source.None? then (t, Some(NullReference("MozHubsTextureBasisExtension(null)")))
    else
      var moz := BasisPayload(ImageId(t.source.value.id, t.source.value.root));
      var ext := t.extensions.GetOr([]);
      var withMap := t.(extensions := Some(ext));
      if HasKey(ext, BasisName) then (withMap, Some(Argument("Dictionary.Add of an existing key")))
      else
        (withMap.(extensions := Some(ext + [(BasisName, moz)]), source := None,
                  sampler := if t.sampler.None? then Some(SamplerId(0, null)) else t.sampler), None)
  }

  /** A second legacy conversion always fails: the first one left no source. */
  lemma ConvertTextureLegacyNotRepeatable(t: Texture)
    requires ConvertTextureLegacy(t).1.None?
    ensures ConvertTextureLegacy(ConvertTextureLegacy(t).0).1.Some?
  {
  }

  method ConvertTexturesLegacy(root: Root) returns (error: Option<Exception>)
    modifies root
    ensures (root.textures, error) == ApplyEach(old(root.textures), ConvertTextureLegacy)
    ensures root.Value() == old(root.Value()).(textures := root.textures)
  {
    var updated, e := RunEach(root.textures, ConvertTextureLegacy);
    root.textures := updated;
    return e;
  }

  /** An extension-name list after the "create if null, add if absent" steps. */
  function AddIfAbsent(names: Option<seq<string>>, name: string): (r: seq<string>)
    ensures name in r
    ensures names.Some? && name in names.value ==> r == names.value
    ensures !(names.Some? && name in names.value) ==> r == names.GetOr([]) + [name]
  {
    var l := names.GetOr([]);
    if name in l then l else l + [name]
  }

  /** Adding the name again changes nothing. */
  lemma AddIfAbsentIdempotent(names: Option<seq<string>>, name: string)
    ensures AddIfAbsent(Some(AddIfAbsent(names, name)), name) == AddIfAbsent(names, name)
  {
  }

  /** Convert's last step: both extension-name lists exist and name the Basis
      extension. */
  function AddBasisNames(d: Doc): (r: Doc)
  {
    d.(extensionsUsed := Some(AddIfAbsent(d.extensionsUsed, BasisName)),
       extensionsRequired := Some(AddIfAbsent(d.extensionsRequired, BasisName)))
  }

  method AddBasisExtensionNames(root: Root)
    modifies root
    ensures root.Value() == AddBasisNames(old(root.Value()))
  {
    if root.extensionsUsed.None? {
      root.extensionsUsed := Some([]);
    }
    if root.extensionsRequired.None? {
      root.extensionsRequired := Some([]);
    }
    if BasisName !in root.extensionsUsed.value {
      root.extensionsUsed := Some(root.extensionsUsed.value + [BasisName]);
    }
    if BasisName !in root.extensionsRequired.value {
      root.extensionsRequired := Some(root.extensionsRequired.value + [BasisName]);
    }
  }

  /** Convert on a document snapshot.  With `useExistingBasis` the images are
      left alone; the texture and extension-name steps run in either case. */
  function ConvertDoc(d: Doc, useExistingBasis: bool, cancelled: bool): (r: (Doc, Option<Exception>))
    ensures r.0.buffers == d.buffers && r.0.bufferViews == d.bufferViews && r.0.samplers == d.samplers
    ensures r.0.isGLB == d.isGLB
  {
    var (images, e) := if useExistingBasis then (d.images, None) else ApplyEach(d.images, ConvertImageStep(cancelled));
    var d1 := d.(images := images);
    if e.Some? then (d1, e)
    else
      (AddBasisNames(d1.(textures := seq(|d.textures|, k requires 0 <= k < |d.textures| => ConvertTexture(d.textures[k])))), None)
  }

  /** The older variant's Convert: the images are always converted, and the
      texture loop stops at the first texture it cannot convert. */
  function ConvertDocLegacy(d: Doc, cancelled: bool): (r: (Doc, Option<Exception>))
    ensures r.0.buffers == d.buffers && r.0.bufferViews == d.bufferViews && r.0.samplers == d.samplers
    ensures r.0.isGLB == d.isGLB
  {
    var (images, e) := ApplyEach(d.images, ConvertImageStep(cancelled));
    var d1 := d.(images := images);
    if e.Some? then (d1, e)
    else
      var (textures, e2) := ApplyEach(d.textures, ConvertTextureLegacy);
      var d2 := d1.(textures := textures);
      if e2.Some? then (d2, e2)
      else (AddBasisNames(d2), None)
  }

  /** The older Convert fails on its texture loop exactly when some texture has
      no source or already has a Basis entry; when it succeeds it produces what
      the current Convert produces without `useExistingBasis`. */
  lemma ConvertDocLegacyAgrees(d: Doc, cancelled: bool)
    requires ApplyEach(d.images, ConvertImageStep(cancelled)).1.None?
    ensures ConvertDocLegacy(d, cancelled).1.None? <==>
              forall k :: 0 <= k < |d.textures| ==>
                d.textures[k].source.Some? && !(d.textures[k].extensions.Some? && HasKey(d.textures[k].extensions.value, BasisName))
    ensures ConvertDocLegacy(d, cancelled).1.None? ==> ConvertDocLegacy(d, cancelled) == ConvertDoc(d, false, cancelled)
  {
    var ts := d.textures;
    if ApplyEach(ts, ConvertTextureLegacy).1.None? {
      ApplyEachSucceeds(ts, ConvertTextureLegacy);
      var conv := seq(|ts|, k requires 0 <= k < |ts| => ConvertTexture(ts[k]));
      assert ApplyEach(ts, ConvertTextureLegacy).0 == conv;
      var images := ApplyEach(d.images, ConvertImageStep(cancelled)).0;
      var c := AddBasisNames(d.(images := images, textures := conv));
      assert ConvertDocLegacy(d, cancelled).0 == c;
      assert ConvertDoc(d, false, cancelled).0 == c;
    } else {
      ApplyEachFails(ts, ConvertTextureLegacy);
    }
  }

  /** What Convert guarantees when it completes: the images are converted (or,
      with `useExistingBasis`, unchanged), every texture refers to its image only
      through the Basis extension and has a sampler, and both extension lists name
      the Basis extension. */
  lemma ConvertDocResult(d: Doc, useExistingBasis: bool, cancelled: bool)
    requires ConvertDoc(d, useExistingBasis, cancelled).1.None?
    ensures var c := ConvertDoc(d, useExistingBasis, cancelled).0;
            && (useExistingBasis ==> c.images == d.images)
            && (!useExistingBasis ==> |c.images| == |d.images| && forall k :: 0 <= k < |d.images| ==>
                  c.images[k] == ConvertImage(cancelled, d.images[k]).0 && c.images[k].mimeType == Some(BasisMime))
            && |c.textures| == |d.textures|
            && (forall k :: 0 <= k < |c.textures| ==>
                  c.textures[k].source.None? && c.textures[k].sampler.Some?
                  && c.textures[k].extensions.Some? && HasKey(c.textures[k].extensions.value, BasisName))
            && c.extensionsUsed.Some? && BasisName in c.extensionsUsed.value
            && c.extensionsRequired.Some? && BasisName in c.extensionsRequired.value
            && c.samplers == d.samplers && c.bufferViews == d.bufferViews && c.buffers == d.buffers
  {
    if !useExistingBasis {
      ApplyEachSucceeds(d.images, ConvertImageStep(cancelled));
    }
  }

  /** A second Convert adds no duplicate extension name and no second payload. */
  lemma ConvertDocTwice(d: Doc, cancelled: bool)
    requires ConvertDoc(d, true, cancelled).1.None?
    ensures var c := ConvertDoc(d, true, cancelled).0;
            ConvertDoc(c, true, cancelled) == (c, None)
  {
    var c := ConvertDoc(d, true, cancelled).0;
    var c2 := ConvertDoc(c, true, cancelled).0;
    assert c2.textures == c.textures by {
      forall k | 0 <= k < |c.textures| ensures c2.textures[k] == c.textures[k] {
        ConvertTextureIdempotent(d.textures[k]);
      }
    }
  }

  // ---------------------------------------------------------------------------
  // AddImage, once per image.
  // ---------------------------------------------------------------------------

  /** The image files read, in image order, up to the first image whose file
      cannot be opened (a missing URI, or no such file). */
  function LoadImages(images: seq<Image>, files: map<string, seq<byte>>): (r: (seq<seq<byte>>, Option<Exception>))
    ensures |r.0| <= |images|
    ensures r.1.None? ==> |r.0| == |images|
    ensures r.1.Some? ==> |r.0| < |images|
    decreases |images|
  {
    if |images| == 0 then ([], None)
    else
      var front := LoadImages(images[..|images| - 1], files);
      var last := images[|images| - 1];
      if front.1.Some? then front
      else if last.uri.None? then (front.0, Some(ArgumentNull("relativeFilePath")))
      else if last.uri.value !in files then (front.0, Some(FileNotFound(last.uri.value)))
      else (front.0 + [files[last.uri.value]], None)
  }

  /** Image k's bytes are the file its URI names, for every image before the
      first one that cannot be opened; that one has no URI or no file. */
  lemma {:induction false} LoadImagesReadsFiles(images: seq<Image>, files: map<string, seq<byte>>)
    ensures var r := LoadImages(images, files);
            && (forall k :: 0 <= k < |r.0| ==> images[k].uri.Some? && images[k].uri.value in files
                                               && r.0[k] == files[images[k].uri.value])
            && (r.1.Some? ==> var k := |r.0|; images[k].uri.None? || images[k].uri.value !in files)
    decreases |images|
  {
    if |images| > 0 {
      var front := images[..|images| - 1];
      LoadImagesReadsFiles(front, files);
      assert forall k :: 0 <= k < |front| ==> front[k] == images[k];
    }
  }

  /** The index of the first image whose URI equals `uri`
      (`Images.First(img => img.Uri == uri)`); none found is an exception. */
  function FirstWithUri(images: seq<Image>, uri: Option<string>): (r: Result<nat, Exception>)
    ensures r.Success? ==> r.value < |images| && images[r.value].uri == uri
                           && forall j :: 0 <= j < r.value ==> images[j].uri != uri
    ensures r.Failure? ==> forall j :: 0 <= j < |images| ==> images[j].uri != uri
    decreases |images|
  {
    if |images| == 0 then Failure(InvalidOperation("Sequence contains no matching element"))
    else if images[0].uri == uri then Success(0)
    else
      var r := FirstWithUri(images[1..], uri);
      if r.Failure? then r
      else
        assert forall j :: 1 <= j <= r.value ==> images[j] == images[1..][j - 1];
        Success(r.value + 1)
  }

  /** An image after AddImage: its URI is dropped and it refers to its view. */
  function Embedded(img: Image, viewId: int, root: Root): Image
  {
    img.(uri := None, bufferView := Some(BufferViewId(viewId, root)))
  }

  /** The images with the first `n` embedded: no URI, and view ids from `first`. */
  function EmbedFirst(images: seq<Image>, n: nat, root: Root, first: int): (r: seq<Image>)
    requires n <= |images|
    ensures |r| == |images|
    ensures forall k :: 0 <= k < n ==> r[k] == Embedded(images[k], first + k, root)
    ensures forall k :: n <= k < |images| ==> r[k] == images[k]
  {
    seq(|images|, k requires 0 <= k < |images| => if k < n then Embedded(images[k], first + k, root) else images[k])
  }

  lemma EmbedFirstNext(images: seq<Image>, n: nat, root: Root, first: int)
    requires n < |images|
    ensures EmbedFirst(images, n, root, first)[n := Embedded(images[n], first + n, root)]
            == EmbedFirst(images, n + 1, root, first)
  {
  }

  /** The document after the first `n` images, whose files are `raws`, have
      been added. */
  function AddedState(before: Doc, root: Root, bufferId: BufferId, pre: nat, n: nat, raws: seq<seq<byte>>): (r: Doc)
    requires n <= |before.images|
    ensures r.buffers == before.buffers && r.isGLB == before.isGLB
  {
    before.(images := EmbedFirst(before.images, n, root, |before.bufferViews|),
            bufferViews := before.bufferViews + ImageViews(bufferId, pre, raws))
  }

  /** The state after the AddImage loop, relative to the state before it: the
      images up to the first one that cannot be loaded are embedded in order. */
  ghost predicate AddedImages(before: Doc, after: Doc, root: Root, bufferId: BufferId, pre: nat,
                              files: map<string, seq<byte>>, img: seq<byte>, error: Option<Exception>)
  {
    var loaded := LoadImages(before.images, files);
    && error == loaded.1
    && img == Concat(loaded.0)
    && after == AddedState(before, root, bufferId, pre, |loaded.0|, loaded.0)
  }

  /** What the AddImage loop leaves behind: images are embedded in order, each the
      first with its URI once the earlier ones have lost theirs, up to the first
      image whose file cannot be opened; image k gets view id `first view count +
      k`, a view at the pre-image length plus the raw lengths of the earlier
      images, whose length is its own raw length rounded up to 4; the rest of the
      document is unchanged. */
  lemma AddedImagesDescribed(before: Doc, after: Doc, root: Root, bufferId: BufferId, pre: nat,
                             files: map<string, seq<byte>>, img: seq<byte>, error: Option<Exception>)
    requires AddedImages(before, after, root, bufferId, pre, files, img, error)
    ensures var raws := LoadImages(before.images, files).0;
            var n := |raws|;
            && |after.images| == |before.images|
            && |after.bufferViews| == |before.bufferViews| + n
            && (error.None? <==> n == |before.images|)
            && (error.Some? ==> before.images[n].uri.None? || before.images[n].uri.value !in files)
            && after.bufferViews[..|before.bufferViews|] == before.bufferViews
            && (forall k :: 0 <= k < n ==>
                  && before.images[k].uri.Some? && before.images[k].uri.value in files
                  && after.images[k] == Embedded(before.images[k], |before.bufferViews| + k, root)
                  && after.bufferViews[|before.bufferViews| + k]
                     == BufferView(bufferId, pre + |Concat(raws[..k])|, RoundUp4(|files[before.images[k].uri.value]|)))
            && (forall k :: n <= k < |before.images| ==> after.images[k] == before.images[k])
            && img == Concat(raws)
            && after.textures == before.textures && after.samplers == before.samplers
            && after.buffers == before.buffers
  {
    var raws := LoadImages(before.images, files).0;
    LoadImagesReadsFiles(before.images, files);
    var views := ImageViews(bufferId, pre, raws);
    assert after.bufferViews == before.bufferViews + views;
    forall k | 0 <= k < |raws|
      ensures after.bufferViews[|before.bufferViews| + k]
              == BufferView(bufferId, pre + |Concat(raws[..k])|, RoundUp4(|files[before.images[k].uri.value]|))
    {
      ImageViewsAt(bufferId, pre, raws, k);
    }
  }

  /** ExportStream after Convert: the AddImage loop, the zero padding of the
      image stream, the buffer's declared length (the unpadded .bin plus the
      padded images), the serialization of the document, and the container made
      of the space-padded JSON, the zero-padded .bin and the image stream.
      `serialize` stands for `GLTFRoot.Serialize` with its flag. */
  function PackDoc(d: Doc, root: Root, bufferId: BufferId, bin: seq<byte>, files: map<string, seq<byte>>,
                   serialize: (Doc, bool) -> string, flag: bool): (r: (Doc, Result<seq<byte>, Exception>))
    requires |d.buffers| > 0
    // When the loop completes: the container of the space-padded ASCII text of the
    // final document, the zero-padded .bin and the zero-padded images, and a buffer
    // length of the unpadded .bin plus the padded images.
    ensures r.1.Success? ==>
              r.1.value == Container(Pad(AsciiBytes(serialize(r.0, flag)), Space), Pad(bin, 0),
                                     Pad(Concat(LoadImages(d.images, files).0), 0))
    ensures r.1.Success? ==>
              |r.0.buffers| == |d.buffers| && r.0.buffers[0] == d.buffers[0].(byteLength := |bin| + |Pad(Concat(LoadImages(d.images, files).0), 0)|)
              && forall k :: 1 <= k < |d.buffers| ==> r.0.buffers[k] == d.buffers[k]
  {
    var loaded := LoadImages(d.images, files);
    var raws := loaded.0;
    var d1 := AddedState(d, root, bufferId, |bin|, |raws|, raws);
    if loaded.1.Some? then (d1, Failure(loaded.1.value))
    else Finish(d1, bin, Pad(Concat(raws), 0), serialize, flag)
  }

  /** The steps after a completed AddImage loop: the buffer's length, then the
      container around the serialized document. */
  function Finish(d: Doc, bin: seq<byte>, img: seq<byte>, serialize: (Doc, bool) -> string, flag: bool)
    : (r: (Doc, Result<seq<byte>, Exception>))
    requires |d.buffers| > 0
    ensures r.1.Success?
    ensures r.1.value == Container(Pad(AsciiBytes(serialize(r.0, flag)), Space), Pad(bin, 0), img)
    ensures r.0.(buffers := d.buffers) == d
    ensures |r.0.buffers| == |d.buffers| && r.0.buffers[0] == d.buffers[0].(byteLength := |bin| + |img|)
            && forall k :: 1 <= k < |d.buffers| ==> r.0.buffers[k] == d.buffers[k]
  {
    var d2 := d.(buffers := d.buffers[0 := d.buffers[0].(byteLength := |bin| + |img|)]);
    (d2, Success(Container(Pad(AsciiBytes(serialize(d2, flag)), Space), Pad(bin, 0), img)))
  }

  /** The document PackDoc leaves is the AddImage loop's, with the buffer's length
      set when the loop completes. */
  lemma PackDocImages(d: Doc, root: Root, bufferId: BufferId, bin: seq<byte>, files: map<string, seq<byte>>,
                      serialize: (Doc, bool) -> string, flag: bool)
    requires |d.buffers| > 0
    ensures var r := PackDoc(d, root, bufferId, bin, files, serialize, flag);
            var loaded := LoadImages(d.images, files);
            && AddedImages(d, r.0.(buffers := d.buffers), root, bufferId, |bin|, files, Concat(loaded.0), loaded.1)
            && (r.1.Success? <==> loaded.1.None?)
            && (r.1.Failure? ==> Some(r.1.error) == loaded.1 && r.0.buffers == d.buffers)
  {
    var loaded := LoadImages(d.images, files);
    var raws := loaded.0;
    var d1 := AddedState(d, root, bufferId, |bin|, |raws|, raws);
    var r := PackDoc(d, root, bufferId, bin, files, serialize, flag);
    assert d1.buffers == d.buffers;
    if loaded.1.None? {
      assert r == Finish(d1, bin, Pad(Concat(raws), 0), serialize, flag);
    }
    assert r.0.(buffers := d.buffers) == d1;
  }

  /** PackDoc continues from the state the AddImage loop leaves: a failed loop
      is the result as it stands, a completed one gets its buffer length and
      its container. */
  lemma PackDocAfterAdd(d: Doc, root: Root, bufferId: BufferId, bin: seq<byte>, files: map<string, seq<byte>>,
                        serialize: (Doc, bool) -> string, flag: bool,
                        after: Doc, img: seq<byte>, error: Option<Exception>)
    requires |d.buffers| > 0
    requires AddedImages(d, after, root, bufferId, |bin|, files, img, error)
    ensures var r := PackDoc(d, root, bufferId, bin, files, serialize, flag);
            error.Some? ==> r.0 == after && r.1 == Failure(error.value)
    ensures var r := PackDoc(d, root, bufferId, bin, files, serialize, flag);
            var padded := Pad(img, 0);
            var d2 := after.(buffers := after.buffers[0 := after.buffers[0].(byteLength := |bin| + |padded|)]);
            error.None? ==> r.0 == d2 && r.1 == Success(Container(Pad(AsciiBytes(serialize(d2, flag)), Space), Pad(bin, 0), padded))
  {
  }

  /** The tail of the export on the export copy: embed the images, pad them, set
      the buffer's length, serialize and build the container. */
  method PackInto(root: Root, bufferId: BufferId, bin: seq<byte>, files: map<string, seq<byte>>,
                  serialize: (Doc, bool) -> string, flag: bool)
    returns (glb: Result<seq<byte>, Exception>)
    requires |root.buffers| > 0
    modifies root
    ensures root.Value() == PackDoc(old(root.Value()), root, bufferId, bin, files, serialize, flag).0
    ensures glb == PackDoc(old(root.Value()), root, bufferId, bin, files, serialize, flag).1
  {
    ghost var d := root.Value();
    var img, e := AddImages(root, bufferId, |bin|, files);
    ghost var after := root.Value();
    PackDocAfterAdd(d, root, bufferId, bin, files, serialize, flag, after, img, e);
    if e.Some? {
      return Failure(e.value);
    }
    var bytes := SealGlb(root, bin, img, serialize, flag);
    glb := Success(bytes);
  }

  /** The image stream is zero-padded, the buffer's length becomes the .bin's
      plus the padded images', and the document is serialized into the
      container with the zero-padded .bin and the padded images. */
  method SealGlb(root: Root, bin: seq<byte>, img: seq<byte>, serialize: (Doc, bool) -> string, flag: bool)
    returns (glb: seq<byte>)
    requires |root.buffers| > 0
    modifies root
    ensures root.Value() == old(root.Value()).(buffers := old(root.buffers)[0 := old(root.buffers)[0].(byteLength := |bin| + |Pad(img, 0)|)])
    ensures glb == Container(Pad(AsciiBytes(serialize(root.Value(), flag)), Space), Pad(bin, 0), Pad(img, 0))
  {
    var padded := Pad(img, 0);
    var buffers := root.buffers;
    root.buffers := buffers[0 := buffers[0].(byteLength := |bin| + |padded|)];
    var json := Pad(AsciiBytes(serialize(root.Value(), flag)), Space);
    glb := Container(json, Pad(bin, 0), padded);
  }

  /** The serializer's flag only reaches the serializer. */
  lemma PackDocFlagged(d: Doc, root: Root, bufferId: BufferId, bin: seq<byte>, files: map<string, seq<byte>>,
                       serialize: (Doc, bool) -> string)
    requires |d.buffers| > 0
    ensures PackDoc(d, root, bufferId, bin, files, serialize, true)
            == PackDoc(d, root, bufferId, bin, files, (x: Doc, flag: bool) => serialize(x, true), false)
  {
  }

  lemma PackDocIsGLB(d: Doc, root: Root, bufferId: BufferId, bin: seq<byte>, files: map<string, seq<byte>>,
                     serialize: (Doc, bool) -> string, flag: bool)
    requires |d.buffers| > 0
    ensures PackDoc(d, root, bufferId, bin, files, serialize, flag).0.isGLB == d.isGLB
  {
  }

  /** AddImage on a document snapshot: the image's file is appended to the image
      stream; the first image with the same URI gets the new view's id in place of
      its URI; one view is appended, at the stream position plus
      `additionalLength`, with the file's length rounded up to 4.  The loader
      rejects a missing URI or file before anything changes; `First` finding no
      image throws after the bytes are copied. */
  function AddImageDoc(d: Doc, root: Root, bufferId: BufferId, image: Image, imgStream: seq<byte>,
                       bufferViewId: int, additionalLength: nat, files: map<string, seq<byte>>)
    : (r: (Doc, seq<byte>, Option<Exception>))
    ensures r.0.textures == d.textures && r.0.samplers == d.samplers && r.0.buffers == d.buffers
    ensures |r.0.images| == |d.images| && |imgStream| <= |r.1| && r.1[..|imgStream|] == imgStream
    ensures r.2.None? ==> |r.0.bufferViews| == |d.bufferViews| + 1 && r.0.bufferViews[..|d.bufferViews|] == d.bufferViews
    ensures r.2.Some? ==> r.0 == d
  {
    if image.uri.None? then (d, imgStream, Some(ArgumentNull("relativeFilePath")))
    else if image.uri.value !in files then (d, imgStream, Some(FileNotFound(image.uri.value)))
    else
      var raw := files[image.uri.value];
      match FirstWithUri(d.images, image.uri)
      case Failure(e) => (d, imgStream + raw, Some(e))
      case Success(j) =>
        (d.(images := d.images[j := Embedded(d.images[j], bufferViewId, root)],
            bufferViews := d.bufferViews + [BufferView(bufferId, |imgStream| + additionalLength, RoundUp4(|raw|))]),
         imgStream + raw, None)
  }

  /** An image that is in the document and whose file exists is embedded: exactly
      one view is appended, the image stream grows by the file, and only the first
      image with that URI changes, losing its URI for the view id. */
  lemma AddImageEmbeds(d: Doc, root: Root, bufferId: BufferId, i: nat, imgStream: seq<byte>,
                       bufferViewId: int, additionalLength: nat, files: map<string, seq<byte>>)
    requires i < |d.images| && d.images[i].uri.Some? && d.images[i].uri.value in files
    ensures var image := d.images[i];
            var (after, stream, error) := AddImageDoc(d, root, bufferId, image, imgStream, bufferViewId, additionalLength, files);
            var raw := files[image.uri.value];
            && error.None?
            && stream == imgStream + raw
            && after.bufferViews == d.bufferViews + [BufferView(bufferId, |imgStream| + additionalLength, RoundUp4(|raw|))]
            && after.bufferViews[|d.bufferViews|].byteLength % 4 == 0
            && |after.images| == |d.images|
            && (exists j :: 0 <= j <= i && d.images[j].uri == image.uri
                  && (forall k :: 0 <= k < j ==> d.images[k].uri != image.uri)
                  && after.images[j] == d.images[j].(uri := None, bufferView := Some(BufferViewId(bufferViewId, root)))
                  && (forall k :: 0 <= k < |d.images| && k != j ==> after.images[k] == d.images[k]))
            && after.textures == d.textures && after.samplers == d.samplers && after.buffers == d.buffers
  {
    var r := FirstWithUri(d.images, d.images[i].uri);
    assert r.Success?;
  }

  /** The loader's errors: nothing changes. */
  lemma AddImageRejects(d: Doc, root: Root, bufferId: BufferId, image: Image, imgStream: seq<byte>,
                        bufferViewId: int, additionalLength: nat, files: map<string, seq<byte>>)
    requires image.uri.None? || image.uri.value !in files
    ensures var (after, stream, error) := AddImageDoc(d, root, bufferId, image, imgStream, bufferViewId, additionalLength, files);
            after == d && stream == imgStream
            && error == Some(if image.uri.None? then ArgumentNull("relativeFilePath") else FileNotFound(image.uri.value))
  {
  }

  method AddImage(root: Root, bufferId: BufferId, image: Image, imgStream: seq<byte>, bufferViewId: int,
                  additionalLength: nat, files: map<string, seq<byte>>)
    returns (stream: seq<byte>, error: Option<Exception>)
    modifies root
    ensures (root.Value(), stream, error)
            == AddImageDoc(old(root.Value()), root, bufferId, image, imgStream, bufferViewId, additionalLength, files)
  {
    stream := imgStream;
    if image.uri.None? {
      return stream, Some(ArgumentNull("relativeFilePath"));
    }
    if image.uri.value !in files {
      return stream, Some(FileNotFound(image.uri.value));
    }
    var raw := files[image.uri.value];
    var offset := |stream| + additionalLength;
    var length := RoundUp4(|raw|);
    stream := stream + raw;
    var found := FirstWithUri(root.images, image.uri);
    if found.Failure? {
      return stream, Some(found.error);
    }
    var bufferImg := found.value;
    root.images := root.images[bufferImg := Embedded(root.images[bufferImg], bufferViewId, root)];
    root.bufferViews := root.bufferViews + [BufferView(bufferId, offset, length)];
    error := None;
  }

  /** The state after the first `i` images of the AddImage loop. */
  ghost predicate AddedSoFar(before: Doc, cur: Doc, root: Root, bufferId: BufferId, pre: nat,
                             files: map<string, seq<byte>>, i: nat, loaded: seq<seq<byte>>, img: seq<byte>)
  {
    && i <= |before.images|
    && LoadImages(before.images[..i], files) == (loaded, None)
    && img == Concat(loaded)
    && cur == AddedState(before, root, bufferId, pre, i, loaded)
  }

  /** One turn of the AddImage loop keeps the loop's description, or ends it
      with the description of the whole loop. */
  lemma AddedNext(before: Doc, cur: Doc, next: Doc, root: Root, bufferId: BufferId, pre: nat,
                  files: map<string, seq<byte>>, i: nat, loaded: seq<seq<byte>>, img: seq<byte>,
                  stream: seq<byte>, error: Option<Exception>)
    requires AddedSoFar(before, cur, root, bufferId, pre, files, i, loaded, img)
    requires i < |cur.images|
    requires (next, stream, error)
             == AddImageDoc(cur, root, bufferId, cur.images[i], img, |before.bufferViews| + i, pre, files)
    ensures error.Some? ==> AddedImages(before, next, root, bufferId, pre, files, stream, error)
    ensures error.None? ==> (cur.images[i].uri.Some? && cur.images[i].uri.value in files
                             && AddedSoFar(before, next, root, bufferId, pre, files, i + 1,
                                           loaded + [files[cur.images[i].uri.value]], stream))
  {
    var image := cur.images[i];
    if image.uri.None? || image.uri.value !in files {
      AddedStops(before, cur, root, bufferId, pre, files, i, loaded, img);
    } else {
      AddedEmbeds(before, cur, root, bufferId, pre, files, i, loaded, img);
    }
  }

  /** The turn for an image whose file exists. */
  lemma AddedEmbeds(before: Doc, cur: Doc, root: Root, bufferId: BufferId, pre: nat,
                    files: map<string, seq<byte>>, i: nat, loaded: seq<seq<byte>>, img: seq<byte>)
    requires AddedSoFar(before, cur, root, bufferId, pre, files, i, loaded, img)
    requires i < |cur.images| && cur.images[i].uri.Some? && cur.images[i].uri.value in files
    ensures var r := AddImageDoc(cur, root, bufferId, cur.images[i], img, |before.bufferViews| + i, pre, files);
            && r.2.None?
            && AddedSoFar(before, r.0, root, bufferId, pre, files, i + 1, loaded + [files[cur.images[i].uri.value]], r.1)
  {
    var image := cur.images[i];
    var raw := files[image.uri.value];
    var first := |before.bufferViews|;
    forall j | 0 <= j < i ensures cur.images[j].uri != image.uri { }
    assert FirstWithUri(cur.images, image.uri) == Success(i);
    var r := AddImageDoc(cur, root, bufferId, image, img, first + i, pre, files);
    var next := cur.(images := cur.images[i := Embedded(image, first + i, root)],
                     bufferViews := cur.bufferViews + [BufferView(bufferId, |img| + pre, RoundUp4(|raw|))]);
    assert r == (next, img + raw, None);
    AddedStateNext(before, cur, next, root, bufferId, pre, i, loaded, raw);
    LoadImagesGrows(before.images, files, i);
  }

  /** The document grows by one embedded image and one view per turn. */
  lemma AddedStateNext(before: Doc, cur: Doc, next: Doc, root: Root, bufferId: BufferId, pre: nat, i: nat,
                       loaded: seq<seq<byte>>, raw: seq<byte>)
    requires i < |before.images| && cur == AddedState(before, root, bufferId, pre, i, loaded)
    requires next == cur.(images := cur.images[i := Embedded(cur.images[i], |before.bufferViews| + i, root)],
                          bufferViews := cur.bufferViews + [BufferView(bufferId, |Concat(loaded)| + pre, RoundUp4(|raw|))])
    ensures Concat(loaded + [raw]) == Concat(loaded) + raw
    ensures next == AddedState(before, root, bufferId, pre, i + 1, loaded + [raw])
  {
    var first := |before.bufferViews|;
    EmbedFirstNext(before.images, i, root, first);
    assert next.images == EmbedFirst(before.images, i + 1, root, first);
    AddedNextViews(before.bufferViews, cur.bufferViews, next.bufferViews, bufferId, pre, loaded, raw);
  }

  lemma AddedNextViews(viewsBefore: seq<BufferView>, views: seq<BufferView>, next: seq<BufferView>,
                       bufferId: BufferId, pre: nat, loaded: seq<seq<byte>>, raw: seq<byte>)
    requires views == viewsBefore + ImageViews(bufferId, pre, loaded)
    requires next == views + [BufferView(bufferId, |Concat(loaded)| + pre, RoundUp4(|raw|))]
    ensures next == viewsBefore + ImageViews(bufferId, pre, loaded + [raw])
    ensures Concat(loaded + [raw]) == Concat(loaded) + raw
  {
    ImageViewsSnoc(bufferId, pre, loaded, raw);
    var loaded' := loaded + [raw];
    assert loaded'[..|loaded'| - 1] == loaded;
  }

  lemma AddedStops(before: Doc, cur: Doc, root: Root, bufferId: BufferId, pre: nat,
                   files: map<string, seq<byte>>, i: nat, loaded: seq<seq<byte>>, img: seq<byte>)
    requires AddedSoFar(before, cur, root, bufferId, pre, files, i, loaded, img)
    requires i < |cur.images| && (cur.images[i].uri.None? || cur.images[i].uri.value !in files)
    ensures AddedImages(before, cur, root, bufferId, pre, files, img,
                        Some(if cur.images[i].uri.None? then ArgumentNull("relativeFilePath")
                             else FileNotFound(cur.images[i].uri.value)))
  {
    LoadImagesFails(before.images, files, i);
  }

  lemma AddedAll(before: Doc, cur: Doc, root: Root, bufferId: BufferId, pre: nat,
                 files: map<string, seq<byte>>, loaded: seq<seq<byte>>, img: seq<byte>)
    requires AddedSoFar(before, cur, root, bufferId, pre, files, |before.images|, loaded, img)
    ensures AddedImages(before, cur, root, bufferId, pre, files, img, None)
  {
    assert before.images[..|before.images|] == before.images;
  }

  /** ExportStream's AddImage loop: image k gets view id `first view count + k`,
      and, since the earlier images have lost their URIs, it is image k itself
      that `First` finds. */
  method AddImages(root: Root, bufferId: BufferId, pre: nat, files: map<string, seq<byte>>)
    returns (img: seq<byte>, error: Option<Exception>)
    modifies root
    ensures AddedImages(old(root.Value()), root.Value(), root, bufferId, pre, files, img, error)
  {
    img, error := [], None;
    var currentBufferView := |root.bufferViews| - 1;
    ghost var before := root.Value();
    ghost var loaded: seq<seq<byte>> := [];
    var i := 0;
    assert before.images[..0] == [];
    assert EmbedFirst(before.images, 0, root, |before.bufferViews|) == before.images;
    while i < |root.images|
      invariant AddedSoFar(before, root.Value(), root, bufferId, pre, files, i, loaded, img)
      invariant currentBufferView == |before.bufferViews| + i - 1 && error.None?
    {
      currentBufferView := currentBufferView + 1;
      ghost var cur, prior := root.Value(), img;
      img, error := AddImage(root, bufferId, root.images[i], img, currentBufferView, pre, files);
      AddedNext(before, cur, root.Value(), root, bufferId, pre, files, i, loaded, prior, img, error);
      if error.Some? {
        return;
      }
      loaded := loaded + [files[cur.images[i].uri.value]];
      i := i + 1;
    }
    AddedAll(before, root.Value(), root, bufferId, pre, files, loaded, img);
  }

  /** The failing image ends LoadImages. */
  lemma {:induction false} LoadImagesFails(images: seq<Image>, files: map<string, seq<byte>>, i: nat)
    requires i < |images|
    requires LoadImages(images[..i], files).1.None?
    requires images[i].uri.None? || images[i].uri.value !in files
    ensures LoadImages(images, files).0 == LoadImages(images[..i], files).0
    ensures LoadImages(images, files).1 == Some(if images[i].uri.None? then ArgumentNull("relativeFilePath")
                                                else FileNotFound(images[i].uri.value))
    decreases |images|
  {
    if i + 1 < |images| {
      assert images[..|images| - 1][..i] == images[..i];
      LoadImagesFails(images[..|images| - 1], files, i);
    } else {
      assert images[..|images| - 1] == images[..i];
    }
  }

  lemma LoadImagesGrows(images: seq<Image>, files: map<string, seq<byte>>, i: nat)
    requires i < |images|
    requires LoadImages(images[..i], files).1.None?
    requires images[i].uri.Some? && images[i].uri.value in files
    ensures LoadImages(images[..i + 1], files)
            == (LoadImages(images[..i], files).0 + [files[images[i].uri.value]], None)
  {
    assert images[..i + 1][..i] == images[..i];
  }
}
