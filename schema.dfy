/** The parts of the glTF document object model (GLTFRoot and the schema classes
    it holds) that the export path reads and rewrites.  Entities that the code
    mutates inside a list (images, textures, samplers) are values held in the
    sequences of the `Root` class; a sequence update at one index stands for the
    C# assignment to that element's field. */
module Gltf {
  import opened Wrappers
  import opened Json

  // Typed references into a document: an index plus the document it refers to.
  // `new ImageId()` has Id 0 and no document.
  datatype ImageId = ImageId(id: int, root: Root?)
  datatype SamplerId = SamplerId(id: int, root: Root?)
  datatype TextureId = TextureId(id: int, root: Root?)
  datatype BufferId = BufferId(id: int, root: Root?)
  datatype BufferViewId = BufferViewId(id: int, root: Root?)

  const DefaultImageId: ImageId := ImageId(0, null)

  /** A texture reference with its texture coordinate set. */
  datatype TextureInfo = TextureInfo(index: TextureId, texCoord: int)

  /** The extension payloads the model deals with; `Generic` is the library's
      DefaultExtension, which keeps the raw JSON property. */
  datatype Extension =
    | LightmapPayload(intensity: real, lightmapInfo: TextureInfo)
    | BasisPayload(basisSource: ImageId)
    | Ktx2Payload(ktx2Source: ImageId)
    | Generic(extensionData: JProperty)

  /** A `Dictionary<string, IExtension>` in its enumeration (insertion) order. */
  type ExtensionMap = seq<(string, Extension)>

  predicate HasKey(d: ExtensionMap, key: string)
  {
    exists i :: 0 <= i < |d| && d[i].0 == key
  }

  /** The value stored under `key`, if any (the first entry, keys being unique). */
  function Find(d: ExtensionMap, key: string): (r: Option<Extension>)
    ensures r.None? <==> !HasKey(d, key)
    ensures r.Some? ==> exists i :: 0 <= i < |d| && d[i] == (key, r.value)
  {
    if |d| == 0 then None
    else if d[0].0 == key then Some(d[0].1)
    else
      var r := Find(d[1..], key);
      assert r.None? ==> forall i :: 1 <= i < |d| ==> d[i].0 == d[1..][i - 1].0;
      assert r.Some? ==> exists i :: 1 <= i < |d| && d[i] == (key, r.value) by {
        if r.Some? {
          var j :| 0 <= j < |d[1..]| && d[1..][j] == (key, r.value);
          assert d[j + 1] == (key, r.value);
        }
      }
      r
  }

  datatype Image = Image(
    name: Option<string>,
    uri: Option<string>,
    mimeType: Option<string>,
    bufferView: Option<BufferViewId>)

  datatype MagFilterMode = MagNone | MagNearest | MagLinear
  datatype MinFilterMode = MinNone | MinNearest | MinLinear
    | NearestMipmapNearest | LinearMipmapNearest | NearestMipmapLinear | LinearMipmapLinear
  datatype WrapMode = WrapNone | ClampToEdge | MirroredRepeat | Repeat

  datatype Sampler = Sampler(
    name: Option<string>,
    magFilter: MagFilterMode,
    minFilter: MinFilterMode,
    wrapS: WrapMode,
    wrapT: WrapMode)

  /** A GLTFTexture: the child-of-root base properties (name, extensions, extras),
      the two optional references, and the bookkeeping index. */
  datatype Texture = Texture(
    name: Option<string>,
    extensions: Option<ExtensionMap>,
    extras: Option<JValue>,
    sampler: Option<SamplerId>,
    source: Option<ImageId>,
    originalIndex: int)

  datatype BufferView = BufferView(buffer: BufferId, byteOffset: nat, byteLength: nat)

  datatype Buffer = Buffer(uri: Option<string>, byteLength: nat)

  /** A snapshot of a document, the input of the JSON serializer. */
  datatype Doc = Doc(
    images: seq<Image>,
    textures: seq<Texture>,
    samplers: Option<seq<Sampler>>,
    bufferViews: seq<BufferView>,
    buffers: seq<Buffer>,
    extensionsUsed: Option<seq<string>>,
    extensionsRequired: Option<seq<string>>,
    isGLB: bool)

  /** GLTFRoot.  The lists the code never assigns null to are plain sequences. */
  class Root {
    var images: seq<Image>
    var textures: seq<Texture>
    var samplers: Option<seq<Sampler>>
    var bufferViews: seq<BufferView>
    var buffers: seq<Buffer>
    var extensionsUsed: Option<seq<string>>
    var extensionsRequired: Option<seq<string>>
    var isGLB: bool

    /** A document holding the given contents. */
    constructor (d: Doc)
      ensures Value() == d
    {
      images := d.images;
      textures := d.textures;
      samplers := d.samplers;
      bufferViews := d.bufferViews;
      buffers := d.buffers;
      extensionsUsed := d.extensionsUsed;
      extensionsRequired := d.extensionsRequired;
      isGLB := d.isGLB;
    }

    function Value(): Doc
      reads this
    {
      Doc(images, textures, samplers, bufferViews, buffers, extensionsUsed, extensionsRequired, isGLB)
    }
  }
}
