/** The MOZ_lightmap extension: its payload (MOZ_lightmapExtension) and its
    factory (MOZ_lightmapExtensionFactory). */
module MozLightmap {
  import opened Wrappers
  import opened Exceptions
  import opened Json
  import opened Numbers
  import opened Gltf

  const ExtensionName: string := "MOZ_lightmap"
  const IntensityKey: string := "intensity"
  const IndexKey: string := "index"
  const TexCoordKey: string := "texCoord"

  /** What the factory answers when asked which extension it reads. */
  function FactoryName(): (name: string)
    ensures name == "MOZ_lightmap"
  {
    ExtensionName
  }

  /** The payload constructor: it stores exactly the given intensity and texture info. */
  function New(intensity: real, lightmapInfo: TextureInfo): (e: Extension)
    ensures e.LightmapPayload? && e.intensity == intensity && e.lightmapInfo == lightmapInfo
  {
    LightmapPayload(intensity, lightmapInfo)
  }

  /** Clone: the same intensity, index and texture coordinate set, with the
      texture reference re-homed to `root` (the TextureInfo copy constructor). */
  function Clone(e: Extension, root: Root?): (c: Extension)
    requires e.LightmapPayload?
    ensures c.LightmapPayload? && c.intensity == e.intensity
    ensures c.lightmapInfo.index.id == e.lightmapInfo.index.id && c.lightmapInfo.index.root == root
    ensures c.lightmapInfo.texCoord == e.lightmapInfo.texCoord
  {
    LightmapPayload(e.intensity, TextureInfo(TextureId(e.lightmapInfo.index.id, root), e.lightmapInfo.texCoord))
  }

  /** Serialize: the property `MOZ_lightmap` holding an object with exactly the keys
      intensity, index and texCoord, in that order. */
  function Serialize(e: Extension): (p: JProperty)
    requires e.LightmapPayload?
    ensures p.name == ExtensionName && p.value.JObj?
    ensures |p.value.props| == 3
    ensures p.value.props[0].name == IntensityKey && p.value.props[1].name == IndexKey
            && p.value.props[2].name == TexCoordKey
  {
    JProperty(ExtensionName, JObj([
      JProperty(IntensityKey, JNum(e.intensity)),
      JProperty(IndexKey, JInt(e.lightmapInfo.index.id)),
      JProperty(TexCoordKey, JInt(e.lightmapInfo.texCoord))]))
  }

  /** The value of an optional member read with `reader`, or `default` when the member
      is absent; a member access on a value that is not an object fails. */
  function MemberOr<T>(token: JValue, key: string, reader: JValue -> Result<T, Exception>, default: T): (r: Result<T, Exception>)
    ensures !token.JObj? ==> r.Failure?
    ensures token.JObj? && Lookup(token.props, key).None? ==> r == Success(default)
    ensures token.JObj? && Lookup(token.props, key).Some? ==> r == reader(Lookup(token.props, key).value)
  {
    var child :- Child(token, key);
    if child.None? then Success(default) else reader(child.value)
  }

  /** The factory's Deserialize: intensity 1, texture 0 of `root` and texture
      coordinate set 0 unless the token says otherwise, key by key. */
  function Deserialize(root: Root?, token: Option<JProperty>): (r: Result<Extension, Exception>)
    ensures token.None? ==> r == Success(LightmapPayload(1.0, TextureInfo(TextureId(0, root), 0)))
    ensures r.Success? ==> r.value.LightmapPayload? && r.value.lightmapInfo.index.root == root
  {
    if token.None? then Success(LightmapPayload(1.0, TextureInfo(TextureId(0, root), 0)))
    else
      var body := token.value.value;
      var intensity :- MemberOr(body, IntensityKey, AsDouble, 1.0);
      var index :- MemberOr(body, IndexKey, AsInt, 0);
      var texCoord :- MemberOr(body, TexCoordKey, AsInt, 0);
      Success(LightmapPayload(intensity, TextureInfo(TextureId(index, root), texCoord)))
  }

  /** Each key is taken from the token when present and is otherwise defaulted,
      independently of the others. */
  lemma DeserializeKeywise(root: Root?, name: string, props: seq<JProperty>)
    requires Lookup(props, IntensityKey).Some? ==> AsDouble(Lookup(props, IntensityKey).value).Success?
    requires Lookup(props, IndexKey).Some? ==> AsInt(Lookup(props, IndexKey).value).Success?
    requires Lookup(props, TexCoordKey).Some? ==> AsInt(Lookup(props, TexCoordKey).value).Success?
    ensures var r := Deserialize(root, Some(JProperty(name, JObj(props))));
            && r.Success?
            && r.value.intensity == (if Lookup(props, IntensityKey).Some? then AsDouble(Lookup(props, IntensityKey).value).value else 1.0)
            && r.value.lightmapInfo.index.id == (if Lookup(props, IndexKey).Some? then AsInt(Lookup(props, IndexKey).value).value else 0)
            && r.value.lightmapInfo.texCoord == (if Lookup(props, TexCoordKey).Some? then AsInt(Lookup(props, TexCoordKey).value).value else 0)
  {
  }

  /** Reading back what Serialize wrote gives the same intensity, index and
      texture coordinate set, with the reference homed in the reading document. */
  lemma RoundTrip(e: Extension, root: Root?)
    requires e.LightmapPayload?
    requires IsInt32(e.lightmapInfo.index.id) && IsInt32(e.lightmapInfo.texCoord)
    ensures Deserialize(root, Some(Serialize(e)))
            == Success(LightmapPayload(e.intensity, TextureInfo(TextureId(e.lightmapInfo.index.id, root), e.lightmapInfo.texCoord)))
  {
  }

  /** An index outside the C# `int` range, as in `{"index": 3000000000}`, does
      not read back: DeserializeAsInt throws an OverflowException. */
  lemma DeserializeOverflow(e: Extension, root: Root?)
    requires e.LightmapPayload? && !IsInt32(e.lightmapInfo.index.id)
    ensures var r := Deserialize(root, Some(Serialize(e)));
            r.Failure? && r.error.Overflow?
  {
  }
}

/** The MOZ_HUBS_texture_basis extension: its payload (MozHubsTextureBasisExtension)
    and its factory (MozHubsTextureBasisExtensionFactory). */
module HubsBasis {
  import opened Wrappers
  import opened Exceptions
  import opened Json
  import opened Numbers
  import opened Gltf

  const ExtensionName: string := "MOZ_HUBS_texture_basis"
  const SourceKey: string := "source"

  /** The factory object: its extension name and the image reference it was given. */
  datatype Factory = Factory(extensionName: string, source: Option<ImageId>)

  function NewFactory(source: Option<ImageId>): (f: Factory)
    ensures f.extensionName == "MOZ_HUBS_texture_basis" && f.source == source
  {
    Factory(ExtensionName, source)
  }

  /** The payload constructor copies the Id and Root of the given reference into
      the payload's own ImageId; a null reference throws. */
  function New(source: Option<ImageId>): (r: Result<Extension, Exception>)
    ensures r.Success? <==> source.Some?
    ensures r.Success? ==> r.value.BasisPayload?
                           && r.value.basisSource.id == source.value.id
                           && r.value.basisSource.root == source.value.root
  {
    if source.None? then Failure(NullReference("MozHubsTextureBasisExtension(source)"))
    else Success(BasisPayload(ImageId(source.value.id, source.value.root)))
  }

  /** Clone ignores the document it is given. */
  function Clone(e: Extension, root: Root?): (c: Extension)
    requires e.BasisPayload?
    ensures c == e
  {
    BasisPayload(ImageId(e.basisSource.id, e.basisSource.root))
  }

  /** Serialize: the property `MOZ_HUBS_texture_basis` holding an object with exactly
      one key, `source`, whose value is the image index. */
  function Serialize(e: Extension): (p: JProperty)
    requires e.BasisPayload?
    ensures p.name == ExtensionName && p.value.JObj? && |p.value.props| == 1
    ensures Lookup(p.value.props, SourceKey) == Some(JInt(e.basisSource.id))
  {
    JProperty(ExtensionName, JObj([JProperty(SourceKey, JInt(e.basisSource.id))]))
  }

  /** A clone serializes exactly as the original. */
  lemma SerializeClone(e: Extension, root: Root?)
    requires e.BasisPayload?
    ensures Serialize(Clone(e, root)) == Serialize(e)
  {
  }

  /** The factory's Deserialize as written.  The `source` member is read with
      `sourceToken.Value<ImageId>("source")`, which looks up a second `source` key
      inside the member's value and converts what it finds with `convert`
      (Newtonsoft's token conversion); a missing inner key gives null, which the
      payload constructor rejects. */
  function Deserialize(root: Root?, token: Option<JProperty>, convert: JValue -> Result<Option<ImageId>, Exception>): (r: Result<Extension, Exception>)
    ensures token.None? ==> r == Success(BasisPayload(DefaultImageId))
    ensures token.Some? && token.value.value.JObj? && Lookup(token.value.value.props, SourceKey).None?
            ==> r == Success(BasisPayload(DefaultImageId))
    ensures r.Success? ==> r.value.BasisPayload?
  {
    if token.None? then Success(BasisPayload(DefaultImageId))
    else
      var sourceToken :- Child(token.value.value, SourceKey);
      if sourceToken.None? then Success(BasisPayload(DefaultImageId))
      else
        var inner :- Child(sourceToken.value, SourceKey);
        var source :- if inner.None? then Success(None) else convert(inner.value);
        New(source)
  }

  /** What Serialize writes cannot be read back: its `source` member is a number,
      and the nested `source` lookup fails on a number. */
  lemma SerializedSourceUnreadable(e: Extension, root: Root?, convert: JValue -> Result<Option<ImageId>, Exception>)
    requires e.BasisPayload?
    ensures Deserialize(root, Some(Serialize(e)), convert).Failure?
  {
  }

  /** The reading that matches Serialize: the `source` member is the image index,
      homed in the reading document. */
  function DeserializeSourceIndex(root: Root?, token: Option<JProperty>): (r: Result<Extension, Exception>)
    ensures token.None? ==> r == Success(BasisPayload(DefaultImageId))
    ensures token.Some? && token.value.value.JObj? && Lookup(token.value.value.props, SourceKey).None?
            ==> r == Success(BasisPayload(DefaultImageId))
    ensures r.Success? ==> r.value.BasisPayload?
  {
    if token.None? then Success(BasisPayload(DefaultImageId))
    else
      var sourceToken :- Child(token.value.value, SourceKey);
      if sourceToken.None? then Success(BasisPayload(DefaultImageId))
      else
        var id :- AsInt(sourceToken.value);
        Success(BasisPayload(ImageId(id, root)))
  }

  /** With that reading, Serialize and Deserialize form a round trip on an
      index that fits a C# `int`. */
  lemma RoundTripSourceIndex(e: Extension, root: Root?)
    requires e.BasisPayload? && IsInt32(e.basisSource.id)
    ensures DeserializeSourceIndex(root, Some(Serialize(e))) == Success(BasisPayload(ImageId(e.basisSource.id, root)))
  {
  }
}

/** The KHR_texture_basisu extension: its payload (TextureKTX2Extension) and its
    factory (TextureKTX2ExtensionFactory). */
module Ktx2 {
  import opened Wrappers
  import opened Exceptions
  import opened Json
  import opened Numbers
  import opened Gltf
  import HubsBasis

  const ExtensionName: string := "KHR_texture_basisu"
  const SourceKey: string := "source"

  function NewFactory(source: Option<ImageId>): (f: HubsBasis.Factory)
    ensures f.extensionName == "KHR_texture_basisu" && f.source == source
  {
    HubsBasis.Factory(ExtensionName, source)
  }

  /** The payload constructor copies Id and Root; a null reference throws. */
  function New(source: Option<ImageId>): (r: Result<Extension, Exception>)
    ensures r.Success? <==> source.Some?
    ensures r.Success? ==> r.value.Ktx2Payload?
                           && r.value.ktx2Source.id == source.value.id
                           && r.value.ktx2Source.root == source.value.root
  {
    if source.None? then Failure(NullReference("TextureKTX2Extension(source)"))
    else Success(Ktx2Payload(ImageId(source.value.id, source.value.root)))
  }

  /** Clone ignores the document it is given. */
  function Clone(e: Extension, root: Root?): (c: Extension)
    requires e.Ktx2Payload?
    ensures c == e
  {
    Ktx2Payload(ImageId(e.ktx2Source.id, e.ktx2Source.root))
  }

  /** Serialize: the property `KHR_texture_basisu` holding an object with exactly
      one key, `source`, whose value is the image index. */
  function Serialize(e: Extension): (p: JProperty)
    requires e.Ktx2Payload?
    ensures p.name == ExtensionName && p.value.JObj? && |p.value.props| == 1
    ensures Lookup(p.value.props, SourceKey) == Some(JInt(e.ktx2Source.id))
  {
    JProperty(ExtensionName, JObj([JProperty(SourceKey, JInt(e.ktx2Source.id))]))
  }

  /** The KHR_texture_basisu payload has the Basis payload's shape; only the
      property name differs. */
  lemma SameShapeAsBasis(source: ImageId)
    ensures Serialize(Ktx2Payload(source)).value == HubsBasis.Serialize(BasisPayload(source)).value
    ensures Serialize(Ktx2Payload(source)).name != HubsBasis.Serialize(BasisPayload(source)).name
  {
  }

  /** The factory's Deserialize as written: the same reading as the Basis factory,
      but it builds a MozHubsTextureBasisExtension, whatever the token says. */
  function DeserializeAsWritten(root: Root?, token: Option<JProperty>, convert: JValue -> Result<Option<ImageId>, Exception>): (r: Result<Extension, Exception>)
    ensures token.None? ==> r == Success(BasisPayload(DefaultImageId))
    ensures r.Success? ==> r.value.BasisPayload?
  {
    if token.None? then Success(BasisPayload(DefaultImageId))
    else
      var sourceToken :- Child(token.value.value, SourceKey);
      if sourceToken.None? then Success(BasisPayload(DefaultImageId))
      else
        var inner :- Child(sourceToken.value, SourceKey);
        var source :- if inner.None? then Success(None) else convert(inner.value);
        HubsBasis.New(source)
  }

  /** Every payload this factory produces re-serializes under the Basis name, not
      under `KHR_texture_basisu`. */
  lemma AsWrittenReserializesAsBasis(root: Root?, token: Option<JProperty>, convert: JValue -> Result<Option<ImageId>, Exception>)
    requires DeserializeAsWritten(root, token, convert).Success?
    ensures HubsBasis.Serialize(DeserializeAsWritten(root, token, convert).value).name == "MOZ_HUBS_texture_basis"
    ensures HubsBasis.Serialize(DeserializeAsWritten(root, token, convert).value).name != ExtensionName
  {
  }

  /** The factory as evidently intended: a KHR_texture_basisu payload whose source
      is the `source` member's image index. */
  function Deserialize(root: Root?, token: Option<JProperty>): (r: Result<Extension, Exception>)
    ensures token.None? ==> r == Success(Ktx2Payload(DefaultImageId))
    ensures token.Some? && token.value.value.JObj? && Lookup(token.value.value.props, SourceKey).None?
            ==> r == Success(Ktx2Payload(DefaultImageId))
    ensures r.Success? ==> r.value.Ktx2Payload?
  {
    if token.None? then Success(Ktx2Payload(DefaultImageId))
    else
      var sourceToken :- Child(token.value.value, SourceKey);
      if sourceToken.None? then Success(Ktx2Payload(DefaultImageId))
      else
        var id :- AsInt(sourceToken.value);
        Success(Ktx2Payload(ImageId(id, root)))
  }

  /** The intended factory reads back what Serialize wrote, under the same name,
      for an index that fits a C# `int`. */
  lemma RoundTrip(e: Extension, root: Root?)
    requires e.Ktx2Payload? && IsInt32(e.ktx2Source.id)
    ensures Deserialize(root, Some(Serialize(e))) == Success(Ktx2Payload(ImageId(e.ktx2Source.id, root)))
    ensures Serialize(Deserialize(root, Some(Serialize(e))).value).name == ExtensionName
  {
  }
}
