/** The two JsonTextWriter helpers of the `Extensions` class in ImportExport.cs:
    WriteProperty (an optional member) and WriteExtensions (a texture's, sampler's
    or image's extension dictionary).  A writer is modelled by the calls it
    receives, as a sequence of tokens. */
module JsonWriter {
  import opened Wrappers
  import opened Json
  import opened Gltf
  import MozLightmap
  import HubsBasis
  import Ktx2
  import GlbExport

  /** One call on the writer: WritePropertyName, WriteValue (or a JToken's
      WriteTo), WriteStartObject, WriteEndObject. */
  datatype Token = PropertyName(name: string) | Value(v: JValue) | StartObject | EndObject

  /** Extensions.WriteProperty.  `property != compare` compares two `object`
      references, so whether the property is the very object passed as `compare`
      is given as `sameAsCompare`; a null property is never written. */
  function WriteProperty(property: Option<JValue>, sameAsCompare: bool, name: string): (r: seq<Token>)
    ensures r != [] <==> property.Some? && !sameAsCompare
    ensures r != [] ==> r == [PropertyName(name), Value(property.value)]
  {
    if !sameAsCompare && property.Some? then [PropertyName(name), Value(property.value)] else []
  }

  /** IExtension.Serialize, dispatched on the payload; a DefaultExtension hands
      back the property it was read from. */
  function SerializeExtension(e: Extension): (p: JProperty)
    ensures e.BasisPayload? ==> p == HubsBasis.Serialize(e)
    ensures e.LightmapPayload? ==> p == MozLightmap.Serialize(e)
    ensures e.Ktx2Payload? ==> p == Ktx2.Serialize(e)
    ensures e.Generic? ==> p == e.extensionData
  {
    match e
    case LightmapPayload(_, _) => MozLightmap.Serialize(e)
    case BasisPayload(_) => HubsBasis.Serialize(e)
    case Ktx2Payload(_) => Ktx2.Serialize(e)
    case Generic(p) => p
  }

  /** The loop over the dictionary: each key, then the children of the payload's
      serialized property, which is the property's value alone. */
  function ExtensionEntries(d: ExtensionMap): (r: seq<Token>)
    ensures |r| == 2 * |d|
    decreases |d|
  {
    if d == [] then []
    else [PropertyName(d[0].0), Value(SerializeExtension(d[0].1).value)] + ExtensionEntries(d[1..])
  }

  /** Extensions.WriteExtensions: nothing for a null dictionary, otherwise an
      "extensions" member holding one object. */
  function WriteExtensions(extensions: Option<ExtensionMap>): (r: seq<Token>)
    ensures extensions.None? <==> r == []
    ensures extensions.Some? ==>
              |r| == 2 * |extensions.value| + 3
              && r[0] == PropertyName("extensions") && r[1] == StartObject && r[|r| - 1] == EndObject
  {
    match extensions
    case None => []
    case Some(d) => [PropertyName("extensions"), StartObject] + ExtensionEntries(d) + [EndObject]
  }

  /** A reader for the members of an object: name/value pairs until the end.
      Anything else is not a member list. */
  function ReadMembers(tokens: seq<Token>): (r: Option<seq<JProperty>>)
    ensures r.Some? ==> 2 * |r.value| == |tokens|
    decreases |tokens|
  {
    if tokens == [] then Some([])
    else if |tokens| >= 2 && tokens[0].PropertyName? && tokens[1].Value? then
      match ReadMembers(tokens[2..])
      case None => None
      case Some(rest) => Some([JProperty(tokens[0].name, tokens[1].v)] + rest)
    else None
  }

  /** What WriteProperty wrote reads back as the member it was given, or nothing. */
  lemma WritePropertyReadsBack(property: Option<JValue>, sameAsCompare: bool, name: string)
    ensures ReadMembers(WriteProperty(property, sameAsCompare, name))
            == Some(if property.Some? && !sameAsCompare then [JProperty(name, property.value)] else [])
  {
    if property.Some? && !sameAsCompare {
      var w := WriteProperty(property, sameAsCompare, name);
      assert w[2..] == [] && ReadMembers(w[2..]) == Some([]);
      assert w == [PropertyName(name), Value(property.value)];
      assert ReadMembers(w) == Some([JProperty(name, property.value)] + []);
      assert [JProperty(name, property.value)] + [] == [JProperty(name, property.value)];
    }
  }

  /** The members written for a dictionary: one per entry, keyed by the dictionary
      key (not by the name the payload serializes under), holding the payload's
      serialized value. */
  function WrittenMembers(d: ExtensionMap): (r: seq<JProperty>)
    ensures |r| == |d|
    ensures forall i :: 0 <= i < |d| ==> r[i] == JProperty(d[i].0, SerializeExtension(d[i].1).value)
  {
    seq(|d|, i requires 0 <= i < |d| => JProperty(d[i].0, SerializeExtension(d[i].1).value))
  }

  lemma {:induction false} ExtensionEntriesReadBack(d: ExtensionMap)
    ensures ReadMembers(ExtensionEntries(d)) == Some(WrittenMembers(d))
    decreases |d|
  {
    if d != [] {
      var e := ExtensionEntries(d);
      assert e[2..] == ExtensionEntries(d[1..]);
      ExtensionEntriesReadBack(d[1..]);
      assert WrittenMembers(d) == [JProperty(d[0].0, SerializeExtension(d[0].1).value)] + WrittenMembers(d[1..]);
    }
  }

  /** The object WriteExtensions opens reads back as one member per entry. */
  lemma WriteExtensionsReadsBack(d: ExtensionMap)
    ensures var r := WriteExtensions(Some(d));
            ReadMembers(r[2..|r| - 1]) == Some(WrittenMembers(d))
  {
    var r := WriteExtensions(Some(d));
    assert r[2..|r| - 1] == ExtensionEntries(d);
    ExtensionEntriesReadBack(d);
  }

  /** The member written under a key is the serialized payload found under it. */
  lemma {:induction false} WrittenMembersLookup(d: ExtensionMap, key: string)
    ensures Lookup(WrittenMembers(d), key)
            == match Find(d, key)
               case None => None
               case Some(e) => Some(SerializeExtension(e).value)
    decreases |d|
  {
    if d != [] {
      assert WrittenMembers(d)[1..] == WrittenMembers(d[1..]);
      WrittenMembersLookup(d[1..], key);
    }
  }

  /** After Convert, a texture's extensions are written with a
      "MOZ_HUBS_texture_basis" member holding `{"source": id}`, where id is the
      texture's old source index (0 when it had none) unless an entry was already
      there. */
  lemma ConvertedTextureWritesBasis(t: Texture)
    requires !(t.extensions.Some? && HasKey(t.extensions.value, GlbExport.BasisName))
    ensures var c := GlbExport.ConvertTexture(t);
            var r := WriteExtensions(c.extensions);
            && r != []
            && ReadMembers(r[2..|r| - 1]).Some?
            && Lookup(ReadMembers(r[2..|r| - 1]).value, GlbExport.BasisName)
               == Some(JObj([JProperty(HubsBasis.SourceKey, JInt(t.source.GetOr(DefaultImageId).id))]))
  {
    var c := GlbExport.ConvertTexture(t);
    var d := c.extensions.value;
    var prior := t.extensions.GetOr([]);
    assert d == prior + [(GlbExport.BasisName, BasisPayload(t.source.GetOr(DefaultImageId)))];
    WriteExtensionsReadsBack(d);
    WrittenMembersLookup(d, GlbExport.BasisName);
    FindAppended(prior, GlbExport.BasisName, BasisPayload(t.source.GetOr(DefaultImageId)));
  }

  lemma {:induction false} FindAppended(d: ExtensionMap, key: string, e: Extension)
    requires !HasKey(d, key)
    ensures Find(d + [(key, e)], key) == Some(e)
    decreases |d|
  {
    if d != [] {
      assert (d + [(key, e)])[1..] == d[1..] + [(key, e)];
      assert forall i :: 0 <= i < |d[1..]| ==> d[1..][i] == d[i + 1];
      FindAppended(d[1..], key, e);
    }
  }
}
