/** GLTFTexture: construction, the copy constructor, the member-by-member reader
    and the writer. */
module GltfTexture {
  import opened Wrappers
  import opened Exceptions
  import opened Json
  import opened Numbers
  import opened Gltf

  const SamplerKey: string := "sampler"
  const SourceKey: string := "source"

  /** `new GLTFTexture()`: nothing set, and `originalIndex` is -1. */
  function NewTexture(): (t: Texture)
    ensures t.sampler.None? && t.source.None? && t.originalIndex == -1
    ensures t.name.None? && t.extensions.None? && t.extras.None?
  {
    Texture(None, None, None, None, None, -1)
  }

  /** The members a copy inherits from its base classes (name, extensions, extras),
      which the base copy constructor produces. */
  datatype BaseProps = BaseProps(name: Option<string>, extensions: Option<ExtensionMap>, extras: Option<JValue>)

  /** The copy constructor `GLTFTexture(texture, gltfRoot)`.  `copyBase` stands for
      the base-class copy constructor.  Sampler and Source are copied exactly when
      present, with their references re-homed to `root`; `originalIndex` is not
      copied. */
  function CopyOf(texture: Option<Texture>, root: Root?, copyBase: Texture -> BaseProps): (t: Texture)
    ensures t.originalIndex == -1
    ensures t.sampler.Some? <==> texture.Some? && texture.value.sampler.Some?
    ensures t.source.Some? <==> texture.Some? && texture.value.source.Some?
    ensures t.sampler.Some? ==> t.sampler.value == SamplerId(texture.value.sampler.value.id, root)
    ensures t.source.Some? ==> t.source.value == ImageId(texture.value.source.value.id, root)
    ensures texture.None? ==> t == NewTexture()
  {
    if texture.None? then NewTexture()
    else
      var src := texture.value;
      var b := copyBase(src);
      Texture(b.name, b.extensions, b.extras,
        if src.sampler.Some? then Some(SamplerId(src.sampler.value.id, root)) else None,
        if src.source.Some? then Some(ImageId(src.source.value.id, root)) else None,
        -1)
  }

  function BaseOf(t: Texture): BaseProps
  {
    BaseProps(t.name, t.extensions, t.extras)
  }

  /** Reading one member.  `sampler` and `source` are read as integer indices
      homed in `root`; every other member goes to `defaultHandler`, the base
      class's DefaultPropertyDeserializer, which reads the base-class members. */
  function ReadMember(t: Texture, root: Root?, member: JProperty,
                      defaultHandler: (BaseProps, JProperty) -> Result<BaseProps, Exception>): Result<Texture, Exception>
  {
    if member.name == SamplerKey then
      var id :- AsInt(member.value);
      Success(t.(sampler := Some(SamplerId(id, root))))
    else if member.name == SourceKey then
      var id :- AsInt(member.value);
      Success(t.(source := Some(ImageId(id, root))))
    else
      var b :- defaultHandler(BaseOf(t), member);
      Success(t.(name := b.name, extensions := b.extensions, extras := b.extras))
  }

  /** The members read in order into `t`; the first failing member ends the read. */
  function ReadMembers(t: Texture, root: Root?, members: seq<JProperty>,
                       defaultHandler: (BaseProps, JProperty) -> Result<BaseProps, Exception>): Result<Texture, Exception>
    decreases |members|
  {
    if |members| == 0 then Success(t)
    else
      var t' :- ReadMember(t, root, members[0], defaultHandler);
      ReadMembers(t', root, members[1..], defaultHandler)
  }

  /** `GLTFTexture.Deserialize`: a fresh texture filled member by member while the
      reader yields property names. */
  method Deserialize(root: Root?, members: seq<JProperty>,
                     defaultHandler: (BaseProps, JProperty) -> Result<BaseProps, Exception>)
    returns (r: Result<Texture, Exception>)
    ensures r == ReadMembers(NewTexture(), root, members, defaultHandler)
  {
    var texture := NewTexture();
    var i := 0;
    while i < |members|
      invariant 0 <= i <= |members|
      invariant ReadMembers(NewTexture(), root, members, defaultHandler)
                == ReadMembers(texture, root, members[i..], defaultHandler)
    {
      var step := ReadMember(texture, root, members[i], defaultHandler);
      assert members[i..][0] == members[i] && members[i..][1..] == members[i + 1..];
      if step.Failure? {
        return Failure(step.error);
      }
      texture := step.value;
      i := i + 1;
    }
    assert members[i..] == [];
    return Success(texture);
  }

  /** The key routing: `sampler` sets only Sampler, `source` sets only Source, and
      any other key is the default handler's business. */
  lemma ReadMemberRouting(t: Texture, root: Root?, member: JProperty,
                          defaultHandler: (BaseProps, JProperty) -> Result<BaseProps, Exception>)
    ensures member.name == SamplerKey && member.value.JInt? && IsInt32(member.value.i) ==>
              ReadMember(t, root, member, defaultHandler) == Success(t.(sampler := Some(SamplerId(member.value.i, root))))
    ensures member.name == SourceKey && member.value.JInt? && IsInt32(member.value.i) ==>
              ReadMember(t, root, member, defaultHandler) == Success(t.(source := Some(ImageId(member.value.i, root))))
    ensures (member.name == SamplerKey || member.name == SourceKey) && !(member.value.JInt? && IsInt32(member.value.i)) ==>
              ReadMember(t, root, member, defaultHandler).Failure?
    ensures member.name != SamplerKey && member.name != SourceKey ==>
              ReadMember(t, root, member, defaultHandler).Success? == defaultHandler(BaseOf(t), member).Success?
    ensures member.name != SamplerKey && member.name != SourceKey && defaultHandler(BaseOf(t), member).Success? ==>
              var b := defaultHandler(BaseOf(t), member).value;
              ReadMember(t, root, member, defaultHandler)
              == Success(t.(name := b.name, extensions := b.extensions, extras := b.extras))
  {
  }

  /** `Serialize`: `sampler` when the texture has one, then `source` when it has
      one, each the referenced index, then the base-class members that `writeBase`
      produces. */
  function Serialize(t: Texture, writeBase: Texture -> seq<JProperty>): (members: seq<JProperty>)
    ensures |members| == (if t.sampler.Some? then 1 else 0) + (if t.source.Some? then 1 else 0) + |writeBase(t)|
    ensures t.sampler.Some? ==> members[0] == JProperty(SamplerKey, JInt(t.sampler.value.id))
    ensures t.source.Some? ==> members[if t.sampler.Some? then 1 else 0] == JProperty(SourceKey, JInt(t.source.value.id))
    ensures members[|members| - |writeBase(t)|..] == writeBase(t)
  {
    (if t.sampler.Some? then [JProperty(SamplerKey, JInt(t.sampler.value.id))] else [])
    + (if t.source.Some? then [JProperty(SourceKey, JInt(t.source.value.id))] else [])
    + writeBase(t)
  }

  lemma {:induction false} ReadInertMembers(t: Texture, root: Root?, members: seq<JProperty>,
                                            defaultHandler: (BaseProps, JProperty) -> Result<BaseProps, Exception>)
    requires forall i :: 0 <= i < |members| ==> members[i].name != SamplerKey && members[i].name != SourceKey
    requires forall b, i :: 0 <= i < |members| ==> defaultHandler(b, members[i]).Success?
    ensures ReadMembers(t, root, members, defaultHandler).Success?
    ensures ReadMembers(t, root, members, defaultHandler).value.sampler == t.sampler
    ensures ReadMembers(t, root, members, defaultHandler).value.source == t.source
    decreases |members|
  {
    if |members| > 0 {
      var b := defaultHandler(BaseOf(t), members[0]).value;
      var t' := t.(name := b.name, extensions := b.extensions, extras := b.extras);
      assert ReadMember(t, root, members[0], defaultHandler) == Success(t');
      forall i | 0 <= i < |members[1..]| ensures members[1..][i] == members[i + 1] { }
      ReadInertMembers(t', root, members[1..], defaultHandler);
    }
  }

  /** Writing a texture and reading it back restores its Sampler and Source
      indices, homed in the reading document, provided the base-class members have
      other names and the base-class reader accepts them.  The indices are C#
      `int` values, as the `Id` fields' type guarantees. */
  lemma SerializeThenDeserialize(t: Texture, root: Root?, writeBase: Texture -> seq<JProperty>,
                                 defaultHandler: (BaseProps, JProperty) -> Result<BaseProps, Exception>)
    requires t.sampler.Some? ==> IsInt32(t.sampler.value.id)
    requires t.source.Some? ==> IsInt32(t.source.value.id)
    requires forall i :: 0 <= i < |writeBase(t)| ==> writeBase(t)[i].name != SamplerKey && writeBase(t)[i].name != SourceKey
    requires forall b, i :: 0 <= i < |writeBase(t)| ==> defaultHandler(b, writeBase(t)[i]).Success?
    ensures var r := ReadMembers(NewTexture(), root, Serialize(t, writeBase), defaultHandler);
            && r.Success?
            && r.value.sampler == (if t.sampler.Some? then Some(SamplerId(t.sampler.value.id, root)) else None)
            && r.value.source == (if t.source.Some? then Some(ImageId(t.source.value.id, root)) else None)
  {
    var members := Serialize(t, writeBase);
    var base := writeBase(t);
    var t0 := NewTexture();
    var t1 := if t.sampler.Some? then t0.(sampler := Some(SamplerId(t.sampler.value.id, root))) else t0;
    var t2 := if t.source.Some? then t1.(source := Some(ImageId(t.source.value.id, root))) else t1;
    var k := (if t.sampler.Some? then 1 else 0) + (if t.source.Some? then 1 else 0);
    assert members[k..] == base;
    ReadInertMembers(t2, root, base, defaultHandler);
    if t.source.Some? {
      var rest := members[(if t.sampler.Some? then 1 else 0)..];
      assert rest[1..] == base;
      assert ReadMembers(t1, root, rest, defaultHandler) == ReadMembers(t2, root, base, defaultHandler);
    }
    if t.sampler.Some? {
      assert members[1..] == members[1..][..];
    }
  }
}
