/** HDRSwap: before a preview, every `.hdr` image is swapped for a PNG
    placeholder and every texture with an RGBE extension gets the source named in
    that extension's JSON; afterwards the images are swapped back and those
    textures lose their source again.  The two dictionaries map list indices to
    what was saved, in insertion order. */
module Hdr {
  import opened Wrappers
  import opened Exceptions
  import opened Json
  import opened Numbers
  import opened Gltf
  import opened Text

  const HdrSuffix: string := ".hdr"
  const PngMime: string := "image/png"
  const RgbeName: string := "MOZ_texture_rgbe"

  /** The value saved under `key` in an index-keyed dictionary, if any. */
  function EntryFor<V>(entries: seq<(int, V)>, key: int): (r: Option<V>)
    ensures r.None? <==> forall j :: 0 <= j < |entries| ==> entries[j].0 != key
    ensures r.Some? ==> exists j :: 0 <= j < |entries| && entries[j] == (key, r.value)
  {
    if |entries| == 0 then None
    else if entries[0].0 == key then Some(entries[0].1)
    else
      var r := EntryFor(entries[1..], key);
      assert r.Some? ==> exists j :: 1 <= j < |entries| && entries[j] == (key, r.value) by {
        if r.Some? {
          var j :| 0 <= j < |entries[1..]| && entries[1..][j] == (key, r.value);
          assert entries[j + 1] == (key, r.value);
        }
      }
      r
  }

  /** The keys of an index-keyed dictionary, strictly increasing. */
  predicate Ascending<V>(entries: seq<(int, V)>)
  {
    forall j, j' :: 0 <= j < j' < |entries| ==> entries[j].0 < entries[j'].0
  }

  // ---------------------------------------------------------------------------
  // SwapOut, images: the ForEach over the image list.
  // ---------------------------------------------------------------------------

  /** `image.Uri.EndsWith(".hdr")`, compared ordinally. */
  predicate IsHdr(img: Image)
  {
    img.uri.Some? && EndsWith(img.uri.value, HdrSuffix)
  }

  /** The placeholder image in place of an HDR one. */
  function Placeholdered(img: Image, placeholder: string): Image
  {
    img.(uri := Some(placeholder), mimeType := Some(PngMime))
  }

  /** What hdrMap records: the URI, a bar and the MIME type (null reads as ""). */
  function UriMime(img: Image): string
    requires img.uri.Some?
  {
    img.uri.value + "|" + img.mimeType.GetOr("")
  }

  /** The index of the first image from `i` on without a URI, or the count:
      where the image loop stops. */
  function NullUriFrom(images: seq<Image>, i: nat): (n: nat)
    requires i <= |images|
    ensures i <= n <= |images|
    ensures forall k :: i <= k < n ==> images[k].uri.Some?
    ensures n < |images| ==> images[n].uri.None?
    decreases |images| - i
  {
    if i == |images| || images[i].uri.None? then i else NullUriFrom(images, i + 1)
  }

  lemma {:induction false} NullUriFromSkip(images: seq<Image>, i: nat, p: nat)
    requires i <= p <= |images|
    requires forall k :: i <= k < p ==> images[k].uri.Some?
    ensures NullUriFrom(images, i) == NullUriFrom(images, p)
    decreases p - i
  {
    if i < p {
      NullUriFromSkip(images, i + 1, p);
    }
  }

  /** The entries hdrMap gets from the first `n` images: each HDR image under its
      index, in order. */
  function HdrEntries(images: seq<Image>, n: nat): (r: seq<(int, string)>)
    requires n <= |images|
    ensures |r| <= n
  {
    if n == 0 then []
    else HdrEntries(images, n - 1) + (if IsHdr(images[n - 1]) then [(n - 1, UriMime(images[n - 1]))] else [])
  }

  /** hdrMap records exactly the HDR images among the first `n`, under their
      index, with their URI and MIME type. */
  lemma {:induction false} HdrEntriesDescribed(images: seq<Image>, n: nat)
    requires n <= |images|
    ensures forall k :: EntryFor(HdrEntries(images, n), k) ==
              if 0 <= k < n && IsHdr(images[k]) then Some(UriMime(images[k])) else None
  {
    if n > 0 {
      HdrEntriesDescribed(images, n - 1);
      forall k ensures EntryFor(HdrEntries(images, n), k) ==
                         if 0 <= k < n && IsHdr(images[k]) then Some(UriMime(images[k])) else None {
        HdrEntryNext(images, n, k);
      }
    }
  }

  /** One key, one more image. */
  lemma HdrEntryNext(images: seq<Image>, n: nat, k: int)
    requires 0 < n <= |images|
    requires EntryFor(HdrEntries(images, n - 1), k) ==
             if 0 <= k < n - 1 && IsHdr(images[k]) then Some(UriMime(images[k])) else None
    ensures EntryFor(HdrEntries(images, n), k) ==
            if 0 <= k < n && IsHdr(images[k]) then Some(UriMime(images[k])) else None
  {
    var last := if IsHdr(images[n - 1]) then [(n - 1, UriMime(images[n - 1]))] else [];
    assert HdrEntries(images, n) == HdrEntries(images, n - 1) + last;
    EntryForAppend(HdrEntries(images, n - 1), last, k);
    if k != n - 1 {
      assert EntryFor(last, k) == None;
    }
  }

  /** Every entry is for one of the first `n` images, one ending in .hdr,
      and holds its URI and MIME type. */
  lemma {:induction false} HdrEntriesSound(images: seq<Image>, n: nat)
    requires n <= |images|
    ensures forall i :: 0 <= i < |HdrEntries(images, n)| ==>
              var e := HdrEntries(images, n)[i];
              0 <= e.0 < n && IsHdr(images[e.0]) && e.1 == UriMime(images[e.0])
  {
    if n > 0 {
      HdrEntriesSound(images, n - 1);
      var last := if IsHdr(images[n - 1]) then [(n - 1, UriMime(images[n - 1]))] else [];
      assert HdrEntries(images, n) == HdrEntries(images, n - 1) + last;
    }
  }

  /** Its keys are below `n` and ascending. */
  lemma {:induction false} HdrEntriesAscending(images: seq<Image>, n: nat)
    requires n <= |images|
    ensures forall j :: 0 <= j < |HdrEntries(images, n)| ==> 0 <= HdrEntries(images, n)[j].0 < n
    ensures Ascending(HdrEntries(images, n))
  {
    if n > 0 {
      HdrEntriesAscending(images, n - 1);
      var last := if IsHdr(images[n - 1]) then [(n - 1, UriMime(images[n - 1]))] else [];
      AscendingSnoc(HdrEntries(images, n - 1), last, n - 1);
    }
  }

  /** Appending at most one entry with a larger key keeps the keys ascending. */
  lemma AscendingSnoc<V>(a: seq<(int, V)>, last: seq<(int, V)>, key: nat)
    requires forall j :: 0 <= j < |a| ==> 0 <= a[j].0 < key
    requires Ascending(a)
    requires |last| <= 1 && forall j :: 0 <= j < |last| ==> last[j].0 == key
    ensures forall j :: 0 <= j < |a + last| ==> 0 <= (a + last)[j].0 < key + 1
    ensures Ascending(a + last)
  {
  }

  lemma {:induction false} EntryForAppend<V>(a: seq<(int, V)>, b: seq<(int, V)>, k: int)
    ensures EntryFor(a + b, k) == if EntryFor(a, k).Some? then EntryFor(a, k) else EntryFor(b, k)
    decreases |a|
  {
    if |a| > 0 {
      assert (a + b)[1..] == a[1..] + b;
      EntryForAppend(a[1..], b, k);
    } else {
      assert a + b == b;
    }
  }

  /** The images after the first `n` have been passed. */
  function SwappedImages(images: seq<Image>, n: nat, placeholder: string): (r: seq<Image>)
    ensures |r| == |images|
  {
    seq(|images|, k requires 0 <= k < |images| =>
      if k < n && IsHdr(images[k]) then Placeholdered(images[k], placeholder) else images[k])
  }

  /** SwapOut's image loop: it stops at the first image without a URI, with a
      NullReferenceException; before it, exactly the HDR images are swapped for
      the placeholder and recorded.  (The images, the hdrMap entries, the
      exception.) */
  function OutImages(images: seq<Image>, placeholder: string): (r: (seq<Image>, seq<(int, string)>, Option<Exception>))
    ensures var n := NullUriFrom(images, 0);
            && |r.0| == |images|
            && (r.2.Some? <==> n < |images|)
            && (r.2.Some? ==> r.2 == Some(NullReference("image.Uri")))
            && (forall k :: 0 <= k < |images| ==>
                  r.0[k] == if k < n && IsHdr(images[k]) then Placeholdered(images[k], placeholder) else images[k])
            && r.1 == HdrEntries(images, n)
  {
    var n := NullUriFrom(images, 0);
    (SwappedImages(images, n, placeholder), HdrEntries(images, n),
     if n < |images| then Some(NullReference("image.Uri")) else None)
  }

  // ---------------------------------------------------------------------------
  // SwapOut, textures: the ForEach over the texture list.
  // ---------------------------------------------------------------------------

  predicate HasRgbe(t: Texture)
  {
    t.extensions.Some? && HasKey(t.extensions.value, RgbeName)
  }

  function RgbeExtension(t: Texture): Extension
    requires HasRgbe(t)
  {
    Find(t.extensions.value, RgbeName).value
  }

  /** The source id in an RGBE extension: the extension must be the raw JSON
      kind (`as DefaultExtension`), and the first integer after `"source":` in the
      text of its value is parsed; no match parses "" and fails. */
  function RgbeSource(ext: Extension, render: JValue -> string): (r: Result<int, Exception>)
    ensures !ext.Generic? ==> r == Failure(NullReference("ExtensionData"))
    ensures ext.Generic? ==> r == ParseInt32(SourceIdMatch(render(ext.extensionData.value)))
  {
    if !ext.Generic? then Failure(NullReference("ExtensionData"))
    else ParseInt32(SourceIdMatch(render(ext.extensionData.value)))
  }

  /** A texture whose extension text reads `"source": n` gets source n. */
  lemma RgbeSourceOfKey(prop: JProperty, n: nat, rest: string, render: JValue -> string)
    requires render(prop.value) == SourceKey + " " + NatToString(n) + rest
    requires |rest| == 0 || !IsDigit(rest[0])
    requires n <= Int32Max
    ensures RgbeSource(Generic(prop), render) == Success(n)
  {
    SourceIdMatchOfKey(n, rest);
    NatToStringDigits(n);
    ParseDigits(NatToString(n));
  }

  /** A texture the loop stops at. */
  predicate RgbeFails(t: Texture, render: JValue -> string)
  {
    HasRgbe(t) && RgbeSource(RgbeExtension(t), render).Failure?
  }

  /** The index of the first texture from `i` on that the loop stops at, or the
      count. */
  function RgbeFailFrom(textures: seq<Texture>, i: nat, render: JValue -> string): (n: nat)
    requires i <= |textures|
    ensures i <= n <= |textures|
    ensures forall k :: i <= k < n ==> !RgbeFails(textures[k], render)
    ensures n < |textures| ==> RgbeFails(textures[n], render)
    decreases |textures| - i
  {
    if i == |textures| || RgbeFails(textures[i], render) then i else RgbeFailFrom(textures, i + 1, render)
  }

  lemma {:induction false} RgbeFailFromSkip(textures: seq<Texture>, i: nat, p: nat, render: JValue -> string)
    requires i <= p <= |textures|
    requires forall k :: i <= k < p ==> !RgbeFails(textures[k], render)
    ensures RgbeFailFrom(textures, i, render) == RgbeFailFrom(textures, p, render)
    decreases p - i
  {
    if i < p {
      RgbeFailFromSkip(textures, i + 1, p, render);
    }
  }

  /** The entries texMap gets from the first `n` textures. */
  function RgbeEntries(textures: seq<Texture>, n: nat): (r: seq<(int, Extension)>)
    requires n <= |textures|
    ensures |r| <= n
  {
    if n == 0 then []
    else RgbeEntries(textures, n - 1)
         + (if HasRgbe(textures[n - 1]) then [(n - 1, RgbeExtension(textures[n - 1]))] else [])
  }

  /** texMap records exactly the textures with an RGBE extension among the first
      `n`, under their index. */
  lemma {:induction false} RgbeEntriesDescribed(textures: seq<Texture>, n: nat)
    requires n <= |textures|
    ensures forall k :: EntryFor(RgbeEntries(textures, n), k) ==
              if 0 <= k < n && HasRgbe(textures[k]) then Some(RgbeExtension(textures[k])) else None
  {
    if n > 0 {
      RgbeEntriesDescribed(textures, n - 1);
      forall k ensures EntryFor(RgbeEntries(textures, n), k) ==
                         if 0 <= k < n && HasRgbe(textures[k]) then Some(RgbeExtension(textures[k])) else None {
        RgbeEntryNext(textures, n, k);
      }
    }
  }

  /** One key, one more texture. */
  lemma RgbeEntryNext(textures: seq<Texture>, n: nat, k: int)
    requires 0 < n <= |textures|
    requires EntryFor(RgbeEntries(textures, n - 1), k) ==
             if 0 <= k < n - 1 && HasRgbe(textures[k]) then Some(RgbeExtension(textures[k])) else None
    ensures EntryFor(RgbeEntries(textures, n), k) ==
            if 0 <= k < n && HasRgbe(textures[k]) then Some(RgbeExtension(textures[k])) else None
  {
    var last := if HasRgbe(textures[n - 1]) then [(n - 1, RgbeExtension(textures[n - 1]))] else [];
    assert RgbeEntries(textures, n) == RgbeEntries(textures, n - 1) + last;
    EntryForAppend(RgbeEntries(textures, n - 1), last, k);
    if k != n - 1 {
      assert EntryFor(last, k) == None;
    }
  }

  /** Every entry is for one of the first `n` textures, one with an RGBE extension,
      and holds that extension. */
  lemma {:induction false} RgbeEntriesSound(textures: seq<Texture>, n: nat)
    requires n <= |textures|
    ensures forall i :: 0 <= i < |RgbeEntries(textures, n)| ==>
              var e := RgbeEntries(textures, n)[i];
              0 <= e.0 < n && HasRgbe(textures[e.0]) && e.1 == RgbeExtension(textures[e.0])
  {
    if n > 0 {
      RgbeEntriesSound(textures, n - 1);
      var last := if HasRgbe(textures[n - 1]) then [(n - 1, RgbeExtension(textures[n - 1]))] else [];
      assert RgbeEntries(textures, n) == RgbeEntries(textures, n - 1) + last;
    }
  }

  /** Its keys are below `n` and ascending. */
  lemma {:induction false} RgbeEntriesAscending(textures: seq<Texture>, n: nat)
    requires n <= |textures|
    ensures forall j :: 0 <= j < |RgbeEntries(textures, n)| ==> 0 <= RgbeEntries(textures, n)[j].0 < n
    ensures Ascending(RgbeEntries(textures, n))
  {
    if n > 0 {
      RgbeEntriesAscending(textures, n - 1);
      var last := if HasRgbe(textures[n - 1]) then [(n - 1, RgbeExtension(textures[n - 1]))] else [];
      AscendingSnoc(RgbeEntries(textures, n - 1), last, n - 1);
    }
  }

  /** The texture after the loop has passed it: an RGBE texture whose id reads
      takes that id as its source; any other texture is left as it is. */
  function Sourced(t: Texture, render: JValue -> string): Texture
  {
    if HasRgbe(t) && RgbeSource(RgbeExtension(t), render).Success?
    then t.(source := Some(ImageId(RgbeSource(RgbeExtension(t), render).value, null)))
    else t
  }

  /** The textures after the first `n` have been passed. */
  function PassedTextures(textures: seq<Texture>, n: nat, render: JValue -> string): (r: seq<Texture>)
    requires n <= |textures|
    ensures |r| == |textures|
  {
    seq(|textures|, k requires 0 <= k < |textures| => if k < n then Sourced(textures[k], render) else textures[k])
  }

  /** SwapOut's texture loop: it records and re-sources exactly the textures with
      an RGBE extension, up to and including the first whose id cannot be read,
      which keeps `new ImageId()` as its source and whose exception stops the
      loop; only sources change.  (The textures, the texMap entries, the
      exception.) */
  function OutTextures(textures: seq<Texture>, render: JValue -> string)
    : (r: (seq<Texture>, seq<(int, Extension)>, Option<Exception>))
    ensures var n := RgbeFailFrom(textures, 0, render);
            && |r.0| == |textures|
            && (r.2.Some? <==> n < |textures|)
            && (r.2.Some? ==> r.2 == Some(RgbeSource(RgbeExtension(textures[n]), render).error)
                              && r.0[n] == textures[n].(source := Some(DefaultImageId)))
            && (forall k :: 0 <= k < |textures| ==> r.0[k] == textures[k].(source := r.0[k].source))
            && (forall k :: 0 <= k < n && HasRgbe(textures[k]) ==> r.0[k] == Sourced(textures[k], render))
            && (forall k :: 0 <= k < |textures| && k != n && !(k < n && HasRgbe(textures[k])) ==> r.0[k] == textures[k])
            && r.1 == RgbeEntries(textures, if n < |textures| then n + 1 else n)
  {
    var n := RgbeFailFrom(textures, 0, render);
    var passed := PassedTextures(textures, n, render);
    PassedTexturesFrame(textures, n, render);
    if n < |textures| then
      (passed[n := textures[n].(source := Some(DefaultImageId))], RgbeEntries(textures, n + 1),
       Some(RgbeSource(RgbeExtension(textures[n]), render).error))
    else (passed, RgbeEntries(textures, n), None)
  }

  /** Passing textures changes only sources: the passed RGBE textures are
      re-sourced, and every other texture is left as it is. */
  lemma PassedTexturesFrame(textures: seq<Texture>, n: nat, render: JValue -> string)
    requires n <= |textures|
    ensures var p := PassedTextures(textures, n, render);
            && (forall k :: 0 <= k < |textures| ==> p[k] == textures[k].(source := p[k].source))
            && (forall k :: 0 <= k < n && HasRgbe(textures[k]) ==> p[k] == Sourced(textures[k], render))
            && (forall k :: 0 <= k < |textures| && !(k < n && HasRgbe(textures[k])) ==> p[k] == textures[k])
  {
  }

  /** Passing one more texture changes only that one. */
  lemma PassedTexturesNext(textures: seq<Texture>, n: nat, render: JValue -> string)
    requires n < |textures|
    ensures PassedTextures(textures, n + 1, render) == PassedTextures(textures, n, render)[n := Sourced(textures[n], render)]
  {
    var next := PassedTextures(textures, n + 1, render);
    var updated := PassedTextures(textures, n, render)[n := Sourced(textures[n], render)];
    forall k | 0 <= k < |textures|
      ensures next[k] == updated[k]
    {
    }
  }

  /** OutTextures when the loop stops at `n`. */
  lemma OutTexturesStops(textures: seq<Texture>, n: nat, render: JValue -> string)
    requires n < |textures|
    requires forall k :: 0 <= k < n ==> !RgbeFails(textures[k], render)
    requires RgbeFails(textures[n], render)
    ensures OutTextures(textures, render).0 == PassedTextures(textures, n, render)[n := textures[n].(source := Some(DefaultImageId))]
    ensures OutTextures(textures, render).1 == RgbeEntries(textures, n + 1)
    ensures OutTextures(textures, render).2 == Some(RgbeSource(RgbeExtension(textures[n]), render).error)
  {
    RgbeFailFromSkip(textures, 0, n, render);
  }

  /** OutTextures when the loop runs through. */
  lemma OutTexturesCompletes(textures: seq<Texture>, render: JValue -> string)
    requires forall k :: 0 <= k < |textures| ==> !RgbeFails(textures[k], render)
    ensures OutTextures(textures, render).0 == PassedTextures(textures, |textures|, render)
    ensures OutTextures(textures, render).1 == RgbeEntries(textures, |textures|)
    ensures OutTextures(textures, render).2 == None
  {
    RgbeFailFromSkip(textures, 0, |textures|, render);
  }

  // ---------------------------------------------------------------------------
  // SwapIn.
  // ---------------------------------------------------------------------------

  /** A saved "uri|mime" split at the bars: the URI is the first segment and
      the MIME type the second. */
  function Restored(img: Image, parts: seq<string>): Image
    requires |parts| >= 2
  {
    img.(uri := Some(parts[0]), mimeType := Some(parts[1]))
  }

  /** The loop over hdrMap: `Images[key]` must exist, and the split value must
      have a second segment (the URI is assigned before that is read). */
  function InImages(images: seq<Image>, entries: seq<(int, string)>): (r: (seq<Image>, Option<Exception>))
    ensures |r.0| == |images|
    decreases |entries|
  {
    if |entries| == 0 then (images, None)
    else
      var key := entries[0].0;
      if !(0 <= key < |images|) then (images, Some(ArgumentOutOfRange(key)))
      else
        var parts := Split(entries[0].1, '|');
        if |parts| < 2 then (images[key := images[key].(uri := Some(parts[0]))], Some(IndexOutOfRange(1)))
        else InImages(images[key := Restored(images[key], parts)], entries[1..])
  }

  /** On entries with distinct keys in range whose values each have two
      segments, the loop completes and restores exactly the recorded images. */
  lemma {:induction false} InImagesRestores(images: seq<Image>, entries: seq<(int, string)>)
    requires Ascending(entries)
    requires forall j :: 0 <= j < |entries| ==> 0 <= entries[j].0 < |images| && |Split(entries[j].1, '|')| >= 2
    ensures InImages(images, entries).1.None?
    ensures forall k :: 0 <= k < |images| ==>
              InImages(images, entries).0[k] ==
                match EntryFor(entries, k)
                case None => images[k]
                case Some(v) => Restored(images[k], Split(v, '|'))
    decreases |entries|
  {
    if |entries| > 0 {
      var key := entries[0].0;
      var next := images[key := Restored(images[key], Split(entries[0].1, '|'))];
      InImagesRestores(next, entries[1..]);
      forall k | 0 <= k < |images|
        ensures EntryFor(entries, k) == if k == key then Some(entries[0].1) else EntryFor(entries[1..], k)
      {
        if k == key {
          assert forall j :: 0 <= j < |entries[1..]| ==> entries[1..][j].0 != key by {
            forall j | 0 <= j < |entries[1..]| ensures entries[1..][j].0 != key {
              assert entries[1..][j] == entries[j + 1];
            }
          }
        }
      }
    }
  }

  /** The loop over texMap: `Textures[key]` must exist, and its source is set to
      null. */
  function InTextures(textures: seq<Texture>, entries: seq<(int, Extension)>): (r: (seq<Texture>, Option<Exception>))
    ensures |r.0| == |textures|
    decreases |entries|
  {
    if |entries| == 0 then (textures, None)
    else
      var key := entries[0].0;
      if !(0 <= key < |textures|) then (textures, Some(ArgumentOutOfRange(key)))
      else InTextures(textures[key := textures[key].(source := None)], entries[1..])
  }

  /** On keys in range, exactly the recorded textures lose their source. */
  lemma {:induction false} InTexturesClears(textures: seq<Texture>, entries: seq<(int, Extension)>)
    requires forall j :: 0 <= j < |entries| ==> 0 <= entries[j].0 < |textures|
    ensures InTextures(textures, entries).1.None?
    ensures forall k :: 0 <= k < |textures| ==>
              InTextures(textures, entries).0[k] ==
                if EntryFor(entries, k).Some? then textures[k].(source := None) else textures[k]
    decreases |entries|
  {
    if |entries| > 0 {
      var key := entries[0].0;
      var next := textures[key := textures[key].(source := None)];
      InTexturesClears(next, entries[1..]);
      forall k | 0 <= k < |textures|
        ensures InTextures(textures, entries).0[k] ==
                  if EntryFor(entries, k).Some? then textures[k].(source := None) else textures[k]
      {
      }
    }
  }

  // ---------------------------------------------------------------------------
  // The round trips.
  // ---------------------------------------------------------------------------

  /** SwapIn after a completed SwapOut gives every HDR image its URI back and
      the MIME type it had up to its first bar, a null one coming back as "";
      other images are as they were.  This needs HDR URIs free of '|'. */
  lemma SwapImagesRoundTrip(images: seq<Image>, placeholder: string)
    requires forall k :: 0 <= k < |images| ==> images[k].uri.Some?
    requires forall k :: 0 <= k < |images| && IsHdr(images[k]) ==> '|' !in images[k].uri.value
    ensures var out := OutImages(images, placeholder);
            out.2.None? && InImages(out.0, out.1).1.None?
    ensures var out := OutImages(images, placeholder);
            var back := InImages(out.0, out.1).0;
            forall k :: 0 <= k < |images| ==>
              back[k] == if IsHdr(images[k]) then images[k].(mimeType := Some(Split(images[k].mimeType.GetOr(""), '|')[0]))
                         else images[k]
  {
    var out := OutImages(images, placeholder);
    NullUriFromSkip(images, 0, |images|);
    HdrEntriesDescribed(images, |images|);
    HdrEntriesAscending(images, |images|);
    forall j | 0 <= j < |out.1| ensures 0 <= out.1[j].0 < |images| && |Split(out.1[j].1, '|')| >= 2 {
      var k := out.1[j].0;
      assert EntryFor(out.1, k).Some?;
      SplitJoin(images[k].uri.value, '|', images[k].mimeType.GetOr(""));
    }
    InImagesRestores(out.0, out.1);
    forall k | 0 <= k < |images| && IsHdr(images[k])
      ensures InImages(out.0, out.1).0[k] == images[k].(mimeType := Some(Split(images[k].mimeType.GetOr(""), '|')[0]))
    {
      SplitJoin(images[k].uri.value, '|', images[k].mimeType.GetOr(""));
    }
  }

  /** SwapIn after a completed SwapOut leaves exactly the textures with an RGBE
      extension without a source, and every other texture as it was. */
  lemma SwapTexturesRoundTrip(textures: seq<Texture>, render: JValue -> string)
    requires forall k :: 0 <= k < |textures| ==> !RgbeFails(textures[k], render)
    ensures var out := OutTextures(textures, render);
            out.2.None? && InTextures(out.0, out.1).1.None?
    ensures var out := OutTextures(textures, render);
            var back := InTextures(out.0, out.1).0;
            forall k :: 0 <= k < |textures| ==>
              back[k] == if HasRgbe(textures[k]) then textures[k].(source := None) else textures[k]
  {
    var out := OutTextures(textures, render);
    RgbeFailFromSkip(textures, 0, |textures|, render);
    RgbeEntriesDescribed(textures, |textures|);
    RgbeEntriesAscending(textures, |textures|);
    forall j | 0 <= j < |out.1| ensures 0 <= out.1[j].0 < |textures| {
    }
    InTexturesClears(out.0, out.1);
  }

  class HdrSwap {
    var hdrMap: seq<(int, string)>
    var texMap: seq<(int, Extension)>

    constructor ()
      ensures hdrMap == [] && texMap == []
    {
      hdrMap, texMap := [], [];
    }

    /** SwapOut: both dictionaries are cleared, then the image loop and the
        texture loop run on the document; `placeholder` is the path of the
        bundled hdr.png and `render` is JToken.ToString. */
    method SwapOut(root: Root, placeholder: string, render: JValue -> string) returns (error: Option<Exception>)
      modifies this, root
      ensures var imgs := OutImages(old(root.images), placeholder);
              imgs.2.Some? ==> error == imgs.2 && hdrMap == imgs.1 && texMap == []
                               && root.Value() == old(root.Value()).(images := imgs.0)
      ensures var imgs := OutImages(old(root.images), placeholder);
              var texs := OutTextures(old(root.textures), render);
              imgs.2.None? ==> error == texs.2 && hdrMap == imgs.1 && texMap == texs.1
                               && root.Value() == old(root.Value()).(images := imgs.0, textures := texs.0)
    {
      hdrMap, texMap := [], [];
      error := SaveImages(root, placeholder);
      if error.Some? {
        return;
      }
      error := SaveTextures(root, render);
    }

    /** The ForEach over the images, on emptied dictionaries. */
    method SaveImages(root: Root, placeholder: string) returns (error: Option<Exception>)
      requires hdrMap == [] && texMap == []
      modifies this, root
      ensures error == OutImages(old(root.images), placeholder).2
      ensures hdrMap == OutImages(old(root.images), placeholder).1 && texMap == []
      ensures root.Value() == old(root.Value()).(images := OutImages(old(root.images), placeholder).0)
    {
      ghost var images0 := root.images;
      var i := 0;
      while i < |root.images|
        invariant i <= |root.images| == |images0|
        invariant forall k :: 0 <= k < i ==> images0[k].uri.Some?
        invariant root.images == SwappedImages(images0, i, placeholder)
        invariant hdrMap == HdrEntries(images0, i)
        invariant root.Value() == old(root.Value()).(images := root.images) && texMap == []
      {
        var image := root.images[i];
        assert image == images0[i];
        if image.uri.None? {
          NullUriFromSkip(images0, 0, i);
          return Some(NullReference("image.Uri"));
        }
        if EndsWith(image.uri.value, HdrSuffix) {
          hdrMap := hdrMap + [(i, image.uri.value + "|" + image.mimeType.GetOr(""))];
          root.images := root.images[i := image.(uri := Some(placeholder), mimeType := Some(PngMime))];
        }
        assert root.images == SwappedImages(images0, i + 1, placeholder);
        i := i + 1;
      }
      NullUriFromSkip(images0, 0, i);
      error := None;
    }

    /** The ForEach over the textures, on an emptied texMap. */
    method SaveTextures(root: Root, render: JValue -> string) returns (error: Option<Exception>)
      requires texMap == []
      modifies this, root
      ensures error == OutTextures(old(root.textures), render).2
      ensures texMap == OutTextures(old(root.textures), render).1 && hdrMap == old(hdrMap)
      ensures root.Value() == old(root.Value()).(textures := OutTextures(old(root.textures), render).0)
    {
      ghost var textures0 := root.textures;
      ghost var stop;
      error, stop := SaveTextureLoop(root, render);
      if error.Some? {
        OutTexturesStops(textures0, stop, render);
      } else {
        OutTexturesCompletes(textures0, render);
      }
    }

    /** The texture loop, described by where it stops: at the first texture
        whose id cannot be read, or after the last. */
    method SaveTextureLoop(root: Root, render: JValue -> string) returns (error: Option<Exception>, ghost stop: nat)
      requires texMap == []
      modifies this, root
      ensures stop <= |old(root.textures)|
      ensures forall k :: 0 <= k < stop ==> !RgbeFails(old(root.textures)[k], render)
      ensures hdrMap == old(hdrMap) && root.Value() == old(root.Value()).(textures := root.textures)
      ensures error.Some? ==> stop < |old(root.textures)| && RgbeFails(old(root.textures)[stop], render)
                              && error == Some(RgbeSource(RgbeExtension(old(root.textures)[stop]), render).error)
                              && texMap == RgbeEntries(old(root.textures), stop + 1)
                              && root.textures == PassedTextures(old(root.textures), stop, render)
                                                    [stop := old(root.textures)[stop].(source := Some(DefaultImageId))]
      ensures error.None? ==> stop == |old(root.textures)|
                              && texMap == RgbeEntries(old(root.textures), stop)
                              && root.textures == PassedTextures(old(root.textures), stop, render)
    {
      ghost var textures0 := root.textures;
      var i := 0;
      while i < |root.textures|
        invariant i <= |root.textures| == |textures0|
        invariant forall k :: 0 <= k < i ==> !RgbeFails(textures0[k], render)
        invariant root.textures == PassedTextures(textures0, i, render)
        invariant texMap == RgbeEntries(textures0, i) && hdrMap == old(hdrMap)
        invariant root.Value() == old(root.Value()).(textures := root.textures)
      {
        error := SaveTexture(root, textures0, i, render);
        if error.Some? {
          return error, i;
        }
        i := i + 1;
      }
      return None, i;
    }

    /** One pass of the texture loop, at texture i. */
    method SaveTexture(root: Root, ghost textures0: seq<Texture>, i: nat, render: JValue -> string)
        returns (error: Option<Exception>)
      requires i < |root.textures| == |textures0|
      requires forall k :: 0 <= k < i ==> !RgbeFails(textures0[k], render)
      requires root.textures == PassedTextures(textures0, i, render)
      requires texMap == RgbeEntries(textures0, i)
      modifies this, root
      ensures hdrMap == old(hdrMap)
      ensures root.Value() == old(root.Value()).(textures := root.textures)
      ensures error.Some? <==> RgbeFails(textures0[i], render)
      ensures error.Some? ==> error == Some(RgbeSource(RgbeExtension(textures0[i]), render).error)
                              && texMap == RgbeEntries(textures0, i + 1)
                              && root.textures == PassedTextures(textures0, i, render)[i := textures0[i].(source := Some(DefaultImageId))]
      ensures error.None? ==> root.textures == PassedTextures(textures0, i + 1, render)
                              && texMap == RgbeEntries(textures0, i + 1)
    {
      var texture := root.textures[i];
      assert texture == textures0[i];
      if texture.extensions.Some? && HasKey(texture.extensions.value, RgbeName) {
        var ext := Find(texture.extensions.value, RgbeName).value;
        texMap := texMap + [(i, ext)];
        // The source is first reset to `new ImageId()`; it is written once, on the
        // path that decides its final value.
        if !ext.Generic? {
          root.textures := root.textures[i := texture.(source := Some(DefaultImageId))];
          return Some(NullReference("ExtensionData"));
        }
        var id := ParseInt32(SourceIdMatch(render(ext.extensionData.value)));
        if id.Failure? {
          root.textures := root.textures[i := texture.(source := Some(DefaultImageId))];
          return Some(id.error);
        }
        assert RgbeSource(ext, render) == id;
        root.textures := root.textures[i := texture.(source := Some(ImageId(id.value, null)))];
        assert root.textures[i] == Sourced(texture, render);
      }
      PassedTexturesNext(textures0, i, render);
      error := None;
    }

    /** SwapIn: each saved image gets its URI and MIME type back, then each
        saved texture loses its source; the dictionaries are kept. */
    method SwapIn(root: Root) returns (error: Option<Exception>)
      modifies root
      ensures var imgs := InImages(old(root.images), hdrMap);
              imgs.1.Some? ==> error == imgs.1 && root.Value() == old(root.Value()).(images := imgs.0)
      ensures var imgs := InImages(old(root.images), hdrMap);
              var texs := InTextures(old(root.textures), texMap);
              imgs.1.None? ==> error == texs.1 && root.Value() == old(root.Value()).(images := imgs.0, textures := texs.0)
    {
      var i := 0;
      while i < |hdrMap|
        invariant i <= |hdrMap|
        invariant InImages(old(root.images), hdrMap) == InImages(root.images, hdrMap[i..])
        invariant root.Value() == old(root.Value()).(images := root.images)
      {
        var key := hdrMap[i].0;
        assert hdrMap[i..][0] == hdrMap[i] && hdrMap[i..][1..] == hdrMap[i + 1..];
        if !(0 <= key < |root.images|) {
          return Some(ArgumentOutOfRange(key));
        }
        ghost var before := root.images;
        var image := root.images[key];
        var mimeUri := Split(hdrMap[i].1, '|');
        root.images := root.images[key := image.(uri := Some(mimeUri[0]))];
        if |mimeUri| < 2 {
          return Some(IndexOutOfRange(1));
        }
        root.images := root.images[key := root.images[key].(mimeType := Some(mimeUri[1]))];
        assert root.images == before[key := Restored(image, mimeUri)];
        i := i + 1;
      }
      ghost var images1 := root.images;
      i := 0;
      while i < |texMap|
        invariant i <= |texMap|
        invariant InTextures(old(root.textures), texMap) == InTextures(root.textures, texMap[i..])
        invariant root.Value() == old(root.Value()).(images := images1, textures := root.textures)
      {
        var key := texMap[i].0;
        assert texMap[i..][0] == texMap[i] && texMap[i..][1..] == texMap[i + 1..];
        if !(0 <= key < |root.textures|) {
          return Some(ArgumentOutOfRange(key));
        }
        root.textures := root.textures[key := root.textures[key].(source := None)];
        i := i + 1;
      }
      error := None;
    }
  }
}
