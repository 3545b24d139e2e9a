/** TextureList: the panel that lists a document's textures.  PopulateFromImages
    removes every entry, orders the images by map type with ties broken by name
    (a stable OrderBy by name followed by a stable OrderBy by map type) and adds
    one entry per image in that order. */
module TextureListing {

  datatype MapType = Diffuse | Normal | Lightmap | MetalRough | Emissive | Occlusion

  /** The enum's underlying value, in declaration order. */
  function Ordinal(m: MapType): (n: nat)
    ensures n < 6
    ensures m == Diffuse <==> n == 0
  {
    match m
    case Diffuse => 0
    case Normal => 1
    case Lightmap => 2
    case MetalRough => 3
    case Emissive => 4
    case Occlusion => 5
  }

  /** Distinct map types have distinct values, so `(MapType)t` names at most
      one of them. */
  lemma OrdinalInjective(a: MapType, b: MapType)
    ensures Ordinal(a) == Ordinal(b) ==> a == b
  {
  }

  /** TextureList.Image. */
  datatype ImageInfo = ImageInfo(name: string, uri: string, imageIndex: int, mapType: MapType, toggled: bool)

  /** The fields of a TextureInstance that PopulateFromImages fills in. */
  datatype Entry = Entry(name: string, uri: string, imageIndex: int, mapType: MapType, toggled: bool)

  function EntryOf(img: ImageInfo): (e: Entry)
    ensures e.name == img.name && e.uri == img.uri && e.imageIndex == img.imageIndex
    ensures e.mapType == img.mapType && e.toggled == img.toggled
  {
    Entry(img.name, img.uri, img.imageIndex, img.mapType, img.toggled)
  }

  function Entries(images: seq<ImageInfo>): (r: seq<Entry>)
    ensures |r| == |images|
    ensures forall k :: 0 <= k < |images| ==> r[k] == EntryOf(images[k])
  {
    seq(|images|, k requires 0 <= k < |images| => EntryOf(images[k]))
  }

  /** One more image, one more entry at the end. */
  lemma EntriesSnoc(images: seq<ImageInfo>, img: ImageInfo)
    ensures Entries(images + [img]) == Entries(images) + [EntryOf(img)]
  {
    assert forall k :: 0 <= k < |images| ==> (images + [img])[k] == images[k];
  }

  // ---------------------------------------------------------------------------
  // Enumerable.OrderBy: a stable sort under a key comparison.
  // ---------------------------------------------------------------------------

  /** A key comparison `le(x, y)` ("key of x <= key of y") as Comparer.Default
      gives it: reflexive, total and transitive. */
  ghost predicate TotalPreorder<T(!new)>(le: (T, T) -> bool)
  {
    && (forall x, y :: le(x, y) || le(y, x))
    && (forall x, y, z :: le(x, y) && le(y, z) ==> le(x, z))
  }

  predicate SortedBy<T>(s: seq<T>, le: (T, T) -> bool)
  {
    forall i, j :: 0 <= i < j < |s| ==> le(s[i], s[j])
  }

  /** `x` goes before the first element whose key is not smaller, so that
      among equal keys it stays in front. */
  function Insert<T>(x: T, t: seq<T>, le: (T, T) -> bool): (r: seq<T>)
    ensures multiset(r) == multiset(t) + multiset{x}
    ensures |r| == |t| + 1
  {
    if |t| == 0 then [x]
    else if le(x, t[0]) then [x] + t
    else
      assert t == [t[0]] + t[1..];
      [t[0]] + Insert(x, t[1..], le)
  }

  function SortBy<T>(s: seq<T>, le: (T, T) -> bool): (r: seq<T>)
    ensures multiset(r) == multiset(s)
    ensures |r| == |s|
  {
    if |s| == 0 then []
    else
      assert s == [s[0]] + s[1..];
      Insert(s[0], SortBy(s[1..], le), le)
  }

  lemma {:induction false} InsertSorted<T(!new)>(x: T, t: seq<T>, le: (T, T) -> bool)
    requires TotalPreorder(le)
    requires SortedBy(t, le)
    ensures SortedBy(Insert(x, t, le), le)
    decreases |t|
  {
    if |t| > 0 && !le(x, t[0]) {
      InsertSorted(x, t[1..], le);
      var rest := Insert(x, t[1..], le);
      forall j | 0 <= j < |rest| ensures le(t[0], rest[j]) {
        assert rest[j] in multiset(rest);
        if rest[j] != x {
          assert rest[j] in multiset(t[1..]);
          var i :| 0 <= i < |t[1..]| && t[1..][i] == rest[j];
          assert t[i + 1] == rest[j];
        }
      }
    }
  }

  /** OrderBy sorts by its key. */
  lemma {:induction false} SortBySorted<T(!new)>(s: seq<T>, le: (T, T) -> bool)
    requires TotalPreorder(le)
    ensures SortedBy(SortBy(s, le), le)
    decreases |s|
  {
    if |s| > 0 {
      SortBySorted(s[1..], le);
      InsertSorted(s[0], SortBy(s[1..], le), le);
    }
  }

  /** The elements of `s` whose key equals that of `y`, in order. */
  function Tied<T>(s: seq<T>, y: T, le: (T, T) -> bool): (r: seq<T>)
    ensures |r| <= |s|
  {
    if |s| == 0 then []
    else (if le(s[0], y) && le(y, s[0]) then [s[0]] else []) + Tied(s[1..], y, le)
  }

  lemma {:induction false} TiedAppend<T>(a: seq<T>, b: seq<T>, y: T, le: (T, T) -> bool)
    ensures Tied(a + b, y, le) == Tied(a, y, le) + Tied(b, y, le)
    decreases |a|
  {
    if |a| > 0 {
      assert (a + b)[1..] == a[1..] + b;
      TiedAppend(a[1..], b, y, le);
    } else {
      assert a + b == b;
    }
  }

  /** Two elements whose keys differ are not both tied with a third. */
  lemma NotBothTied<T(!new)>(x: T, a: T, y: T, le: (T, T) -> bool)
    requires TotalPreorder(le)
    requires !le(x, a)
    ensures !(le(x, y) && le(y, x) && le(a, y) && le(y, a))
  {
  }

  lemma {:induction false} InsertTied<T(!new)>(x: T, t: seq<T>, y: T, le: (T, T) -> bool)
    requires TotalPreorder(le)
    ensures Tied(Insert(x, t, le), y, le) == Tied([x] + t, y, le)
    decreases |t|
  {
    if |t| > 0 && !le(x, t[0]) {
      var a, rest := t[0], t[1..];
      var ta, tx := Tied([a], y, le), Tied([x], y, le);
      calc {
        Tied(Insert(x, t, le), y, le);
        Tied([a] + Insert(x, rest, le), y, le);
        { TiedAppend([a], Insert(x, rest, le), y, le); }
        ta + Tied(Insert(x, rest, le), y, le);
        { InsertTied(x, rest, y, le); }
        ta + Tied([x] + rest, y, le);
        { TiedAppend([x], rest, y, le); }
        ta + (tx + Tied(rest, y, le));
        { NotBothTied(x, a, y, le); assert ta == [] || tx == []; }
        tx + (ta + Tied(rest, y, le));
        { TiedAppend([a], rest, y, le); assert [a] + rest == t; }
        tx + Tied(t, y, le);
        { TiedAppend([x], t, y, le); }
        Tied([x] + t, y, le);
      }
    }
  }

  /** OrderBy is stable: the elements with any one key keep their order. */
  lemma {:induction false} SortByStable<T(!new)>(s: seq<T>, y: T, le: (T, T) -> bool)
    requires TotalPreorder(le)
    ensures Tied(SortBy(s, le), y, le) == Tied(s, y, le)
    decreases |s|
  {
    if |s| > 0 {
      SortByStable(s[1..], y, le);
      InsertTied(s[0], SortBy(s[1..], le), y, le);
      TiedAppend([s[0]], SortBy(s[1..], le), y, le);
      TiedAppend([s[0]], s[1..], y, le);
      assert [s[0]] + s[1..] == s;
    }
  }

  // ---------------------------------------------------------------------------
  // The two-key order of PopulateFromImages.
  // ---------------------------------------------------------------------------

  /** The key comparison of `OrderBy(img => img.name)`; `nameLe` is the
      comparison of the default string comparer. */
  function ByName(nameLe: (string, string) -> bool): (le: (ImageInfo, ImageInfo) -> bool)
    ensures forall x, y :: le(x, y) == nameLe(x.name, y.name)
  {
    (x: ImageInfo, y: ImageInfo) => nameLe(x.name, y.name)
  }

  /** The key comparison of `OrderBy(img => img.mapType)`. */
  function ByMapType(): (le: (ImageInfo, ImageInfo) -> bool)
    ensures forall x, y :: le(x, y) == (Ordinal(x.mapType) <= Ordinal(y.mapType))
  {
    (x: ImageInfo, y: ImageInfo) => Ordinal(x.mapType) <= Ordinal(y.mapType)
  }

  lemma NameOrderPreorder(nameLe: (string, string) -> bool)
    requires TotalPreorder(nameLe)
    ensures TotalPreorder(ByName(nameLe))
  {
    var le := ByName(nameLe);
    forall x: ImageInfo, y: ImageInfo, z: ImageInfo | le(x, y) && le(y, z) ensures le(x, z) {
      assert nameLe(x.name, y.name) && nameLe(y.name, z.name);
    }
    forall x: ImageInfo, y: ImageInfo ensures le(x, y) || le(y, x) {
      assert nameLe(x.name, y.name) || nameLe(y.name, x.name);
    }
  }

  lemma MapTypeOrderPreorder()
    ensures TotalPreorder(ByMapType())
  {
  }

  /** The list order: `images.OrderBy(name).OrderBy(mapType)`. */
  function Ordered(images: seq<ImageInfo>, nameLe: (string, string) -> bool): (r: seq<ImageInfo>)
    ensures multiset(r) == multiset(images)
    ensures |r| == |images|
  {
    SortBy(SortBy(images, ByName(nameLe)), ByMapType())
  }

  /** Map type first, then name. */
  predicate TypeThenName(x: ImageInfo, y: ImageInfo, nameLe: (string, string) -> bool)
  {
    Ordinal(x.mapType) < Ordinal(y.mapType)
    || (x.mapType == y.mapType && nameLe(x.name, y.name))
  }

  predicate OrderedByTypeThenName(s: seq<ImageInfo>, nameLe: (string, string) -> bool)
  {
    forall i, j :: 0 <= i < j < |s| ==> TypeThenName(s[i], s[j], nameLe)
  }

  /** Inserting by map type an image whose name is no larger than any other keeps
      the two-key order. */
  lemma {:induction false} InsertTypeThenName(x: ImageInfo, t: seq<ImageInfo>, nameLe: (string, string) -> bool)
    requires OrderedByTypeThenName(t, nameLe)
    requires forall j :: 0 <= j < |t| ==> nameLe(x.name, t[j].name)
    ensures OrderedByTypeThenName(Insert(x, t, ByMapType()), nameLe)
    decreases |t|
  {
    if |t| > 0 {
      if Ordinal(x.mapType) <= Ordinal(t[0].mapType) {
        forall j | 0 <= j < |t| ensures TypeThenName(x, t[j], nameLe) {
          if j > 0 {
            assert TypeThenName(t[0], t[j], nameLe);
          }
          OrdinalInjective(x.mapType, t[j].mapType);
        }
        PrependTypeThenName(x, t, nameLe);
      } else {
        assert forall j :: 0 <= j < |t[1..]| ==> nameLe(x.name, t[1..][j].name) by {
          forall j | 0 <= j < |t[1..]| ensures nameLe(x.name, t[1..][j].name) {
            assert t[1..][j] == t[j + 1];
          }
        }
        TailTypeThenName(t, nameLe);
        InsertTypeThenName(x, t[1..], nameLe);
        var rest := Insert(x, t[1..], ByMapType());
        forall j | 0 <= j < |rest| ensures TypeThenName(t[0], rest[j], nameLe) {
          assert rest[j] in multiset(rest);
          if rest[j] != x {
            assert rest[j] in multiset(t[1..]);
            var i :| 0 <= i < |t[1..]| && t[1..][i] == rest[j];
            assert t[i + 1] == rest[j];
          }
        }
        PrependTypeThenName(t[0], rest, nameLe);
      }
    }
  }

  /** An image ordered before every element of an ordered sequence can head it. */
  lemma PrependTypeThenName(a: ImageInfo, rest: seq<ImageInfo>, nameLe: (string, string) -> bool)
    requires OrderedByTypeThenName(rest, nameLe)
    requires forall j :: 0 <= j < |rest| ==> TypeThenName(a, rest[j], nameLe)
    ensures OrderedByTypeThenName([a] + rest, nameLe)
  {
    var r := [a] + rest;
    forall i, j | 0 <= i < j < |r| ensures TypeThenName(r[i], r[j], nameLe) {
      if i > 0 {
        assert r[i] == rest[i - 1] && r[j] == rest[j - 1];
      }
    }
  }

  /** The tail of an ordered sequence is ordered. */
  lemma TailTypeThenName(t: seq<ImageInfo>, nameLe: (string, string) -> bool)
    requires |t| > 0 && OrderedByTypeThenName(t, nameLe)
    ensures OrderedByTypeThenName(t[1..], nameLe)
  {
    forall i, j | 0 <= i < j < |t[1..]| ensures TypeThenName(t[1..][i], t[1..][j], nameLe) {
      assert t[1..][i] == t[i + 1] && t[1..][j] == t[j + 1];
    }
  }

  /** Sorting a name-ordered sequence by map type gives the two-key order. */
  lemma {:induction false} SortByTypeOfNameOrdered(s: seq<ImageInfo>, nameLe: (string, string) -> bool)
    requires SortedBy(s, ByName(nameLe))
    ensures OrderedByTypeThenName(SortBy(s, ByMapType()), nameLe)
    decreases |s|
  {
    if |s| > 0 {
      assert SortedBy(s[1..], ByName(nameLe)) by {
        forall i, j | 0 <= i < j < |s[1..]| ensures ByName(nameLe)(s[1..][i], s[1..][j]) {
          assert s[1..][i] == s[i + 1] && s[1..][j] == s[j + 1];
        }
      }
      SortByTypeOfNameOrdered(s[1..], nameLe);
      var t := SortBy(s[1..], ByMapType());
      forall j | 0 <= j < |t| ensures nameLe(s[0].name, t[j].name) {
        assert t[j] in multiset(t);
        assert t[j] in multiset(s[1..]);
        var i :| 0 <= i < |s[1..]| && s[1..][i] == t[j];
        assert s[i + 1] == t[j];
        assert ByName(nameLe)(s[0], s[i + 1]);
      }
      InsertTypeThenName(s[0], t, nameLe);
    }
  }

  /** The listed order: by map type, and by name within a map type. */
  lemma OrderedIsTypeThenName(images: seq<ImageInfo>, nameLe: (string, string) -> bool)
    requires TotalPreorder(nameLe)
    ensures OrderedByTypeThenName(Ordered(images, nameLe), nameLe)
  {
    NameOrderPreorder(nameLe);
    SortBySorted(images, ByName(nameLe));
    SortByTypeOfNameOrdered(SortBy(images, ByName(nameLe)), nameLe);
  }

  class TextureList {
    var textureList: seq<Entry>

    constructor ()
      ensures textureList == []
    {
      textureList := [];
    }

    /** PopulateFromImages: the old entries are removed from the back, then one
        entry per ordered image is added; `nameLe` is the default string
        comparison. */
    method PopulateFromImages(images: seq<ImageInfo>, nameLe: (string, string) -> bool)
      modifies this
      ensures textureList == Entries(Ordered(images, nameLe))
    {
      var i := |textureList|;
      while i > 0
        invariant 0 <= i <= |old(textureList)|
        invariant textureList == old(textureList)[..i]
      {
        assert textureList[i..] == [] && old(textureList)[..i][..i - 1] == old(textureList)[..i - 1];
        textureList := textureList[..i - 1] + textureList[i..];
        i := i - 1;
      }
      var orderedImages := Ordered(images, nameLe);
      i := 0;
      while i < |orderedImages|
        invariant i <= |orderedImages|
        invariant textureList == Entries(orderedImages[..i])
      {
        assert orderedImages[..i + 1] == orderedImages[..i] + [orderedImages[i]];
        EntriesSnoc(orderedImages[..i], orderedImages[i]);
        textureList := textureList + [EntryOf(orderedImages[i])];
        i := i + 1;
      }
      assert orderedImages[..i] == orderedImages;
    }

    /** ToggleGroups reads the map type and does nothing with it.  The method
        has no modifies clause, so its frame alone already keeps the list: the
        ensures records that nothing changes rather than proving it. */
    method ToggleGroups(toggle: int)
      ensures textureList == old(textureList)
    {
    }
  }

  /** The rebuilt list: one entry per image, each the image at its ordered
      position, in the two-key order, the images rearranged and none lost. */
  lemma PopulateDescribed(images: seq<ImageInfo>, nameLe: (string, string) -> bool)
    requires TotalPreorder(nameLe)
    ensures var list := Entries(Ordered(images, nameLe));
            && |list| == |images|
            && multiset(Ordered(images, nameLe)) == multiset(images)
            && (forall k :: 0 <= k < |list| ==> list[k] == EntryOf(Ordered(images, nameLe)[k]))
            && OrderedByTypeThenName(Ordered(images, nameLe), nameLe)
  {
    OrderedIsTypeThenName(images, nameLe);
  }
}
