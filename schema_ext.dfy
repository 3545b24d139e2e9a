/** The integer-array, element-array and matrix helpers of UnityGLTF's
    SchemaExtensions: rewinding triangle indices, the unsigned-to-signed index copy,
    the per-element conversion loops (into a fresh array or into an existing one at
    an offset) and the glTF-to-Unity matrix field mapping.  Arrays stay arrays and
    are changed in place where the C# changes them; the element conversions
    themselves (field-for-field copies between the glTF and Unity vector, colour
    and matrix structs) are a parameter. */
module SchemaExt {
  import opened Wrappers
  import opened Exceptions

  // ---------------------------------------------------------------------------
  // Triangle winding
  // ---------------------------------------------------------------------------

  /** The index sequence with the first and third index of every complete triple
      exchanged; a trailing partial triple is left as it is. */
  function Rewound(s: seq<int>): (r: seq<int>)
    ensures |r| == |s|
    decreases |s|
  {
    if |s| < 3 then s else [s[2], s[1], s[0]] + Rewound(s[3..])
  }

  /** Rewinding works triple by triple, so it distributes over a split at a
      multiple of three. */
  lemma {:induction false} RewoundAppend(a: seq<int>, b: seq<int>)
    requires |a| % 3 == 0
    ensures Rewound(a + b) == Rewound(a) + Rewound(b)
    decreases |a|
  {
    if |a| == 0 {
      assert a + b == b;
    } else {
      assert (a + b)[3..] == a[3..] + b;
      RewoundAppend(a[3..], b);
    }
  }

  /** Inside complete triple t the two outer indices change places and the middle
      one stays. */
  lemma {:induction false} RewoundTriple(s: seq<int>, t: nat, j: nat)
    requires 3 * t + 3 <= |s| && j < 3
    ensures Rewound(s)[3 * t + j] == s[3 * t + 2 - j]
    decreases t
  {
    if t > 0 {
      RewoundTriple(s[3..], t - 1, j);
      assert Rewound(s)[3 * t + j] == Rewound(s[3..])[3 * (t - 1) + j];
    }
  }

  /** Past the last complete triple t nothing moves. */
  lemma {:induction false} RewoundTail(s: seq<int>, t: nat, k: int)
    requires 3 * t <= k < |s| < 3 * t + 3
    ensures Rewound(s)[k] == s[k]
    decreases t
  {
    if t > 0 {
      RewoundTail(s[3..], t - 1, k - 3);
      assert Rewound(s)[k] == Rewound(s[3..])[k - 3];
    }
  }

  /** Rewinding twice restores the original winding. */
  lemma {:induction false} RewoundInvolution(s: seq<int>)
    ensures Rewound(Rewound(s)) == s
    decreases |s|
  {
    if |s| >= 3 {
      var t := Rewound(s[3..]);
      var once := [s[2], s[1], s[0]] + t;
      assert once[3..] == t;
      RewoundInvolution(s[3..]);
      assert s == [s[0], s[1], s[2]] + s[3..];
    }
  }

  /** Rewinding permutes the indices: every index value occurs as often as before. */
  lemma {:induction false} RewoundPermutation(s: seq<int>)
    ensures multiset(Rewound(s)) == multiset(s)
    decreases |s|
  {
    if |s| >= 3 {
      RewoundPermutation(s[3..]);
      assert s == [s[0], s[1], s[2]] + s[3..];
    }
  }

  /** Rewinds the triangle index array in place.  When the length is not a multiple
      of three, every complete triple has been rewound when reading the third index
      of the partial one fails; that last triple is untouched. */
  method FlipTriangleFaces(indices: array<int>) returns (error: Option<Exception>)
    modifies indices
    ensures indices[..] == Rewound(old(indices[..]))
    ensures error.None? <==> indices.Length % 3 == 0
    ensures error.Some? ==> error == Some(IndexOutOfRange(indices.Length - indices.Length % 3 + 2))
  {
    ghost var original := indices[..];
    var i := 0;
    while i < indices.Length
      invariant 0 <= i <= indices.Length && i % 3 == 0
      invariant indices[..] == Rewound(original[..i]) + original[i..]
    {
      if i + 2 >= indices.Length {
        RewindRest(original, i);
        PartialTriple(indices.Length, i);
        error := Some(IndexOutOfRange(i + 2));
        return;
      }
      ghost var before := indices[..];
      var temp := indices[i];
      indices[i] := indices[i + 2];
      indices[i + 2] := temp;
      assert indices[..] == before[i := before[i + 2]][i + 2 := before[i]];
      RewindStep(original, before, i);
      i := i + 3;
    }
    assert original[..i] == original;
    error := None;
  }

  /** One step of the loop: exchanging the outer elements of the triple at i
      extends the rewound prefix by that triple. */
  lemma RewindStep(original: seq<int>, before: seq<int>, i: int)
    requires 0 <= i && i + 3 <= |original| && i % 3 == 0
    requires before == Rewound(original[..i]) + original[i..]
    ensures (i + 3) % 3 == 0
    ensures before[i := before[i + 2]][i + 2 := before[i]] == Rewound(original[..i + 3]) + original[i + 3..]
  {
    var triple := original[i..i + 3];
    assert original[..i + 3] == original[..i] + triple;
    RewoundAppend(original[..i], triple);
    assert Rewound(triple) == [original[i + 2], original[i + 1], original[i]];
    assert before[i := before[i + 2]][i + 2 := before[i]] == before[..i] + Rewound(triple) + before[i + 3..];
  }

  /** When fewer than three indices remain, the rewound prefix and the untouched rest
      already make up the whole rewound sequence. */
  lemma RewindRest(original: seq<int>, i: int)
    requires 0 <= i <= |original| < i + 3 && i % 3 == 0
    ensures Rewound(original[..i]) + original[i..] == Rewound(original)
  {
    assert original == original[..i] + original[i..];
    RewoundAppend(original[..i], original[i..]);
  }

  /** A loop position at a multiple of three with fewer than three indices left is
      the start of the trailing partial triple. */
  lemma PartialTriple(length: int, i: int)
    requires 0 <= i < length <= i + 2 && i % 3 == 0
    ensures length % 3 != 0 && i == length - length % 3
  {
  }

  // ---------------------------------------------------------------------------
  // Unsigned to signed indices
  // ---------------------------------------------------------------------------

  const IntMax: int := 0x7FFF_FFFF

  /** A .NET uint. */
  type UInt32 = n: int | 0 <= n < 0x1_0000_0000

  /** The unchecked C# cast (int)u: the same 32 bits read as two's complement. */
  function ToInt32(u: UInt32): (r: int)
    ensures -0x8000_0000 <= r <= IntMax
    ensures r % 0x1_0000_0000 == u
    ensures u <= IntMax <==> r == u
  {
    if u <= IntMax then u else u - 0x1_0000_0000
  }

  /** The cast loses nothing: two different uints never give the same int. */
  lemma ToInt32Injective(u: UInt32, v: UInt32)
    requires ToInt32(u) == ToInt32(v)
    ensures u == v
  {
  }

  /** Copies a uint index array into a fresh int array.  The check that every value
      fits an int only logs, so a value above int.MaxValue wraps to a negative int. */
  method ToIntArrayRaw(uintArr: array<UInt32>) returns (intArr: array<int>)
    ensures fresh(intArr)
    ensures intArr.Length == uintArr.Length
    ensures forall i :: 0 <= i < uintArr.Length ==> intArr[i] == ToInt32(uintArr[i])
    ensures (forall i :: 0 <= i < uintArr.Length ==> uintArr[i] <= IntMax) ==>
              forall i :: 0 <= i < uintArr.Length ==> intArr[i] == uintArr[i]
  {
    intArr := new int[uintArr.Length];
    for i := 0 to uintArr.Length
      invariant forall j :: 0 <= j < i ==> intArr[j] == ToInt32(uintArr[j])
    {
      var uintVal := uintArr[i];
      intArr[i] := ToInt32(uintVal);
    }
  }

  // ---------------------------------------------------------------------------
  // Element-array conversions
  // ---------------------------------------------------------------------------

  /** Converts every element into a fresh array of the same length. */
  method ConvertArray<A, B(0)>(inArr: array<A>, convert: A -> B) returns (outArr: array<B>)
    ensures fresh(outArr)
    ensures outArr.Length == inArr.Length
    ensures forall i :: 0 <= i < inArr.Length ==> outArr[i] == convert(inArr[i])
  {
    outArr := new B[inArr.Length];
    for i := 0 to inArr.Length
      invariant forall j :: 0 <= j < i ==> outArr[j] == convert(inArr[j])
    {
      outArr[i] := convert(inArr[i]);
    }
  }

  /** How many leading elements the offset copy stores before its first index
      falls outside the destination. */
  function Stored(srcLength: nat, dstLength: nat, offset: int): (n: nat)
    ensures n <= srcLength
    ensures n > 0 ==> 0 <= offset && offset + n <= dstLength
    ensures n < srcLength ==> offset + n < 0 || offset + n >= dstLength
  {
    if offset < 0 || offset >= dstLength then 0
    else if srcLength <= dstLength - offset then srcLength
    else dstLength - offset
  }

  /** Every element is stored when the source is empty or the whole window
      [offset, offset + length) lies inside the destination, and only then. */
  lemma StoredAll(srcLength: nat, dstLength: nat, offset: int)
    ensures Stored(srcLength, dstLength, offset) == srcLength <==>
              srcLength == 0 || (0 <= offset && offset + srcLength <= dstLength)
  {
  }

  /** Converts inArr element by element into outArr starting at offset.  Exactly the
      window that was written changes; when an index falls outside outArr the copy
      stops there with IndexOutOfRange, keeping the elements already stored. */
  method ConvertInto<A, B>(inArr: array<A>, outArr: array<B>, offset: int, convert: A -> B)
      returns (error: Option<Exception>)
    requires inArr as object != outArr as object
    modifies outArr
    ensures var n := Stored(inArr.Length, outArr.Length, offset);
      forall k :: 0 <= k < outArr.Length ==>
        outArr[k] == if offset <= k < offset + n then convert(inArr[k - offset]) else old(outArr[k])
    ensures error.None? <==> Stored(inArr.Length, outArr.Length, offset) == inArr.Length
    ensures error.Some? ==> error == Some(IndexOutOfRange(offset + Stored(inArr.Length, outArr.Length, offset)))
  {
    var i := 0;
    while i < inArr.Length
      invariant 0 <= i <= inArr.Length
      invariant i <= Stored(inArr.Length, outArr.Length, offset)
      invariant forall k :: 0 <= k < outArr.Length ==>
        outArr[k] == if offset <= k < offset + i then convert(inArr[k - offset]) else old(outArr[k])
    {
      if offset + i < 0 || offset + i >= outArr.Length {
        error := Some(IndexOutOfRange(offset + i));
        return;
      }
      outArr[offset + i] := convert(inArr[i]);
      i := i + 1;
    }
    error := None;
  }

  // ---------------------------------------------------------------------------
  // Matrices
  // ---------------------------------------------------------------------------

  /** A four-component vector; the glTF and Unity Vector4 structs have the same
      four fields, and the raw conversion between them copies each one. */
  datatype Vector4 = Vector4(x: real, y: real, z: real, w: real)

  /** glTF's matrix: Mrc is row r, column c, counted from 1. */
  datatype GltfMatrix = GltfMatrix(
    m11: real, m12: real, m13: real, m14: real,
    m21: real, m22: real, m23: real, m24: real,
    m31: real, m32: real, m33: real, m34: real,
    m41: real, m42: real, m43: real, m44: real)

  /** Unity's matrix: mrc is row r, column c, counted from 0. */
  datatype UnityMatrix = UnityMatrix(
    m00: real, m01: real, m02: real, m03: real,
    m10: real, m11: real, m12: real, m13: real,
    m20: real, m21: real, m22: real, m23: real,
    m30: real, m31: real, m32: real, m33: real)

  /** Component i of a vector, counted from 0. */
  function Component(v: Vector4, i: nat): real
    requires i < 4
  {
    if i == 0 then v.x else if i == 1 then v.y else if i == 2 then v.z else v.w
  }

  /** Entry (row, col) of a glTF matrix, both counted from 1. */
  function Entry(m: GltfMatrix, row: nat, col: nat): real
    requires 1 <= row <= 4 && 1 <= col <= 4
  {
    match (row, col)
    case (1, 1) => m.m11 case (1, 2) => m.m12 case (1, 3) => m.m13 case (1, 4) => m.m14
    case (2, 1) => m.m21 case (2, 2) => m.m22 case (2, 3) => m.m23 case (2, 4) => m.m24
    case (3, 1) => m.m31 case (3, 2) => m.m32 case (3, 3) => m.m33 case (3, 4) => m.m34
    case (4, 1) => m.m41 case (4, 2) => m.m42 case (4, 3) => m.m43 case _ => m.m44
  }

  /** Entry (row, col) of a Unity matrix, both counted from 0. */
  function UnityEntry(u: UnityMatrix, row: nat, col: nat): real
    requires row < 4 && col < 4
  {
    match (row, col)
    case (0, 0) => u.m00 case (0, 1) => u.m01 case (0, 2) => u.m02 case (0, 3) => u.m03
    case (1, 0) => u.m10 case (1, 1) => u.m11 case (1, 2) => u.m12 case (1, 3) => u.m13
    case (2, 0) => u.m20 case (2, 1) => u.m21 case (2, 2) => u.m22 case (2, 3) => u.m23
    case (3, 0) => u.m30 case (3, 1) => u.m31 case (3, 2) => u.m32 case _ => u.m33
  }

  /** Column columnNum (from 0) of a glTF matrix; any other number throws. */
  function GetColumn(mat: GltfMatrix, columnNum: nat): (r: Result<Vector4, Exception>)
    ensures r.Success? <==> columnNum <= 3
    ensures r.Success? ==> forall i :: 0 <= i < 4 ==> Component(r.value, i) == Entry(mat, i + 1, columnNum + 1)
    ensures r.Failure? ==> r.error == Plain("column num is out of bounds")
  {
    match columnNum
    case 0 => Success(Vector4(mat.m11, mat.m21, mat.m31, mat.m41))
    case 1 => Success(Vector4(mat.m12, mat.m22, mat.m32, mat.m42))
    case 2 => Success(Vector4(mat.m13, mat.m23, mat.m33, mat.m43))
    case 3 => Success(Vector4(mat.m14, mat.m24, mat.m34, mat.m44))
    case _ => Failure(Plain("column num is out of bounds"))
  }

  /** Unity's Matrix4x4.GetColumn. */
  function UnityColumn(u: UnityMatrix, col: nat): (v: Vector4)
    requires col < 4
    ensures forall i :: 0 <= i < 4 ==> Component(v, i) == UnityEntry(u, i, col)
  {
    if col == 0 then Vector4(u.m00, u.m10, u.m20, u.m30)
    else if col == 1 then Vector4(u.m01, u.m11, u.m21, u.m31)
    else if col == 2 then Vector4(u.m02, u.m12, u.m22, u.m32)
    else Vector4(u.m03, u.m13, u.m23, u.m33)
  }

  /** Unity's Matrix4x4.SetColumn: column col becomes v, the other columns stay. */
  function SetColumn(u: UnityMatrix, col: nat, v: Vector4): (r: UnityMatrix)
    requires col < 4
    ensures UnityColumn(r, col) == v
    ensures forall c :: 0 <= c < 4 && c != col ==> UnityColumn(r, c) == UnityColumn(u, c)
  {
    if col == 0 then u.(m00 := v.x, m10 := v.y, m20 := v.z, m30 := v.w)
    else if col == 1 then u.(m01 := v.x, m11 := v.y, m21 := v.z, m31 := v.w)
    else if col == 2 then u.(m02 := v.x, m12 := v.y, m22 := v.z, m32 := v.w)
    else u.(m03 := v.x, m13 := v.y, m23 := v.z, m33 := v.w)
  }

  /** The field-by-field conversion: Unity's m(r)(c) takes glTF's M(r+1)(c+1). */
  function ToUnityMatrix4x4(matrix: GltfMatrix): (r: UnityMatrix)
    ensures forall n :: 0 <= n < 4 ==> GetColumn(matrix, n) == Success(UnityColumn(r, n))
  {
    UnityMatrix(
      matrix.m11, matrix.m12, matrix.m13, matrix.m14,
      matrix.m21, matrix.m22, matrix.m23, matrix.m24,
      matrix.m31, matrix.m32, matrix.m33, matrix.m34,
      matrix.m41, matrix.m42, matrix.m43, matrix.m44)
  }

  /** The conversion keeps every entry in place: rows and columns only shift from
      counting from 1 to counting from 0. */
  lemma ToUnityMatrix4x4Entries(matrix: GltfMatrix)
    ensures forall row, col :: 0 <= row < 4 && 0 <= col < 4 ==>
              UnityEntry(ToUnityMatrix4x4(matrix), row, col) == Entry(matrix, row + 1, col + 1)
  {
    var u := ToUnityMatrix4x4(matrix);
    forall row, col | 0 <= row < 4 && 0 <= col < 4
      ensures UnityEntry(u, row, col) == Entry(matrix, row + 1, col + 1)
    {
      assert row == 0 || row == 1 || row == 2 || row == 3;
      assert col == 0 || col == 1 || col == 2 || col == 3;
    }
  }

  /** Two glTF matrices with the same Unity conversion are the same matrix. */
  lemma ToUnityMatrix4x4Injective(a: GltfMatrix, b: GltfMatrix)
    requires ToUnityMatrix4x4(a) == ToUnityMatrix4x4(b)
    ensures a == b
  {
  }

  /** Column n of the glTF matrix is column n of its Unity conversion. */
  lemma GetColumnOfUnity(matrix: GltfMatrix, n: nat)
    requires n < 4
    ensures GetColumn(matrix, n) == Success(UnityColumn(ToUnityMatrix4x4(matrix), n))
  {
  }

  /** The column-by-column conversion: each glTF column, copied into a Unity
      Vector4, is set as the same column of a zero Unity matrix. */
  function ToUnityMatrix4x4Raw(gltfMat: GltfMatrix): (r: UnityMatrix)
    ensures forall n :: 0 <= n < 4 ==> Success(UnityColumn(r, n)) == GetColumn(gltfMat, n)
  {
    var col0 := GetColumn(gltfMat, 0).value;
    var col1 := GetColumn(gltfMat, 1).value;
    var col2 := GetColumn(gltfMat, 2).value;
    var col3 := GetColumn(gltfMat, 3).value;
    var zero := UnityMatrix(0.0, 0.0, 0.0, 0.0, 0.0, 0.0, 0.0, 0.0, 0.0, 0.0, 0.0, 0.0, 0.0, 0.0, 0.0, 0.0);
    SetColumn(SetColumn(SetColumn(SetColumn(zero, 0, col0), 1, col1), 2, col2), 3, col3)
  }

  /** The column-by-column and the field-by-field conversions agree on every matrix. */
  lemma RawConversionAgrees(gltfMat: GltfMatrix)
    ensures ToUnityMatrix4x4Raw(gltfMat) == ToUnityMatrix4x4(gltfMat)
  {
  }
}
