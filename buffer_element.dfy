/**
 * The renderer's vertex attribute types: for each shader data type, its
 * size in bytes and its number of components.
 */
module ShelterBuffer {

  datatype DataType =
    | Boolean
    | I8 | U8
    | I16 | U16
    | I32 | U32 | P32
    | I64 | U64 | P64
    | F16 | F32 | F64
    | Vec2 | Vec3 | Vec4
    | IVec2 | IVec3 | IVec4
    | DVec2 | DVec3 | DVec4
    | Mat2 | Mat3 | Mat4

  /** Vectors of 32-bit floats or integers. */
  predicate IsSingleVector(t: DataType)
  {
    t.Vec2? || t.Vec3? || t.Vec4? || t.IVec2? || t.IVec3? || t.IVec4?
  }

  /** Vectors of 64-bit floats. */
  predicate IsDoubleVector(t: DataType)
  {
    t.DVec2? || t.DVec3? || t.DVec4?
  }

  /** Square matrices of 32-bit floats. */
  predicate IsMatrix(t: DataType)
  {
    t.Mat2? || t.Mat3? || t.Mat4?
  }

  /** The types the size table has no entry for. */
  predicate IsUnsized(t: DataType)
  {
    t.Boolean? || t.I64? || t.U64? || t.P64?
  }

  /** `type_size`: the bytes one attribute of type `t` takes; 0 for a type without an entry. */
  function TypeSize(t: DataType): (n: nat)
    ensures n == 0 <==> IsUnsized(t)
    ensures n <= 64 && (n < 4 || n % 4 == 0)
    ensures IsMatrix(t) ==> n >= 16
  {
    match t
    case I8 | U8 => 1
    case I16 | U16 | F16 => 2
    case I32 | U32 | P32 | F32 => 4
    case F64 => 8
    case IVec2 | Vec2 => 4 * 2
    case IVec3 | Vec3 => 4 * 3
    case IVec4 | Vec4 => 4 * 4
    case DVec2 => 8 * 2
    case DVec3 => 8 * 3
    case DVec4 => 8 * 4
    case Mat2 => 4 * 2 * 2
    case Mat3 => 4 * 3 * 3
    case Mat4 => 4 * 4 * 4
    case _ => 0
  }

  /** `component_count`: how many scalars an attribute of type `t` holds; 1 for a scalar. */
  function ComponentCount(t: DataType): (c: int)
    ensures 1 <= c <= 16
    ensures c > 1 <==> IsSingleVector(t) || IsDoubleVector(t) || IsMatrix(t)
  {
    match t
    case Vec2 | IVec2 | DVec2 => 2
    case Vec3 | IVec3 | DVec3 => 3
    case Vec4 | IVec4 | DVec4 => 4
    case Mat2 => 2 * 2
    case Mat3 => 3 * 3
    case Mat4 => 4 * 4
    case _ => 1
  }

  /**
   * The two tables agree: a vector or matrix takes four bytes per
   * component, eight for a vector of doubles.
   */
  lemma SizeByComponents(t: DataType)
    ensures IsSingleVector(t) || IsMatrix(t) ==> TypeSize(t) == 4 * ComponentCount(t)
    ensures IsDoubleVector(t) ==> TypeSize(t) == 8 * ComponentCount(t)
    ensures ComponentCount(t) == 1 ==> TypeSize(t) <= 8
  {
  }

  /** A matrix has as many columns as rows: its component count is a square. */
  lemma MatrixIsSquare(t: DataType)
    requires IsMatrix(t)
    ensures exists k :: 2 <= k <= 4 && ComponentCount(t) == k * k
  {
    match t
    case Mat2 => assert ComponentCount(t) == 2 * 2;
    case Mat3 => assert ComponentCount(t) == 3 * 3;
    case Mat4 => assert ComponentCount(t) == 4 * 4;
  }
}
