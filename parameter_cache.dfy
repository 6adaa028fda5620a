/**
 * The uniform cache-entry packer of the GL back end
 * (dp/rix/gl/src/ParameterCacheEntryStreamBuffer.cpp).
 *
 * A container holds parameter values contiguously; a GL program wants each
 * uniform at its own offset inside a uniform cache, with its own array and
 * matrix strides. One CacheEntryMatrix per uniform records that layout and
 * copies (and, for narrow integers, widens) the container's elements into
 * the cache.
 *
 * Element values are only copied or integer-converted, never computed on,
 * so a float is an opaque 32-bit pattern here.  The cache is an array with
 * one slot per destination element: byte position p of the source is slot
 * p / sizeof(DestType), which is why Update asks for aligned offsets and
 * strides (lemma SlotBytePosition turns slots back into byte positions).
 */
module ParameterCache {
  import opened Common

  // ------------------------------------------------------------------
  // Scalars

  /** The element types a container stores and a uniform cache receives. */
  datatype ScalarType = Float32 | Int8 | Int16 | Int32 | Int64 | UInt32 | UInt64

  /** `sizeof` of an element type, in bytes. */
  function SizeOf(t: ScalarType): (bytes: nat)
    ensures bytes > 0
  {
    match t
    case Float32 => 4
    case Int8 => 1
    case Int16 => 2
    case Int32 => 4
    case Int64 => 8
    case UInt32 => 4
    case UInt64 => 8
  }

  predicate IsSigned(t: ScalarType) {
    t.Int8? || t.Int16? || t.Int32? || t.Int64?
  }

  /** 2 to the number of bits of a type. */
  function Modulus(t: ScalarType): nat
  {
    match t
    case Int8 => 0x100
    case Int16 => 0x1_0000
    case Int32 | UInt32 | Float32 => 0x1_0000_0000
    case Int64 | UInt64 => 0x1_0000_0000_0000_0000
  }

  /** The least value of an integer type. */
  function MinOf(t: ScalarType): int
  {
    if IsSigned(t) then -(Modulus(t) / 2) else 0
  }

  /** The greatest value of an integer type. */
  function MaxOf(t: ScalarType): int
  {
    if IsSigned(t) then Modulus(t) / 2 - 1 else Modulus(t) - 1
  }

  /** The 32-bit pattern of a float, as an unsigned number. */
  newtype Bits32 = x: int | 0 <= x < 0x1_0000_0000

  /** One element: an integer value, or the bit pattern of a float. */
  datatype Scalar = IntValue(v: int) | FloatValue(bits: Bits32)

  predicate HasType(x: Scalar, t: ScalarType) {
    if t == Float32 then x.FloatValue? else x.IntValue? && MinOf(t) <= x.v <= MaxOf(t)
  }

  /** Both floating point or both integer: the only pairs the packer converts between. */
  predicate Convertible(source: ScalarType, dest: ScalarType) {
    (source == Float32) == (dest == Float32)
  }

  /**
   * The implicit C++ conversion `*cacheData = *containerData`: a float is
   * copied as it is, an integer is reduced modulo 2^bits into the range of
   * the destination type.
   */
  function Convert(x: Scalar, source: ScalarType, dest: ScalarType): (y: Scalar)
    requires HasType(x, source) && Convertible(source, dest)
    ensures HasType(y, dest)
  {
    if dest == Float32 then x
    else
      var w := x.v % Modulus(dest);
      IntValue(if w > MaxOf(dest) then w - Modulus(dest) else w)
  }

  /**
   * The destination is at least as wide as the source, and a signed
   * destination can hold every value of the source.
   */
  predicate Widening(source: ScalarType, dest: ScalarType) {
    && Convertible(source, dest)
    && SizeOf(source) <= SizeOf(dest)
    && (IsSigned(dest) && !IsSigned(source) ==> SizeOf(source) < SizeOf(dest))
  }

  /**
   * A widening conversion keeps every value, except that a negative value
   * stored into an unsigned destination wraps to value + 2^bits (an int8_t
   * of -1 becomes the uint32_t 0xFFFFFFFF).
   */
  lemma ConvertWidening(x: Scalar, source: ScalarType, dest: ScalarType)
    requires HasType(x, source) && Widening(source, dest)
    ensures Convert(x, source, dest)
         == if dest == Float32 || IsSigned(dest) || x.v >= 0 then x else IntValue(x.v + Modulus(dest))
  {
    if dest != Float32 {
      var M: int := Modulus(dest);
      assert MinOf(source) >= -(M / 2) && MaxOf(source) < M;
      if x.v >= 0 {
        assert x.v % M == x.v;
      } else {
        assert x.v + M >= 0 && x.v + M < M;
        assert x.v % M == x.v + M;
      }
    }
  }

  // ------------------------------------------------------------------
  // The type-to-shape table of createParameterCacheEntryStreamBuffer

  /** n rows of m columns, read as `source` elements and written as `dest` elements. */
  datatype Shape = Shape(n: nat, m: nat, source: ScalarType, dest: ScalarType)

  /** dp::rix::core::ContainerParameterType; Unsupported stands for every enumerator the table has no case for. */
  datatype ContainerParameterType =
    | FLOAT | FLOAT2 | FLOAT3 | FLOAT4
    | INT_8 | INT2_8 | INT3_8 | INT4_8
    | INT_16 | INT2_16 | INT3_16 | INT4_16
    | INT_32 | INT2_32 | INT3_32 | INT4_32
    | INT_64 | INT2_64 | INT3_64 | INT4_64
    | UINT_8 | UINT2_8 | UINT3_8 | UINT4_8
    | UINT_16 | UINT2_16 | UINT3_16 | UINT4_16
    | UINT_32 | UINT2_32 | UINT3_32 | UINT4_32
    | UINT_64 | UINT2_64 | UINT3_64 | UINT4_64
    | BOOL | BOOL2 | BOOL3 | BOOL4
    | MAT2X2 | MAT2X3 | MAT2X4
    | MAT3X2 | MAT3X3 | MAT3X4
    | MAT4X2 | MAT4X3 | MAT4X4
    | Unsupported(code: nat)

  /** The CacheEntryMatrix<n, m, SourceType, DestType> instantiation the switch picks; None for the default case. */
  function ShapeOf(t: ContainerParameterType): Option<Shape>
  {
    match t
    case FLOAT => Some(Shape(1, 1, Float32, Float32))
    case FLOAT2 => Some(Shape(1, 2, Float32, Float32))
    case FLOAT3 => Some(Shape(1, 3, Float32, Float32))
    case FLOAT4 => Some(Shape(1, 4, Float32, Float32))
    case INT_8 => Some(Shape(1, 1, Int8, Int32))
    case INT2_8 => Some(Shape(1, 2, Int8, Int32))
    case INT3_8 => Some(Shape(1, 3, Int8, Int32))
    case INT4_8 => Some(Shape(1, 4, Int8, Int32))
    case INT_16 => Some(Shape(1, 1, Int16, Int32))
    case INT2_16 => Some(Shape(1, 2, Int16, Int32))
    case INT3_16 => Some(Shape(1, 3, Int16, Int32))
    case INT4_16 => Some(Shape(1, 4, Int16, Int32))
    case INT_32 => Some(Shape(1, 1, Int32, Int32))
    case INT2_32 => Some(Shape(1, 2, Int32, Int32))
    case INT3_32 => Some(Shape(1, 3, Int32, Int32))
    case INT4_32 => Some(Shape(1, 4, Int32, Int32))
    case INT_64 => Some(Shape(1, 1, Int64, Int64))
    case INT2_64 => Some(Shape(1, 2, Int64, Int64))
    case INT3_64 => Some(Shape(1, 3, Int64, Int64))
    case INT4_64 => Some(Shape(1, 4, Int64, Int64))
    case UINT_8 => Some(Shape(1, 1, Int8, UInt32))
    case UINT2_8 => Some(Shape(1, 2, Int8, UInt32))
    case UINT3_8 => Some(Shape(1, 3, Int8, UInt32))
    case UINT4_8 => Some(Shape(1, 4, Int8, UInt32))
    case UINT_16 => Some(Shape(1, 1, Int16, UInt32))
    case UINT2_16 => Some(Shape(1, 2, Int16, UInt32))
    case UINT3_16 => Some(Shape(1, 3, Int16, UInt32))
    case UINT4_16 => Some(Shape(1, 4, Int16, UInt32))
    case UINT_32 => Some(Shape(1, 1, UInt32, UInt32))
    case UINT2_32 => Some(Shape(1, 2, UInt32, UInt32))
    case UINT3_32 => Some(Shape(1, 3, UInt32, UInt32))
    case UINT4_32 => Some(Shape(1, 4, UInt32, UInt32))
    case UINT_64 => Some(Shape(1, 1, UInt64, UInt64))
    case UINT2_64 => Some(Shape(1, 2, UInt64, UInt64))
    case UINT3_64 => Some(Shape(1, 3, UInt64, UInt64))
    case UINT4_64 => Some(Shape(1, 4, UInt64, UInt64))
    case BOOL => Some(Shape(1, 1, Int8, UInt32))
    case BOOL2 => Some(Shape(1, 2, Int8, UInt32))
    case BOOL3 => Some(Shape(1, 3, Int8, UInt32))
    case BOOL4 => Some(Shape(1, 4, Int8, UInt32))
    case MAT2X2 => Some(Shape(2, 2, Float32, Float32))
    case MAT2X3 => Some(Shape(2, 3, Float32, Float32))
    case MAT2X4 => Some(Shape(2, 4, Float32, Float32))
    case MAT3X2 => Some(Shape(3, 2, Float32, Float32))
    case MAT3X3 => Some(Shape(3, 3, Float32, Float32))
    case MAT3X4 => Some(Shape(3, 4, Float32, Float32))
    case MAT4X2 => Some(Shape(4, 2, Float32, Float32))
    case MAT4X3 => Some(Shape(4, 3, Float32, Float32))
    case MAT4X4 => Some(Shape(4, 4, Float32, Float32))
    case Unsupported(_) => None
  }

  /** The base type a container parameter type is named after. */
  datatype BaseType = FloatBase | IntBase(bits: nat) | UIntBase(bits: nat) | BoolBase

  /** What an enumerator's name says: a k-vector of a base type, an a x b float matrix, or neither. */
  datatype TypeName = Vector(base: BaseType, k: nat) | Matrix(rows: nat, columns: nat) | Unnamed

  function NameOf(t: ContainerParameterType): TypeName
  {
    match t
    case FLOAT => Vector(FloatBase, 1)
    case FLOAT2 => Vector(FloatBase, 2)
    case FLOAT3 => Vector(FloatBase, 3)
    case FLOAT4 => Vector(FloatBase, 4)
    case INT_8 => Vector(IntBase(8), 1)
    case INT2_8 => Vector(IntBase(8), 2)
    case INT3_8 => Vector(IntBase(8), 3)
    case INT4_8 => Vector(IntBase(8), 4)
    case INT_16 => Vector(IntBase(16), 1)
    case INT2_16 => Vector(IntBase(16), 2)
    case INT3_16 => Vector(IntBase(16), 3)
    case INT4_16 => Vector(IntBase(16), 4)
    case INT_32 => Vector(IntBase(32), 1)
    case INT2_32 => Vector(IntBase(32), 2)
    case INT3_32 => Vector(IntBase(32), 3)
    case INT4_32 => Vector(IntBase(32), 4)
    case INT_64 => Vector(IntBase(64), 1)
    case INT2_64 => Vector(IntBase(64), 2)
    case INT3_64 => Vector(IntBase(64), 3)
    case INT4_64 => Vector(IntBase(64), 4)
    case UINT_8 => Vector(UIntBase(8), 1)
    case UINT2_8 => Vector(UIntBase(8), 2)
    case UINT3_8 => Vector(UIntBase(8), 3)
    case UINT4_8 => Vector(UIntBase(8), 4)
    case UINT_16 => Vector(UIntBase(16), 1)
    case UINT2_16 => Vector(UIntBase(16), 2)
    case UINT3_16 => Vector(UIntBase(16), 3)
    case UINT4_16 => Vector(UIntBase(16), 4)
    case UINT_32 => Vector(UIntBase(32), 1)
    case UINT2_32 => Vector(UIntBase(32), 2)
    case UINT3_32 => Vector(UIntBase(32), 3)
    case UINT4_32 => Vector(UIntBase(32), 4)
    case UINT_64 => Vector(UIntBase(64), 1)
    case UINT2_64 => Vector(UIntBase(64), 2)
    case UINT3_64 => Vector(UIntBase(64), 3)
    case UINT4_64 => Vector(UIntBase(64), 4)
    case BOOL => Vector(BoolBase, 1)
    case BOOL2 => Vector(BoolBase, 2)
    case BOOL3 => Vector(BoolBase, 3)
    case BOOL4 => Vector(BoolBase, 4)
    case MAT2X2 => Matrix(2, 2)
    case MAT2X3 => Matrix(2, 3)
    case MAT2X4 => Matrix(2, 4)
    case MAT3X2 => Matrix(3, 2)
    case MAT3X3 => Matrix(3, 3)
    case MAT3X4 => Matrix(3, 4)
    case MAT4X2 => Matrix(4, 2)
    case MAT4X3 => Matrix(4, 3)
    case MAT4X4 => Matrix(4, 4)
    case Unsupported(_) => Unnamed
  }

  /**
   * How the container stores a base type: integers at their own width,
   * except that unsigned 8- and 16-bit values and booleans are read through
   * the SIGNED types int8_t / int16_t.
   */
  function StoredAs(b: BaseType): ScalarType
  {
    match b
    case FloatBase => Float32
    case IntBase(bits) => if bits == 8 then Int8 else if bits == 16 then Int16 else if bits == 32 then Int32 else Int64
    case UIntBase(bits) => if bits == 8 then Int8 else if bits == 16 then Int16 else if bits == 32 then UInt32 else UInt64
    case BoolBase => Int8
  }

  /** The GL uniform type a base type is uploaded as: 32-bit unless it is 64-bit, booleans as uint32_t. */
  function UploadedAs(b: BaseType): ScalarType
  {
    match b
    case FloatBase => Float32
    case IntBase(bits) => if bits == 64 then Int64 else Int32
    case UIntBase(bits) => if bits == 64 then UInt64 else UInt32
    case BoolBase => UInt32
  }

  /** Reference rule: a k-vector is one row of k columns, an a x b matrix is a rows of b float columns. */
  function NamedShape(name: TypeName): Option<Shape>
  {
    match name
    case Vector(b, k) => Some(Shape(1, k, StoredAs(b), UploadedAs(b)))
    case Matrix(a, b) => Some(Shape(a, b, Float32, Float32))
    case Unnamed => None
  }

  /** The table agrees, case by case, with the rule its enumerator names spell out. */
  lemma ShapeFollowsName(t: ContainerParameterType)
    ensures ShapeOf(t) == NamedShape(NameOf(t))
  {
    match t {
      case FLOAT => case FLOAT2 => case FLOAT3 => case FLOAT4 =>
      case INT_8 => case INT2_8 => case INT3_8 => case INT4_8 =>
      case INT_16 => case INT2_16 => case INT3_16 => case INT4_16 =>
      case INT_32 => case INT2_32 => case INT3_32 => case INT4_32 =>
      case INT_64 => case INT2_64 => case INT3_64 => case INT4_64 =>
      case UINT_8 => case UINT2_8 => case UINT3_8 => case UINT4_8 =>
      case UINT_16 => case UINT2_16 => case UINT3_16 => case UINT4_16 =>
      case UINT_32 => case UINT2_32 => case UINT3_32 => case UINT4_32 =>
      case UINT_64 => case UINT2_64 => case UINT3_64 => case UINT4_64 =>
      case BOOL => case BOOL2 => case BOOL3 => case BOOL4 =>
      case MAT2X2 => case MAT2X3 => case MAT2X4 =>
      case MAT3X2 => case MAT3X3 => case MAT3X4 =>
      case MAT4X2 => case MAT4X3 => case MAT4X4 =>
      case Unsupported(_) =>
    }
  }

  /**
   * Every shape in the table is between one and four rows and columns, has
   * more than one row only for float matrices, and only ever widens.
   */
  lemma ShapeWidens(t: ContainerParameterType)
    requires ShapeOf(t).Some?
    ensures var s := ShapeOf(t).value;
      && 1 <= s.n <= 4 && 1 <= s.m <= 4
      && (s.n > 1 ==> s.source == Float32 && s.dest == Float32)
      && Widening(s.source, s.dest)
  {
    ShapeFollowsName(t);
    NameInRange(t);
    NamedWidens(NameOf(t));
  }

  /** The reference rule gives such a shape for every well-formed name. */
  lemma NamedWidens(name: TypeName)
    requires GoodName(name) && NamedShape(name).Some?
    ensures var s := NamedShape(name).value;
      && 1 <= s.n <= 4 && 1 <= s.m <= 4
      && (s.n > 1 ==> s.source == Float32 && s.dest == Float32)
      && Widening(s.source, s.dest)
  {
  }

  /**
   * The enumerator names only use widths 8, 16, 32 and 64, vectors of one
   * to four elements, and matrices of two to four rows and columns.
   */
  predicate GoodName(name: TypeName) {
    match name
    case Vector(b, k) => 1 <= k <= 4 && (b.IntBase? || b.UIntBase? ==> b.bits in {8, 16, 32, 64})
    case Matrix(a, b) => 2 <= a <= 4 && 2 <= b <= 4
    case Unnamed => true
  }

  /** Every enumerator's name is well formed. */
  lemma NameInRange(t: ContainerParameterType)
    ensures GoodName(NameOf(t))
  {
    match t {
      case FLOAT => case FLOAT2 => case FLOAT3 => case FLOAT4 =>
      case INT_8 => case INT2_8 => case INT3_8 => case INT4_8 =>
      case INT_16 => case INT2_16 => case INT3_16 => case INT4_16 =>
      case INT_32 => case INT2_32 => case INT3_32 => case INT4_32 =>
      case INT_64 => case INT2_64 => case INT3_64 => case INT4_64 =>
      case UINT_8 => case UINT2_8 => case UINT3_8 => case UINT4_8 =>
      case UINT_16 => case UINT2_16 => case UINT3_16 => case UINT4_16 =>
      case UINT_32 => case UINT2_32 => case UINT3_32 => case UINT4_32 =>
      case UINT_64 => case UINT2_64 => case UINT3_64 => case UINT4_64 =>
      case BOOL => case BOOL2 => case BOOL3 => case BOOL4 =>
      case MAT2X2 => case MAT2X3 => case MAT2X4 =>
      case MAT3X2 => case MAT3X3 => case MAT3X4 =>
      case MAT4X2 => case MAT4X3 => case MAT4X4 =>
      case Unsupported(_) =>
    }
  }

  // ------------------------------------------------------------------
  // CacheEntryMatrix

  /** The layout of one uniform as the GL program reports it (dp::gl::Program::Uniform). */
  datatype Uniform = Uniform(offset: nat, arraySize: nat, arrayStride: nat, matrixStride: nat)

  /**
   * A constructed CacheEntryMatrix<n, m, SourceType, DestType>: it is never
   * changed after construction (update is a const member).
   */
  datatype CacheEntry = CacheEntry(
    shape: Shape,
    cacheOffset: nat,
    containerOffset: nat,
    arraySize: nat,
    arrayStride: nat,
    matrixStride: nat,
    size: nat)

  /** m_size as the constructor computes it: the element size is MULTIPLIED by the array stride. */
  function EntrySizeAsWritten(shape: Shape, arraySize: nat, arrayStride: nat, matrixStride: nat): nat
  {
    var element := if shape.n > 1 then shape.n * matrixStride else shape.m * SizeOf(shape.dest);
    if arraySize > 1 then element * arrayStride else element
  }

  /** The size an array entry evidently should have: arraySize elements, arrayStride bytes apart. */
  function EntrySize(shape: Shape, arraySize: nat, arrayStride: nat, matrixStride: nat): nat
  {
    if arraySize > 1 then arraySize * arrayStride
    else if shape.n > 1 then shape.n * matrixStride
    else shape.m * SizeOf(shape.dest)
  }

  /** The two sizes agree for every entry that is not an array, which is every entry the factory builds. */
  lemma SizesAgreeForSingleEntries(shape: Shape, arraySize: nat, arrayStride: nat, matrixStride: nat)
    requires arraySize <= 1
    ensures EntrySizeAsWritten(shape, arraySize, arrayStride, matrixStride)
         == EntrySize(shape, arraySize, arrayStride, matrixStride)
  {
  }

  /**
   * The CacheEntryMatrix constructor. Its assertions become the
   * precondition; the entry's cache offset is the uniform's own offset, and
   * m_size is computed as written (see AsWrittenSizeTooSmall).
   */
  function NewCacheEntry(shape: Shape, uniform: Uniform, containerOffset: nat, size: nat): (e: CacheEntry)
    requires (uniform.arraySize == 0 && size == 1) || uniform.arraySize == size
    requires shape.n > 1 ==> uniform.matrixStride != 0
    requires size > 1 ==> uniform.arrayStride != 0
    ensures e.shape == shape && e.cacheOffset == uniform.offset && e.containerOffset == containerOffset
    ensures e.arraySize == size && e.arrayStride == uniform.arrayStride && e.matrixStride == uniform.matrixStride
    ensures e.size == EntrySizeAsWritten(shape, size, uniform.arrayStride, uniform.matrixStride)
    ensures size <= 1 ==> e.size == EntrySize(shape, size, uniform.arrayStride, uniform.matrixStride)
    ensures e.size > 0 || (shape.n <= 1 && shape.m == 0)
  {
    CacheEntry(shape, uniform.offset, containerOffset, size, uniform.arrayStride, uniform.matrixStride,
               EntrySizeAsWritten(shape, size, uniform.arrayStride, uniform.matrixStride))
  }

  // ------------------------------------------------------------------
  // Where update writes and reads

  function DestSize(e: CacheEntry): nat { SizeOf(e.shape.dest) }

  function SourceSize(e: CacheEntry): nat { SizeOf(e.shape.source) }

  /** Offsets and strides are whole numbers of elements, so the typed slot model is exact. */
  predicate Aligned(e: CacheEntry) {
    && e.cacheOffset % DestSize(e) == 0
    && (e.arraySize > 1 ==> e.arrayStride % DestSize(e) == 0)
    && (e.shape.n > 1 ==> e.matrixStride % DestSize(e) == 0)
    && e.containerOffset % SourceSize(e) == 0
  }

  /** (a, r, c) is an array element, a row and a column of the entry. */
  predicate InRange(e: CacheEntry, a: int, r: int, c: int) {
    0 <= a < e.arraySize && 0 <= r < e.shape.n && 0 <= c < e.shape.m
  }

  /** The cache slot (destination element) that array element a, row r, column c goes to. */
  function SlotIndex(e: CacheEntry, a: nat, r: nat, c: nat): nat
  {
    e.cacheOffset / DestSize(e) + a * (e.arrayStride / DestSize(e)) + r * (e.matrixStride / DestSize(e)) + c
  }

  /** The container element that (a, r, c) is read from: they are read consecutively. */
  function SourceIndex(e: CacheEntry, a: nat, r: nat, c: nat): nat
  {
    e.containerOffset / SourceSize(e) + (a * e.shape.n + r) * e.shape.m + c
  }

  /** One past the last container element update reads. */
  function SourceEnd(e: CacheEntry): nat
  {
    e.containerOffset / SourceSize(e) + e.arraySize * e.shape.n * e.shape.m
  }

  /** Slot j receives some (a, r, c). */
  ghost predicate Written(e: CacheEntry, j: int) {
    exists a: nat, r: nat, c: nat :: InRange(e, a, r, c) && SlotIndex(e, a, r, c) == j
  }

  /** The program's layout keeps rows and array elements apart: a row fits in the matrix stride, a matrix in the array stride. */
  predicate Packed(e: CacheEntry) {
    && (e.shape.n > 1 ==> e.matrixStride / DestSize(e) >= e.shape.m)
    && (e.arraySize > 1 ==> e.arrayStride / DestSize(e) >= (e.shape.n - 1) * (e.matrixStride / DestSize(e)) + e.shape.m)
  }

  /** (a, r, c) comes before (a', r', c') in update's loop order. */
  predicate Before(a: nat, r: nat, c: nat, a': nat, r': nat, c': nat) {
    a < a' || (a == a' && (r < r' || (r == r' && c < c')))
  }

  lemma MulLeft(x: nat, y: nat, k: nat)
    requires x <= y
    ensures x * k <= y * k
  {
  }

  lemma ExactDivision(x: nat, d: nat)
    requires d > 0 && x % d == 0
    ensures d * (x / d) == x
  {
  }

  /** k strides of x bytes, counted in d-byte slots, are k * x bytes. */
  lemma ScaledStride(d: nat, x: nat, k: nat)
    requires d > 0 && x % d == 0
    ensures d * (k * (x / d)) == k * x
  {
    var q := x / d;
    assert x == d * q;
    assert d * (k * q) == k * (d * q);
  }

  lemma Distribute(d: int, w: int, x: int, y: int, z: int)
    ensures d * (w + x + y + z) == d * w + d * x + d * y + d * z
  {
  }

  /** Slot j of the typed cache starts at byte cacheOffset + a*arrayStride + r*matrixStride + c*sizeof(DestType). */
  lemma SlotBytePosition(e: CacheEntry, a: nat, r: nat, c: nat)
    requires Aligned(e) && InRange(e, a, r, c)
    ensures DestSize(e) * SlotIndex(e, a, r, c)
         == e.cacheOffset + a * e.arrayStride + r * e.matrixStride + c * DestSize(e)
  {
    var d := DestSize(e);
    var B, E, R := e.cacheOffset / d, e.arrayStride / d, e.matrixStride / d;
    Distribute(d, B, a * E, r * R, c);
    ExactDivision(e.cacheOffset, d);
    if e.arraySize > 1 {
      ScaledStride(d, e.arrayStride, a);
    } else {
      assert a == 0;
    }
    if e.shape.n > 1 {
      ScaledStride(d, e.matrixStride, r);
    } else {
      assert r == 0;
    }
    assert d * c == c * d;
  }

  /** The last slot of a row lies before the next row's first slot. */
  lemma RowEndBeforeNextRow(e: CacheEntry, a: nat, r: nat, c: nat, r': nat)
    requires Packed(e) && InRange(e, a, r, c) && r < r' < e.shape.n
    ensures SlotIndex(e, a, r, c) < SlotIndex(e, a, r', 0)
  {
    var R := e.matrixStride / DestSize(e);
    MulLeft(r + 1, r', R);
    assert r * R + c < (r + 1) * R;
  }

  /** Every slot of array element a lies before the first slot of a later array element. */
  lemma ElementEndBeforeNextElement(e: CacheEntry, a: nat, r: nat, c: nat, a': nat)
    requires Packed(e) && InRange(e, a, r, c) && a < a' < e.arraySize
    ensures SlotIndex(e, a, r, c) < SlotIndex(e, a', 0, 0)
  {
    var R := e.matrixStride / DestSize(e);
    var E := e.arrayStride / DestSize(e);
    MulLeft(r, e.shape.n - 1, R);
    MulLeft(a + 1, a', E);
    assert r * R + c < E;
    assert a * E + r * R + c < (a + 1) * E;
  }

  /** With a packed layout, update visits slots in strictly increasing order. */
  lemma SlotOrder(e: CacheEntry, a: nat, r: nat, c: nat, a': nat, r': nat, c': nat)
    requires Packed(e) && InRange(e, a, r, c) && InRange(e, a', r', c')
    requires Before(a, r, c, a', r', c')
    ensures SlotIndex(e, a, r, c) < SlotIndex(e, a', r', c')
  {
    if a < a' {
      ElementEndBeforeNextElement(e, a, r, c, a');
    } else if r < r' {
      RowEndBeforeNextRow(e, a, r, c, r');
    }
  }

  /** With a packed layout no two (a, r, c) share a slot: exactly arraySize * n * m slots are written. */
  lemma SlotInjective(e: CacheEntry, a: nat, r: nat, c: nat, a': nat, r': nat, c': nat)
    requires Packed(e) && InRange(e, a, r, c) && InRange(e, a', r', c')
    requires SlotIndex(e, a, r, c) == SlotIndex(e, a', r', c')
    ensures a == a' && r == r' && c == c'
  {
    if Before(a, r, c, a', r', c') {
      SlotOrder(e, a, r, c, a', r', c');
    } else if Before(a', r', c', a, r, c) {
      SlotOrder(e, a', r', c', a, r, c);
    }
  }

  /** The slots one entry spans: arraySize elements, or n rows, or m columns. */
  function ExtentSlots(e: CacheEntry): nat
  {
    if e.arraySize > 1 then e.arraySize * (e.arrayStride / DestSize(e))
    else if e.shape.n > 1 then e.shape.n * (e.matrixStride / DestSize(e))
    else e.shape.m
  }

  /** With a packed layout every written slot lies within ExtentSlots of the first. */
  lemma SlotWithinExtent(e: CacheEntry, a: nat, r: nat, c: nat)
    requires Packed(e) && InRange(e, a, r, c)
    ensures SlotIndex(e, a, r, c) + 1 <= e.cacheOffset / DestSize(e) + ExtentSlots(e)
  {
    SlotBound(e.arraySize, e.arrayStride / DestSize(e), e.shape.n, e.matrixStride / DestSize(e), e.shape.m, a, r, c);
  }

  /** The arithmetic of SlotWithinExtent: E slots per array element, R per row, m columns. */
  lemma SlotBound(A: nat, E: nat, n: nat, R: nat, m: nat, a: nat, r: nat, c: nat)
    requires a < A && r < n && c < m
    requires n > 1 ==> R >= m
    requires A > 1 ==> E >= (n - 1) * R + m
    ensures a * E + r * R + c + 1 <= if A > 1 then A * E else if n > 1 then n * R else m
  {
    MulLeft(r, n - 1, R);
    assert r * R + c + 1 <= (n - 1) * R + m;
    if A > 1 {
      MulLeft(a + 1, A, E);
      assert (a + 1) * E == a * E + E;
    } else {
      assert a == 0;
      if n > 1 {
        assert (n - 1) * R + m <= n * R;
      } else {
        assert r == 0;
      }
    }
  }

  /** The corrected size is the extent in bytes. */
  lemma ExtentIsEntrySize(e: CacheEntry)
    requires Aligned(e)
    ensures DestSize(e) * ExtentSlots(e) == EntrySize(e.shape, e.arraySize, e.arrayStride, e.matrixStride)
  {
    if e.arraySize > 1 {
      ScaledStride(DestSize(e), e.arrayStride, e.arraySize);
    } else if e.shape.n > 1 {
      ScaledStride(DestSize(e), e.matrixStride, e.shape.n);
    }
  }

  /**
   * With the corrected size, every byte update writes lies inside
   * [cacheOffset, cacheOffset + size).
   */
  lemma EntrySizeCoversWrites(e: CacheEntry, a: nat, r: nat, c: nat)
    requires Aligned(e) && Packed(e) && InRange(e, a, r, c)
    requires e.size == EntrySize(e.shape, e.arraySize, e.arrayStride, e.matrixStride)
    ensures DestSize(e) * SlotIndex(e, a, r, c) + DestSize(e) <= e.cacheOffset + e.size
  {
    var d := DestSize(e);
    var B := e.cacheOffset / d;
    SlotWithinExtent(e, a, r, c);
    MulLeft(SlotIndex(e, a, r, c) + 1, B + ExtentSlots(e), d);
    ExtentIsEntrySize(e);
    ExactDivision(e.cacheOffset, d);
    assert (B + ExtentSlots(e)) * d == d * B + d * ExtentSlots(e);
  }

  /**
   * The size as written is too small for an array: the constructor gives a
   * FLOAT array of 8 elements, 16 bytes apart, 4 * 16 = 64 bytes, but its
   * last element is written at bytes 112..115; the corrected size is 128.
   */
  lemma AsWrittenSizeTooSmall()
    ensures var e := NewCacheEntry(Shape(1, 1, Float32, Float32), Uniform(0, 8, 16, 0), 0, 8);
      && Aligned(e) && Packed(e) && InRange(e, 7, 0, 0)
      && e.size == 64
      && DestSize(e) * SlotIndex(e, 7, 0, 0) == 112
      && DestSize(e) * SlotIndex(e, 7, 0, 0) + DestSize(e) > e.cacheOffset + e.size
      && EntrySize(e.shape, e.arraySize, e.arrayStride, e.matrixStride) == 128
  {
  }

  // ------------------------------------------------------------------
  // CacheEntryMatrix::update

  /**
   * Slot (a, r, c) of `cache` holds the container element (a, r, c) reads,
   * converted from SourceType to DestType.
   */
  ghost predicate Filled(e: CacheEntry, cache: seq<Scalar>, container: seq<Scalar>, a: nat, r: nat, c: nat) {
    var i, j := SourceIndex(e, a, r, c), SlotIndex(e, a, r, c);
    && i < |container| && j < |cache|
    && HasType(container[i], e.shape.source) && Convertible(e.shape.source, e.shape.dest)
    && cache[j] == Convert(container[i], e.shape.source, e.shape.dest)
  }

  /**
   * CacheEntryMatrix::update: for each array element, row and column, in
   * that order, store the next container element, converted to DestType,
   * into its slot. Slots no (a, r, c) maps to keep their value; with a
   * packed layout, every slot holds its own element (with overlapping
   * rows, later writes win and only the frame is promised).
   */
  method Update(e: CacheEntry, cache: array<Scalar>, container: seq<Scalar>)
    requires Aligned(e) && Convertible(e.shape.source, e.shape.dest)
    requires SourceEnd(e) <= |container|
    requires forall i :: e.containerOffset / SourceSize(e) <= i < SourceEnd(e) ==> HasType(container[i], e.shape.source)
    requires forall a: nat, r: nat, c: nat :: InRange(e, a, r, c) ==> SlotIndex(e, a, r, c) < cache.Length
    modifies cache
    ensures forall j :: 0 <= j < cache.Length && !Written(e, j) ==> cache[j] == old(cache[j])
    ensures Packed(e) ==>
      forall a: nat, r: nat, c: nat :: InRange(e, a, r, c) ==> Filled(e, cache[..], container, a, r, c)
  {
    ghost var orig := cache[..];
    var n, m := e.shape.n, e.shape.m;
    var src := e.containerOffset / SourceSize(e);
    var arrayIndex := 0;
    while arrayIndex < e.arraySize
      invariant 0 <= arrayIndex <= e.arraySize
      invariant src == SourceIndex(e, arrayIndex, 0, 0)
      invariant WrittenBefore(e, orig, cache[..], arrayIndex, 0, 0)
      invariant FilledBefore(e, cache[..], container, arrayIndex, 0, 0)
    {
      var row := 0;
      while row < n
        invariant 0 <= row <= n
        invariant src == SourceIndex(e, arrayIndex, row, 0)
        invariant WrittenBefore(e, orig, cache[..], arrayIndex, row, 0)
        invariant FilledBefore(e, cache[..], container, arrayIndex, row, 0)
      {
        src := UpdateRow(e, cache, container, orig, arrayIndex, row, src);
        MulSucc(arrayIndex * n + row, m);
        SameBefore(e, orig, cache[..], container, arrayIndex, row, m, arrayIndex, row + 1, 0);
        row := row + 1;
      }
      MulSucc(arrayIndex, n);
      SameBefore(e, orig, cache[..], container, arrayIndex, n, 0, arrayIndex + 1, 0, 0);
      arrayIndex := arrayIndex + 1;
    }
    SameBefore(e, orig, cache[..], container, e.arraySize, 0, 0, e.arraySize + 1, 0, 0);
    WrittenBeforeFrame(e, orig, cache[..], e.arraySize + 1);
  }

  /** The innermost loop of update: the m columns of row r of array element a, from container element src on. */
  method UpdateRow(e: CacheEntry, cache: array<Scalar>, container: seq<Scalar>, ghost orig: seq<Scalar>,
                   a: nat, r: nat, src: nat) returns (next: nat)
    requires Aligned(e) && Convertible(e.shape.source, e.shape.dest)
    requires SourceEnd(e) <= |container|
    requires forall i :: e.containerOffset / SourceSize(e) <= i < SourceEnd(e) ==> HasType(container[i], e.shape.source)
    requires forall a: nat, r: nat, c: nat :: InRange(e, a, r, c) ==> SlotIndex(e, a, r, c) < cache.Length
    requires a < e.arraySize && r < e.shape.n && src == SourceIndex(e, a, r, 0)
    requires WrittenBefore(e, orig, cache[..], a, r, 0) && FilledBefore(e, cache[..], container, a, r, 0)
    modifies cache
    ensures next == SourceIndex(e, a, r, e.shape.m)
    ensures WrittenBefore(e, orig, cache[..], a, r, e.shape.m) && FilledBefore(e, cache[..], container, a, r, e.shape.m)
  {
    var cacheData := SlotIndex(e, a, r, 0);
    next := src;
    var column := 0;
    while column < e.shape.m
      invariant 0 <= column <= e.shape.m
      invariant next == SourceIndex(e, a, r, column)
      invariant WrittenBefore(e, orig, cache[..], a, r, column)
      invariant FilledBefore(e, cache[..], container, a, r, column)
    {
      SourceInBounds(e, a, r, column);
      assert cacheData + column == SlotIndex(e, a, r, column);
      ghost var before := cache[..];
      cache[cacheData + column] := Convert(container[next], e.shape.source, e.shape.dest);
      WriteStep(e, orig, before, cache[..], container, a, r, column);
      next := next + 1;
      column := column + 1;
    }
  }

  /** Every slot of `cur` that differs from `orig` belongs to an (a, r, c) visited before (a', r', c'). */
  ghost predicate WrittenBefore(e: CacheEntry, orig: seq<Scalar>, cur: seq<Scalar>, a': nat, r': nat, c': nat) {
    && |cur| == |orig|
    && forall j :: 0 <= j < |cur| && cur[j] != orig[j] ==>
         exists a: nat, r: nat, c: nat :: InRange(e, a, r, c) && Before(a, r, c, a', r', c') && SlotIndex(e, a, r, c) == j
  }

  /** With a packed layout, every (a, r, c) visited before (a', r', c') has its slot filled. */
  ghost predicate FilledBefore(e: CacheEntry, cur: seq<Scalar>, container: seq<Scalar>, a': nat, r': nat, c': nat) {
    Packed(e) ==>
      forall a: nat, r: nat, c: nat :: InRange(e, a, r, c) && Before(a, r, c, a', r', c') ==>
        Filled(e, cur, container, a, r, c)
  }

  /** Writing the slot of (a', r', c') extends both invariants past it. */
  lemma WriteStep(e: CacheEntry, orig: seq<Scalar>, before: seq<Scalar>, after: seq<Scalar>, container: seq<Scalar>,
                  a': nat, r': nat, c': nat)
    requires Aligned(e) && Convertible(e.shape.source, e.shape.dest) && InRange(e, a', r', c')
    requires SourceIndex(e, a', r', c') < |container| && HasType(container[SourceIndex(e, a', r', c')], e.shape.source)
    requires SlotIndex(e, a', r', c') < |before|
    requires after == before[SlotIndex(e, a', r', c') := Convert(container[SourceIndex(e, a', r', c')], e.shape.source, e.shape.dest)]
    requires WrittenBefore(e, orig, before, a', r', c') && FilledBefore(e, before, container, a', r', c')
    ensures WrittenBefore(e, orig, after, a', r', c' + 1) && FilledBefore(e, after, container, a', r', c' + 1)
  {
    var slot := SlotIndex(e, a', r', c');
    forall j | 0 <= j < |after| && after[j] != orig[j]
      ensures exists a: nat, r: nat, c: nat :: InRange(e, a, r, c) && Before(a, r, c, a', r', c' + 1) && SlotIndex(e, a, r, c) == j
    {
      if j == slot {
        assert InRange(e, a', r', c') && Before(a', r', c', a', r', c' + 1);
      } else {
        assert before[j] != orig[j];
        var a: nat, r: nat, c: nat :| InRange(e, a, r, c) && Before(a, r, c, a', r', c') && SlotIndex(e, a, r, c) == j;
        assert Before(a, r, c, a', r', c' + 1);
      }
    }
    if Packed(e) {
      forall a: nat, r: nat, c: nat | InRange(e, a, r, c) && Before(a, r, c, a', r', c' + 1)
        ensures Filled(e, after, container, a, r, c)
      {
        if Before(a, r, c, a', r', c') {
          SlotOrder(e, a, r, c, a', r', c');
          assert Filled(e, before, container, a, r, c);
        } else {
          assert a == a' && r == r' && c == c';
        }
      }
    }
  }

  /** Two positions with the same elements in range before them give the same invariants. */
  lemma SameBefore(e: CacheEntry, orig: seq<Scalar>, cur: seq<Scalar>, container: seq<Scalar>,
                   a1: nat, r1: nat, c1: nat, a2: nat, r2: nat, c2: nat)
    requires forall a: nat, r: nat, c: nat :: InRange(e, a, r, c) ==> (Before(a, r, c, a1, r1, c1) <==> Before(a, r, c, a2, r2, c2))
    requires WrittenBefore(e, orig, cur, a1, r1, c1) && FilledBefore(e, cur, container, a1, r1, c1)
    ensures WrittenBefore(e, orig, cur, a2, r2, c2) && FilledBefore(e, cur, container, a2, r2, c2)
  {
  }

  /** Once every element is visited, only slots some (a, r, c) maps to have changed. */
  lemma WrittenBeforeFrame(e: CacheEntry, orig: seq<Scalar>, cur: seq<Scalar>, a': nat)
    requires WrittenBefore(e, orig, cur, a', 0, 0)
    ensures forall j :: 0 <= j < |cur| && !Written(e, j) ==> cur[j] == orig[j]
  {
  }

  /** Every element update reads lies inside [containerOffset, SourceEnd). */
  lemma SourceInBounds(e: CacheEntry, a: nat, r: nat, c: nat)
    requires InRange(e, a, r, c)
    ensures e.containerOffset / SourceSize(e) <= SourceIndex(e, a, r, c) < SourceEnd(e)
  {
    var n, m := e.shape.n, e.shape.m;
    var k := a * n + r;
    MulSucc(a, n);
    MulLeft(a + 1, e.arraySize, n);
    MulSucc(k, m);
    MulLeft(k + 1, e.arraySize * n, m);
  }

  lemma MulSucc(x: nat, k: nat)
    ensures (x + 1) * k == x * k + k
  {
  }

  // ------------------------------------------------------------------
  // The factory and the per-program loop

  /** The constructor's assertions hold for the shape the table picks for t. */
  predicate Creatable(t: ContainerParameterType, uniform: Uniform) {
    ShapeOf(t).Some? ==> uniform.arraySize <= 1 && (ShapeOf(t).value.n > 1 ==> uniform.matrixStride != 0)
  }

  /**
   * createParameterCacheEntryStreamBuffer: the entry for a container
   * parameter, always with array size 1; None (a null pointer) for a type
   * the table does not know. The caller's cache offset is ignored.
   */
  function CreateEntry(t: ContainerParameterType, uniform: Uniform, cacheOffset: nat, containerOffset: nat)
    : (r: Option<CacheEntry>)
    requires Creatable(t, uniform)
    ensures r.None? <==> t.Unsupported?
    ensures r.Some? ==>
      && r.value.shape == NamedShape(NameOf(t)).value
      && r.value.arraySize == 1
      && r.value.cacheOffset == uniform.offset
      && r.value.containerOffset == containerOffset
      && r.value.size == (if r.value.shape.n > 1 then r.value.shape.n * uniform.matrixStride
                          else r.value.shape.m * SizeOf(r.value.shape.dest))
  {
    ShapeFollowsName(t);
    match ShapeOf(t)
    case None => None
    case Some(shape) => Some(NewCacheEntry(shape, uniform, containerOffset, 1))
  }

  /** Where a container descriptor keeps a parameter: its type and byte offset. */
  datatype ParameterInfo = ParameterInfo(parameterType: ContainerParameterType, offset: nat)

  /** Sum of getSize() over a list of entries. */
  function TotalSize(entries: seq<CacheEntry>): nat
  {
    if entries == [] then 0 else TotalSize(entries[..|entries| - 1]) + entries[|entries| - 1].size
  }

  /**
   * createParameterCacheEntriesStreamBuffer: one entry per uniform, in the
   * uniforms' iteration order, each created with the running cache offset,
   * which grows by each entry's size. Also returns that running offset.
   */
  method CreateEntries(descriptor: map<string, ParameterInfo>, uniformInfos: seq<(string, Uniform)>)
    returns (entries: seq<CacheEntry>, cacheOffset: nat)
    requires forall i :: 0 <= i < |uniformInfos| ==>
      && uniformInfos[i].0 in descriptor
      && !descriptor[uniformInfos[i].0].parameterType.Unsupported?
      && Creatable(descriptor[uniformInfos[i].0].parameterType, uniformInfos[i].1)
    ensures |entries| == |uniformInfos|
    ensures forall i :: 0 <= i < |uniformInfos| ==>
      var info := descriptor[uniformInfos[i].0];
      CreateEntry(info.parameterType, uniformInfos[i].1, TotalSize(entries[..i]), info.offset) == Some(entries[i])
    ensures cacheOffset == TotalSize(entries)
  {
    entries := [];
    cacheOffset := 0;
    var k := 0;
    while k < |uniformInfos|
      invariant 0 <= k <= |uniformInfos| && |entries| == k
      invariant cacheOffset == TotalSize(entries)
      invariant forall i :: 0 <= i < k ==>
        var info := descriptor[uniformInfos[i].0];
        CreateEntry(info.parameterType, uniformInfos[i].1, TotalSize(entries[..i]), info.offset) == Some(entries[i])
    {
      var info := descriptor[uniformInfos[k].0];
      var entry := CreateEntry(info.parameterType, uniformInfos[k].1, cacheOffset, info.offset);
      ghost var before := entries;
      entries := entries + [entry.value];
      assert entries[..k] == before;
      assert forall i :: 0 <= i < k ==> entries[..i] == before[..i];
      cacheOffset := cacheOffset + entry.value.size;
      k := k + 1;
    }
  }
}
