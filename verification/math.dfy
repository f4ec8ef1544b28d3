/**
 * The math values a transform is built from, kept symbolic.
 *
 * Points, vectors, quaternions and 4x4 matrices are terms: an operation of
 * the math library builds a term naming the operation and its operands. The
 * only algebra the model relies on is that the identity matrix, the identity
 * quaternion and the all-ones scale vector are units of their products, and
 * that the matrices built from the origin point, the identity rotation and
 * the unit scale are the identity matrix. None of the structural properties
 * of the transform store depend on more than that.
 */
module Math {

  datatype Point =
    | Origin
    | PointValue(tag: nat)                 // a point supplied from outside the model
    | Offset(base: Point, delta: Vector3)   // point + vector
    | TranslationColumn(m: Matrix4)        // the translation column of a matrix

  datatype Vector3 =
    | One                                  // (1, 1, 1)
    | VectorValue(tag: nat)                // a vector supplied from outside the model
    | ComponentProduct(a: Vector3, b: Vector3)
    | Between(to: Point, from: Point)      // to - from

  datatype Quaternion =
    | IdentityRotation
    | QuaternionValue(tag: nat)            // a rotation supplied from outside the model
    | Product(a: Quaternion, b: Quaternion)
    | LookRotation(forward: Vector3, up: Vector3)

  datatype Matrix4 =
    | Identity
    | MatrixProduct(a: Matrix4, b: Matrix4)
    | TranslationMatrix(p: Point)
    | RotationMatrix(q: Quaternion)
    | ScaleMatrix(s: Vector3)

  /** Matrix multiplication: the identity is a unit on both sides. */
  function Mul(a: Matrix4, b: Matrix4): (r: Matrix4)
    ensures a == Identity ==> r == b
    ensures b == Identity ==> r == a
  {
    if a == Identity then b else if b == Identity then a else MatrixProduct(a, b)
  }

  /** Quaternion multiplication: the identity rotation is a unit on both sides. */
  function Rotate(a: Quaternion, b: Quaternion): (r: Quaternion)
    ensures a == IdentityRotation ==> r == b
    ensures b == IdentityRotation ==> r == a
  {
    if a == IdentityRotation then b else if b == IdentityRotation then a else Product(a, b)
  }

  /** Component-wise vector multiplication: (1, 1, 1) is a unit on both sides. */
  function Scale(a: Vector3, b: Vector3): (r: Vector3)
    ensures a == One ==> r == b
    ensures b == One ==> r == a
  {
    if a == One then b else if b == One then a else ComponentProduct(a, b)
  }

  /** Point plus vector. */
  function Translate(p: Point, v: Vector3): Point
  {
    Offset(p, v)
  }

  /** Point minus point, the direction from `from` to `to`. */
  function Direction(to: Point, from: Point): Vector3
  {
    Between(to, from)
  }

  /** The translation matrix of a point; the origin gives the identity. */
  function FromPoint(p: Point): (m: Matrix4)
    ensures p == Origin ==> m == Identity
  {
    if p == Origin then Identity else TranslationMatrix(p)
  }

  /** The rotation matrix of a quaternion; the identity rotation gives the identity. */
  function FromQuaternion(q: Quaternion): (m: Matrix4)
    ensures q == IdentityRotation ==> m == Identity
  {
    if q == IdentityRotation then Identity else RotationMatrix(q)
  }

  /** The scale matrix of a vector; the unit scale gives the identity. */
  function FromScale(s: Vector3): (m: Matrix4)
    ensures s == One ==> m == Identity
  {
    if s == One then Identity else ScaleMatrix(s)
  }

  /** The translation column of a matrix; that of the identity is the origin. */
  function TranslationPart(m: Matrix4): (p: Point)
    ensures m == Identity ==> p == Origin
  {
    if m == Identity then Origin else TranslationColumn(m)
  }
}
