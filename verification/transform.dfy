/**
 * A single entity's transform: its local position, rotation and scale, a
 * cached local matrix, and the derived (world) values, guarded by the
 * `outOfDate` flag. Modelled on `Transform` in src/component/transform.rs.
 */
module Transforms {
  import opened Math

  /** The three local fields of a transform. */
  datatype Local = Local(position: Point, rotation: Quaternion, scale: Vector3)

  /** The four derived (world-space) fields of a transform. */
  datatype World = World(matrix: Matrix4, position: Point, rotation: Quaternion, scale: Vector3)

  /** The affine matrix of the local fields: translation * (rotation * scale). */
  function LocalMatrixOf(l: Local): (m: Matrix4)
    ensures l == Local(Origin, IdentityRotation, One) ==> m == Identity
  {
    Mul(FromPoint(l.position), Mul(FromQuaternion(l.rotation), FromScale(l.scale)))
  }

  /** The world state of a freshly created transform, which is also the
    * state of the sentinel parent used for entities without a parent. */
  const RootWorld := World(Identity, Origin, IdentityRotation, One)

  /**
   * The derived state of a transform whose parent's derived state is `parent`
   * and whose local fields are `l`: the matrix is the parent's matrix times the
   * local matrix and the position is its translation column; rotations compose
   * parent first, scales compose local first.
   */
  function Compose(parent: World, l: Local): (w: World)
    ensures w.position == TranslationPart(w.matrix)
    ensures parent.matrix == Identity ==> w.matrix == LocalMatrixOf(l)
    ensures parent.rotation == IdentityRotation ==> w.rotation == l.rotation
    ensures parent.scale == One ==> w.scale == l.scale
  {
    var m := Mul(parent.matrix, LocalMatrixOf(l));
    World(m, TranslationPart(m), Rotate(parent.rotation, l.rotation), Scale(l.scale, parent.scale))
  }

  /** A parentless transform's derived state is its own local transform. */
  lemma ComposeWithRoot(l: Local)
    ensures Compose(RootWorld, l)
         == World(LocalMatrixOf(l), TranslationPart(LocalMatrixOf(l)), l.rotation, l.scale)
  {
  }

  class Transform {
    var position: Point
    var rotation: Quaternion
    var scale: Vector3
    var localMatrix: Matrix4
    var positionDerived: Point
    var rotationDerived: Quaternion
    var scaleDerived: Vector3
    var matrixDerived: Matrix4
    var outOfDate: bool

    /**
     * The cache invariant: while the flag is clear the cached local matrix is
     * that of the local fields, and the derived position is always the
     * translation column of the derived matrix.
     */
    ghost predicate Valid()
      reads this
    {
      && (!outOfDate ==> localMatrix == LocalMatrixOf(LocalState()))
      && positionDerived == TranslationPart(matrixDerived)
    }

    function LocalState(): Local
      reads this
    {
      Local(position, rotation, scale)
    }

    function WorldState(): World
      reads this
    {
      World(matrixDerived, positionDerived, rotationDerived, scaleDerived)
    }

    /** `Transform::new`: origin, identity rotation, unit scale, up to date. */
    constructor ()
      ensures Valid() && !outOfDate
      ensures LocalState() == Local(Origin, IdentityRotation, One)
      ensures localMatrix == Identity
      ensures WorldState() == RootWorld
    {
      position := Origin;
      rotation := IdentityRotation;
      scale := One;
      localMatrix := Identity;
      positionDerived := Origin;
      rotationDerived := IdentityRotation;
      scaleDerived := One;
      matrixDerived := Identity;
      outOfDate := false;
    }

    method SetPosition(p: Point)
      requires Valid()
      modifies this
      ensures Valid() && outOfDate && localMatrix == old(localMatrix)
      ensures LocalState() == old(LocalState()).(position := p)
      ensures WorldState() == old(WorldState())
    {
      position := p;
      outOfDate := true;
    }

    method SetRotation(q: Quaternion)
      requires Valid()
      modifies this
      ensures Valid() && outOfDate && localMatrix == old(localMatrix)
      ensures LocalState() == old(LocalState()).(rotation := q)
      ensures WorldState() == old(WorldState())
    {
      rotation := q;
      outOfDate := true;
    }

    method SetScale(s: Vector3)
      requires Valid()
      modifies this
      ensures Valid() && outOfDate && localMatrix == old(localMatrix)
      ensures LocalState() == old(LocalState()).(scale := s)
      ensures WorldState() == old(WorldState())
    {
      scale := s;
      outOfDate := true;
    }

    /** Moves the local position by `translation`. */
    method TranslateBy(translation: Vector3)
      requires Valid()
      modifies this
      ensures Valid() && outOfDate && localMatrix == old(localMatrix)
      ensures LocalState() == old(LocalState()).(position := Translate(old(position), translation))
      ensures WorldState() == old(WorldState())
    {
      position := Translate(position, translation);
      outOfDate := true;
    }

    /** Post-multiplies the local rotation by `q`. */
    method RotateBy(q: Quaternion)
      requires Valid()
      modifies this
      ensures Valid() && outOfDate && localMatrix == old(localMatrix)
      ensures LocalState() == old(LocalState()).(rotation := Rotate(old(rotation), q))
      ensures WorldState() == old(WorldState())
    {
      rotation := Rotate(rotation, q);
      outOfDate := true;
    }

    /** Turns the transform to face `interest` from its local position. */
    method LookAt(interest: Point, up: Vector3)
      requires Valid()
      modifies this
      ensures Valid() && outOfDate && localMatrix == old(localMatrix)
      ensures LocalState() == old(LocalState()).(rotation := LookRotation(Direction(interest, old(position)), up))
      ensures WorldState() == old(WorldState())
    {
      var forward := Direction(interest, position);
      rotation := LookRotation(forward, up);
      outOfDate := true;
    }

    /** Turns the transform to face along `forward`. */
    method LookDirection(forward: Vector3, up: Vector3)
      requires Valid()
      modifies this
      ensures Valid() && outOfDate && localMatrix == old(localMatrix)
      ensures LocalState() == old(LocalState()).(rotation := LookRotation(forward, up))
      ensures WorldState() == old(WorldState())
    {
      rotation := LookRotation(forward, up);
      outOfDate := true;
    }

    /** The derived position; reading it while out of date is fatal. */
    function PositionDerived(): (p: Point)
      reads this
      requires Valid() && !outOfDate
      ensures p == TranslationPart(DerivedMatrix())
    {
      positionDerived
    }

    /** The derived rotation; reading it while out of date is fatal. */
    function RotationDerived(): Quaternion
      reads this
      requires !outOfDate
    {
      rotationDerived
    }

    /** The derived scale; reading it while out of date is fatal. */
    function ScaleDerived(): Vector3
      reads this
      requires !outOfDate
    {
      scaleDerived
    }

    /** The derived matrix; reading it while out of date is fatal. */
    function DerivedMatrix(): Matrix4
      reads this
      requires !outOfDate
    {
      matrixDerived
    }

    /**
     * The local matrix, recomputed into the cache when the transform is out
     * of date and read from the cache otherwise. Either way it is the matrix
     * of the current local fields.
     */
    method LocalMatrix() returns (m: Matrix4)
      requires Valid()
      modifies this`localMatrix
      ensures Valid()
      ensures m == LocalMatrixOf(LocalState())
      ensures outOfDate ==> localMatrix == m
      ensures !outOfDate ==> localMatrix == old(localMatrix)
    {
      if outOfDate {
        localMatrix := LocalMatrixOf(LocalState());
      }
      m := localMatrix;
    }

    /**
     * Recomputes the derived fields from `parent`'s derived fields and clears
     * the flag. The parent must be up to date. The parent's values are read
     * before any field of this transform is written that could alias them.
     */
    method Update(parent: Transform)
      requires Valid() && parent.Valid() && !parent.outOfDate
      modifies this
      ensures Valid() && !outOfDate
      ensures LocalState() == old(LocalState())
      ensures localMatrix == LocalMatrixOf(LocalState())
      ensures WorldState() == Compose(old(parent.WorldState()), LocalState())
    {
      var local := LocalMatrix();
      var derived := Mul(parent.DerivedMatrix(), local);
      matrixDerived := derived;
      positionDerived := TranslationPart(derived);
      rotationDerived := Rotate(parent.RotationDerived(), rotation);
      scaleDerived := Scale(scale, parent.ScaleDerived());
      outOfDate := false;
    }
  }
}
