/** An instance made for an object of a Go struct type: the derived spec and the
    run-time value fit, so everything shown of instances applies to it. */
module NewInstance {
  import opened GoTypes
  import opened SpecParse
  import opened SpecLaws
  import opened Store

  /** A new instance on any value of a struct type starts in the invariant. */
  lemma NewInstanceKeepsInv(env: TypeEnv, zs: Zeros, ty: GoType, persistent: bool, root: Fields, disk: Fields)
    requires ZerosOf(env, zs) && IsStruct(ty) && StructHasType(env, ty, root)
    ensures Inv(Config(zs, Derive(env, ty), persistent), State(root, map[], disk))
  {
    ExpandIsOk(env, zs, ty, 0, {});
    TypedIsShaped(env, zs, ty, 0, {}, root);
  }
}
