/**
  BTF: a table of types that refer to each other by id.  Id 0 is void.
 */
module Btf {
  import opened Wrappers

  datatype LeafKind = Int | Float | Enum | Enum64
  datatype ModKind = Const | Restrict | Volatile | TypeTag

  /** `offset` is the raw 32-bit field: a bit offset, or a packed offset and bit size. */
  datatype Member = Member(name: string, typ: nat, offset: nat)
  datatype Param = Param(name: string, typ: nat)

  datatype Type =
    | Void
    | Leaf(kind: LeafKind, name: string, size: nat, isSigned: bool, bitOffset: nat, values: seq<(string, int)>)
    | Ptr(ref: nat)
    | Mod(mod: ModKind, name: string, ref: nat)
    | Typedef(name: string, ref: nat)
    | Fwd(isUnion: bool, name: string, ref: nat)
    | Array(elem: nat, index: nat, nelems: nat)
    | Composite(isUnion: bool, name: string, size: nat, kflag: bool, members: seq<Member>)
    | FuncProto(ret: nat, params: seq<Param>)
    | Other(name: string, refs: seq<nat>)  // FUNC, VAR, DATASEC, DECL_TAG

  const PACK := 0x100_0000
  const U32_MAX := 0xffff_ffff

  /** btf_member_bit_offset */
  function BitOffset(t: Type, idx: int): nat
    requires t.Composite? && 0 <= idx < |t.members|
  {
    if t.kflag then t.members[idx].offset % PACK else t.members[idx].offset
  }

  /** btf_member_bitfield_size */
  function BitSize(t: Type, idx: int): nat
    requires t.Composite? && 0 <= idx < |t.members|
  {
    if t.kflag then t.members[idx].offset / PACK else 0
  }

  function ParamTypes(params: seq<Param>): (s: seq<nat>)
    ensures |s| == |params|
  {
    seq(|params|, i requires 0 <= i < |params| => params[i].typ)
  }

  function MemberTypes(members: seq<Member>): (s: seq<nat>)
    ensures |s| == |members|
  {
    seq(|members|, i requires 0 <= i < |members| => members[i].typ)
  }

  /** The ids stored in a type, in the order btf_type_visit_type_ids visits them. */
  function Refs(t: Type): seq<nat> {
    match t
    case Void => []
    case Leaf(_, _, _, _, _, _) => []
    case Ptr(r) => [r]
    case Mod(_, _, r) => [r]
    case Typedef(_, r) => [r]
    case Fwd(_, _, r) => [r]
    case Array(e, x, _) => [e, x]
    case Composite(_, _, _, _, ms) => MemberTypes(ms)
    case FuncProto(r, ps) => [r] + ParamTypes(ps)
    case Other(_, rs) => rs
  }

  /** Void first, every reference inside the table, raw member offsets of 32 bits. */
  ghost predicate ValidBtf(types: seq<Type>) {
    && |types| > 0 && types[0] == Void
    && (forall i, r :: 0 <= i < |types| && r in Refs(types[i]) ==> r < |types|)
    && (forall i, j :: 0 <= i < |types| && types[i].Composite? && 0 <= j < |types[i].members| ==>
          types[i].members[j].offset <= U32_MAX)
  }

  predicate IsModOrTypedef(t: Type) { t.Mod? || t.Typedef? }

  /** btf__resolve_size with `depth` iterations left and `nelems` array elements so far. */
  function ResolveSize(types: seq<Type>, ptrSize: nat, id: nat, nelems: nat, depth: nat): Option<nat>
    decreases depth
  {
    if depth == 0 || id >= |types| then None else
    match types[id]
    case Leaf(_, _, size, _, _, _) => Total(size, nelems)
    case Composite(_, _, size, _, _) => Total(size, nelems)
    case Ptr(_) => Total(ptrSize, nelems)
    case Mod(_, _, r) => ResolveSize(types, ptrSize, r, nelems, depth - 1)
    case Typedef(_, r) => ResolveSize(types, ptrSize, r, nelems, depth - 1)
    case Array(e, _, n) =>
      if nelems != 0 && n > U32_MAX / nelems then None
      else ResolveSize(types, ptrSize, e, nelems * n, depth - 1)
    case _ => None
  }

  function Total(size: nat, nelems: nat): Option<nat> {
    if nelems != 0 && size > U32_MAX / nelems then None else Some(nelems * size)
  }

  const MAX_RESOLVE_DEPTH := 32

  function SizeOf(types: seq<Type>, ptrSize: nat, id: nat): Option<nat> {
    ResolveSize(types, ptrSize, id, 1, MAX_RESOLVE_DEPTH)
  }
}
