/** The tree a writer builds. */
module Document {
  import opened Bytes

  /** A value; floats are kept as their 64 bits. The members of an array carry no key. */
  datatype Value =
    | Null
    | Bool(b: bool)
    | Int64(i: i64)
    | UInt64(u: u64)
    | Float64(bits: u64)
    | String(s: Str)
    | Array(kids: seq<Member>)
    | Block(kids: seq<Member>)
  {
    predicate IsContainer() { Array? || Block? }

    function Members(): (ms: seq<Member>)
      ensures !IsContainer() ==> ms == []
    {
      if IsContainer() then kids else []
    }
  }

  datatype Member = Member(key: Str, value: Value)

  /** A container's kind, whatever its children. */
  function Shell(v: Value): (w: Value) {
    match v
    case Array(_) => Array([])
    case Block(_) => Block([])
    case _ => v
  }

  /** Array members are keyless, and counts fit in the 32 bits the format has for them, all the way down. */
  ghost predicate WellFormed(v: Value)
    decreases v, 0
  {
    match v
    case Array(kids) => |kids| < TWO_32 && KidsWellFormed(kids) && forall i :: 0 <= i < |kids| ==> kids[i].key == []
    case Block(kids) => |kids| < TWO_32 && KidsWellFormed(kids)
    case _ => true
  }

  ghost predicate KidsWellFormed(kids: seq<Member>)
    decreases kids, 0
  {
    forall i :: 0 <= i < |kids| ==> WellFormed(kids[i].value)
  }
}
