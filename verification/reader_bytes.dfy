/** What the reader's accessors give, said of the bytes of any opened buffer. */
module ReaderBytes {
  import opened Bytes
  import opened Format
  import opened Options
  import R = Reader

  // ----- kinds -----

  ghost predicate InNodes(r: R.Handle, o: nat)
    requires R.Valid(r)
  {
    r.header.nodesOffset <= o < r.header.nodesOffset + r.header.nodesSize
  }

  /** A byte of the nodes section is a kind, or none. */
  lemma KindOnBytes(r: R.Handle, o: nat)
    requires R.Valid(r)
    ensures InNodes(r, o) ==> o < |r.base|
    ensures R.KindAt(r, o) ==
      if InNodes(r, o) && r.base[o] in {0x00, 0x01, 0x02, 0x03, 0x04, 0x05, 0x06, 0x10, 0x11} then Some(r.base[o]) else None
  {
  }

  // ----- scalars -----

  /** The first multiple of eight behind `o`, and of four. */
  function EightBehind(o: nat): (b: nat) {
    o + 8 - o % 8
  }

  function FourBehind(o: nat): (b: nat) {
    o + 4 - o % 4
  }

  lemma BehindIsAligned(o: nat)
    ensures AlignUp(o + 1, 8) == EightBehind(o) && AlignUp(o + 1, 4) == FourBehind(o)
  {
    var q, p := o / 8, o / 4;
    assert o == 8 * q + o % 8 && (o + 8) / 8 == q + 1;
    assert o == 4 * p + o % 4 && (o + 4) / 4 == p + 1;
  }

  /** A node of kind `kind` at `o` with eight bytes from `body` on. */
  ghost predicate HasWord(r: R.Handle, o: nat, kind: byte, body: nat)
    requires R.Valid(r)
  {
    InNodes(r, o) && o < |r.base| && r.base[o] == kind && body + 8 <= |r.base|
  }

  /** Numbers, booleans and strings: what is read, and exactly when nothing is. */
  lemma ScalarsOnBytes(r: R.Handle, o: nat)
    requires R.Valid(r)
    ensures var body := EightBehind(o);
      && R.Word64At(r, o, 0x04) == (if HasWord(r, o, 0x04, body) then Some(Load64(r.base, body)) else None)
      && R.Word64At(r, o, 0x05) == (if HasWord(r, o, 0x05, body) then Some(Load64(r.base, body)) else None)
    ensures R.BoolAt(r, o) ==
      if InNodes(r, o) && r.base[o] == 0x02 then Some(true)
      else if InNodes(r, o) && r.base[o] == 0x01 then Some(false)
      else None
  {
    hide AlignUp, Load64, Load32;
    BehindIsAligned(o);
  }

  /** Two's complement: the number is the word, or the word less 2^64. */
  lemma Int64OnBytes(r: R.Handle, o: nat)
    requires R.Valid(r)
    ensures R.Int64At(r, o).Some? <==> HasWord(r, o, 0x03, EightBehind(o))
    ensures R.Int64At(r, o).Some? ==> R.Int64At(r, o).value % 0x1_0000_0000_0000_0000 == Load64(r.base, EightBehind(o))
  {
    hide AlignUp, Load64, Load32;
    BehindIsAligned(o);
  }

  lemma StringOnBytes(r: R.Handle, o: nat)
    requires R.Valid(r)
    ensures var body := FourBehind(o);
      R.StringAt(r, o) ==
      if !HasWord(r, o, 0x06, body) then None
      else
        var start, length := Load32(r.base, body) + 4, Load32(r.base, body + 4);
        if start + length <= |r.base| then Some(r.base[start..start + length]) else None
  {
    hide AlignUp, Load32, Load64;
    BehindIsAligned(o);
  }

  // ----- containers -----

  /** A container at `o`: as many items of `size` bytes as it says fit behind its two words. */
  ghost predicate HasTable(r: R.Handle, o: nat, kind: byte, size: nat) {
    var body := EightBehind(o);
    && o < |r.base| && r.base[o] == kind && body + 8 <= |r.base|
    && body + 8 + Load32(r.base, body) * size <= |r.base|
  }

  lemma ContainersOnBytes(r: R.Handle, o: nat)
    ensures R.BlockBody(r, o) ==
      if HasTable(r, o, 0x10, 24) then Some(R.Body(Load32(r.base, EightBehind(o)), EightBehind(o) + 8)) else None
    ensures R.ArrayBody(r, o) ==
      if HasTable(r, o, 0x11, 8) then Some(R.Body(Load32(r.base, EightBehind(o)), EightBehind(o) + 8)) else None
  {
    hide AlignUp, Load32;
    BehindIsAligned(o);
  }

  /** An element is the word in its slot. */
  lemma ElementOnBytes(r: R.Handle, o: nat, i: nat)
    ensures var items := EightBehind(o) + 8;
      R.ArrayAt(r, o, i) ==
      if HasTable(r, o, 0x11, 8) && i < Load32(r.base, items - 8) then Some(Load64(r.base, items + 8 * i)) else None
  {
    hide AlignUp, Load32, Load64;
    BehindIsAligned(o);
  }

  /** The key and the value's place that the entry at `e` names: a key that is not all in the buffer is refused. */
  function ChildNamed(data: seq<byte>, e: nat): (c: Option<R.Child>)
    requires e + 24 <= |data|
  {
    var start, length := Load32(data, e + 8) + 4, Load32(data, e + 12);
    if start + length <= |data| then Some(R.Child(data[start..start + length], Load64(data, e + 16))) else None
  }

  lemma MemberOnBytes(r: R.Handle, o: nat, i: nat)
    ensures var items := EightBehind(o) + 8;
      R.BlockEntryAt(r, o, i) ==
      if HasTable(r, o, 0x10, 24) && i < Load32(r.base, items - 8) then ChildNamed(r.base, items + 24 * i) else None
  {
    hide AlignUp, Load32, Load64;
    BehindIsAligned(o);
  }
}
