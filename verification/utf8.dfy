/** UTF-8: the encoding of Unicode scalar values (sections 3 and 4 of RFC 3629), and the recogniser and decoder that read it. */
module Utf8 {
  import opened Bytes
  import opened Options

  // ----- the encoding -----

  predicate IsScalar(c: nat) {
    c < 0xD800 || 0xE000 <= c <= 0x10FFFF
  }

  type Scalar = c: nat | IsScalar(c)

  /** The trailing byte that carries the six low bits of `n`. */
  function Trail(n: nat): (b: byte) {
    0x80 + n % 64
  }

  function EncodeScalar(c: Scalar): (r: seq<byte>)
    ensures 1 <= |r| <= 4
  {
    assert IsScalar(c);
    if c < 0x80 then [c]
    else if c < 0x800 then var lead: byte := 0xC0 + c / 64; [lead, Trail(c)]
    else if c < 0x10000 then var lead: byte := 0xE0 + c / 4096; [lead, Trail(c / 64), Trail(c)]
    else var lead: byte := 0xF0 + c / 262144; [lead, Trail(c / 4096), Trail(c / 64), Trail(c)]
  }

  function Encode(cs: seq<Scalar>): (r: seq<byte>) {
    if cs == [] then [] else Encode(cs[..|cs| - 1]) + EncodeScalar(cs[|cs| - 1])
  }

  ghost predicate IsUtf8(data: seq<byte>) {
    exists cs: seq<Scalar> :: Encode(cs) == data
  }

  // ----- decoding one character -----

  datatype Decoded = Decoded(codepoint: nat, length: nat)

  /** The length a lead byte announces, and the bits it carries; trailing bytes and 0xF8 upwards announce nothing. */
  function Lead(b: byte): (d: Option<Decoded>) {
    if b < 0x80 then Some(Decoded(b, 1))
    else if 0xC0 <= b < 0xE0 then Some(Decoded(b % 32, 2))
    else if 0xE0 <= b < 0xF0 then Some(Decoded(b % 16, 3))
    else if 0xF0 <= b < 0xF8 then Some(Decoded(b % 8, 4))
    else None
  }

  predicate IsTrail(b: byte) {
    0x80 <= b < 0xC0
  }

  /** Shifts in the six bits of each of `count` trailing bytes. */
  function Shifted(data: seq<byte>, from: nat, count: nat, bits: nat): (c: Option<nat>)
    requires from + count <= |data|
  {
    if count == 0 then Some(bits)
    else
      match Shifted(data, from, count - 1, bits)
      case None => None
      case Some(c) => if IsTrail(data[from + count - 1]) then Some(c * 64 + data[from + count - 1] % 64) else None
  }

  /** What the exporter decodes: the right number of trailing bytes is all it asks for. */
  function LooseAt(data: seq<byte>, i: nat): (d: Option<Decoded>)
    requires i < |data|
  {
    match Lead(data[i])
    case None => None
    case Some(lead) =>
      if i + lead.length > |data| then None
      else
        match Shifted(data, i + 1, lead.length - 1, lead.codepoint)
        case None => None
        case Some(c) => Some(Decoded(c, lead.length))
  }

  /** No overlong form, no surrogate, nothing above U+10FFFF. */
  predicate Shortest(d: Decoded) {
    && IsScalar(d.codepoint)
    && (d.length == 2 ==> d.codepoint >= 0x80)
    && (d.length == 3 ==> d.codepoint >= 0x800)
    && (d.length == 4 ==> d.codepoint >= 0x10000)
  }

  function StrictAt(data: seq<byte>, i: nat): (d: Option<Decoded>)
    requires i < |data|
  {
    match LooseAt(data, i)
    case None => None
    case Some(d) => if Shortest(d) then Some(d) else None
  }

  lemma ShiftedOne(data: seq<byte>, from: nat, count: nat, bits: nat)
    requires 0 < count && from + count <= |data|
    ensures Shifted(data, from, count, bits) ==
      if IsTrail(data[from]) then Shifted(data, from + 1, count - 1, bits * 64 + data[from] % 64) else None
  {
    if count > 1 {
      ShiftedOne(data, from, count - 1, bits);
    }
  }

  lemma Digits(a: nat, b: nat, c: nat, d: nat)
    requires b < 64 && c < 64 && d < 64
    ensures var n := ((a * 64 + b) * 64 + c) * 64 + d;
      n % 64 == d && n / 64 % 64 == c && n / 4096 % 64 == b && n / 262144 == a && n / 64 == (a * 64 + b) * 64 + c && n / 4096 == a * 64 + b
  {
  }

  /** Two, three or four bytes, the trailing ones being trailing bytes. */
  lemma LooseParts(data: seq<byte>, i: nat, n: nat)
    requires i + n <= |data| && 1 <= n <= 4 && Lead(data[i]).Some? && Lead(data[i]).value.length == n
    ensures var bits := Lead(data[i]).value.codepoint;
      && (n == 1 ==> LooseAt(data, i) == Some(Decoded(bits, 1)))
      && (n == 2 ==> LooseAt(data, i) == if IsTrail(data[i + 1]) then Some(Decoded(bits * 64 + data[i + 1] % 64, 2)) else None)
      && (n == 3 ==> LooseAt(data, i) == if IsTrail(data[i + 1]) && IsTrail(data[i + 2])
            then Some(Decoded((bits * 64 + data[i + 1] % 64) * 64 + data[i + 2] % 64, 3)) else None)
      && (n == 4 ==> LooseAt(data, i) == if IsTrail(data[i + 1]) && IsTrail(data[i + 2]) && IsTrail(data[i + 3])
            then Some(Decoded(((bits * 64 + data[i + 1] % 64) * 64 + data[i + 2] % 64) * 64 + data[i + 3] % 64, 4)) else None)
  {
    hide IsTrail, Lead;
    var bits := Lead(data[i]).value.codepoint;
    if n > 1 {
      ShiftedOne(data, i + 1, n - 1, bits);
    }
    if n > 2 {
      ShiftedOne(data, i + 2, n - 2, bits * 64 + data[i + 1] % 64);
    }
    if n > 3 {
      ShiftedOne(data, i + 3, n - 3, (bits * 64 + data[i + 1] % 64) * 64 + data[i + 2] % 64);
    }
  }

  predicate TrailAt(data: seq<byte>, i: nat) {
    i < |data| && 0x80 <= data[i] <= 0xBF
  }

  function SixMore(bits: nat, b: nat): (n: nat) {
    bits * 0x40 + b % 0x40
  }

  /** What the exporter decodes, and from which bytes. */
  lemma LooseBytes(data: seq<byte>, i: nat)
    requires i < |data|
    ensures var b := data[i];
      LooseAt(data, i) ==
      if b <= 0x7F then Some(Decoded(b, 1))
      else if 0xC0 <= b <= 0xDF && TrailAt(data, i + 1) then Some(Decoded(SixMore(b % 0x20, data[i + 1]), 2))
      else if 0xE0 <= b <= 0xEF && TrailAt(data, i + 1) && TrailAt(data, i + 2) then
        Some(Decoded(SixMore(SixMore(b % 0x10, data[i + 1]), data[i + 2]), 3))
      else if 0xF0 <= b <= 0xF7 && TrailAt(data, i + 1) && TrailAt(data, i + 2) && TrailAt(data, i + 3) then
        Some(Decoded(SixMore(SixMore(SixMore(b % 0x08, data[i + 1]), data[i + 2]), data[i + 3]), 4))
      else None
  {
    hide Shifted;
    var lead := Lead(data[i]);
    if lead.Some? && i + lead.value.length <= |data| {
      LooseParts(data, i, lead.value.length);
    }
  }

  lemma Encodes2(b0: byte, b1: byte)
    requires 0xC0 <= b0 < 0xE0 && IsTrail(b1) && IsScalar(b0 % 32 * 64 + b1 % 64) && b0 % 32 * 64 + b1 % 64 >= 0x80
    ensures EncodeScalar(b0 % 32 * 64 + b1 % 64) == [b0, b1]
  {
    Digits(0, 0, b0 % 32, b1 % 64);
  }

  lemma Encodes3(b0: byte, b1: byte, b2: byte)
    requires 0xE0 <= b0 < 0xF0 && IsTrail(b1) && IsTrail(b2)
    requires IsScalar((b0 % 16 * 64 + b1 % 64) * 64 + b2 % 64) && (b0 % 16 * 64 + b1 % 64) * 64 + b2 % 64 >= 0x800
    ensures EncodeScalar((b0 % 16 * 64 + b1 % 64) * 64 + b2 % 64) == [b0, b1, b2]
  {
    Digits(0, b0 % 16, b1 % 64, b2 % 64);
  }

  lemma Encodes4(b0: byte, b1: byte, b2: byte, b3: byte)
    requires 0xF0 <= b0 < 0xF8 && IsTrail(b1) && IsTrail(b2) && IsTrail(b3)
    requires IsScalar(((b0 % 8 * 64 + b1 % 64) * 64 + b2 % 64) * 64 + b3 % 64)
    requires ((b0 % 8 * 64 + b1 % 64) * 64 + b2 % 64) * 64 + b3 % 64 >= 0x10000
    ensures EncodeScalar(((b0 % 8 * 64 + b1 % 64) * 64 + b2 % 64) * 64 + b3 % 64) == [b0, b1, b2, b3]
  {
    Digits(b0 % 8, b1 % 64, b2 % 64, b3 % 64);
  }

  /** What is accepted is the encoding of a scalar value. */
  lemma AcceptedIsEncoded(data: seq<byte>, i: nat)
    requires i < |data| && StrictAt(data, i).Some?
    ensures var d := StrictAt(data, i).value;
      IsScalar(d.codepoint) && d.length == |EncodeScalar(d.codepoint)| && At(data, i, EncodeScalar(d.codepoint))
  {
    hide Shifted, LooseAt, EncodeScalar;
    var lead := LooseLead(data, i);
    LooseParts(data, i, lead.length);
    var piece := data[i..i + lead.length];
    if lead.length == 1 {
      Encodes1(data[i]);
      assert piece == [data[i]];
    } else if lead.length == 2 {
      Encodes2(data[i], data[i + 1]);
      assert piece == [data[i], data[i + 1]];
    } else if lead.length == 3 {
      Encodes3(data[i], data[i + 1], data[i + 2]);
      assert piece == [data[i], data[i + 1], data[i + 2]];
    } else {
      Encodes4(data[i], data[i + 1], data[i + 2], data[i + 3]);
      assert piece == [data[i], data[i + 1], data[i + 2], data[i + 3]];
    }
  }

  lemma Encodes1(b: byte)
    requires b < 0x80
    ensures EncodeScalar(b) == [b]
  {
  }

  lemma LooseLead(data: seq<byte>, i: nat) returns (lead: Decoded)
    requires i < |data| && LooseAt(data, i).Some?
    ensures Lead(data[i]) == Some(lead) && 1 <= lead.length <= 4 && i + lead.length <= |data|
  {
    lead := Lead(data[i]).value;
  }

  /** What an encoding looks like to the decoder. */
  lemma EncodedShape(c: Scalar)
    ensures var r := EncodeScalar(c);
      && Lead(r[0]).Some? && Lead(r[0]).value.length == |r| && Shortest(Decoded(c, |r|))
      && (forall k :: 1 <= k < |r| ==> IsTrail(r[k]))
      && var bits := Lead(r[0]).value.codepoint;
        && (|r| == 1 ==> c == bits)
        && (|r| == 2 ==> c == bits * 64 + r[1] % 64)
        && (|r| == 3 ==> c == (bits * 64 + r[1] % 64) * 64 + r[2] % 64)
        && (|r| == 4 ==> c == ((bits * 64 + r[1] % 64) * 64 + r[2] % 64) * 64 + r[3] % 64)
  {
    hide IsTrail, Trail;
    assert IsScalar(c);
    TrailBits(c);
    if c < 0x80 {
    } else if c < 0x800 {
      LeadBits(c / 64, 2);
    } else if c < 0x10000 {
      TrailBits(c / 64);
      Split3(c);
      LeadBits(c / 4096, 3);
    } else {
      TrailBits(c / 64);
      TrailBits(c / 4096);
      SplitDigits(c);
      LeadBits(c / 262144, 4);
    }
  }

  lemma Split3(c: nat)
    ensures c == (c / 4096 * 64 + c / 64 % 64) * 64 + c % 64
  {
  }

  /** A lead byte gives back the bits put into it. */
  lemma LeadBits(bits: nat, n: nat)
    requires n == 2 ==> bits < 32
    requires n == 3 ==> bits < 16
    requires n == 4 ==> bits < 5
    ensures n == 2 ==> Lead(0xC0 + bits) == Some(Decoded(bits, 2))
    ensures n == 3 ==> Lead(0xE0 + bits) == Some(Decoded(bits, 3))
    ensures n == 4 ==> Lead(0xF0 + bits) == Some(Decoded(bits, 4))
  {
  }

  lemma TrailBits(n: nat)
    ensures Trail(n) % 64 == n % 64 && IsTrail(Trail(n))
  {
  }

  lemma SplitDigits(c: nat)
    ensures c == ((c / 262144 * 64 + c / 4096 % 64) * 64 + c / 64 % 64) * 64 + c % 64
    ensures c / 4096 == c / 262144 * 64 + c / 4096 % 64 && c / 64 == c / 4096 * 64 + c / 64 % 64
  {
  }

  /** The encoding of a scalar value is accepted, and gives that value. */
  lemma EncodedIsAccepted(data: seq<byte>, i: nat, c: Scalar)
    requires At(data, i, EncodeScalar(c))
    ensures i < |data| && StrictAt(data, i) == Some(Decoded(c, |EncodeScalar(c)|))
  {
    hide Shifted, LooseAt, EncodeScalar, Lead, IsTrail, Shortest;
    var r := EncodeScalar(c);
    EncodedShape(c);
    SliceBytes(data, i, r);
    LooseParts(data, i, |r|);
  }

  lemma SliceBytes(data: seq<byte>, i: nat, r: seq<byte>)
    requires At(data, i, r) && 1 <= |r| <= 4
    ensures data[i] == r[0] && (|r| > 1 ==> data[i + 1] == r[1]) && (|r| > 2 ==> data[i + 2] == r[2]) && (|r| > 3 ==> data[i + 3] == r[3])
  {
    var piece := data[i..i + |r|];
    assert piece[0] == data[i];
    assert |r| > 1 ==> piece[1] == data[i + 1];
    assert |r| > 2 ==> piece[2] == data[i + 2];
    assert |r| > 3 ==> piece[3] == data[i + 3];
  }

  // ----- whole strings -----

  /** A prefix of a string of scalars encodes to a prefix. */
  lemma {:induction false} EncodePrefix(cs: seq<Scalar>, k: nat)
    requires k <= |cs|
    ensures Encode(cs[..k]) <= Encode(cs)
    ensures k < |cs| ==> At(Encode(cs), |Encode(cs[..k])|, EncodeScalar(cs[k]))
    decreases |cs| - k
  {
    hide EncodeScalar;
    if k == |cs| {
      assert cs[..k] == cs;
    } else {
      EncodePrefix(cs, k + 1);
      assert cs[..k + 1][..k] == cs[..k];
      var whole, mid := Encode(cs), Encode(cs[..k]);
      assert Encode(cs[..k + 1]) == mid + EncodeScalar(cs[k]);
      assert whole[|mid|..|mid| + |EncodeScalar(cs[k])|] == EncodeScalar(cs[k]);
    }
  }

  lemma EncodeSnoc(cs: seq<Scalar>, c: Scalar)
    ensures Encode(cs + [c]) == Encode(cs) + EncodeScalar(c)
  {
    assert (cs + [c])[..|cs|] == cs;
  }

  /** Two strings of scalars, the encoding of one a prefix of that of the other: the one is a prefix of the other. */
  lemma {:induction false} PrefixDecodes(a: seq<Scalar>, b: seq<Scalar>)
    requires Encode(a) <= Encode(b)
    ensures a <= b
  {
    hide EncodeScalar;
    if a != [] {
      var n := |a| - 1;
      EncodePrefix(a, n);
      PrefixDecodes(a[..n], b);
      EncodePrefix(b, n);
      assert b[..n] == a[..n];
      LastDecodes(a, b, n);
    }
  }

  lemma LastDecodes(a: seq<Scalar>, b: seq<Scalar>, n: nat)
    requires |a| == n + 1 && n <= |b| && a[..n] == b[..n] && Encode(a) <= Encode(b)
    ensures n < |b| && a[n] == b[n]
  {
    hide EncodeScalar;
    EncodePrefix(a, n);
    EncodePrefix(b, n);
    var p := |Encode(a[..n])|;
    var r := EncodeScalar(a[n]);
    assert Encode(a) == Encode(a[..n]) + r;
    assert Encode(b)[p..p + |r|] == Encode(a)[p..p + |r|] == r;
    assert b[..|b|] == b;
    if n < |b| {
      EncodedIsAccepted(Encode(b), p, a[n]);
      EncodedIsAccepted(Encode(b), p, b[n]);
    }
  }

  /** A UTF-8 string is the encoding of one string of scalars only. */
  lemma DecodingIsUnique(a: seq<Scalar>, b: seq<Scalar>)
    requires Encode(a) == Encode(b)
    ensures a == b
  {
    PrefixDecodes(a, b);
    PrefixDecodes(b, a);
  }

  /** Where the strict decoder fails, no encoding goes on. */
  lemma RejectedIsNotUtf8(data: seq<byte>, cs: seq<Scalar>)
    requires Encode(cs) <= data && |Encode(cs)| < |data| && StrictAt(data, |Encode(cs)|).None?
    ensures !IsUtf8(data)
  {
    hide EncodeScalar, StrictAt;
    if IsUtf8(data) {
      var all: seq<Scalar> :| Encode(all) == data;
      PrefixDecodes(cs, all);
      assert all[..|cs|] == cs && all[..|all|] == all;
      if |cs| < |all| {
        EncodePrefix(all, |cs|);
        EncodedIsAccepted(data, |Encode(cs)|, all[|cs|]);
      }
    }
  }

  // ----- the recogniser -----

  /** The trailing bytes' loop. */
  method ShiftIn(data: seq<byte>, index: nat, length: nat, bits: nat) returns (c: Option<nat>)
    requires length >= 1 && index + length <= |data|
    ensures c == Shifted(data, index + 1, length - 1, bits)
  {
    var codepoint: nat := bits;
    var k := 1;
    while k < length
      invariant 1 <= k <= length
      invariant Shifted(data, index + 1, k - 1, bits) == Some(codepoint)
    {
      var continuation := data[index + k];
      if !IsTrail(continuation) {
        ShiftedFails(data, index + 1, k, length - 1, bits);
        return None;
      }
      codepoint := codepoint * 64 + continuation % 64;
      k := k + 1;
    }
    c := Some(codepoint);
  }

  lemma {:induction false} ShiftedFails(data: seq<byte>, from: nat, k: nat, count: nat, bits: nat)
    requires k <= count && from + count <= |data| && Shifted(data, from, k, bits) == None
    ensures Shifted(data, from, count, bits) == None
  {
    if k < count {
      ShiftedFails(data, from, k, count - 1, bits);
    }
  }

  // ----- bytes that are not all there -----

  /**
   * `data` is what there is of `length` bytes. A sequence starts at `k` that ends among them but not in `data`, and nothing
   * of it that is there is refused.
   */
  predicate CutAt(data: seq<byte>, length: nat, k: nat)
    requires k <= |data|
  {
    k < length && (k == |data| || SequenceCut(data, length, k, Lead(data[k])))
  }

  predicate SequenceCut(data: seq<byte>, length: nat, k: nat, lead: Option<Decoded>)
    requires k < |data|
  {
    && lead.Some? && !(lead.value.length == 2 && lead.value.codepoint < 2)
    && |data| < k + lead.value.length <= length
    && forall j :: k < j < |data| ==> IsTrail(data[j])
  }

  /** Characters, and then a sequence that is cut off. */
  ghost predicate CutOff(data: seq<byte>, length: nat) {
    exists cs: seq<Scalar> :: CutAfter(data, length, cs)
  }

  ghost predicate CutAfter(data: seq<byte>, length: nat, cs: seq<Scalar>) {
    Encode(cs) <= data && CutAt(data, length, |Encode(cs)|)
  }

  /** What is all there is not cut off. */
  lemma WholeNotCut(data: seq<byte>, length: nat)
    requires |data| == length
    ensures !CutOff(data, length)
  {
    hide Lead;
  }

  /** What is cut off is no sequence that is all there. */
  lemma CutIsRejected(data: seq<byte>, length: nat, k: nat)
    requires k < |data| && CutAt(data, length, k)
    ensures StrictAt(data, k).None?
  {
    hide Shifted;
  }

  /** There is one place only where characters give way to something the strict decoder does not take. */
  lemma StopsOnce(data: seq<byte>, a: seq<Scalar>, b: seq<Scalar>)
    requires Encode(a) <= data && (|Encode(a)| < |data| ==> StrictAt(data, |Encode(a)|).None?)
    requires Encode(b) <= data
    ensures b <= a
  {
    hide EncodeScalar, StrictAt;
    if |Encode(b)| <= |Encode(a)| {
      assert Encode(b) <= Encode(a);
      PrefixDecodes(b, a);
    } else {
      assert Encode(a) <= Encode(b);
      PrefixDecodes(a, b);
      GoesOn(data, a, b);
    }
  }

  lemma GoesOn(data: seq<byte>, a: seq<Scalar>, b: seq<Scalar>)
    requires a <= b && Encode(b) <= data && |Encode(a)| < |Encode(b)|
    ensures StrictAt(data, |Encode(a)|).Some?
  {
    hide EncodeScalar, StrictAt;
    assert b[..|a|] == a && b[..|b|] == b;
    EncodePrefix(b, |a|);
    var c := b[|a|];
    assert data[|Encode(a)|..|Encode(a)| + |EncodeScalar(c)|] == Encode(b)[|Encode(a)|..|Encode(a)| + |EncodeScalar(c)|];
    EncodedIsAccepted(data, |Encode(a)|, c);
  }

  /** Where the recogniser stops on characters it has read, the cut is there or nowhere. */
  lemma CutHere(data: seq<byte>, length: nat, cs: seq<Scalar>)
    requires |data| <= length && Encode(cs) <= data && (|Encode(cs)| < |data| ==> StrictAt(data, |Encode(cs)|).None?)
    ensures CutOff(data, length) <==> CutAt(data, length, |Encode(cs)|)
  {
    hide EncodeScalar, StrictAt, CutAt;
    if CutAt(data, length, |Encode(cs)|) {
      assert CutAfter(data, length, cs);
    }
    if CutOff(data, length) {
      var all: seq<Scalar> :| CutAfter(data, length, all);
      if |Encode(all)| < |data| {
        CutIsRejected(data, length, |Encode(all)|);
      }
      StopsOnce(data, cs, all);
      StopsOnce(data, all, cs);
      assert all == cs;
    }
  }

  /**
   * The recogniser over `length` bytes of which only `data` is there. It goes beyond `data` exactly when characters are
   * followed by a sequence that is cut off; it accepts exactly when all is there and is UTF-8.
   */
  method Recognise(data: seq<byte>, length: nat) returns (ok: Option<bool>)
    requires |data| <= length
    ensures ok.None? <==> CutOff(data, length)
    ensures ok == Some(true) <==> |data| == length && IsUtf8(data)
  {
    hide EncodeScalar, Shifted, Shortest, Lead, CutAt, CutOff;
    var index := 0;
    ghost var cs: seq<Scalar> := [];
    while index < length
      invariant 0 <= index <= |data| && Encode(cs) == data[..index]
      decreases length - index
    {
      var step := StepAt(data, length, index);
      if step.None? || step.value == 0 {
        if index < |data| {
          RejectedIsNotUtf8(data, cs);
        }
        CutHere(data, length, cs);
        return if step.None? then None else Some(false);
      }
      AcceptedIsEncoded(data, index);
      EncodeSnoc(cs, StrictAt(data, index).value.codepoint);
      cs := cs + [StrictAt(data, index).value.codepoint];
      assert data[..index + step.value] == data[..index] + data[index..index + step.value];
      index := index + step.value;
    }
    assert data[..index] == data;
    CutHere(data, length, cs);
    assert !CutAt(data, length, length) by { NotCutAtTheEnd(data, length); }
    ok := Some(true);
  }

  lemma NotCutAtTheEnd(data: seq<byte>, length: nat)
    requires |data| == length
    ensures !CutAt(data, length, length)
  {
  }

  /** What the trailing bytes' loop finds: the codepoint, a byte that is no trailing byte, or the end of what is there. */
  datatype Trailing = Complete(codepoint: nat) | Refused | Beyond

  method TrailIn(data: seq<byte>, index: nat, length: nat, bits: nat) returns (t: Trailing)
    requires length >= 1 && index < |data|
    ensures t == Beyond <==> index + length > |data| && forall j :: index < j < |data| ==> IsTrail(data[j])
    ensures index + length <= |data| ==> (t.Complete? <==> Shifted(data, index + 1, length - 1, bits).Some?)
    ensures t.Complete? ==> index + length <= |data| && Shifted(data, index + 1, length - 1, bits) == Some(t.codepoint)
  {
    var codepoint: nat := bits;
    var k := 1;
    while k < length
      invariant 1 <= k <= length && index + k <= |data|
      invariant forall j :: index < j < index + k ==> IsTrail(data[j])
      invariant Shifted(data, index + 1, k - 1, bits) == Some(codepoint)
    {
      if index + k >= |data| {
        return Beyond;
      }
      var continuation := data[index + k];
      if !IsTrail(continuation) {
        if index + length <= |data| {
          ShiftedFails(data, index + 1, k, length - 1, bits);
        }
        return Refused;
      }
      codepoint := codepoint * 64 + continuation % 64;
      k := k + 1;
    }
    t := Complete(codepoint);
  }

  /** One turn of the recogniser's loop: the length of the sequence at `index`, 0 when it is not well formed, nothing when it is cut off. */
  method StepAt(data: seq<byte>, length: nat, index: nat) returns (n: Option<nat>)
    requires index < length && index <= |data| <= length
    ensures n.None? <==> CutAt(data, length, index)
    ensures n.Some? ==> index < |data| && n.value == if StrictAt(data, index).Some? then StrictAt(data, index).value.length else 0
    ensures n.Some? ==> (n.value > 0 <==> StrictAt(data, index).Some?)
    ensures n.None? && index < |data| ==> StrictAt(data, index).None?
  {
    hide Shifted;
    if index >= |data| {
      return None;
    }
    var b := data[index];
    if b < 0x80 {
      OneByte(data, index);
      return Some(1);
    }
    if Lead(b).None? {
      return Some(0);
    }
    var sequenceLength: nat := Lead(b).value.length;
    var bits := Lead(b).value.codepoint;
    if sequenceLength == 2 && bits < 2 {
      if index + 2 <= |data| {
        LooseSmall(data, index);
      }
      return Some(0);
    }
    if index + sequenceLength > length {
      return Some(0);
    }
    var trailing := TrailIn(data, index, sequenceLength, bits);
    if trailing == Beyond {
      return None;
    }
    if trailing == Refused {
      return Some(0);
    }
    var codepoint := trailing.codepoint;
    if sequenceLength == 2 {
      LooseSmall(data, index);
    }
    if sequenceLength == 3 && codepoint < 0x800 {
      return Some(0);
    }
    if sequenceLength == 4 && (codepoint < 0x10000 || codepoint > 0x10FFFF) {
      return Some(0);
    }
    if 0xD800 <= codepoint <= 0xDFFF {
      return Some(0);
    }
    LooseBounds(data, index);
    n := Some(sequenceLength);
  }

  lemma OneByte(data: seq<byte>, i: nat)
    requires i < |data| && data[i] < 0x80
    ensures StrictAt(data, i) == Some(Decoded(data[i], 1))
  {
    LooseParts(data, i, 1);
  }

  /** Two bytes: overlong exactly when the lead byte carries less than 2. */
  lemma LooseSmall(data: seq<byte>, i: nat)
    requires i < |data| && Lead(data[i]).Some? && Lead(data[i]).value.length == 2
    ensures LooseAt(data, i).Some? ==> (LooseAt(data, i).value.codepoint < 0x80 <==> Lead(data[i]).value.codepoint < 2)
    ensures LooseAt(data, i).Some? ==> LooseAt(data, i).value.codepoint < 0x800
  {
    if LooseAt(data, i).Some? {
      LooseParts(data, i, 2);
    }
  }

  lemma LooseBounds(data: seq<byte>, i: nat)
    requires i < |data| && LooseAt(data, i).Some?
    ensures LooseAt(data, i).value.length < 4 ==> LooseAt(data, i).value.codepoint < 0x10000
  {
    var lead := LooseLead(data, i);
    LooseParts(data, i, lead.length);
  }

  /** On an accepted string the exporter's decoder never fails and gives the very scalars. */
  lemma LooseAgrees(cs: seq<Scalar>, k: nat)
    requires k < |cs|
    ensures var p := |Encode(cs[..k])|;
      p < |Encode(cs)| && LooseAt(Encode(cs), p) == Some(Decoded(cs[k], |EncodeScalar(cs[k])|))
  {
    hide EncodeScalar, LooseAt;
    EncodePrefix(cs, k);
    EncodedIsAccepted(Encode(cs), |Encode(cs[..k])|, cs[k]);
  }
}
