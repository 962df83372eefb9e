/** The string pool as a list of distinct strings, and the bytes that list is laid out as. */
module PoolLayout {
  import opened Bytes

  function Padding(length: nat): (n: nat)
    ensures n < 4
  {
    AlignUp(4 + length, 4) - (4 + length)
  }

  /** One pool record: the length, the bytes, and zeros up to the next multiple of four. */
  function Record(s: Str): (r: seq<byte>)
    ensures |r| == 4 + |s| + Padding(|s|)
  {
    LE(|s|, 4) + s + Zeros(Padding(|s|))
  }

  function PoolBytes(strings: seq<Str>): (r: seq<byte>) {
    if strings == [] then [] else PoolBytes(strings[..|strings| - 1]) + Record(strings[|strings| - 1])
  }

  /** Lengths that the records' 32-bit words can hold. */
  ghost predicate AllShort(strings: seq<Str>) {
    forall s :: s in strings ==> |s| < TWO_32
  }

  ghost predicate Distinct<T>(strings: seq<T>) {
    forall i, j :: 0 <= i < j < |strings| ==> strings[i] != strings[j]
  }

  /** The list after interning `s`: a plain set insertion that remembers first-come order. */
  function Interned(strings: seq<Str>, s: Str): (r: seq<Str>)
    ensures s in r && strings <= r
  {
    if s in strings then strings else strings + [s]
  }

  function InternAll(strings: seq<Str>, more: seq<Str>): (r: seq<Str>) {
    if more == [] then strings
    else Interned(InternAll(strings, more[..|more| - 1]), more[|more| - 1])
  }

  /** The offset of the record of `s`, its place when the list was first extended by it. */
  function OffsetOf(strings: seq<Str>, s: Str): (offset: nat) {
    if strings == [] then 0
    else if s in strings[..|strings| - 1] then OffsetOf(strings[..|strings| - 1], s)
    else |PoolBytes(strings[..|strings| - 1])|
  }

  // ----- offsets -----

  lemma PoolBytesSnoc(strings: seq<Str>, s: Str)
    ensures PoolBytes(strings + [s]) == PoolBytes(strings) + Record(s)
  {
    assert (strings + [s])[..|strings|] == strings;
  }

  lemma OffsetSnoc(strings: seq<Str>, s: Str, t: Str)
    ensures OffsetOf(strings + [t], s) == if s in strings then OffsetOf(strings, s) else |PoolBytes(strings)|
  {
    assert (strings + [t])[..|strings|] == strings;
  }

  /** Growth of the pool never moves a record. */
  lemma {:induction false} OffsetStable(strings: seq<Str>, longer: seq<Str>, s: Str)
    requires strings <= longer && s in strings
    ensures OffsetOf(longer, s) == OffsetOf(strings, s)
  {
    if strings == longer {
    } else {
      var init := longer[..|longer| - 1];
      OffsetStable(strings, init, s);
      assert longer == init + [longer[|longer| - 1]];
      OffsetSnoc(init, s, longer[|longer| - 1]);
    }
  }

  lemma {:induction false} PoolBytesPrefix(strings: seq<Str>, longer: seq<Str>)
    requires strings <= longer
    ensures PoolBytes(strings) <= PoolBytes(longer)
  {
    if strings == longer {
    } else {
      PoolBytesPrefix(strings, longer[..|longer| - 1]);
    }
  }

  /** Every record starts on a multiple of four, and takes at least four bytes. */
  lemma {:induction false} PoolSize(strings: seq<Str>)
    ensures |PoolBytes(strings)| % 4 == 0
    ensures 4 * |strings| <= |PoolBytes(strings)|
  {
    if strings != [] {
      PoolSize(strings[..|strings| - 1]);
      AlignUpAligned(4 + |strings[|strings| - 1]|, 4);
    }
  }

  /** The record of an interned string stands at its offset. */
  lemma {:induction false} RecordAtOffset(strings: seq<Str>, s: Str)
    requires s in strings
    ensures At(PoolBytes(strings), OffsetOf(strings, s), Record(s))
  {
    var init, last := strings[..|strings| - 1], strings[|strings| - 1];
    if s in init {
      RecordAtOffset(init, s);
      AtPrefix(PoolBytes(init), PoolBytes(strings), OffsetOf(init, s), Record(s));
    } else {
      assert s == last;
    }
  }

  lemma {:induction false} OffsetAligned(strings: seq<Str>, s: Str)
    ensures OffsetOf(strings, s) % 4 == 0
  {
    if strings != [] {
      PoolSize(strings[..|strings| - 1]);
      OffsetAligned(strings[..|strings| - 1], s);
    }
  }

  lemma AtPrefix(data: seq<byte>, longer: seq<byte>, offset: int, piece: seq<byte>)
    requires data <= longer && At(data, offset, piece)
    ensures At(longer, offset, piece)
  {
    assert longer[offset..offset + |piece|] == data[offset..offset + |piece|];
  }

  /** Two strings share an offset exactly when they are equal. */
  lemma {:induction false} OffsetsInjective(strings: seq<Str>, s: Str, t: Str)
    requires s in strings && t in strings
    ensures OffsetOf(strings, s) == OffsetOf(strings, t) <==> s == t
  {
    var init := strings[..|strings| - 1];
    if s in init && t in init {
      OffsetsInjective(init, s, t);
    } else if s in init {
      RecordAtOffset(init, s);
    } else if t in init {
      RecordAtOffset(init, t);
    }
  }

  /** What a record holds: the bytes after the length word. */
  lemma RecordParts(data: seq<byte>, offset: int, s: Str)
    requires At(data, offset, Record(s))
    ensures At(data, offset, LE(|s|, 4))
    ensures At(data, offset + 4, s)
    ensures offset + 4 + |s| + Padding(|s|) <= |data|
  {
    AtParts(data, offset, LE(|s|, 4), s, Zeros(Padding(|s|)));
  }

  // ----- runs of interns -----

  lemma InternedDistinct(strings: seq<Str>, s: Str)
    requires Distinct(strings)
    ensures Distinct(Interned(strings, s))
    ensures forall t :: t in Interned(strings, s) <==> t in strings || t == s
  {
  }

  /** After any run of interns the list holds each string once, and exactly the strings that were asked for. */
  lemma {:induction false} InternAllIsSet(strings: seq<Str>, more: seq<Str>)
    requires Distinct(strings)
    ensures Distinct(InternAll(strings, more))
    ensures strings <= InternAll(strings, more)
    ensures forall s :: s in InternAll(strings, more) <==> s in strings || s in more
  {
    if more != [] {
      var init, last := more[..|more| - 1], more[|more| - 1];
      InternAllIsSet(strings, init);
      InternedDistinct(InternAll(strings, init), last);
      assert more == init + [last];
    }
  }

  lemma {:induction false} InternAllConcat(strings: seq<Str>, a: seq<Str>, b: seq<Str>)
    ensures InternAll(strings, a + b) == InternAll(InternAll(strings, a), b)
  {
    if b == [] {
      assert a + b == a;
    } else {
      InternAllConcat(strings, a, b[..|b| - 1]);
      assert (a + b)[..|a + b| - 1] == a + b[..|b| - 1];
    }
  }
}
