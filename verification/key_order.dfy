/** The order the exporters sort keys by. */
module KeyOrder {
  import opened Bytes

  /** memcmp's sign on two strings of one length. */
  function Compare(a: Str, b: Str): (c: int)
    requires |a| == |b|
  {
    if a == [] then 0 else if a[0] != b[0] then a[0] - b[0] else Compare(a[1..], b[1..])
  }

  /** The exporter's comparator: the common length first, then the lengths. */
  function KeyLess(a: Str, b: Str): (less: bool) {
    var n := Min(|a|, |b|);
    var c := Compare(a[..n], b[..n]);
    if c != 0 then c < 0 else |a| < |b|
  }

  /** Lexicographic order of byte strings. */
  predicate Before(a: Str, b: Str) {
    b != [] && (a == [] || a[0] < b[0] || (a[0] == b[0] && Before(a[1..], b[1..])))
  }

  /** The comparator is lexicographic order. */
  lemma {:induction false} KeyLessIsLexicographic(a: Str, b: Str)
    ensures KeyLess(a, b) <==> Before(a, b)
  {
    var n := Min(|a|, |b|);
    if n == 0 {
      assert a[..n] == [] && b[..n] == [];
    } else {
      assert a[..n][1..] == a[1..][..n - 1] && b[..n][1..] == b[1..][..n - 1];
      KeyLessIsLexicographic(a[1..], b[1..]);
    }
  }

  /** A strict total order: never both ways, transitive, and two different keys compare. */
  lemma {:induction false} BeforeIsStrict(a: Str, b: Str)
    ensures !(Before(a, b) && Before(b, a))
    ensures Before(a, b) || Before(b, a) <==> a != b
  {
    if a != [] && b != [] && a[0] == b[0] {
      BeforeIsStrict(a[1..], b[1..]);
      assert a == [a[0]] + a[1..] && b == [b[0]] + b[1..];
    }
  }

  lemma {:induction false} BeforeIsTransitive(a: Str, b: Str, c: Str)
    requires Before(a, b) && Before(b, c)
    ensures Before(a, c)
  {
    if a != [] && b[0] == a[0] && b[0] == c[0] {
      BeforeIsTransitive(a[1..], b[1..], c[1..]);
    }
  }
}
