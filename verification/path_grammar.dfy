/** Which paths spell which steps, for every path, and that resolving any path walks the tree. */
module PathGrammar {
  import opened Bytes
  import opened Canonical
  import opened Document
  import opened Options
  import opened Paths
  import opened ReadBack
  import opened Sequences
  import E = Encode
  import L = Layout
  import R = Reader
  import RT = RoundTrip

  // ----- the grammar -----

  /** A dot, a key in quotes, a key as it is, or digits in brackets. */
  datatype Piece = Dot | Quoted(key: Str, quote: byte) | Bare(key: Str) | Bracketed(digits: seq<byte>)

  function PieceText(p: Piece): (text: seq<byte>) {
    match p
    case Dot => [0x2E]
    case Quoted(key, quote) => [quote] + key + [quote]
    case Bare(key) => key
    case Bracketed(digits) => [0x5B] + digits + [0x5D]
  }

  /** A key that can stand without quotes: not empty, no dot and no bracket in it, no quote in front. */
  predicate IsBare(key: Str) {
    key != [] && 0x2E !in key && 0x5B !in key && key[0] != 0x27 && key[0] != 0x22
  }

  predicate PieceOk(p: Piece) {
    match p
    case Dot => true
    case Quoted(key, quote) => (quote == 0x27 || quote == 0x22) && key != [] && quote !in key
    case Bare(key) => IsBare(key)
    case Bracketed(digits) =>
      1 <= |digits| <= 10 && (forall i :: 0 <= i < |digits| ==> 0x30 <= digits[i] <= 0x39) && Decimals(digits) < 0x1_0000_0000
  }

  function Pow10(k: nat): (n: nat) {
    if k == 0 then 1 else 10 * Pow10(k - 1)
  }

  /** The number that decimal digits write. */
  function Decimals(digits: seq<byte>): (n: int) {
    if digits == [] then 0 else DigitValue(digits[0]) * Pow10(|digits| - 1) + Decimals(digits[1..])
  }

  function DigitValue(b: byte): (d: int) {
    b as int - 0x30
  }

  /** A bare key goes up to a dot, a bracket or the end. */
  predicate PiecesOk(ps: seq<Piece>) {
    && (forall i :: 0 <= i < |ps| ==> PieceOk(ps[i]))
    && (forall i :: 0 <= i < |ps| - 1 && ps[i].Bare? ==> ps[i + 1].Dot? || ps[i + 1].Bracketed?)
  }

  function PathText(ps: seq<Piece>): (path: seq<byte>) {
    if ps == [] then [] else PieceText(ps[0]) + PathText(ps[1..])
  }

  function StepsOf(ps: seq<Piece>): (steps: seq<Step>)
    requires PiecesOk(ps)
  {
    if ps == [] then []
    else
      PieceSteps(ps[0]) + StepsOf(ps[1..])
  }

  function PieceSteps(p: Piece): (steps: seq<Step>)
    requires PieceOk(p)
  {
    match p
    case Dot => []
    case Quoted(key, _) => [Key(key)]
    case Bare(key) => [Key(key)]
    case Bracketed(digits) => [Index(DigitsNumber(digits))]
  }

  function DigitsNumber(digits: seq<byte>): (n: nat)
    requires forall i :: 0 <= i < |digits| ==> 0x30 <= digits[i] <= 0x39
  {
    DecimalsAreNatural(digits);
    Decimals(digits)
  }

  lemma {:induction false} DecimalsAreNatural(digits: seq<byte>)
    requires forall i :: 0 <= i < |digits| ==> 0x30 <= digits[i] <= 0x39
    ensures Decimals(digits) >= 0
  {
    if digits != [] {
      DecimalsAreNatural(digits[1..]);
      MulNonNegative(DigitValue(digits[0]), Pow10(|digits| - 1));
    }
  }

  // ----- numbers -----

  lemma {:induction false} DecimalsSnoc(digits: seq<byte>, d: byte)
    ensures Decimals(digits + [d]) == 10 * Decimals(digits) + DigitValue(d)
  {
    if digits == [] {
      assert [] + [d] == [d] && [d][1..] == [];
    } else {
      assert (digits + [d])[1..] == digits[1..] + [d];
      DecimalsSnoc(digits[1..], d);
      TenTimes(DigitValue(digits[0]), Pow10(|digits| - 1));
    }
  }

  lemma TenTimes(a: int, b: int)
    ensures a * (10 * b) == 10 * (a * b)
  {
  }

  lemma {:induction false} NumberIsDecimals(digits: seq<byte>)
    ensures NumberOf(digits).Some? <==> forall i :: 0 <= i < |digits| ==> 0x30 <= digits[i] <= 0x39
    ensures NumberOf(digits).Some? ==> NumberOf(digits).value == Decimals(digits)
  {
    if digits != [] {
      var n := |digits| - 1;
      NumberIsDecimals(digits[..n]);
      assert digits == digits[..n] + [digits[n]];
      DecimalsSnoc(digits[..n], digits[n]);
      assert forall i :: 0 <= i < n ==> digits[..n][i] == digits[i];
    }
  }

  lemma IndexIsBracketed(digits: seq<byte>)
    ensures IndexOf(digits).Some? <==> PieceOk(Bracketed(digits))
    ensures PieceOk(Bracketed(digits)) ==> IndexOf(digits) == Some(DigitsNumber(digits)) && CLOSE !in digits
  {
    NumberIsDecimals(digits);
  }

  // ----- what pieces spell -----

  lemma {:induction false} PlainEndAt(path: seq<byte>, from: nat, end: nat)
    requires from <= end <= |path| && (forall i :: from <= i < end ==> path[i] != 0x2E && path[i] != 0x5B)
    requires end < |path| ==> path[end] == 0x2E || path[end] == 0x5B
    ensures PlainEnd(path, from) == end
    decreases end - from
  {
    if from < end {
      PlainEndAt(path, from + 1, end);
    }
  }

  lemma {:induction false} PlainEndIs(path: seq<byte>, from: nat)
    requires from <= |path|
    ensures forall i :: from <= i < PlainEnd(path, from) ==> path[i] != 0x2E && path[i] != 0x5B
    ensures PlainEnd(path, from) < |path| ==> path[PlainEnd(path, from)] == 0x2E || path[PlainEnd(path, from)] == 0x5B
    decreases |path| - from
  {
    if from < |path| && path[from] != DOT && path[from] != OPEN {
      PlainEndIs(path, from + 1);
    }
  }

  lemma BytesOf(path: seq<byte>, at: nat, piece: seq<byte>)
    requires At(path, at, piece)
    ensures forall i :: 0 <= i < |piece| ==> path[at + i] == piece[i]
  {
    forall i | 0 <= i < |piece|
      ensures path[at + i] == piece[i]
    {
      assert path[at..at + |piece|][i] == path[at + i];
    }
  }

  /** A bare key that goes up to a dot, a bracket or the end is read as itself. */
  lemma BareReads(path: seq<byte>, at: nat, key: Str)
    requires At(path, at, key) && IsBare(key)
    requires at + |key| < |path| ==> path[at + |key|] == 0x2E || path[at + |key|] == 0x5B
    ensures at < |path| && path[at] != DOT && SegmentAt(path, at) == Some(Segment(Key(key), at + |key|))
  {
    BytesOf(path, at, key);
    assert path[at + 0] == key[0];
    forall i | at <= i < at + |key|
      ensures path[i] != 0x2E && path[i] != 0x5B
    {
      assert path[at + (i - at)] == key[i - at];
    }
    PlainEndAt(path, at, at + |key|);
  }

  lemma BracketedReads(path: seq<byte>, at: nat, digits: seq<byte>)
    requires At(path, at, [0x5B] + digits + [0x5D]) && PieceOk(Bracketed(digits))
    ensures at < |path| && path[at] != DOT && SegmentAt(path, at) == Some(Segment(Index(DigitsNumber(digits)), at + |digits| + 2))
  {
    hide IndexOf, PlaceOf, At, PieceOk, DigitsNumber;
    IndexIsBracketed(digits);
    Marked(path, at, OPEN, digits, CLOSE);
  }

  lemma QuotedReads(path: seq<byte>, at: nat, key: Str, quote: byte)
    requires At(path, at, PieceText(Quoted(key, quote))) && PieceOk(Quoted(key, quote))
    ensures at < |path| && path[at] != DOT && SegmentAt(path, at) == Some(Segment(Key(key), at + |key| + 2))
  {
    hide PlaceOf, At;
    Marked(path, at, quote, key, quote);
  }

  /** How the text of pieces starts. */
  lemma PathStarts(ps: seq<Piece>)
    requires PiecesOk(ps) && ps != []
    ensures PathText(ps) != [] && PathText(ps)[0] == PieceText(ps[0])[0]
    ensures PathText(ps)[0] == 0x2E <==> ps[0].Dot?
    ensures PathText(ps)[0] == 0x5B <==> ps[0].Bracketed?
  {
  }

  /** What is read where a piece stands. */
  lemma PieceReads(path: seq<byte>, at: nat, p: Piece)
    requires At(path, at, PieceText(p)) && PieceOk(p)
    requires var next := at + |PieceText(p)|; p.Bare? && next < |path| ==> path[next] == 0x2E || path[next] == 0x5B
    ensures at < |path| && (path[at] == DOT <==> p.Dot?)
    ensures !p.Dot? ==> |PieceSteps(p)| == 1 && SegmentAt(path, at) == Some(Segment(PieceSteps(p)[0], at + |PieceText(p)|))
  {
    hide SegmentAt, At, IsBare, DigitsNumber;
    match p
    case Dot => ByteAt(path, at, 0x2E);
    case Quoted(key, quote) => QuotedReads(path, at, key, quote);
    case Bare(key) => BareReads(path, at, key);
    case Bracketed(digits) => BracketedReads(path, at, digits);
  }

  /** Pieces spell their steps. */
  lemma {:induction false} PiecesSpell(path: seq<byte>, at: nat, ps: seq<Piece>)
    requires PiecesOk(ps) && at <= |path| && path[at..] == PathText(ps)
    ensures Steps(path, at) == Some(StepsOf(ps))
    decreases |ps|
  {
    hide SegmentAt, PieceOk, PieceSteps, PieceText, At;
    if ps != [] {
      var piece, rest := PieceText(ps[0]), PathText(ps[1..]);
      RestOk(ps);
      PieceThere(path, at, piece, rest);
      var next := at + |piece|;
      PiecesSpell(path, next, ps[1..]);
      if ps[0].Bare? && next < |path| {
        NextStarts(path, next, ps);
      }
      PieceReads(path, at, ps[0]);
      if ps[0].Dot? {
        NoSteps();
        assert [] + StepsOf(ps[1..]) == StepsOf(ps[1..]);
      } else {
        assert PieceSteps(ps[0]) == [PieceSteps(ps[0])[0]];
      }
    }
  }

  lemma NextStarts(path: seq<byte>, next: nat, ps: seq<Piece>)
    requires PiecesOk(ps) && ps != [] && ps[0].Bare? && next < |path| && path[next..] == PathText(ps[1..])
    ensures path[next] == 0x2E || path[next] == 0x5B
  {
    hide PieceOk;
    RestOk(ps);
    assert path[next] == path[next..][0];
    PathStarts(ps[1..]);
    assert ps[1..][0] == ps[1];
  }

  lemma RestOk(ps: seq<Piece>)
    requires PiecesOk(ps) && ps != []
    ensures PiecesOk(ps[1..]) && (ps[0].Bare? && |ps| > 1 ==> ps[1].Dot? || ps[1].Bracketed?)
  {
    assert forall i :: 0 <= i < |ps[1..]| ==> ps[1..][i] == ps[i + 1];
    assert |ps| > 1 ==> ps[0 + 1] == ps[1];
  }

  lemma PieceThere(path: seq<byte>, at: nat, piece: seq<byte>, rest: seq<byte>)
    requires at <= |path| && path[at..] == piece + rest
    ensures At(path, at, piece) && at + |piece| <= |path| && path[at + |piece|..] == rest
  {
    assert |path[at..]| == |piece| + |rest|;
    assert path[at..at + |piece|] == path[at..][..|piece|];
    assert path[at + |piece|..] == path[at..][|piece|..];
  }

  /** And whatever a path spells, it spells in pieces. */
  lemma {:induction false} SpelledInPieces(path: seq<byte>, at: nat) returns (ps: seq<Piece>)
    requires at <= |path| && Steps(path, at).Some?
    ensures PiecesOk(ps) && PathText(ps) == path[at..] && Steps(path, at).value == StepsOf(ps)
    decreases |path| - at
  {
    hide SegmentAt, Decimals, IsBare, StepsOf;
    if at == |path| {
      ps := [];
      assert StepsOf([]) == [] by { NoSteps(); }
    } else {
      var piece, next := PieceAt(path, at);
      var rest := SpelledInPieces(path, next);
      ps := [piece] + rest;
      assert ps[1..] == rest;
      FollowsOk(path, at, piece, next, rest);
      assert path[at..] == path[at..next] + path[next..];
      StepsCons(piece, rest);
    }
  }

  lemma NoSteps()
    ensures StepsOf([]) == [] && PieceOk(Dot) && PieceSteps(Dot) == [] && |PieceText(Dot)| == 1
  {
  }

  lemma StepsCons(piece: Piece, rest: seq<Piece>)
    requires PieceOk(piece) && PiecesOk([piece] + rest) && PiecesOk(rest)
    ensures StepsOf([piece] + rest) == PieceSteps(piece) + StepsOf(rest)
  {
    var ps := [piece] + rest;
    assert ps[1..] == rest && ps[0] == piece && PieceOk(ps[0]);
  }

  /** The piece that is read at a place. */
  lemma PieceAt(path: seq<byte>, at: nat) returns (piece: Piece, next: nat)
    requires at < |path| && Steps(path, at).Some?
    ensures PieceOk(piece) && at < next <= |path| && path[at..next] == PieceText(piece) && Steps(path, next).Some?
    ensures piece.Bare? && next < |path| ==> path[next] == 0x2E || path[next] == 0x5B
    ensures Steps(path, at).value == PieceSteps(piece) + Steps(path, next).value
  {
    hide SegmentAt, PieceOk, PieceSteps, PieceText;
    if path[at] == DOT {
      piece, next := Dot, at + 1;
      NoSteps();
      assert path[at..next] == [0x2E] == PieceText(Dot) by { DotText(); }
      assert [] + Steps(path, next).value == Steps(path, next).value;
    } else {
      var segment := SegmentAt(path, at).value;
      next := segment.next;
      piece := SegmentPiece(path, at, segment);
    }
  }

  lemma DotText()
    ensures PieceText(Dot) == [0x2E]
  {
  }

  lemma SegmentPiece(path: seq<byte>, at: nat, segment: Segment) returns (piece: Piece)
    requires at < |path| && path[at] != DOT && SegmentAt(path, at) == Some(segment)
    ensures PieceOk(piece) && path[at..segment.next] == PieceText(piece) && PieceSteps(piece) == [segment.step]
    ensures piece.Bare? && segment.next < |path| ==> path[segment.next] == 0x2E || path[segment.next] == 0x5B
  {
    hide IndexOf, Decimals, DigitsNumber;
    var next := segment.next;
    if path[at] == OPEN {
      var digits := path[at + 1..next - 1];
      piece := Bracketed(digits);
      IndexIsBracketed(digits);
      assert path[at..next] == [OPEN] + digits + [CLOSE];
    } else if path[at] == QUOTE || path[at] == DOUBLE_QUOTE {
      var key := path[at + 1..next - 1];
      piece := Quoted(key, path[at]);
      assert path[at..next] == [path[at]] + key + [path[at]];
    } else {
      var key := path[at..next];
      piece := Bare(key);
      PlainEndIs(path, at);
      assert key[0] == path[at];
    }
  }

  lemma FollowsOk(path: seq<byte>, at: nat, piece: Piece, next: nat, rest: seq<Piece>)
    requires at < next <= |path| && PieceOk(piece) && PiecesOk(rest) && PathText(rest) == path[next..]
    requires piece.Bare? && next < |path| ==> path[next] == 0x2E || path[next] == 0x5B
    ensures PiecesOk([piece] + rest)
  {
    hide PieceOk;
    if rest != [] {
      PathStarts(rest);
      assert path[next..] != [] && path[next] == path[next..][0];
    }
    var ps := [piece] + rest;
    forall i | 0 <= i < |ps| - 1 && ps[i].Bare?
      ensures ps[i + 1].Dot? || ps[i + 1].Bracketed?
    {
      if i > 0 {
        assert ps[i] == rest[i - 1] && ps[i + 1] == rest[i - 1 + 1];
      }
    }
  }

  /** A path spells steps exactly when it is made of pieces, and then theirs. */
  lemma SpellsExactly(path: seq<byte>, steps: seq<Step>)
    ensures Steps(path, 0) == Some(steps) <==> exists ps: seq<Piece> :: PiecesOk(ps) && PathText(ps) == path && StepsOf(ps) == steps
  {
    hide PiecesOk, PathText, StepsOf;
    assert path[0..] == path;
    if Steps(path, 0) == Some(steps) {
      var ps := SpelledInPieces(path, 0);
    }
    if ps: seq<Piece> :| PiecesOk(ps) && PathText(ps) == path && StepsOf(ps) == steps {
      PiecesSpell(path, 0, ps);
    }
  }

  /** A key spells itself without quotes exactly when it is not empty, holds no dot and no bracket, and does not start with a quote. */
  lemma BareSpells(key: Str)
    ensures Steps(key, 0) == Some([Key(key)]) <==> key != [] && 0x2E !in key && 0x5B !in key && key[0] != 0x27 && key[0] != 0x22
  {
    hide SegmentAt, Decimals;
    assert key[0..] == key;
    if IsBare(key) {
      OnePiece(Bare(key));
      PiecesSpell(key, 0, [Bare(key)]);
    }
    if Steps(key, 0) == Some([Key(key)]) {
      var ps := SpelledInPieces(key, 0);
      var i := OnlyPiece(ps, key);
      PieceFits(ps, i);
    }
  }

  lemma OnePiece(p: Piece)
    requires PieceOk(p)
    ensures PiecesOk([p]) && PathText([p]) == PieceText(p)
    ensures p.Bare? ==> StepsOf([p]) == [Key(p.key)]
  {
    assert [p][1..] == [];
    assert PieceText(p) + [] == PieceText(p);
  }

  /** Pieces that spell one key have one piece for it. */
  lemma {:induction false} OnlyPiece(ps: seq<Piece>, key: Str) returns (i: nat)
    requires PiecesOk(ps) && StepsOf(ps) == [Key(key)]
    ensures i < |ps| && (ps[i].Bare? || ps[i].Quoted?) && ps[i].key == key
    decreases |ps|
  {
    hide PieceOk, Decimals;
    RestOk(ps);
    if ps[0].Dot? {
      assert StepsOf(ps) == [] + StepsOf(ps[1..]) == StepsOf(ps[1..]);
      i := OnlyPiece(ps[1..], key);
      i := i + 1;
    } else {
      assert StepsOf(ps)[0] == Key(key);
      i := 0;
    }
  }

  lemma {:induction false} PieceFits(ps: seq<Piece>, i: nat)
    requires i < |ps|
    ensures |PieceText(ps[i])| <= |PathText(ps)|
    decreases |ps|
  {
    hide PieceText;
    if i > 0 {
      PieceFits(ps[1..], i - 1);
    }
  }

  // ----- resolving -----

  /**
   * Path resolution agrees with walking the tree, for every path: on a written file whose siblings have distinct keys, a
   * path of pieces, its keys bare or in quotes, resolves exactly when the walk succeeds, to the offset of the very node
   * the walk leads to, which decodes to the value walked to; and a path that is not made of pieces does not resolve.
   */
  lemma EveryPathResolves(doc: seq<Member>, hash: Hash64, path: seq<byte>)
    requires RT.Legible(doc, hash) && KidsWellFormed(doc) && DistinctSiblings(Block(doc))
    ensures R.Valid(RT.FileHandle(doc, hash))
    ensures forall ps: seq<Piece> :: PiecesOk(ps) && PathText(ps) == path ==>
      PathLeads(doc, hash, StepsOf(ps), Resolve(RT.FileHandle(doc, hash), hash, None, path, 0))
    ensures (forall ps: seq<Piece> :: PiecesOk(ps) ==> PathText(ps) != path) ==>
      Resolve(RT.FileHandle(doc, hash), hash, None, path, 0).None?
  {
    hide PiecesOk, PathText, StepsOf, Steps, RT.Legible, RT.FileHandle, DistinctSiblings, KidsWellFormed, FollowAll, PathLeads;
    LegibleDocument(doc, hash);
    forall ps: seq<Piece> | PiecesOk(ps) && PathText(ps) == path
      ensures PathLeads(doc, hash, StepsOf(ps), Resolve(RT.FileHandle(doc, hash), hash, None, path, 0))
    {
      assert path[0..] == path;
      PiecesSpell(path, 0, ps);
      StepsLead(doc, hash, StepsOf(ps));
    }
    if Steps(path, 0).Some? {
      var ps := SpelledInPieces(path, 0);
      assert path[0..] == path;
    }
  }
}
