/** What has been exported when a string is given up: the front of a whole text. */
module JsonCut {
  import opened Arrangement
  import opened Bytes
  import opened ChildList
  import opened Document
  import opened JsonExport
  import opened JsonPrint
  import opened Sequences
  import JS = JsonString

  /** `text` and a closing quote start the text of `w`. */
  predicate IsFront(text: seq<byte>, w: Value, depth: nat, st: Style) {
    text + [0x22] <= Print(w, depth, st)
  }

  predicate ItemIsFront(text: seq<byte>, m: Member, depth: nat, keyed: bool, st: Style) {
    text + [0x22] <= PrintItem(m, depth, keyed, st)
  }

  /** Behind a front, and before whatever follows. */
  lemma FrontBetween(before: seq<byte>, text: seq<byte>, part: seq<byte>, rest: seq<byte>)
    requires text + [0x22] <= part
    ensures before + text + [0x22] <= before + part + rest
    ensures before + (text + [0x22]) <= before + part + rest
  {
    var whole := before + part + rest;
    assert part == text + [0x22] + part[|text| + 1..];
    assert whole == (before + text + [0x22]) + (part[|text| + 1..] + rest);
  }

  lemma StringIsFront(s: Str, st: Style) returns (n: nat)
    requires JS.Quoted(s, st.asciiOnly).None?
    ensures n <= |s| && StringText(s[..n], st) == JS.Started(s, st.asciiOnly) + [0x22]
  {
    n := JS.StartedIsFront(s, st.asciiOnly);
  }

  /** Wherever an export is given up, a quote there would go on with the text of some tree. */
  lemma {:induction false} CutIsFront(v: Value, text: seq<byte>, depth: nat, st: Style, byKey: bool) returns (w: Value)
    requires Cut(v, text, depth, st, byKey)
    ensures IsFront(text, w, depth, st)
    decreases v, 0
  {
    hide CutList, Front, PrintFrom;
    match v
    case String(s) =>
      var n := StringIsFront(s, st);
      w := String(s[..n]);
    case Array(kids) =>
      var rest: seq<byte> :| CutList(kids, kids, rest, depth + 1, false, st, byKey) && text == [0x5B] + Newline(st) + rest;
      var ws := ListIsFront(kids, kids, rest, depth + 1, false, st, byKey);
      w := Array(ws);
      Opens([0x5B] + Newline(st), rest, PrintFrom(ws, 0, depth + 1, false, st));
    case Block(kids) =>
      var ps: seq<Member>, rest: seq<byte> :| OrderOf(ps, kids, byKey) && CutList(ps, kids, rest, depth + 1, true, st, byKey) &&
        text == [0x7B] + Newline(st) + rest;
      var ws := ListIsFront(ps, kids, rest, depth + 1, true, st, byKey);
      w := Block(ws);
      Opens([0x7B] + Newline(st), rest, PrintFrom(ws, 0, depth + 1, true, st));
  }

  lemma Opens(before: seq<byte>, text: seq<byte>, part: seq<byte>)
    requires text + [0x22] <= part
    ensures before + text + [0x22] <= before + part
  {
    FrontBetween(before, text, part, []);
    assert before + part + [] == before + part;
  }

  lemma NextItem(ws: seq<Member>, k: nat, depth: nat, keyed: bool, st: Style)
    requires k < |ws|
    ensures PrintFrom(ws, k, depth, keyed, st) ==
      Separator(st, k, depth) + PrintItem(ws[k], depth, keyed, st) + PrintFrom(ws, k + 1, depth, keyed, st)
  {
    hide Separator, PrintItem;
  }

  lemma {:induction false} ListIsFront(ps: seq<Member>, kids: seq<Member>, text: seq<byte>, depth: nat, keyed: bool, st: Style, byKey: bool)
    returns (ws: seq<Member>)
    requires CutList(ps, kids, text, depth, keyed, st, byKey)
    ensures ws != [] && text + [0x22] <= PrintFrom(ws, 0, depth, keyed, st)
    decreases kids, 1
  {
    hide CutItem, PrintItem, Separator, ItemArranged, Front, PrintFrom, ItemPrintable;
    var done: seq<Member>, item: seq<byte> :| CutBehind(ps, kids, done, item, text, depth, keyed, st, byKey);
    var k := |done|;
    var m := ItemFront(ps[k], item, depth, keyed, st, byKey);
    ws := done + [m];
    FrontThenRest(ws, k, depth, keyed, st);
    NextItem(ws, k, depth, keyed, st);
    assert ws[..k] == done && ws[k] == m;
    var front, separator, part, rest := Front(done, depth, keyed, st), Separator(st, k, depth), PrintItem(m, depth, keyed, st),
                                        PrintFrom(ws, k + 1, depth, keyed, st);
    FrontBetween(front + separator, item, part, rest);
    Associate(front, separator, item);
    Associate(front, separator + part, rest);
    Associate(front, separator, part);
  }

  lemma {:induction false} ItemFront(m: Member, text: seq<byte>, depth: nat, keyed: bool, st: Style, byKey: bool) returns (n: Member)
    requires CutItem(m, text, depth, keyed, st, byKey)
    ensures ItemIsFront(text, n, depth, keyed, st)
    decreases m, 1
  {
    hide Cut, Print, StringText;
    if keyed && JS.Quoted(m.key, st.asciiOnly).None? {
      var length := StringIsFront(m.key, st);
      n := Member(m.key[..length], Null);
      FrontBetween([], text, StringText(n.key, st), Colon(st) + Print(Null, depth, st));
      assert [] + text + [0x22] == text + [0x22];
      assert [] + StringText(n.key, st) + (Colon(st) + Print(Null, depth, st)) == StringText(n.key, st) + Colon(st) + Print(Null, depth, st);
    } else {
      var rest: seq<byte> :|
        Cut(m.value, rest, depth, st, byKey) && text == (if keyed then StringText(m.key, st) + Colon(st) else []) + rest;
      var w := CutIsFront(m.value, rest, depth, st, byKey);
      n := Member(m.key, w);
      Opens(if keyed then StringText(m.key, st) + Colon(st) else [], rest, Print(w, depth, st));
    }
  }
}
