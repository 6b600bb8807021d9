/** What saved text looks like: the lines of an indented document, and where long lines are broken. */
module Layout {
  import opened Options
  import opened Chars
  import opened Numbers
  import opened Trees
  import opened Writer

  // ----- indented documents -----

  predicate AllElements(ts: seq<Tree>) {
    forall i :: 0 <= i < |ts| ==> ts[i].Element?
  }

  predicate NoElements(ts: seq<Tree>) {
    forall i :: 0 <= i < |ts| ==> !ts[i].Element?
  }

  /** Every element holds elements alone or values alone, and markup holds no values. */
  predicate Unmixed(t: Tree) {
    t.Element? ==>
      && ((AllElements(t.kids) && forall i :: 0 <= i < |t.kids| ==> Unmixed(t.kids[i])) ||
          (NoElements(t.kids) && !IsMarkup(t.name)))
  }

  /** Two spaces for each level below the children of the root, 29 times at the most */
  function Margin(depth: nat): string {
    seq(if depth == 0 then 0 else if depth > 30 then 58 else 2 * (depth - 1), i => ' ')
  }

  /** The lines of an element that is `depth` levels below the root: one for an element without child
      elements; otherwise one for the open tag, those of the children, and one for the close tag, which
      markup does not have. */
  function Lines(t: Tree, depth: nat, wrap: int): seq<string>
    requires t.Element? && Unmixed(t)
    decreases t, 1
  {
    var open := WriteOpen(t.name, t.attrs, wrap, |Margin(depth)|);
    var end := "</" + Escape(t.name) + ">";
    if t.kids == [] then [Margin(depth) + open.text + (if IsMarkup(t.name) then ">" else " />")]
    else if NoElements(t.kids) then
      [Margin(depth) + open.text + ">" + WriteNodes(t.kids, [], [], Silent, wrap, open.col + 1).text + end]
    else
      [Margin(depth) + open.text + ">"] + LinesOf(t.kids, depth + 1, wrap) +
      (if IsMarkup(t.name) then [] else [Margin(depth) + end])
  }

  function LinesOf(ts: seq<Tree>, depth: nat, wrap: int): seq<string>
    requires AllElements(ts) && forall i :: 0 <= i < |ts| ==> Unmixed(ts[i])
    decreases ts, 0
  {
    if ts == [] then [] else Lines(ts[0], depth, wrap) + LinesOf(ts[1..], depth, wrap)
  }

  /** Every line with a newline behind it */
  function Joined(lines: seq<string>): string {
    if lines == [] then [] else lines[0] + "\n" + Joined(lines[1..])
  }

  lemma {:induction false} JoinedAppend(a: seq<string>, b: seq<string>)
    ensures Joined(a + b) == Joined(a) + Joined(b)
  {
    if a == [] {
      assert a + b == b;
    } else {
      assert (a + b)[1..] == a[1..] + b;
      JoinedAppend(a[1..], b);
    }
  }

  lemma {:induction false} JoinedOne(line: string)
    ensures Joined([line]) == line + "\n"
  {
    assert [line][1..] == [];
  }

  // ----- what the callback adds -----

  lemma {:induction false} SpacesAre(n: nat, col: int)
    ensures Spaces(n) == seq(2 * n, i => ' ') && ColumnAfter(Spaces(n), col) == col + 2 * n
  {
    if n > 0 {
      SpacesAre(n - 1, col + 2);
      var s := Spaces(n);
      assert s[1..] == " " + Spaces(n - 1) && s[1..][1..] == Spaces(n - 1);
    }
  }

  lemma {:induction false} MarginIs(depth: nat)
    ensures Indentation(depth) == Margin(depth) && ColumnAfter(Margin(depth), 0) == |Margin(depth)|
  {
    var n := if depth < 1 then 0 else if depth - 1 < 29 then depth - 1 else 29;
    SpacesAre(n, 0);
    assert Indentation(depth) == Spaces(n);
    assert Spaces(n) == Margin(depth);
  }

  /** The line break before the first element among its siblings */
  function Break(p: Place): string {
    if !HasElement(p.before) && p.around != [] then "\n" else []
  }

  lemma {:induction false} Callback(p: Place, col: int)
    requires col == 0 || Break(p) == "\n"
    ensures Indent(p, BeforeOpen) == Break(p) + Margin(|p.around|)
    ensures ColumnAfter(Indent(p, BeforeOpen), col) == |Margin(|p.around|)|
    ensures Indent(p, AfterOpen) == [] && Indent(p, AfterClose) == "\n"
    ensures forall c: int :: ColumnAfter([], c) == c && ColumnAfter("\n", c) == 0
    ensures p.node.Element? ==> Indent(p, BeforeClose) == if HasElement(p.node.kids) then Margin(|p.around|) else []
  {
    hide ColumnAfter, HasElement;
    MarginIs(|p.around|);
    Newline(Margin(|p.around|), col);
    Newline([], 0);
    forall c: int
      ensures ColumnAfter([], c) == c && ColumnAfter("\n", c) == 0
    {
      Newline([], c);
      assert "\n" + [] == "\n";
    }
    assert [] + Margin(|p.around|) == Margin(|p.around|);
  }

  lemma {:induction false} Newline(s: string, col: int)
    ensures ColumnAfter("\n" + s, col) == ColumnAfter(s, 0)
    ensures ColumnAfter([], col) == col
  {
    assert ("\n" + s)[1..] == s;
  }

  /** Values are written alike under every callback. */
  lemma {:induction false} ValuesAlike(ts: seq<Tree>, around: seq<Around>, before: seq<Tree>, cb: WsCallback, wrap: int, col: int)
    requires NoElements(ts)
    ensures WriteNodes(ts, around, before, cb, wrap, col) == WriteNodes(ts, [], before, Silent, wrap, col)
    decreases |ts|
  {
    hide Escape, WriteSeparator;
    if ts != [] {
      assert !ts[0].Element?;
      var w := WriteNode(ts[0], around, before, ts[1..], cb, wrap, col);
      assert w == WriteNode(ts[0], [], before, ts[1..], Silent, wrap, col);
      ValuesAlike(ts[1..], around, before + [ts[0]], cb, wrap, w.col);
    }
  }

  // ----- the lines are what is written -----

  /** The parts of a written element */
  lemma {:induction false} ElementIs(t: Tree, around: seq<Around>, before: seq<Tree>, after: seq<Tree>, cb: WsCallback, wrap: int, col: int)
    requires t.Element?
    ensures var p := Place(around, before, t, after);
            var c := ColumnAfter(cb(p, BeforeOpen), col);
            var open := WriteOpen(t.name, t.attrs, wrap, c);
            var inner := WriteNodes(t.kids, around + [Around(t.name, t.attrs, before, after)], [], cb, wrap, ColumnAfter(cb(p, AfterOpen), open.col + 1));
            var close := if IsMarkup(t.name) then ">" else " />";
            WriteNode(t, around, before, after, cb, wrap, col)
              == (if t.kids == [] then
                    Written(cb(p, BeforeOpen) + open.text + (close + cb(p, AfterClose)), ColumnAfter(cb(p, AfterClose), open.col + |close|))
                  else if IsMarkup(t.name) then
                    Written(cb(p, BeforeOpen) + open.text + (">" + cb(p, AfterOpen) + inner.text), inner.col)
                  else
                    Written(cb(p, BeforeOpen) + open.text + (">" + cb(p, AfterOpen) +
                              (inner.text + cb(p, BeforeClose) + "</" + Escape(t.name) + ">" + cb(p, AfterClose))),
                            ColumnAfter(cb(p, AfterClose), ColumnAfter(cb(p, BeforeClose), inner.col) + |t.name| + 3)))
  {
    hide ColumnAfter, WriteOpen, WriteNodes, Escape, IsMarkup;
  }

  lemma {:induction false} Reassociate(a: string, b: string, c: string, d: string, e: string, f: string, g: string, h: string)
    ensures (a + b) + c + (">" + [] + ((d + e) + f + "</" + g + ">" + h)) == a + ((b + c + ">") + d + (e + (f + "</" + g + ">") + h))
    ensures (a + b) + c + (">" + [] + (d + [] + "</" + g + ">" + h)) == a + ((b + c + ">" + d + ("</" + g + ">")) + h)
    ensures (a + b) + c + (">" + [] + d) == a + ((b + c + ">") + d)
    ensures (a + b) + c + (d + h) == a + ((b + c + d) + h)
    ensures f + "</" + g + ">" == f + ("</" + g + ">")
  {
  }

  lemma {:induction false} UnmixedKids(t: Tree)
    requires t.Element? && Unmixed(t) && t.kids != []
    ensures NoElements(t.kids) ==> !HasElement(t.kids) && !IsMarkup(t.name)
    ensures !NoElements(t.kids) ==>
              HasElement(t.kids) && AllElements(t.kids) && forall i :: 0 <= i < |t.kids| ==> Unmixed(t.kids[i])
  {
    hide IsMarkup;
    var first := t.kids[0].Element?;
  }

  lemma {:induction false} NodeLines(t: Tree, around: seq<Around>, before: seq<Tree>, after: seq<Tree>, wrap: int, col: int)
    requires t.Element? && Unmixed(t)
    requires col == 0 || Break(Place(around, before, t, after)) == "\n"
    ensures WriteNode(t, around, before, after, Indent, wrap, col)
         == Written(Break(Place(around, before, t, after)) + Joined(Lines(t, |around|, wrap)), 0)
    decreases t, 1
  {
    hide *;
    var p := Place(around, before, t, after);
    var d := |around|;
    ElementIs(t, around, before, after, Indent, wrap, col);
    Callback(p, col);
    LinesIs(t, d, wrap);
    var open := WriteOpen(t.name, t.attrs, wrap, |Margin(d)|);
    if t.kids == [] {
      var close := if IsMarkup(t.name) then ">" else " />";
      Reassociate(Break(p), Margin(d), open.text, close, [], [], [], "\n");
      JoinedOne(Margin(d) + open.text + close);
    } else {
      UnmixedKids(t);
      var inside := around + [Around(t.name, t.attrs, before, after)];
      if NoElements(t.kids) {
        var inner := WriteNodes(t.kids, inside, [], Indent, wrap, open.col + 1);
        ValuesAlike(t.kids, inside, [], Indent, wrap, open.col + 1);
        Reassociate(Break(p), Margin(d), open.text, inner.text, [], [], Escape(t.name), "\n");
        JoinedOne(Margin(d) + open.text + ">" + inner.text + ("</" + Escape(t.name) + ">"));
      } else {
        NothingBefore(inside);
        NodesLines(t.kids, inside, [], wrap, open.col + 1);
        FullLines(Break(p), Margin(d), open.text, LinesOf(t.kids, d + 1, wrap), Escape(t.name));
      }
    }
  }

  lemma {:induction false} FullLines(b: string, m: string, open: string, lines: seq<string>, name: string)
    ensures (b + m) + open + (">" + [] + ("\n" + Joined(lines) + m + "</" + name + ">" + "\n"))
         == b + Joined([m + open + ">"] + lines + [m + ("</" + name + ">")])
    ensures (b + m) + open + (">" + [] + ("\n" + Joined(lines))) == b + Joined([m + open + ">"] + lines + [])
  {
    hide Joined;
    JoinedAll(m + open + ">", lines, m + ("</" + name + ">"));
    Reassociate(b, m, open, "\n", Joined(lines), m, name, "\n");
    Reassociate(b, m, open, "\n" + Joined(lines), [], [], [], []);
  }

  lemma {:induction false} JoinedAll(first: string, lines: seq<string>, last: string)
    ensures Joined([first] + lines) == first + ("\n" + Joined(lines))
    ensures Joined([first] + lines + []) == first + ("\n" + Joined(lines))
    ensures Joined([first] + lines + [last]) == first + "\n" + (Joined(lines) + last + "\n")
  {
    JoinedOne(first);
    JoinedOne(last);
    JoinedAppend([first], lines);
    JoinedAppend([first] + lines, [last]);
    assert [first] + lines + [] == [first] + lines;
  }

  lemma {:induction false} NothingBefore(around: seq<Around>)
    requires around != []
    ensures forall t, after :: Break(Place(around, [], t, after)) == "\n"
    ensures !HasElement([])
  {
  }

  lemma {:induction false} LinesIs(t: Tree, depth: nat, wrap: int)
    requires t.Element? && Unmixed(t)
    ensures var open := WriteOpen(t.name, t.attrs, wrap, |Margin(depth)|);
            var end := "</" + Escape(t.name) + ">";
            Lines(t, depth, wrap)
              == if t.kids == [] then [Margin(depth) + open.text + (if IsMarkup(t.name) then ">" else " />")]
                 else if NoElements(t.kids) then
                   [Margin(depth) + open.text + ">" + WriteNodes(t.kids, [], [], Silent, wrap, open.col + 1).text + end]
                 else
                   [Margin(depth) + open.text + ">"] + LinesOf(t.kids, depth + 1, wrap) +
                   (if IsMarkup(t.name) then [] else [Margin(depth) + end])
  {
    hide Margin, WriteOpen, WriteNodes, LinesOf, Escape, IsMarkup;
  }

  lemma {:induction false} NodesLines(ts: seq<Tree>, around: seq<Around>, before: seq<Tree>, wrap: int, col: int)
    requires around != [] && AllElements(ts) && forall i :: 0 <= i < |ts| ==> Unmixed(ts[i])
    requires col == 0 || !HasElement(before)
    ensures WriteNodes(ts, around, before, Indent, wrap, col)
         == Written((if ts != [] && !HasElement(before) then "\n" else []) + Joined(LinesOf(ts, |around|, wrap)), if ts == [] then col else 0)
    decreases ts, 0
  {
    hide *;
    NodesStep(ts, around, before, Indent, wrap, col);
    if ts != [] {
      KidsParts(ts);
      BreakIs(around, before, ts[0], ts[1..]);
      NodeLines(ts[0], around, before, ts[1..], wrap, col);
      NodesLines(ts[1..], around, before + [ts[0]], wrap, 0);
      SomeElement(before, ts[0]);
      JoinedAppend(Lines(ts[0], |around|, wrap), LinesOf(ts[1..], |around|, wrap));
      LinesOfIs(ts, |around|, wrap);
      var b := Break(Place(around, before, ts[0], ts[1..]));
      assert b + Joined(Lines(ts[0], |around|, wrap)) + ([] + Joined(LinesOf(ts[1..], |around|, wrap)))
          == b + (Joined(Lines(ts[0], |around|, wrap)) + Joined(LinesOf(ts[1..], |around|, wrap)));
    } else {
      NoLines(|around|, wrap);
    }
  }

  lemma {:induction false} NoLines(depth: nat, wrap: int)
    ensures [] + Joined(LinesOf([], depth, wrap)) == []
  {
  }

  lemma {:induction false} LinesOfIs(ts: seq<Tree>, depth: nat, wrap: int)
    requires ts != [] && AllElements(ts) && forall i :: 0 <= i < |ts| ==> Unmixed(ts[i])
    ensures ts[0].Element? && AllElements(ts[1..]) && Unmixed(ts[0]) && forall i :: 0 <= i < |ts| - 1 ==> Unmixed(ts[1..][i])
    ensures LinesOf(ts, depth, wrap) == Lines(ts[0], depth, wrap) + LinesOf(ts[1..], depth, wrap)
  {
    hide Unmixed, Lines;
  }

  lemma {:induction false} KidsParts(ts: seq<Tree>)
    requires ts != [] && AllElements(ts) && forall i :: 0 <= i < |ts| ==> Unmixed(ts[i])
    ensures ts[0].Element? && Unmixed(ts[0]) && AllElements(ts[1..]) && forall i :: 0 <= i < |ts| - 1 ==> Unmixed(ts[1..][i])
  {
    hide Unmixed;
  }

  lemma {:induction false} BreakIs(around: seq<Around>, before: seq<Tree>, t: Tree, after: seq<Tree>)
    requires around != []
    ensures Break(Place(around, before, t, after)) == if HasElement(before) then [] else "\n"
  {
    hide HasElement;
  }

  lemma {:induction false} NodesStep(ts: seq<Tree>, around: seq<Around>, before: seq<Tree>, cb: WsCallback, wrap: int, col: int)
    ensures WriteNodes(ts, around, before, cb, wrap, col) ==
              if ts == [] then Written([], col)
              else
                var first := WriteNode(ts[0], around, before, ts[1..], cb, wrap, col);
                var rest := WriteNodes(ts[1..], around, before + [ts[0]], cb, wrap, first.col);
                Written(first.text + rest.text, rest.col)
  {
    hide WriteNode;
  }

  lemma {:induction false} SomeElement(before: seq<Tree>, t: Tree)
    requires t.Element?
    ensures HasElement(before + [t])
  {
    assert (before + [t])[|before|].Element?;
  }

  /** An indented document of unmixed elements is its lines: one for each open tag, each close tag and
      each element without child elements, with two spaces for each level. */
  lemma {:induction false} IndentedLines(t: Tree, wrap: int)
    requires t.Element? && Unmixed(t)
    ensures Save(t, Indent, wrap) == Joined(Lines(t, 0, wrap))
  {
    hide Unmixed, WriteNode, Lines, Indent;
    NodeLines(t, [], [], [], wrap, 0);
    assert [] + Joined(Lines(t, 0, wrap)) == Joined(Lines(t, 0, wrap));
  }

  // ----- columns and the wrap margin -----

  /** Saved text as a list of marks: line breaks, and pieces of text with the number of columns that they
      count for. A character counts for one column, even if it is written as an entity. */
  datatype Mark = NewLine | Ink(text: string, width: nat)

  function Shown(ms: seq<Mark>): string {
    if ms == [] then [] else Shown(ms[..|ms| - 1]) + ShownMark(ms[|ms| - 1])
  }

  function ShownMark(m: Mark): string {
    match m
    case NewLine => "\n"
    case Ink(text, _) => text
  }

  /** The columns behind the last line break */
  function Width(ms: seq<Mark>): nat {
    if ms == [] || ms[|ms| - 1].NewLine? then 0 else Width(ms[..|ms| - 1]) + ms[|ms| - 1].width
  }

  lemma {:induction false} OneMark(ms: seq<Mark>, m: Mark)
    ensures Shown(ms + [m]) == Shown(ms) + ShownMark(m)
    ensures Width(ms + [m]) == if m.NewLine? then 0 else Width(ms) + m.width
  {
    assert (ms + [m])[..|ms|] == ms;
  }

  /** The characters of a value */
  function Letters(s: string): seq<Mark> {
    seq(|s|, i requires 0 <= i < |s| => Ink(EscapeChar(s[i]), 1))
  }

  lemma {:induction false} LettersShown(ms: seq<Mark>, s: string)
    ensures Shown(ms + Letters(s)) == Shown(ms) + Escape(s) && Width(ms + Letters(s)) == Width(ms) + |s|
    decreases |s|
  {
    hide *;
    LettersAre(s);
    if s == [] {
      assert ms + [] == ms && Shown(ms) + [] == Shown(ms);
    } else {
      var m := Ink(EscapeChar(s[0]), 1);
      OneMark(ms, m);
      assert ms + ([m] + Letters(s[1..])) == ms + [m] + Letters(s[1..]);
      LettersShown(ms + [m], s[1..]);
      assert Shown(ms) + EscapeChar(s[0]) + Escape(s[1..]) == Shown(ms) + (EscapeChar(s[0]) + Escape(s[1..]));
    }
  }

  lemma {:induction false} LettersAre(s: string)
    ensures s == [] ==> Letters(s) == [] && Escape(s) == []
    ensures s != [] ==> Letters(s) == [Ink(EscapeChar(s[0]), 1)] + Letters(s[1..]) && Escape(s) == EscapeChar(s[0]) + Escape(s[1..])
    ensures s != [] ==> ShownMark(Ink(EscapeChar(s[0]), 1)) == EscapeChar(s[0])
  {
    hide EscapeChar;
  }

  // ----- a document with its columns -----

  /** An attribute without a value is written as its name. */
  function AttrMark(a: Attr): (m: Mark)
    ensures m.Ink?
  {
    if a.value.Some? then Ink(WriteName(a.name) + "=\"" + Escape(a.value.value) + "\"", |a.name| + |a.value.value| + 3)
    else Ink(WriteName(a.name), |a.name|)
  }

  /** An attribute that would go past the margin starts a new line. */
  function LayAttrs(ms: seq<Mark>, attrs: seq<Attr>, wrap: int): seq<Mark>
    decreases |attrs|
  {
    if attrs == [] then ms
    else
      var ink := AttrMark(attrs[0]);
      LayAttrs(ms + [if Width(ms) + ink.width > wrap then NewLine else Ink(" ", 1), ink], attrs[1..], wrap)
  }

  /** A separator of values is a line break where the line is past the margin already. */
  function Gap(ms: seq<Mark>, wrap: int): Mark {
    if Width(ms) > wrap then NewLine else Ink(" ", 1)
  }

  /** What a callback returns: a newline starts a line, a tab goes to the next multiple of eight columns, and
      any other character takes one. */
  function LaySpace(ms: seq<Mark>, s: string): seq<Mark>
    decreases |s|
  {
    if s == [] then ms
    else
      var m := if s[0] == '\n' then NewLine
               else if s[0] == '\t' then Ink("\t", 8 - Width(ms) % 8)
               else Ink([s[0]], 1);
      LaySpace(ms + [m], s[1..])
  }

  /** The place in the document `root` that `path` leads to, child by child, if there is one */
  function Follow(root: Tree, path: seq<nat>): Option<Place>
    decreases |path|
  {
    if path == [] then Some(Place([], [], root, []))
    else
      match Follow(root, path[..|path| - 1])
      case None => None
      case Some(up) =>
        var i := path[|path| - 1];
        if up.node.Element? && i < |up.node.kids| then
          Some(Place(up.around + [Around(up.node.name, up.node.attrs, up.before, up.after)],
                     up.node.kids[..i], up.node.kids[i], up.node.kids[i + 1..]))
        else None
  }

  /** What the callback returns for the node at `path` */
  function Ask(root: Tree, path: seq<nat>, cb: WsCallback, w: Where): string {
    match Follow(root, path)
    case None => []
    case Some(p) => cb(p, w)
  }

  /** `ms` with the node `t` of the document `root` behind it. Integers are separated from the sibling
      before them; texts only where their flag asks for it and the line is not empty; opaque strings never. */
  function Lay(ms: seq<Mark>, t: Tree, root: Tree, path: seq<nat>, cb: WsCallback, wrap: int): seq<Mark>
    decreases t, 1
  {
    match t
    case Element(name, attrs, kids) =>
      var start := LaySpace(ms, Ask(root, path, cb, BeforeOpen));
      var tag := Ink("<" + (if IsVerbatim(name) then name else WriteName(name)), |name| + 1);
      var open := LayAttrs(start + [tag], attrs, wrap);
      if kids == [] then
        LaySpace(open + [if IsMarkup(name) then Ink(">", 1) else Ink(" />", 3)], Ask(root, path, cb, AfterClose))
      else
        var inner := LayAll(LaySpace(open + [Ink(">", 1)], Ask(root, path, cb, AfterOpen)), kids, root, path, 0, cb, wrap);
        if IsMarkup(name) then inner
        else LaySpace(LaySpace(inner, Ask(root, path, cb, BeforeClose)) + [Ink("</" + Escape(name) + ">", |name| + 3)],
                      Ask(root, path, cb, AfterClose))
    case Integer(n) => ms + (if path == [] || path[|path| - 1] == 0 then [] else [Gap(ms, wrap)]) + Letters(Decimal(n))
    case Opaque(s) => ms + Letters(s)
    case Text(ws, s) => ms + (if ws && Width(ms) > 0 then [Gap(ms, wrap)] else []) + Letters(s)
  }

  /** The children `ts` of the node at `path`, from the `i`-th on */
  function LayAll(ms: seq<Mark>, ts: seq<Tree>, root: Tree, path: seq<nat>, i: nat, cb: WsCallback, wrap: int): seq<Mark>
    decreases ts, 0
  {
    if ts == [] then ms
    else LayAll(Lay(ms, ts[0], root, path + [i], cb, wrap), ts[1..], root, path, i + 1, cb, wrap)
  }

  // ----- that is what is written -----

  /** `w` is what was written between `ms` and `ms'`. */
  predicate Between(ms: seq<Mark>, ms': seq<Mark>, w: Written) {
    Shown(ms') == Shown(ms) + w.text && Width(ms') == w.col
  }

  lemma {:induction false} Widths(ms: seq<Mark>, ms': seq<Mark>, w: Written)
    requires Between(ms, ms', w)
    ensures Width(ms') == w.col
  {
    hide Shown, Width;
  }

  /** What is written next comes behind what was written before. */
  lemma {:induction false} Then(a: seq<Mark>, b: seq<Mark>, c: seq<Mark>, v: Written, w: Written)
    requires Between(a, b, v) && Between(b, c, w)
    ensures Between(a, c, Written(v.text + w.text, w.col))
  {
    hide Shown, Width;
    assert Shown(a) + v.text + w.text == Shown(a) + (v.text + w.text);
  }

  lemma {:induction false} Still(ms: seq<Mark>)
    ensures Between(ms, ms, Written([], Width(ms)))
  {
    assert Shown(ms) + [] == Shown(ms);
  }

  lemma {:induction false} InkLaid(ms: seq<Mark>, text: string, width: nat)
    ensures Between(ms, ms + [Ink(text, width)], Written(text, Width(ms) + width))
  {
    hide Shown, Width;
    OneMark(ms, Ink(text, width));
  }

  lemma {:induction false} SpaceLaid(ms: seq<Mark>, s: string)
    ensures Between(ms, LaySpace(ms, s), Written(s, ColumnAfter(s, Width(ms))))
    decreases |s|
  {
    hide Shown, Width;
    if s == [] {
      Still(ms);
    } else {
      var m := if s[0] == '\n' then NewLine
               else if s[0] == '\t' then Ink("\t", 8 - Width(ms) % 8)
               else Ink([s[0]], 1);
      OneMark(ms, m);
      assert ShownMark(m) == [s[0]];
      assert (Width(ms) / 8 + 1) * 8 == Width(ms) + 8 - Width(ms) % 8;
      SpaceLaid(ms + [m], s[1..]);
      assert Shown(ms) + [s[0]] + s[1..] == Shown(ms) + s;
    }
  }

  lemma {:induction false} AttrsLaid(ms: seq<Mark>, attrs: seq<Attr>, wrap: int)
    ensures Between(ms, LayAttrs(ms, attrs, wrap), WriteAttrs(attrs, wrap, Width(ms)))
    decreases |attrs|
  {
    hide *;
    AttrsStep(ms, attrs, wrap);
    if attrs == [] {
      Still(ms);
    } else {
      var a := attrs[0];
      var ink := AttrMark(a);
      var past := Width(ms) + ink.width > wrap;
      var sep := WriteSeparator(past, Width(ms));
      var next := ms + [if past then NewLine else Ink(" ", 1), ink];
      SepAndInk(ms, past, ink);
      Widths(ms, next, Written(sep.text + ink.text, sep.col + ink.width));
      AttrsLaid(next, attrs[1..], wrap);
      Then(ms, next, LayAttrs(next, attrs[1..], wrap), Written(sep.text + ink.text, sep.col + ink.width),
           WriteAttrs(attrs[1..], wrap, Width(next)));
    }
  }

  lemma {:induction false} AttrsStep(ms: seq<Mark>, attrs: seq<Attr>, wrap: int)
    ensures attrs == [] ==> LayAttrs(ms, attrs, wrap) == ms && WriteAttrs(attrs, wrap, Width(ms)) == Written([], Width(ms))
    ensures attrs != [] ==>
              var ink := AttrMark(attrs[0]);
              var past := Width(ms) + ink.width > wrap;
              var sep := WriteSeparator(past, Width(ms));
              var rest := WriteAttrs(attrs[1..], wrap, sep.col + ink.width);
              LayAttrs(ms, attrs, wrap) == LayAttrs(ms + [if past then NewLine else Ink(" ", 1), ink], attrs[1..], wrap) &&
              WriteAttrs(attrs, wrap, Width(ms)) == Written(sep.text + ink.text + rest.text, rest.col)
  {
    hide Width, WriteName, Escape, WriteSeparator;
    if attrs != [] {
      AttrInk(attrs[0]);
    }
  }

  lemma {:induction false} SepAndInk(ms: seq<Mark>, past: bool, ink: Mark)
    requires ink.Ink?
    ensures var sep := WriteSeparator(past, Width(ms));
            Between(ms, ms + [if past then NewLine else Ink(" ", 1), ink], Written(sep.text + ink.text, sep.col + ink.width))
  {
    hide Shown, Width;
    var m := if past then NewLine else Ink(" ", 1);
    OneMark(ms, m);
    OneMark(ms + [m], ink);
    assert ms + [m, ink] == ms + [m] + [ink];
    assert Shown(ms) + ShownMark(m) + ink.text == Shown(ms) + (ShownMark(m) + ink.text);
  }

  lemma {:induction false} AttrInk(a: Attr)
    ensures AttrText(a) == if a.value.Some? then WriteName(a.name) + "=\"" + Escape(a.value.value) + "\"" else WriteName(a.name)
    ensures AttrWidth(a) == if a.value.Some? then |a.name| + |a.value.value| + 3 else |a.name|
  {
    hide WriteName, Escape;
    if a.value.Some? {
      assert WriteName(a.name) + ("=\"" + Escape(a.value.value) + "\"") == WriteName(a.name) + "=\"" + Escape(a.value.value) + "\"";
    } else {
      assert WriteName(a.name) + [] == WriteName(a.name);
    }
  }

  /** A value behind its separator */
  lemma {:induction false} ValueLaid(ms: seq<Mark>, sep: bool, s: string, wrap: int)
    ensures var gap := if sep then WriteSeparator(Width(ms) > wrap, Width(ms)) else Written([], Width(ms));
            Between(ms, ms + (if sep then [Gap(ms, wrap)] else []) + Letters(s), Written(gap.text + Escape(s), gap.col + |s|))
  {
    hide Shown, Width, Escape, Letters;
    OneMark(ms, Gap(ms, wrap));
    LettersShown(ms + (if sep then [Gap(ms, wrap)] else []), s);
    assert ms + [] == ms;
    var gap := if sep then WriteSeparator(Width(ms) > wrap, Width(ms)) else Written([], Width(ms));
    assert Shown(ms) + gap.text + Escape(s) == Shown(ms) + (gap.text + Escape(s));
    assert Shown(ms) + [] == Shown(ms);
  }

  lemma {:induction false} OpenLaid(ms: seq<Mark>, name: string, attrs: seq<Attr>, wrap: int)
    ensures var tag := Ink("<" + (if IsVerbatim(name) then name else WriteName(name)), |name| + 1);
            Between(ms, LayAttrs(ms + [tag], attrs, wrap), WriteOpen(name, attrs, wrap, Width(ms)))
  {
    hide Shown, Width, LayAttrs, WriteAttrs, WriteName;
    var tag := Ink("<" + (if IsVerbatim(name) then name else WriteName(name)), |name| + 1);
    OneMark(ms, tag);
    AttrsLaid(ms + [tag], attrs, wrap);
    var a := WriteAttrs(attrs, wrap, Width(ms) + |name| + 1);
    assert Shown(ms) + tag.text + a.text == Shown(ms) + (tag.text + a.text);
  }

  lemma {:induction false} NodeLaid(ms: seq<Mark>, root: Tree, path: seq<nat>, p: Place, cb: WsCallback, wrap: int)
    requires Follow(root, path) == Some(p)
    ensures Between(ms, Lay(ms, p.node, root, path, cb, wrap),
                    WriteNode(p.node, p.around, p.before, p.after, cb, wrap, Width(ms)))
    decreases p.node, 1
  {
    match p.node
    case Element(name, attrs, kids) =>
      hide *;
      ElementLaid(ms, root, path, p, cb, wrap);
    case Integer(n) =>
      hide Shown, Width, WriteSeparator, Gap, Escape, Decimal, Letters, Between;
      ValueLaid(ms, p.before != [], Decimal(n), wrap);
    case Opaque(s) =>
      hide Shown, Width, WriteSeparator, Gap, Escape, Letters, Between, Follow;
      ValueLaid(ms, false, s, wrap);
      assert ms + [] == ms && [] + Escape(s) == Escape(s);
    case Text(ws, s) =>
      hide Shown, Width, WriteSeparator, Gap, Escape, Letters, Between, Follow;
      ValueLaid(ms, ws && Width(ms) > 0, s, wrap);
  }

  lemma {:induction false} LayElement(ms: seq<Mark>, t: Tree, root: Tree, path: seq<nat>, cb: WsCallback, wrap: int)
    requires t.Element?
    ensures var tag := Ink("<" + (if IsVerbatim(t.name) then t.name else WriteName(t.name)), |t.name| + 1);
            var open := LayAttrs(LaySpace(ms, Ask(root, path, cb, BeforeOpen)) + [tag], t.attrs, wrap);
            var inner := LayAll(LaySpace(open + [Ink(">", 1)], Ask(root, path, cb, AfterOpen)), t.kids, root, path, 0, cb, wrap);
            Lay(ms, t, root, path, cb, wrap) ==
              if t.kids == [] then
                LaySpace(open + [if IsMarkup(t.name) then Ink(">", 1) else Ink(" />", 3)], Ask(root, path, cb, AfterClose))
              else if IsMarkup(t.name) then inner
              else LaySpace(LaySpace(inner, Ask(root, path, cb, BeforeClose)) + [Ink("</" + Escape(t.name) + ">", |t.name| + 3)],
                            Ask(root, path, cb, AfterClose))
  {
    hide LayAttrs, LayAll, LaySpace, Ask, WriteName, Escape, IsMarkup, IsVerbatim;
  }

  lemma {:induction false} Asked(root: Tree, path: seq<nat>, p: Place, cb: WsCallback)
    requires Follow(root, path) == Some(p)
    ensures forall w :: Ask(root, path, cb, w) == cb(p, w)
  {
    hide Follow;
  }

  lemma {:induction false} ElementLaid(ms: seq<Mark>, root: Tree, path: seq<nat>, p: Place, cb: WsCallback, wrap: int)
    requires Follow(root, path) == Some(p) && p.node.Element?
    ensures Between(ms, Lay(ms, p.node, root, path, cb, wrap),
                    WriteNode(p.node, p.around, p.before, p.after, cb, wrap, Width(ms)))
    decreases p.node, 0
  {
    hide *;
    var t := p.node;
    LayElement(ms, t, root, path, cb, wrap);
    ElementIs(t, p.around, p.before, p.after, cb, wrap, Width(ms));
    SamePlace(p);
    Asked(root, path, p, cb);
    SpaceLaid(ms, cb(p, BeforeOpen));
    var m1 := LaySpace(ms, cb(p, BeforeOpen));
    var w1 := Written(cb(p, BeforeOpen), ColumnAfter(cb(p, BeforeOpen), Width(ms)));
    OpenLaid(m1, t.name, t.attrs, wrap);
    Widths(ms, m1, w1);
    var w2 := WriteOpen(t.name, t.attrs, wrap, w1.col);
    var tag := Ink("<" + (if IsVerbatim(t.name) then t.name else WriteName(t.name)), |t.name| + 1);
    var m2 := LayAttrs(m1 + [tag], t.attrs, wrap);
    Then(ms, m1, m2, w1, w2);
    Widths(m1, m2, w2);
    if t.kids == [] {
      var close := if IsMarkup(t.name) then ">" else " />";
      var m3 := m2 + [Ink(close, |close|)];
      InkLaid(m2, close, |close|);
      Widths(m2, m3, Written(close, w2.col + |close|));
      SpaceLaid(m3, cb(p, AfterClose));
      var w4 := Written(cb(p, AfterClose), ColumnAfter(cb(p, AfterClose), w2.col + |close|));
      Then(m2, m3, LaySpace(m3, cb(p, AfterClose)), Written(close, w2.col + |close|), w4);
      Then(ms, m2, LaySpace(m3, cb(p, AfterClose)), Written(w1.text + w2.text, w2.col), Written(close + w4.text, w4.col));
    } else {
      KidsLaid(ms, m2, root, path, p, cb, wrap, Written(w1.text + w2.text, w2.col));
    }
  }

  lemma {:induction false} SamePlace(p: Place)
    ensures Place(p.around, p.before, p.node, p.after) == p
  {
  }

  /** The children and the close tag of an element whose open tag was written as `w2` */
  lemma {:induction false} KidsLaid(ms: seq<Mark>, m2: seq<Mark>, root: Tree, path: seq<nat>, p: Place, cb: WsCallback, wrap: int, w2: Written)
    requires Follow(root, path) == Some(p) && p.node.Element? && p.node.kids != [] && Between(ms, m2, w2)
    ensures var t := p.node;
            var inner := LayAll(LaySpace(m2 + [Ink(">", 1)], cb(p, AfterOpen)), t.kids, root, path, 0, cb, wrap);
            var w3 := WriteNodes(t.kids, p.around + [Around(t.name, t.attrs, p.before, p.after)], [], cb, wrap,
                                 ColumnAfter(cb(p, AfterOpen), w2.col + 1));
            Between(ms, inner, Written(w2.text + (">" + cb(p, AfterOpen) + w3.text), w3.col)) &&
            Between(ms, LaySpace(LaySpace(inner, cb(p, BeforeClose)) + [Ink("</" + Escape(t.name) + ">", |t.name| + 3)], cb(p, AfterClose)),
                    Written(w2.text + (">" + cb(p, AfterOpen) + (w3.text + cb(p, BeforeClose) + "</" + Escape(t.name) + ">" + cb(p, AfterClose))),
                            ColumnAfter(cb(p, AfterClose), ColumnAfter(cb(p, BeforeClose), w3.col) + |t.name| + 3)))
    decreases p.node.kids, 1
  {
    hide *;
    var t := p.node;
    Widths(ms, m2, w2);
    InkLaid(m2, ">", 1);
    var m3 := m2 + [Ink(">", 1)];
    Widths(m2, m3, Written(">", w2.col + 1));
    SpaceLaid(m3, cb(p, AfterOpen));
    var m4 := LaySpace(m3, cb(p, AfterOpen));
    var w4 := Written(cb(p, AfterOpen), ColumnAfter(cb(p, AfterOpen), w2.col + 1));
    Widths(m3, m4, w4);
    NodesLaid(m4, root, path, p, 0, cb, wrap);
    var inside := p.around + [Around(t.name, t.attrs, p.before, p.after)];
    assert t.kids[0..] == t.kids && t.kids[..0] == [];
    var inner := LayAll(m4, t.kids, root, path, 0, cb, wrap);
    var w3 := WriteNodes(t.kids, inside, [], cb, wrap, w4.col);
    Widths(m4, inner, w3);
    Then(ms, m2, m3, w2, Written(">", w2.col + 1));
    Then(ms, m3, m4, Written(w2.text + ">", w2.col + 1), w4);
    Then(ms, m4, inner, Written(w2.text + ">" + w4.text, w4.col), w3);
    EndLaid(inner, p, t.name, cb, w3.col);
    var w5 := Written(cb(p, BeforeClose) + ("</" + Escape(t.name) + ">") + cb(p, AfterClose),
                      ColumnAfter(cb(p, AfterClose), ColumnAfter(cb(p, BeforeClose), w3.col) + |t.name| + 3));
    var end := LaySpace(LaySpace(inner, cb(p, BeforeClose)) + [Ink("</" + Escape(t.name) + ">", |t.name| + 3)], cb(p, AfterClose));
    Then(ms, inner, end, Written(w2.text + ">" + w4.text + w3.text, w3.col), w5);
    Rejoin(w2.text, cb(p, AfterOpen), w3.text, cb(p, BeforeClose), Escape(t.name), cb(p, AfterClose));
  }

  lemma {:induction false} Rejoin(a: string, s: string, b: string, c: string, d: string, e: string)
    ensures a + ">" + s + b == a + (">" + s + b)
    ensures a + ">" + s + b + (c + ("</" + d + ">") + e) == a + (">" + s + (b + c + "</" + d + ">" + e))
  {
  }

  lemma {:induction false} EndLaid(ms: seq<Mark>, p: Place, name: string, cb: WsCallback, col: int)
    requires Width(ms) == col
    ensures Between(ms, LaySpace(LaySpace(ms, cb(p, BeforeClose)) + [Ink("</" + Escape(name) + ">", |name| + 3)], cb(p, AfterClose)),
                    Written(cb(p, BeforeClose) + ("</" + Escape(name) + ">") + cb(p, AfterClose),
                            ColumnAfter(cb(p, AfterClose), ColumnAfter(cb(p, BeforeClose), col) + |name| + 3)))
  {
    hide *;
    SpaceLaid(ms, cb(p, BeforeClose));
    var m1 := LaySpace(ms, cb(p, BeforeClose));
    var w1 := Written(cb(p, BeforeClose), ColumnAfter(cb(p, BeforeClose), col));
    Widths(ms, m1, w1);
    var text := "</" + Escape(name) + ">";
    InkLaid(m1, text, |name| + 3);
    var m2 := m1 + [Ink(text, |name| + 3)];
    Widths(m1, m2, Written(text, w1.col + |name| + 3));
    Then(ms, m1, m2, w1, Written(text, w1.col + |name| + 3));
    SpaceLaid(m2, cb(p, AfterClose));
    Then(ms, m2, LaySpace(m2, cb(p, AfterClose)), Written(w1.text + text, w1.col + |name| + 3),
         Written(cb(p, AfterClose), ColumnAfter(cb(p, AfterClose), w1.col + |name| + 3)));
  }

  lemma {:induction false} NextPlace(root: Tree, path: seq<nat>, p: Place, i: nat)
    requires Follow(root, path) == Some(p) && p.node.Element? && i < |p.node.kids|
    ensures var t := p.node;
            Follow(root, path + [i]) ==
              Some(Place(p.around + [Around(t.name, t.attrs, p.before, p.after)], t.kids[..i], t.kids[i], t.kids[i + 1..]))
  {
    assert (path + [i])[..|path|] == path;
  }

  lemma {:induction false} NodesLaid(ms: seq<Mark>, root: Tree, path: seq<nat>, p: Place, i: nat, cb: WsCallback, wrap: int)
    requires Follow(root, path) == Some(p) && p.node.Element? && i <= |p.node.kids|
    ensures var t := p.node;
            Between(ms, LayAll(ms, t.kids[i..], root, path, i, cb, wrap),
                    WriteNodes(t.kids[i..], p.around + [Around(t.name, t.attrs, p.before, p.after)], t.kids[..i], cb, wrap, Width(ms)))
    decreases p.node.kids, 0, |p.node.kids| - i
  {
    hide *;
    var t := p.node;
    var inside := p.around + [Around(t.name, t.attrs, p.before, p.after)];
    NodesStep(t.kids[i..], inside, t.kids[..i], cb, wrap, Width(ms));
    LayStep(ms, t.kids[i..], root, path, i, cb, wrap);
    if i == |t.kids| {
      Still(ms);
    } else {
      var kid := t.kids[i];
      assert t.kids[i..][0] == kid && t.kids[i..][1..] == t.kids[i + 1..] && t.kids[..i] + [kid] == t.kids[..i + 1];
      NextPlace(root, path, p, i);
      var q := Place(inside, t.kids[..i], kid, t.kids[i + 1..]);
      NodeLaid(ms, root, path + [i], q, cb, wrap);
      var w := WriteNode(kid, inside, t.kids[..i], t.kids[i + 1..], cb, wrap, Width(ms));
      var next := Lay(ms, kid, root, path + [i], cb, wrap);
      Widths(ms, next, w);
      NodesLaid(next, root, path, p, i + 1, cb, wrap);
      Then(ms, next, LayAll(next, t.kids[i + 1..], root, path, i + 1, cb, wrap), w,
           WriteNodes(t.kids[i + 1..], inside, t.kids[..i + 1], cb, wrap, w.col));
    }
  }

  lemma {:induction false} LayStep(ms: seq<Mark>, ts: seq<Tree>, root: Tree, path: seq<nat>, i: nat, cb: WsCallback, wrap: int)
    ensures LayAll(ms, ts, root, path, i, cb, wrap) ==
              if ts == [] then ms
              else LayAll(Lay(ms, ts[0], root, path + [i], cb, wrap), ts[1..], root, path, i + 1, cb, wrap)
  {
    hide Lay;
  }

  /** Every saved document, under every whitespace callback, is its marks: lines break where the callback
      asks for it and, at the margin, in front of an attribute that would go past it and of a value where the
      line is past it, and nowhere else; and the callback is asked about each element at its place. */
  lemma {:induction false} SavedAsLaid(t: Tree, cb: WsCallback, wrap: int)
    ensures var ms := Lay([], t, t, [], cb, wrap);
            Save(t, cb, wrap) == Shown(ms) + (if Width(ms) > 0 then "\n" else [])
  {
    hide WriteNode, Lay;
    NodeLaid([], t, [], Place([], [], t, []), cb, wrap);
    var w := WriteNode(t, [], [], [], cb, wrap, 0);
    assert [] + w.text == w.text;
  }

  lemma {:induction false} HasNone(ts: seq<Tree>)
    ensures HasElement(ts) <==> !NoElements(ts)
  {
  }

  /** How deep a place is */
  lemma {:induction false} Depth(root: Tree, path: seq<nat>)
    ensures Follow(root, path).Some? ==> |Follow(root, path).value.around| == |path|
    decreases |path|
  {
    if path != [] {
      Depth(root, path[..|path| - 1]);
    }
  }

  /** The library's indentation at any place of any document, mixed content included: the first element
      among its siblings starts a new line; every element ends one; elements are indented by their depth, and
      so are the close tags of those that hold elements. */
  lemma {:induction false} IndentationAt(root: Tree, path: seq<nat>, w: Where)
    requires Follow(root, path).Some? && Follow(root, path).value.node.Element?
    ensures var p := Follow(root, path).value;
            Ask(root, path, Indent, w) ==
              match w
              case BeforeOpen => (if path != [] && NoElements(p.before) then "\n" else []) + Margin(|path|)
              case AfterOpen => []
              case BeforeClose => if NoElements(p.node.kids) then [] else Margin(|path|)
              case AfterClose => "\n"
  {
    hide Follow, HasElement, Margin, Indentation, NoElements;
    var p := Follow(root, path).value;
    Depth(root, path);
    MarginIs(|path|);
    HasNone(p.before);
    HasNone(p.node.kids);
  }
}
