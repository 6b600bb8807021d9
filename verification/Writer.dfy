/** What mxml-file.c's printer writes, as functions from trees to text. */
module Writer {
  import opened Options
  import opened Chars
  import opened Numbers
  import opened Trees

  /** The places where the printer asks its whitespace callback for a string */
  datatype Where = BeforeOpen | AfterOpen | BeforeClose | AfterClose

  /** An open element around a node, with the siblings of that element on both sides */
  datatype Around = Around(name: string, attrs: seq<Attr>, before: seq<Tree>, after: seq<Tree>)

  /** What a whitespace callback can see of an element by following its pointers, which is the whole
      document: the elements around it from the outermost on, the siblings on both sides, and the
      element itself */
  datatype Place = Place(around: seq<Around>, before: seq<Tree>, node: Tree, after: seq<Tree>)

  type WsCallback = (Place, Where) -> string

  /** `MXML_NO_CALLBACK`: nothing is written */
  function Silent(p: Place, w: Where): string {
    []
  }

  predicate HasElement(ts: seq<Tree>) {
    exists i :: 0 <= i < |ts| && ts[i].Element?
  }

  function Spaces(n: nat): string {
    if n == 0 then [] else "  " + Spaces(n - 1)
  }

  /** The two-space indentation of an element; the root's children are not indented, and there
      are never more than 29 levels. */
  function Indentation(ancestors: nat): string {
    if ancestors < 1 then [] else Spaces(if ancestors - 1 < 29 then ancestors - 1 else 29)
  }

  /** `_write_ws_cb` */
  function Indent(p: Place, w: Where): string {
    match w
    case AfterClose => "\n"
    case AfterOpen => []
    case BeforeClose => if p.node.Element? && HasElement(p.node.kids) then Indentation(|p.around|) else []
    case BeforeOpen =>
      (if !HasElement(p.before) && p.around != [] then "\n" else []) + Indentation(|p.around|)
  }

  /** Text that was written, and the column that the printer counts after it */
  datatype Written = Written(text: string, col: int)

  const TAB: int := 8

  /** The column after writing the whitespace string `s` (`mxml_write_ws`) */
  function ColumnAfter(s: string, col: int): int {
    if s == [] then col
    else ColumnAfter(s[1..], if s[0] == '\n' then 0
                             else if s[0] == '\t' then col + TAB - CRem(col + TAB, TAB)
                             else col + 1)
  }

  /** C's `%` for a positive divisor: the sign of the dividend */
  function CRem(a: int, b: int): int
    requires b > 0
  {
    if a >= 0 then a % b else -((-a) % b)
  }

  function WriteSpace(s: string, col: int): Written {
    Written(s, ColumnAfter(s, col))
  }

  /** `mxmlEntityGetName` */
  function NamedEntity(c: char): Option<string> {
    match c
    case '&' => Some("amp")
    case '<' => Some("lt")
    case '>' => Some("gt")
    case '\"' => Some("quot")
    case _ => None
  }

  function EscapeChar(c: char): (s: string)
    ensures s != []
  {
    match NamedEntity(c)
    case Some(name) => "&" + name + ";"
    case None => [c]
  }

  /** `mxml_write_string` */
  function Escape(s: string): string {
    if s == [] then [] else EscapeChar(s[0]) + Escape(s[1..])
  }

  /** The part of `s` before the first `quote` */
  function UpTo(s: string, quote: char): string {
    if s == [] || s[0] == quote then [] else [s[0]] + UpTo(s[1..], quote)
  }

  /** `mxml_write_name` */
  function WriteName(s: string): string {
    if s != [] && IsQuote(s[0]) then [s[0]] + Escape(UpTo(s[1..], s[0])) + [s[0]] else s
  }

  /** A separator: a newline when the column is past the wrap margin, a space otherwise */
  function WriteSeparator(pastMargin: bool, col: int): Written {
    if pastMargin then Written("\n", 0) else Written(" ", col + 1)
  }

  function AttrWidth(a: Attr): nat {
    |a.name| + (if a.value.Some? then |a.value.value| + 3 else 0)
  }

  function AttrText(a: Attr): string {
    WriteName(a.name) + (if a.value.Some? then "=\"" + Escape(a.value.value) + "\"" else [])
  }

  function WriteAttrs(attrs: seq<Attr>, wrap: int, col: int): Written {
    if attrs == [] then Written([], col)
    else
      var sep := WriteSeparator(col + AttrWidth(attrs[0]) > wrap, col);
      var rest := WriteAttrs(attrs[1..], wrap, sep.col + AttrWidth(attrs[0]));
      Written(sep.text + AttrText(attrs[0]) + rest.text, rest.col)
  }

  /** Elements whose name starts with '!' or '?' have no close tag. */
  predicate IsMarkup(name: string) {
    name != [] && (name[0] == '!' || name[0] == '?')
  }

  /** Elements that are written without escaping anything in their name */
  predicate IsVerbatim(name: string) {
    "?" <= name || "!--" <= name || "![CDATA[" <= name
  }

  /** The open tag up to, but not including, what closes it */
  function WriteOpen(name: string, attrs: seq<Attr>, wrap: int, col: int): Written {
    var a := WriteAttrs(attrs, wrap, col + |name| + 1);
    Written("<" + (if IsVerbatim(name) then name else WriteName(name)) + a.text, a.col)
  }

  /** What follows the attributes of an element that has children, given what they wrote */
  function WriteEnd(p: Place, name: string, kids: Written, cb: WsCallback): Written {
    if IsMarkup(name) then kids
    else
      var before := WriteSpace(cb(p, BeforeClose), kids.col);
      var after := WriteSpace(cb(p, AfterClose), before.col + |name| + 3);
      Written(kids.text + before.text + "</" + Escape(name) + ">" + after.text, after.col)
  }

  /** What follows the attributes of an element without children */
  function WriteEmpty(p: Place, name: string, col: int, cb: WsCallback): Written {
    var close := if IsMarkup(name) then ">" else " />";
    var after := WriteSpace(cb(p, AfterClose), col + |close|);
    Written(close + after.text, after.col)
  }

  /** One node, `mxml_write_node`'s loop body */
  function WriteNode(t: Tree, around: seq<Around>, before: seq<Tree>, after: seq<Tree>, cb: WsCallback, wrap: int, col: int): Written
    decreases t, 1
  {
    match t
    case Element(name, attrs, kids) =>
      var p := Place(around, before, t, after);
      var start := WriteSpace(cb(p, BeforeOpen), col);
      var open := WriteOpen(name, attrs, wrap, start.col);
      var rest := if kids == [] then WriteEmpty(p, name, open.col, cb)
                  else
                    var space := WriteSpace(cb(p, AfterOpen), open.col + 1);
                    var inner := WriteNodes(kids, around + [Around(name, attrs, before, after)], [], cb, wrap, space.col);
                    var end := WriteEnd(p, name, inner, cb);
                    Written(">" + space.text + end.text, end.col);
      Written(start.text + open.text + rest.text, rest.col)
    case Integer(n) =>
      var sep := if before != [] then WriteSeparator(col > wrap, col) else Written([], col);
      Written(sep.text + Escape(Decimal(n)), sep.col + |Decimal(n)|)
    case Opaque(s) =>
      Written(Escape(s), col + |s|)
    case Text(ws, s) =>
      var sep := if ws && col > 0 then WriteSeparator(col > wrap, col) else Written([], col);
      Written(sep.text + Escape(s), sep.col + |s|)
  }

  /** A list of siblings, `before` being those already written: `mxml_write_node` */
  function WriteNodes(ts: seq<Tree>, around: seq<Around>, before: seq<Tree>, cb: WsCallback, wrap: int, col: int): Written
    decreases ts, 0
  {
    if ts == [] then Written([], col)
    else
      var first := WriteNode(ts[0], around, before, ts[1..], cb, wrap, col);
      var rest := WriteNodes(ts[1..], around, before + [ts[0]], cb, wrap, first.col);
      Written(first.text + rest.text, rest.col)
  }

  /** The text that `mxmlSaveString` produces for a root node */
  function Save(t: Tree, cb: WsCallback, wrap: int): string {
    var w := WriteNode(t, [], [], [], cb, wrap, 0);
    w.text + (if w.col > 0 then "\n" else [])
  }
}
