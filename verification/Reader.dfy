/** What mxml-file.c's loader computes, as functions on the rest of the input string.
    Every loop of the C code is one tail-recursive function here. */
module Reader {
  import opened Options
  import opened Chars
  import opened Numbers
  import opened Trees

  /** The types of value node that a load callback can ask for */
  datatype ValueType = IgnoreType | IntegerType | OpaqueType | TextType

  /** The load callback. It is asked about an element when that element is opened and when
      the parser returns to it. */
  datatype Callback = NoCallback | Callback(f: (string, seq<Attr>) -> ValueType) {
    function TypeOf(name: string, attrs: seq<Attr>): ValueType {
      match this
      case NoCallback => TextType
      case Callback(f) => f(name, attrs)
    }
  }

  /** `ents` is `mxmlEntityGetValue`: the character of a named entity, or a negative number. */
  datatype Env = Env(ents: string -> int, cb: Callback)

  // ----- characters and entities -----

  /** Result of `mxml_string_getc`: end of file, or one character; `rest` is what stays unread */
  datatype Got = Eof(rest: string) | Got(c: char, rest: string)

  /** `mxml_string_getc`. A forbidden control character reads as end of file but is consumed;
      the terminating NUL is not. */
  function GetC(s: string): (g: Got)
    ensures |g.rest| <= |s| && (g.Got? ==> |g.rest| < |s|)
  {
    if s == [] || s[0] == '\0' then Eof(s)
    else if BadChar(s[0] as int) then Eof(s[1..])
    else Got(s[0], s[1..])
  }

  function LowByte(n: int): char {
    (n % 256) as char
  }

  /** The bytes that `mxml_add_char` of mxml-file.c stores for `ch`. Bit 7 of `ch` selects
      the one-byte form: that is the variant's "high byte" patch. */
  function AddChar(ch: int): (s: string)
    ensures 1 <= |s| <= 4
  {
    if ch < 0x80 || (ch / 0x80) % 2 == 1 then [LowByte(ch)]
    else if ch < 0x800 then [LowByte(0xC0 + ch / 0x40), LowByte(0x80 + ch % 0x40)]
    else if ch < 0x10000 then
      [LowByte(0xE0 + ch / 0x1000), LowByte(0x80 + ch / 0x40 % 0x40), LowByte(0x80 + ch % 0x40)]
    else
      [LowByte(0xF0 + ch / 0x40000 % 0x10), LowByte(0x80 + ch / 0x1000 % 0x40),
       LowByte(0x80 + ch / 0x40 % 0x40), LowByte(0x80 + ch % 0x40)]
  }

  /** The name of an entity, the character that ended it (None at end of file), and the rest */
  datatype EntityName = EntityName(name: string, ch: Option<char>, rest: string)

  /** The loop of `mxml_get_entity`: at most 63 characters are collected. */
  function ReadEntityName(s: string, name: string): (r: EntityName)
    ensures |r.rest| <= |s|
    decreases |s|
  {
    match GetC(s)
    case Eof(rest) => EntityName(name, None, rest)
    case Got(c, rest) =>
      if c as int > 126 || (!IsAlnum(c) && c != '#') || |name| >= 63 then EntityName(name, Some(c), rest)
      else ReadEntityName(rest, name + [c])
  }

  /** The character that an entity name stands for, or a negative number */
  function EntityValue(name: string, ents: string -> int): int {
    if name != [] && name[0] == '#' then
      ToInt32(if |name| > 1 && name[1] == 'x' then StrToL(name[2..], 16).0 else StrToL(name[1..], 10).0)
    else ents(name)
  }

  /** Result of `mxml_get_entity`: end of file (an error for every caller), or a character */
  datatype EntityResult = NoEntity | Entity(code: int, rest: string)

  /** `mxml_get_entity`, called after the '&' has been read */
  function GetEntity(s: string, ents: string -> int): (r: EntityResult)
    ensures r.Entity? ==> |r.rest| <= |s| && !BadChar(r.code)
  {
    var n := ReadEntityName(s, "");
    if n.ch != Some(';') || BadChar(EntityValue(n.name, ents)) then NoEntity
    else Entity(EntityValue(n.name, ents), n.rest)
  }

  // ----- attributes: mxml_parse_element -----

  /** Characters collected up to a delimiter: the text, the delimiter (None at end of file) and
      the rest; or an error that makes the whole load fail */
  datatype Scanned = ScanError | Scanned(text: string, ch: Option<char>, rest: string)

  /** An attribute name without quotes */
  function ReadAttrName(s: string, name: string, ents: string -> int): (r: Scanned)
    ensures r.Scanned? ==> |r.rest| <= |s|
    decreases |s|
  {
    match GetC(s)
    case Eof(rest) => Scanned(name, None, rest)
    case Got(c, rest) =>
      if IsSpace(c) || c == '=' || c == '/' || c == '>' || c == '?' then Scanned(name, Some(c), rest)
      else if c == '&' then
        match GetEntity(rest, ents)
        case NoEntity => ScanError
        case Entity(code, rest') => ReadAttrName(rest', name + AddChar(code), ents)
      else ReadAttrName(rest, name + AddChar(c as int), ents)
  }

  /** An attribute name in quotes: everything up to and including the closing quote, which may also
      come from an entity */
  function ReadQuotedName(s: string, quote: char, name: string, ents: string -> int): (r: Scanned)
    ensures r.Scanned? ==> |r.rest| <= |s| && (r.ch == None || r.ch == Some(quote))
    decreases |s|
  {
    match GetC(s)
    case Eof(rest) => Scanned(name, None, rest)
    case Got(c, rest) =>
      if c == '&' then
        match GetEntity(rest, ents)
        case NoEntity => ScanError
        case Entity(code, rest') =>
          if code == quote as int then Scanned(name + AddChar(code), Some(quote), rest')
          else ReadQuotedName(rest', quote, name + AddChar(code), ents)
      else if c == quote then Scanned(name + AddChar(c as int), Some(quote), rest)
      else ReadQuotedName(rest, quote, name + AddChar(c as int), ents)
  }

  /** An attribute value in quotes; it may end at end of file */
  function ReadQuoted(s: string, quote: char, value: string, ents: string -> int): (r: Scanned)
    ensures r.Scanned? ==> |r.rest| <= |s|
    decreases |s|
  {
    match GetC(s)
    case Eof(rest) => Scanned(value, None, rest)
    case Got(c, rest) =>
      if c == quote then Scanned(value, Some(c), rest)
      else if c == '&' then
        match GetEntity(rest, ents)
        case NoEntity => ScanError
        case Entity(code, rest') => ReadQuoted(rest', quote, value + AddChar(code), ents)
      else ReadQuoted(rest, quote, value + AddChar(c as int), ents)
  }

  /** An attribute value without quotes, after its first character */
  function ReadUnquoted(s: string, value: string, ents: string -> int): (r: Scanned)
    ensures r.Scanned? ==> |r.rest| <= |s|
    decreases |s|
  {
    match GetC(s)
    case Eof(rest) => Scanned(value, None, rest)
    case Got(c, rest) =>
      if IsSpace(c) || c == '=' || c == '/' || c == '>' then Scanned(value, Some(c), rest)
      else if c == '&' then
        match GetEntity(rest, ents)
        case NoEntity => ScanError
        case Entity(code, rest') => ReadUnquoted(rest', value + AddChar(code), ents)
      else ReadUnquoted(rest, value + AddChar(c as int), ents)
  }

  /** The first character that is not whitespace */
  function NextNonSpace(s: string): (g: Got)
    ensures |g.rest| <= |s| && (g.Got? ==> |g.rest| < |s|)
    decreases |s|
  {
    var g := GetC(s);
    if g.Got? && IsSpace(g.c) then NextNonSpace(g.rest) else g
  }

  /** One attribute: its name, its value, what ended the value, the rest */
  datatype AttrResult = AttrError | AttrDone(name: string, value: string, ch: Option<char>, rest: string)

  /** The part of the loop of `mxml_parse_element` that reads one attribute, whose name starts
      with `c` */
  function ReadAttr(c: char, s: string, attrs: seq<Attr>, ents: string -> int): (r: AttrResult)
    ensures r.AttrDone? ==> |r.rest| <= |s|
  {
    match if IsQuote(c) then ReadQuotedName(s, c, [c], ents) else ReadAttrName(s, [c], ents)
    case ScanError => AttrError
    case Scanned(name, ch, rest) =>
      if GetAttr(attrs, name).Some? then AttrError
      else
        match AfterName(ch, rest)
        case Eof(_) => AttrError
        case Got(eq, rest1) =>
          if eq != '=' then AttrError
          else ReadValue(name, rest1, ents)
  }

  /** A name in quotes is never accepted: its closing quote is taken for what follows the name, and
      that would have to be an '='. */
  lemma {:induction false} QuotedNameFails(c: char, s: string, attrs: seq<Attr>, ents: string -> int)
    requires IsQuote(c)
    ensures ReadAttr(c, s, attrs, ents) == AttrError
  {
    hide ReadQuotedName, ReadValue;
    var r := ReadQuotedName(s, c, [c], ents);
    assert r.Scanned? && r.ch.Some? ==> r.ch.value == c;
  }

  /** The first character that is not whitespace, from the delimiter `ch` of a name on */
  function AfterName(ch: Option<char>, s: string): (g: Got)
    ensures |g.rest| <= |s|
  {
    match ch
    case None => Eof(s)
    case Some(c) => if IsSpace(c) then NextNonSpace(s) else Got(c, s)
  }

  /** The value of attribute `name`, from the character after its '=' on */
  function ReadValue(name: string, s: string, ents: string -> int): (r: AttrResult)
    ensures r.AttrDone? ==> |r.rest| <= |s|
  {
    match NextNonSpace(s)
    case Eof(_) => AttrError
    case Got(q, rest) =>
      var v := if IsQuote(q) then ReadQuoted(rest, q, [], ents)
               else ReadUnquoted(rest, [q], ents);
      match v
      case ScanError => AttrError
      case Scanned(value, ch, rest') => AttrDone(name, value, ch, rest')
  }

  /** Result of `mxml_parse_element`: an error, or the attributes and the character that ended the tag */
  datatype Parsed = ParseError | Parsed(attrs: seq<Attr>, ch: char, rest: string)

  /** The '>' that must follow `ch` */
  function ExpectGreater(ch: char, s: string, attrs: seq<Attr>): (r: Parsed)
    ensures r.Parsed? ==> |r.rest| <= |s|
  {
    var g := GetC(s);
    if g.Got? && g.c == '>' then Parsed(attrs, ch, g.rest) else ParseError
  }

  /** `mxml_parse_element`, for an element that already has `attrs` */
  function ParseElement(s: string, attrs: seq<Attr>, ents: string -> int): (r: Parsed)
    ensures r.Parsed? ==> |r.rest| <= |s|
    decreases |s|
  {
    match GetC(s)
    case Eof(_) => ParseError
    case Got(c, rest) =>
      if IsSpace(c) then ParseElement(rest, attrs, ents)
      else if c == '/' || c == '?' then ExpectGreater(c, rest, attrs)
      else if c == '<' then ParseError
      else if c == '>' then Parsed(attrs, c, rest)
      else
        match ReadAttr(c, rest, attrs, ents)
        case AttrError => ParseError
        case AttrDone(name, value, ch, rest') =>
          var attrs' := SetAttr(attrs, name, Some(value));
          if ch == Some('/') || ch == Some('?') then ExpectGreater(ch.value, rest', attrs')
          else if ch == Some('>') then Parsed(attrs', '>', rest')
          else ParseElement(rest', attrs', ents)
  }

  // ----- tags -----

  predicate StopsTagName(buf: string) {
    buf == "?" || buf == "!--" || buf == "![CDATA["
  }

  /** The loop that collects the name of a tag after its '<' */
  function ReadTagName(s: string, buf: string, ents: string -> int): (r: Scanned)
    ensures r.Scanned? ==> |r.rest| <= |s|
    decreases |s|
  {
    match GetC(s)
    case Eof(rest) => Scanned(buf, None, rest)
    case Got(c, rest) =>
      if IsSpace(c) || c == '>' || (c == '/' && buf != []) then Scanned(buf, Some(c), rest)
      else if c == '<' then ScanError
      else if c == '&' then
        match GetEntity(rest, ents)
        case NoEntity => ScanError
        case Entity(code, rest') => ReadTagName(rest', buf + AddChar(code), ents)
      else
        var buf' := buf + AddChar(c as int);
        if StopsTagName(buf') then Scanned(buf', Some(c), rest) else ReadTagName(rest, buf', ents)
  }

  datatype MarkupKind = Comment | CData | Directive

  /** Does a '>' after `buf` end a comment, a CDATA section, a processing instruction? */
  predicate EndsMarkup(kind: MarkupKind, buf: string) {
    var n := |buf|;
    match kind
    case Comment => n > 4 && buf[n - 3] != '-' && buf[n - 2] == '-' && buf[n - 1] == '-'
    case CData => n >= 2 && buf[n - 2] == ']' && buf[n - 1] == ']'
    case Directive => n > 0 && buf[n - 1] == '?'
  }

  /** The rest of a comment, CDATA section or processing instruction. Entities are not decoded. */
  function ReadMarkup(s: string, buf: string, kind: MarkupKind): (r: Scanned)
    ensures r.Scanned? ==> |r.rest| <= |s|
    decreases |s|
  {
    match GetC(s)
    case Eof(_) => ScanError
    case Got(c, rest) =>
      if c == '>' && EndsMarkup(kind, buf) then Scanned(buf, Some(c), rest)
      else ReadMarkup(rest, buf + AddChar(c as int), kind)
  }

  /** The rest of a declaration; `ch` is the character that stopped the tag name. The C loop
      stores EOF (-1) as a byte when the name was cut off, and then reads on. */
  function ReadDeclaration(ch: Option<char>, s: string, buf: string, ents: string -> int): (r: Scanned)
    ensures r.Scanned? ==> |r.rest| <= |s|
    decreases |s|
  {
    if ch == Some('>') then Scanned(buf, ch, s)
    else
      var e := if ch == Some('&') then GetEntity(s, ents)
               else Entity(if ch.Some? then ch.value as int else -1, s);
      match e
      case NoEntity => ScanError
      case Entity(code, rest) =>
        match GetC(rest)
        case Eof(_) => ScanError
        case Got(c, rest') => ReadDeclaration(Some(c), rest', buf + AddChar(code), ents)
  }

  /** Skips to the '>' of a close tag, or to end of file */
  function SkipToClose(ch: Option<char>, s: string): (rest: string)
    ensures |rest| <= |s|
    decreases |s|, if ch.Some? then 1 else 0
  {
    if ch == Some('>') || ch == None then s
    else
      match GetC(s)
      case Eof(rest) => SkipToClose(None, rest)
      case Got(c, rest) => SkipToClose(Some(c), rest)
  }

  // ----- the tree under construction -----

  /** An open element: its name and attributes, and the children it has so far */
  datatype Frame = Frame(name: string, attrs: seq<Attr>, kids: seq<Tree>) {
    function Close(): Tree {
      Element(name, attrs, kids)
    }
  }

  /** State of `mxml_load_data` between two characters of its main loop.
      `stack` is the chain of open elements from the outermost to `parent`; `done` holds the
      finished nodes that have no parent, so `first` is `done[0]` or the outermost open element. */
  datatype State = State(done: seq<Tree>, stack: seq<Frame>, ty: ValueType, ws: bool, buf: string)

  const Start := State([], [], TextType, false, [])

  /** `mxmlNew..(parent, ..)`: a finished node becomes the last child of `parent` */
  function AddNode(st: State, t: Tree): State {
    if st.stack == [] then st.(done := st.done + [t])
    else
      var top := st.stack[|st.stack| - 1];
      st.(stack := st.stack[..|st.stack| - 1] + [top.(kids := top.kids + [t])])
  }

  /** A new element becomes `parent` */
  function Push(st: State, name: string, attrs: seq<Attr>, cb: Callback): State {
    st.(stack := st.stack + [Frame(name, attrs, [])],
        ty := if cb.Callback? then cb.TypeOf(name, attrs) else st.ty)
  }

  /** `parent` is finished and its own parent becomes `parent` */
  function Pop(st: State, cb: Callback): State
    requires st.stack != []
  {
    var top := st.stack[|st.stack| - 1];
    var below := st.(stack := st.stack[..|st.stack| - 1]);
    var st' := AddNode(below, top.Close());
    if cb.Callback? && below.stack != [] then
      var p := below.stack[|below.stack| - 1];
      st'.(ty := cb.TypeOf(p.name, p.attrs))
    else st'
  }

  // ----- value nodes -----

  /** Result of adding a value node: `BadNumber` leaves the main loop, without an error */
  datatype FlushResult = Flushed(st: State) | BadNumber(st: State)

  /** Adds the value node for the buffered characters */
  function AddValue(st: State): (r: FlushResult)
    requires st.buf != []
    ensures |r.st.stack| == |st.stack|
  {
    match st.ty
    case IgnoreType => Flushed(st)
    case TextType => Flushed(AddNode(st, Text(st.ws, st.buf)))
    case OpaqueType => Flushed(AddNode(st, Opaque(st.buf)))
    case IntegerType =>
      var (v, end) := StrToL(st.buf, 0);
      var st' := AddNode(st, Integer(ToInt32(v)));
      if end < |st.buf| then BadNumber(st') else Flushed(st')
  }

  /** Whitespace right before a tag becomes an empty text node. */
  function LoneSpace(st: State, c: char): (st': State)
    ensures |st'.stack| == |st.stack|
  {
    if c == '<' && st.ws && st.ty == TextType then AddNode(st, Text(true, [])).(ws := false) else st
  }

  /** The value-node part of the loop body, for the character `c` */
  function Flush(st: State, c: char): (r: FlushResult)
    ensures |r.st.stack| == |st.stack|
  {
    if (c == '<' || (IsSpace(c) && st.ty != OpaqueType)) && st.buf != [] then
      match AddValue(st)
      case BadNumber(st') => BadNumber(st')
      case Flushed(st') => Flushed(LoneSpace(st'.(buf := [], ws := IsSpace(c) && st.ty == TextType), c))
    else if IsSpace(c) && st.ty == TextType then Flushed(LoneSpace(st.(ws := true), c))
    else Flushed(LoneSpace(st, c))
  }

  // ----- the tag part of the loop body -----

  /** What a turn of the main loop leads to. `Stopped` leaves the loop early, without an error. */
  datatype Outcome = Failed | Stopped(st: State) | Running(st: State, rest: string)

  /** A comment or CDATA section never becomes `parent`; other markup does when there is none. */
  function AddMarkup(st: State, r: Scanned, mayOpen: bool, cb: Callback): Outcome {
    match r
    case ScanError => Failed
    case Scanned(name, _, rest) =>
      Running(if mayOpen && st.stack == [] then Push(st, name, [], cb)
              else AddNode(st, Element(name, [], [])), rest)
  }

  function CloseTag(st: State, buf: string, ch: Option<char>, s: string, cb: Callback): Outcome
    requires buf != []
  {
    if st.stack == [] || st.stack[|st.stack| - 1].name != buf[1..] then Failed
    else Running(Pop(st, cb), SkipToClose(ch, s))
  }

  /** The rest of an open tag whose name ended at `stop`: its attributes, and the character that
      ends it */
  function TagEnd(stop: char, s: string, ents: string -> int): (r: Parsed)
    ensures r.Parsed? ==> |r.rest| <= |s|
  {
    if IsSpace(stop) then ParseElement(s, [], ents)
    else if stop == '/' then ExpectGreater('/', s, [])
    else Parsed([], stop, s)
  }

  function OpenTag(st: State, name: string, ch: Option<char>, s: string, env: Env): (r: Outcome)
    ensures r.Running? ==> |r.rest| <= |s|
  {
    if ch == None then Stopped(AddNode(st, Element(name, [], [])))
    else
      match TagEnd(ch.value, s, env.ents)
      case ParseError => Failed
      case Parsed(attrs, end, rest) =>
        if end == '/' then Running(AddNode(st, Element(name, attrs, [])), rest)
        else Running(Push(st, name, attrs, env.cb), rest)
  }

  /** Everything from the character after '<' to the end of the tag */
  function Tag(st: State, s: string, env: Env): (r: Outcome)
    ensures r.Running? ==> |r.rest| <= |s|
  {
    match ReadTagName(s, [], env.ents)
    case ScanError => Failed
    case Scanned(buf, ch, rest) =>
      if buf == "!--" then AddMarkup(st, ReadMarkup(rest, buf, Comment), false, env.cb)
      else if buf == "![CDATA[" then AddMarkup(st, ReadMarkup(rest, buf, CData), false, env.cb)
      else if buf != [] && buf[0] == '?' then AddMarkup(st, ReadMarkup(rest, buf, Directive), true, env.cb)
      else if buf != [] && buf[0] == '!' then AddMarkup(st, ReadDeclaration(ch, rest, buf, env.ents), true, env.cb)
      else if buf != [] && buf[0] == '/' then CloseTag(st, buf, ch, rest, env.cb)
      else OpenTag(st, buf, ch, rest, env)
  }

  // ----- the main loop -----

  /** One turn of the main loop, for the character `c` */
  function Step(st: State, c: char, s: string, env: Env): (r: Outcome)
    ensures r.Running? ==> |r.rest| <= |s|
  {
    match Flush(st, c)
    case BadNumber(st') => Stopped(st')
    case Flushed(st') =>
      if c == '<' then Tag(st'.(buf := []), s, env)
      else if c == '&' then
        match GetEntity(s, env.ents)
        case NoEntity => Failed
        case Entity(code, rest) => Running(st'.(buf := st'.buf + AddChar(code)), rest)
      else if st'.ty == OpaqueType || !IsSpace(c) then Running(st'.(buf := st'.buf + AddChar(c as int)), s)
      else Running(st', s)
  }

  /** The whole main loop: it never ends `Running` */
  function Run(st: State, s: string, env: Env): (r: Outcome)
    ensures !r.Running?
    decreases |s|
  {
    match GetC(s)
    case Eof(_) => Stopped(st)
    case Got(c, rest) =>
      match Step(st, c, rest, env)
      case Failed => Failed
      case Stopped(st') => Stopped(st')
      case Running(st', rest') => Run(st', rest', env)
  }

  /** What the loader returns when the loop ends without an error: the outermost open element
      if it is the only one, the first node if no element is open, null otherwise. */
  function Finish(st: State): Option<Tree> {
    if st.stack == [] then (if st.done == [] then None else Some(st.done[0]))
    else if |st.stack| == 1 then Some(st.stack[0].Close())
    else None
  }

  /** `mxmlLoadString(NULL, s, cb)` */
  function Load(s: string, env: Env): Option<Tree> {
    match Run(Start, s, env)
    case Failed => None
    case Stopped(st) => Finish(st)
    case Running(_, _) => None
  }
}
