/** The trees that survive being saved and loaded, and the looser notion of sameness for
    trees that were saved with a whitespace callback. */
module Canonical {
  import opened Options
  import opened Chars
  import opened Trees
  import opened Reader
  import opened Writer

  /** The four entities that the printer writes stand for their characters. */
  ghost predicate StandardEntities(ents: string -> int) {
    forall c: char :: NamedEntity(c).Some? ==> ents(NamedEntity(c).value) == c as int
  }

  predicate Lacks(s: string, cs: string) {
    forall i :: 0 <= i < |s| ==> s[i] !in cs
  }

  /** The printer copies a name that starts with a quote up to the next such quote, and escapes what
      is between the two. */
  predicate PlainOrQuoted(name: string) {
    if name != [] && IsQuote(name[0]) then
      |name| > 1 && name[|name| - 1] == name[0] && name[0] !in name[1..|name| - 1]
    else Lacks(name, "<>&")
  }

  /** The empty name is one of these. */
  predicate ElementNameOk(name: string) {
    Good(name) && NoSpace(name) && '/' !in name && PlainOrQuoted(name) && !IsMarkup(name)
  }

  /** The first character of an attribute's name may be one that ends the name further on. */
  predicate AttrNameOk(name: string) {
    && name != [] && Good(name)
    && !IsSpace(name[0]) && name[0] !in "/?<>" && !IsQuote(name[0])
    && NoSpace(name[1..]) && Lacks(name[1..], "=/>?&")
  }

  predicate AttrOk(a: Attr) {
    AttrNameOk(a.name) && a.value.Some? && Good(a.value.value)
  }

  ghost predicate AttrsOk(attrs: seq<Attr>) {
    UniqueNames(attrs) && forall i :: 0 <= i < |attrs| ==> AttrOk(attrs[i])
  }

  /** The part of a declaration that the parser reads as a tag name */
  function Head(name: string): (h: string)
    ensures h <= name
    ensures |h| < |name| ==> IsSpace(name[|h|]) || name[|h|] == '/'
    ensures NoSpace(h) && '/' !in h
  {
    if name == [] || IsSpace(name[0]) || name[0] == '/' then [] else [name[0]] + Head(name[1..])
  }

  /** Where the text of a comment, CDATA section or processing instruction starts to be read
      verbatim */
  function Prefix(kind: MarkupKind): string {
    match kind
    case Comment => "!--"
    case CData => "![CDATA["
    case Directive => "?"
  }

  /** The parser sees the end of this markup at its last character, and no earlier. */
  predicate VerbatimOk(kind: MarkupKind, name: string) {
    && Prefix(kind) <= name && Good(name) && EndsMarkup(kind, name)
    && forall i :: |Prefix(kind)| <= i < |name| && name[i] == '>' ==> !EndsMarkup(kind, name[..i])
  }

  predicate DeclarationOk(name: string) {
    && name != [] && name[0] == '!' && !("!--" <= name) && !("![CDATA[" <= name)
    && Good(name) && Lacks(name, ">&") && '<' !in Head(name)
  }

  predicate MarkupOk(name: string) {
    VerbatimOk(Comment, name) || VerbatimOk(CData, name) || VerbatimOk(Directive, name) || DeclarationOk(name)
  }

  /** A node without children that the parser builds as a value of type `ty`, after `before` */
  predicate ValueOk(t: Tree, before: seq<Tree>, ty: ValueType)
    requires !t.Element?
  {
    var last := |before| - 1;
    match t
    case Text(ws, s) =>
      && ty == TextType && Good(s) && NoSpace(s) && (s == [] ==> ws)
      && (before != [] && before[last].Text? ==> ws && before[last].s != [])
    case Opaque(s) =>
      ty == OpaqueType && s != [] && Good(s) && !(before != [] && before[last].Opaque?)
    case Integer(n) =>
      ty == IntegerType && -0x8000_0000 <= n < 0x8000_0000
  }

  /** `ts`, written after the siblings `before`, in an element whose values have type `ty` */
  ghost predicate CanonicalNodes(ts: seq<Tree>, before: seq<Tree>, ty: ValueType, cb: Callback)
    decreases ts, 0
  {
    ts == [] ||
    (CanonicalNode(ts[0], before, ty, cb) && CanonicalNodes(ts[1..], before + [ts[0]], ty, cb))
  }

  ghost predicate CanonicalNode(t: Tree, before: seq<Tree>, ty: ValueType, cb: Callback)
    decreases t, 1
  {
    if t.Element? then
      if IsMarkup(t.name) then MarkupOk(t.name) && t.attrs == [] && t.kids == []
      else ElementNameOk(t.name) && AttrsOk(t.attrs) &&
           CanonicalNodes(t.kids, [], cb.TypeOf(t.name, t.attrs), cb)
    else ValueOk(t, before, ty)
  }

  /** An element that the parser leaves open at the end of the input: a processing instruction
      or declaration at the top, which holds the rest of the document. */
  predicate StaysOpen(name: string) {
    VerbatimOk(Directive, name) || DeclarationOk(name)
  }

  /** Without a tag behind it, an empty text node or an opaque string is never added. */
  predicate NotLost(kids: seq<Tree>) {
    kids != [] ==> var last := kids[|kids| - 1]; last.Text? || last.Opaque? ==> last.Text? && last.s != []
  }

  /** A root that survives saving without a callback and loading with `cb` */
  ghost predicate CanonicalRoot(t: Tree, cb: Callback) {
    && t.Element?
    && (CanonicalNode(t, [], TextType, cb) ||
        (StaysOpen(t.name) && t.attrs == [] && NotLost(t.kids) &&
         CanonicalNodes(t.kids, [], cb.TypeOf(t.name, []), cb)))
  }

  // ----- trees up to the whitespace between values -----

  /** Drops empty text nodes and the whitespace flags of the others. */
  function Norm(ts: seq<Tree>): seq<Tree>
    decreases ts, 0
  {
    if ts == [] then []
    else if ts[0].Text? && ts[0].s == [] then Norm(ts[1..])
    else [NormTree(ts[0])] + Norm(ts[1..])
  }

  function NormTree(t: Tree): Tree
    decreases t, 1
  {
    match t
    case Element(name, attrs, kids) => Element(name, attrs, Norm(kids))
    case Text(_, s) => Text(false, s)
    case _ => t
  }

  /** No element of `t` holds opaque values. */
  ghost predicate NoOpaque(t: Tree, cb: Callback) {
    t.Element? ==>
      cb.TypeOf(t.name, t.attrs) != OpaqueType &&
      forall i :: 0 <= i < |t.kids| ==> NoOpaque(t.kids[i], cb)
  }

  lemma {:induction false} NormAppend(a: seq<Tree>, b: seq<Tree>)
    ensures Norm(a + b) == Norm(a) + Norm(b)
  {
    if a == [] {
      assert a + b == b;
    } else {
      assert (a + b)[0] == a[0] && (a + b)[1..] == a[1..] + b;
      NormAppend(a[1..], b);
    }
  }

  lemma {:induction false} NormOne(t: Tree)
    ensures Norm([t]) == if t.Text? && t.s == [] then [] else [NormTree(t)]
  {
    assert [t][1..] == [];
  }
}
