/** Whole documents in any spelling: what is saved is one of them, and all of them load alike. */
module Documents {
  import opened Options
  import opened Chars
  import opened Numbers
  import opened Trees
  import opened Reader
  import opened Writer
  import opened Canonical
  import opened TagProofs
  import opened References
  import opened Spellings
  import opened TagForms
  import opened MarkupForms
  import opened RoundTrip
  import opened RootProofs

  /** A document is a list of words, blanks, tags and pieces of markup. */
  datatype Part =
    | Word(ps: seq<Piece>)
    | BlankChar(c: char)
    | Open(tag: TagForm)
    | Close(end: CloseForm)
    | Markup(name: string)

  function PartText(p: Part): string {
    match p
    case Word(ps) => Spelled(ps)
    case BlankChar(c) => [c]
    case Open(tag) => TagText(tag)
    case Close(end) => CloseText(end)
    case Markup(name) => "<" + name + ">"
  }

  function DocText(ps: seq<Part>): string {
    if ps == [] then [] else PartText(ps[0]) + DocText(ps[1..])
  }

  ghost predicate PartOk(p: Part, ents: string -> int) {
    match p
    case Word(ps) => PiecesOk(ps, " \t\r\n<", ents)
    case BlankChar(c) => c in " \t\r\n"
    case Open(tag) => TagFormOk(tag, ents)
    case Close(end) => CloseFormOk(end, ents)
    case Markup(name) => MarkupOk(name)
  }

  /** Two spellings of the same part: the characters of words, names and values can be written in
      different ways, values with different quotes, and tags with different whitespace and ends */
  ghost predicate SamePart(p: Part, q: Part, ents: string -> int) {
    match p
    case Word(ps) => q.Word? && Meant(q.ps, ents) == Meant(ps, ents)
    case BlankChar(_) => q == p
    case Open(tag) =>
      && q.Open? && Meant(q.tag.name, ents) == Meant(tag.name, ents)
      && FormsMeant(q.tag.forms, ents) == FormsMeant(tag.forms, ents)
      && (q.tag.close == "/>" <==> tag.close == "/>")
    case Close(end) => q.Close? && Meant(q.end.name, ents) == Meant(end.name, ents)
    case Markup(_) => q == p
  }

  ghost predicate SameDocument(ps: seq<Part>, qs: seq<Part>, ents: string -> int) {
    |ps| == |qs| && forall i :: 0 <= i < |ps| ==> PartOk(ps[i], ents) && PartOk(qs[i], ents) && SamePart(ps[i], qs[i], ents)
  }

  // ----- one part -----

  /** The state in which a tag starts, and how the main loop goes on behind it */
  lemma {:induction false} RunTagStart(st: State, s: string, env: Env)
    ensures Run(st, ['<'] + s, env) ==
              match Flush(st, '<')
              case BadNumber(st') => Stopped(st')
              case Flushed(st') =>
                match Tag(st'.(buf := []), s, env)
                case Failed => Failed
                case Stopped(st'') => Stopped(st'')
                case Running(st'', rest) => Run(st'', rest, env)
  {
    hide Flush, Tag;
    GetCOf('<', s);
  }

  lemma {:induction false} OpensAlike(st: State, t: TagForm, u: TagForm, s: string, s': string, env: Env)
    requires SamePart(Open(t), Open(u), env.ents) && TagFormOk(t, env.ents) && TagFormOk(u, env.ents)
    requires forall st: State :: Run(st, s, env) == Run(st, s', env)
    ensures Run(st, TagText(t) + s, env) == Run(st, TagText(u) + s', env)
  {
    hide *;
    TagTextSplit(t, s);
    TagTextSplit(u, s');
    RunTagStart(st, Spelled(t.name) + TagTail(t, s), env);
    RunTagStart(st, Spelled(u.name) + TagTail(u, s'), env);
    match Flush(st, '<')
    case BadNumber(_) =>
    case Flushed(st') =>
      TagFormRead(t, s, st'.(buf := []), env);
      TagFormRead(u, s', st'.(buf := []), env);
      MeansAlike(st'.(buf := []), t, u, env);
  }

  lemma {:induction false} MeansAlike(st: State, t: TagForm, u: TagForm, env: Env)
    requires SamePart(Open(t), Open(u), env.ents)
    ensures TagMeans(t, st, env) == TagMeans(u, st, env)
  {
    hide Meant, FormsMeant, AddNode, Push;
  }

  lemma {:induction false} ClosesAlike(st: State, t: CloseForm, u: CloseForm, s: string, s': string, env: Env)
    requires SamePart(Close(t), Close(u), env.ents) && CloseFormOk(t, env.ents) && CloseFormOk(u, env.ents)
    requires forall st: State :: Run(st, s, env) == Run(st, s', env)
    ensures Run(st, CloseText(t) + s, env) == Run(st, CloseText(u) + s', env)
  {
    hide *;
    CloseSplit(t, s);
    CloseSplit(u, s');
    RunTagStart(st, "/" + Spelled(t.name) + t.junk + ">" + s, env);
    RunTagStart(st, "/" + Spelled(u.name) + u.junk + ">" + s', env);
    SameClose(t, u, env.ents);
    match Flush(st, '<')
    case BadNumber(_) =>
    case Flushed(st') =>
      CloseFormRead(t, s, st'.(buf := []), env);
      CloseFormRead(u, s', st'.(buf := []), env);
  }

  lemma {:induction false} SameClose(t: CloseForm, u: CloseForm, ents: string -> int)
    requires SamePart(Close(t), Close(u), ents)
    ensures Meant(t.name, ents) == Meant(u.name, ents)
  {
    hide Meant;
  }

  lemma {:induction false} CloseSplit(t: CloseForm, s: string)
    ensures CloseText(t) + s == ['<'] + ("/" + Spelled(t.name) + t.junk + ">" + s)
  {
    hide Spelled;
  }

  lemma {:induction false} MarkupAlike(st: State, name: string, s: string, s': string, env: Env)
    requires MarkupOk(name)
    requires forall st: State :: Run(st, s, env) == Run(st, s', env)
    ensures Run(st, "<" + name + ">" + s, env) == Run(st, "<" + name + ">" + s', env)
  {
    hide *;
    assert "<" + name + ">" + s == ['<'] + (name + ">" + s);
    assert "<" + name + ">" + s' == ['<'] + (name + ">" + s');
    RunTagStart(st, name + ">" + s, env);
    RunTagStart(st, name + ">" + s', env);
    match Flush(st, '<')
    case BadNumber(_) =>
    case Flushed(st') =>
      MarkupTagOf(st'.(buf := []), name, s, env);
      MarkupTagOf(st'.(buf := []), name, s', env);
  }

  lemma {:induction false} CharAlike(st: State, c: char, s: string, s': string, env: Env)
    requires c in " \t\r\n"
    requires forall st: State :: Run(st, s, env) == Run(st, s', env)
    ensures Run(st, [c] + s, env) == Run(st, [c] + s', env)
  {
    hide Flush, AddNode, Tag, GetEntity;
    GetCOf(c, s);
    GetCOf(c, s');
  }

  lemma {:induction false} WordsAlike(st: State, ps: seq<Piece>, qs: seq<Piece>, s: string, s': string, env: Env)
    requires PiecesOk(ps, " \t\r\n<", env.ents) && PiecesOk(qs, " \t\r\n<", env.ents) && Meant(ps, env.ents) == Meant(qs, env.ents)
    requires forall st: State :: Run(st, s, env) == Run(st, s', env)
    ensures Run(st, Spelled(ps) + s, env) == Run(st, Spelled(qs) + s', env)
  {
    hide *;
    FewerStops(ps, env.ents);
    FewerStops(qs, env.ents);
    TextPieces(st, ps, s, env);
    TextPieces(st, qs, s', env);
  }

  lemma {:induction false} FewerStops(ps: seq<Piece>, ents: string -> int)
    requires PiecesOk(ps, " \t\r\n<", ents)
    ensures PiecesOk(ps, "<", ents)
  {
    hide RefOk, GoodByte;
    forall i | 0 <= i < |ps|
      ensures PieceOk(ps[i], "<", ents)
    {
      assert PieceOk(ps[i], " \t\r\n<", ents);
    }
  }

  /** In every state the parser goes on alike behind two spellings of the same part. */
  lemma {:induction false} PartsAlike(st: State, p: Part, q: Part, s: string, s': string, env: Env)
    requires PartOk(p, env.ents) && PartOk(q, env.ents) && SamePart(p, q, env.ents)
    requires forall st: State :: Run(st, s, env) == Run(st, s', env)
    ensures Run(st, PartText(p) + s, env) == Run(st, PartText(q) + s', env)
  {
    hide Run, Spelled, Meant, TagText, TagFormOk, CloseText, CloseFormOk, MarkupOk, PiecesOk, FormsMeant;
    match p
    case Word(ps) => WordsAlike(st, ps, q.ps, s, s', env);
    case BlankChar(c) => CharAlike(st, c, s, s', env);
    case Open(tag) => OpensAlike(st, tag, q.tag, s, s', env);
    case Close(end) => ClosesAlike(st, end, q.end, s, s', env);
    case Markup(name) => MarkupAlike(st, name, s, s', env);
  }

  // ----- whole documents -----

  lemma {:induction false} RunAlike(st: State, ps: seq<Part>, qs: seq<Part>, env: Env)
    requires SameDocument(ps, qs, env.ents)
    ensures Run(st, DocText(ps), env) == Run(st, DocText(qs), env)
    decreases |ps|
  {
    hide Run, PartOk, SamePart, PartText;
    if ps != [] {
      forall st': State
        ensures Run(st', DocText(ps[1..]), env) == Run(st', DocText(qs[1..]), env)
      {
        RunAlike(st', ps[1..], qs[1..], env);
      }
      assert PartOk(ps[0], env.ents) && PartOk(qs[0], env.ents) && SamePart(ps[0], qs[0], env.ents);
      PartsAlike(st, ps[0], qs[0], DocText(ps[1..]), DocText(qs[1..]), env);
    }
  }

  /** The spelling of a document does not matter: the load of two spellings fails for both, or gives
      the same tree for both. */
  lemma {:induction false} SpellingDoesNotMatter(ps: seq<Part>, qs: seq<Part>, env: Env)
    requires SameDocument(ps, qs, env.ents)
    ensures Load(DocText(ps), env) == Load(DocText(qs), env)
  {
    hide Run, SameDocument;
    RunAlike(Start, ps, qs, env);
  }

  // ----- what is returned -----

  lemma {:induction false} EndOfInput(st: State, env: Env)
    ensures Run(st, [], env) == Stopped(st)
  {
  }

  /** Of two nodes at the top the first is returned, unless the second is left open: a comment before an
      element without children is the result of the load, and an open tag behind it replaces it. */
  lemma {:induction false} FirstOrOpen(body: string, t: TagForm, env: Env)
    requires GoodText(body) && body != [] && body[|body| - 1] != '-'
    requires forall i :: 0 <= i < |body| - 1 ==> !(body[i] == '-' && body[i + 1] == '-')
    requires TagFormOk(t, env.ents)
    ensures Load("<!--" + body + "-->" + TagText(t), env)
         == Some(if t.close == "/>" then Element("!--" + body + "--", [], [])
                 else Element(Meant(t.name, env.ents), FormsMeant(t.forms, env.ents), []))
  {
    hide *;
    var comment := Element("!--" + body + "--", [], []);
    var tail := TagText(t) + [];
    assert "<!--" + body + "-->" + TagText(t) == ['<'] + ("!--" + body + "-->" + tail);
    RunTagStart(Start, "!--" + body + "-->" + tail, env);
    CommentRead(body, tail, Start, env);
    AtStart(comment);
    var st := AddNode(Start, comment);
    TagTextSplit(t, []);
    RunTagStart(st, Spelled(t.name) + TagTail(t, []), env);
    TagFormRead(t, [], st, env);
    EndOfInput(TagMeans(t, st, env), env);
    Finished(t, comment, env);
    LoadIs("<!--" + body + "-->" + TagText(t), env);
  }

  lemma {:induction false} AtStart(comment: Tree)
    ensures Flush(Start, '<') == Flushed(Start) && Start.(buf := []) == Start
    ensures var st := AddNode(Start, comment); Flush(st, '<') == Flushed(st) && st.(buf := []) == st
  {
  }

  lemma {:induction false} Finished(t: TagForm, comment: Tree, env: Env)
    ensures Finish(TagMeans(t, AddNode(Start, comment), env))
         == Some(if t.close == "/>" then comment else Element(Meant(t.name, env.ents), FormsMeant(t.forms, env.ents), []))
  {
    hide Meant, FormsMeant;
  }

  lemma {:induction false} LoadIs(s: string, env: Env)
    ensures Run(Start, s, env).Stopped? ==> Load(s, env) == Finish(Run(Start, s, env).st)
  {
    hide Run, Finish;
  }
}
