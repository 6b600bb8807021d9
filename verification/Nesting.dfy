/** Tags nest in every input that the parser accepts: a matcher that reads each tag as the parser does,
    but knows nothing of nodes, value types and parents, accepts exactly the same inputs. */
module Nesting {
  import opened Options
  import opened Chars
  import opened Numbers
  import opened Trees
  import opened Reader

  /** A tag, as far as nesting is concerned. `Single` opens nothing; `RootOnly` opens an element
      only where no element is open. */
  datatype Event = Open(name: string) | Close(name: string) | Single | RootOnly(name: string)

  /** One tag: an error, a tag cut off by the end of the file, or an event and the rest */
  datatype TagScan = BadTag | CutTag | TagEvent(event: Event, rest: string)

  function ScanMarkup(r: Scanned, mayOpen: bool): TagScan {
    match r
    case ScanError => BadTag
    case Scanned(name, _, rest) => TagEvent(if mayOpen then RootOnly(name) else Single, rest)
  }

  /** An ordinary open tag whose name `name` ended at `ch` */
  function ScanOpen(name: string, ch: Option<char>, s: string, ents: string -> int): TagScan {
    if ch == None then CutTag
    else
      match TagEnd(ch.value, s, ents)
      case ParseError => BadTag
      case Parsed(_, end, rest) => TagEvent(if end == '/' then Single else Open(name), rest)
  }

  function ScanTag(s: string, ents: string -> int): TagScan {
    match ReadTagName(s, [], ents)
    case ScanError => BadTag
    case Scanned(buf, ch, rest) =>
      if buf == "!--" then ScanMarkup(ReadMarkup(rest, buf, Comment), false)
      else if buf == "![CDATA[" then ScanMarkup(ReadMarkup(rest, buf, CData), false)
      else if buf != [] && buf[0] == '?' then ScanMarkup(ReadMarkup(rest, buf, Directive), true)
      else if buf != [] && buf[0] == '!' then ScanMarkup(ReadDeclaration(ch, rest, buf, ents), true)
      else if buf != [] && buf[0] == '/' then TagEvent(Close(buf[1..]), SkipToClose(ch, rest))
      else ScanOpen(buf, ch, rest, ents)
  }

  lemma {:induction false} ScanTagShrinks(s: string, ents: string -> int)
    ensures var r := ScanTag(s, ents); r.TagEvent? ==> |r.rest| <= |s|
  {
    hide ReadTagName, ReadMarkup, ReadDeclaration, SkipToClose, ParseElement;
  }

  /** All tags of a text in order, or None where the text breaks the rules for a single tag or
      entity. Nothing here depends on what is open. With a limit, only so many turns of the main
      loop are looked at. */
  function Scan(s: string, ents: string -> int, limit: Option<nat>): Option<seq<Event>>
    decreases |s|
  {
    if limit == Some(0) then Some([])
    else
      match GetC(s)
      case Eof(_) => Some([])
      case Got(c, rest) =>
        if c == '<' then
          ScanTagShrinks(rest, ents);
          match ScanTag(rest, ents)
          case BadTag => None
          case CutTag => Some([Single])
          case TagEvent(event, rest') => Prepend(event, Scan(rest', ents, Less(limit)))
        else if c == '&' then
          match GetEntity(rest, ents)
          case NoEntity => None
          case Entity(_, rest') => Scan(rest', ents, Less(limit))
        else Scan(rest, ents, Less(limit))
  }

  function Less(limit: Option<nat>): Option<nat> {
    match limit
    case None => None
    case Some(n) => if n > 0 then Some(n - 1) else limit
  }

  /** The turn of the main loop in which a malformed integer ends the load, if one does */
  function Cut(st: State, s: string, env: Env): Option<nat>
    decreases |s|
  {
    match GetC(s)
    case Eof(_) => None
    case Got(c, rest) =>
      if Flush(st, c).BadNumber? then Some(0)
      else
        match Step(st, c, rest, env)
        case Failed => None
        case Stopped(_) => None
        case Running(st', rest') =>
          match Cut(st', rest', env)
          case None => None
          case Some(n) => Some(n + 1)
  }

  /** Before any tag: is there whitespace behind a character that is not whitespace? */
  predicate WordEnds(s: string, ents: string -> int, inWord: bool)
    decreases |s|
  {
    match GetC(s)
    case Eof(_) => false
    case Got(c, rest) =>
      if c == '<' then false
      else if c == '&' then
        match GetEntity(rest, ents)
        case NoEntity => false
        case Entity(_, rest') => WordEnds(rest', ents, true)
      else if IsSpace(c) then inWord || WordEnds(rest, ents, false)
      else WordEnds(rest, ents, true)
  }

  function Prepend(event: Event, more: Option<seq<Event>>): Option<seq<Event>> {
    match more
    case None => None
    case Some(events) => Some([event] + events)
  }

  /** The names of the elements that are open after `events`, from the outermost on; None if a
      close tag does not name the innermost open element. */
  function Match(events: seq<Event>, open: seq<string>): Option<seq<string>> {
    if events == [] then Some(open)
    else
      match events[0]
      case Open(name) => Match(events[1..], open + [name])
      case RootOnly(name) => Match(events[1..], if open == [] then [name] else open)
      case Single => Match(events[1..], open)
      case Close(name) =>
        if open != [] && open[|open| - 1] == name then Match(events[1..], open[..|open| - 1]) else None
  }

  /** Every tag is well-formed, every close tag names the innermost open element, and at most one
      element is left open at the end. */
  predicate Balanced(s: string, ents: string -> int, limit: Option<nat>) {
    var events := Scan(s, ents, limit);
    events.Some? && Match(events.value, []).Some? && |Match(events.value, []).value| <= 1
  }

  // ----- the parser agrees with the matcher -----

  function Names(stack: seq<Frame>): (names: seq<string>)
    ensures |names| == |stack|
    ensures forall i :: 0 <= i < |stack| ==> names[i] == stack[i].name
  {
    if stack == [] then [] else [stack[0].name] + Names(stack[1..])
  }

  lemma {:induction false} NamesEqual(a: seq<Frame>, names: seq<string>)
    requires |a| == |names| && forall i :: 0 <= i < |a| ==> a[i].name == names[i]
    ensures Names(a) == names
  {
  }

  /** Some node exists. */
  predicate HasNode(st: State) {
    st.done != [] || st.stack != []
  }

  lemma {:induction false} AddNodeKeeps(st: State, t: Tree)
    ensures Names(AddNode(st, t).stack) == Names(st.stack) && HasNode(AddNode(st, t)) && AddNode(st, t).ty == st.ty
  {
    NamesEqual(AddNode(st, t).stack, Names(st.stack));
  }

  lemma {:induction false} AddValueKeeps(st: State)
    requires st.buf != []
    ensures var r := AddValue(st);
            Names(r.st.stack) == Names(st.stack) && r.st.ty == st.ty && (HasNode(st) || st.ty != IgnoreType ==> HasNode(r.st)) &&
            (r.BadNumber? ==> st.ty == IntegerType)
  {
    hide AddNode, StrToL;
    AddNodeKeeps(st, Text(st.ws, st.buf));
    AddNodeKeeps(st, Opaque(st.buf));
    AddNodeKeeps(st, Integer(ToInt32(StrToL(st.buf, 0).0)));
  }

  lemma {:induction false} LoneSpaceKeeps(st: State, c: char)
    ensures var st' := LoneSpace(st, c);
            Names(st'.stack) == Names(st.stack) && st'.ty == st.ty && (HasNode(st) ==> HasNode(st')) &&
            (c != '<' ==> st' == st)
  {
    hide AddNode;
    AddNodeKeeps(st, Text(true, []));
  }

  /** The value nodes of a turn change nothing of what is open. In text mode a node is added where
      a word ends. */
  lemma {:induction false} FlushKeeps(st: State, c: char)
    ensures var r := Flush(st, c);
            Names(r.st.stack) == Names(st.stack) && r.st.ty == st.ty && (HasNode(st) ==> HasNode(r.st)) &&
            (r.BadNumber? ==> st.ty == IntegerType && HasNode(r.st))
    ensures st.ty == TextType && c != '<' ==>
              var st1 := Flush(st, c).st;
              if IsSpace(c) then st1.buf == [] && (HasNode(st1) <==> HasNode(st) || st.buf != [])
              else st1.buf == st.buf && HasNode(st1) == HasNode(st)
  {
    hide AddNode, AddValue, LoneSpace;
    if (c == '<' || (IsSpace(c) && st.ty != OpaqueType)) && st.buf != [] {
      AddValueKeeps(st);
      AddValueInText(st);
      var st1 := AddValue(st).st;
      LoneSpaceKeeps(st1.(buf := [], ws := IsSpace(c) && st.ty == TextType), c);
    } else {
      LoneSpaceKeeps(st.(ws := true), c);
      LoneSpaceKeeps(st, c);
    }
  }

  lemma {:induction false} AddValueInText(st: State)
    requires st.buf != []
    ensures st.ty == TextType ==> AddValue(st).Flushed?
  {
  }

  /** The names that are open after one event */
  function After(event: Event, open: seq<string>): Option<seq<string>> {
    match event
    case Open(name) => Some(open + [name])
    case RootOnly(name) => Some(if open == [] then [name] else open)
    case Single => Some(open)
    case Close(name) => if open != [] && open[|open| - 1] == name then Some(open[..|open| - 1]) else None
  }

  lemma {:induction false} MatchCons(event: Event, events: seq<Event>, open: seq<string>)
    ensures Match([event] + events, open)
         == (if After(event, open).None? then None else Match(events, After(event, open).value))
  {
    assert ([event] + events)[1..] == events;
  }

  lemma {:induction false} PushKeeps(st: State, name: string, attrs: seq<Attr>, cb: Callback)
    ensures var st' := Push(st, name, attrs, cb); Names(st'.stack) == Names(st.stack) + [name] && HasNode(st')
  {
    NamesEqual(Push(st, name, attrs, cb).stack, Names(st.stack) + [name]);
  }

  lemma {:induction false} PopKeeps(st: State, cb: Callback)
    requires st.stack != []
    ensures var st' := Pop(st, cb); Names(st'.stack) == Names(st.stack)[..|st.stack| - 1] && HasNode(st')
  {
    var below := st.(stack := st.stack[..|st.stack| - 1]);
    AddNodeKeeps(below, st.stack[|st.stack| - 1].Close());
    NamesEqual(below.stack, Names(st.stack)[..|st.stack| - 1]);
  }

  /** What a tag does to the parser is what its event does to the matcher. */
  ghost predicate Agree(r: Outcome, scan: TagScan, open: seq<string>) {
    match scan
    case BadTag => r.Failed?
    case CutTag => r.Stopped? && Names(r.st.stack) == open && HasNode(r.st)
    case TagEvent(event, rest) =>
      if After(event, open).None? then r.Failed?
      else r.Running? && r.rest == rest && Names(r.st.stack) == After(event, open).value &&
           HasNode(r.st)
  }

  lemma {:induction false} MarkupAgrees(st: State, s: Scanned, mayOpen: bool, cb: Callback)
    ensures Agree(AddMarkup(st, s, mayOpen, cb), ScanMarkup(s, mayOpen), Names(st.stack))
  {
    hide Push, AddNode;
    if s.Scanned? {
      PushKeeps(st, s.text, [], cb);
      AddNodeKeeps(st, Element(s.text, [], []));
    }
  }

  lemma {:induction false} OpenAgrees(st: State, name: string, ch: Option<char>, s: string, env: Env)
    ensures Agree(OpenTag(st, name, ch, s, env), ScanOpen(name, ch, s, env.ents), Names(st.stack))
  {
    hide Push, AddNode, ParseElement;
    AddNodeKeeps(st, Element(name, [], []));
    if ch.Some? {
      var p := TagEnd(ch.value, s, env.ents);
      if p.Parsed? {
        PushKeeps(st, name, p.attrs, env.cb);
        AddNodeKeeps(st, Element(name, p.attrs, []));
      }
    }
  }

  lemma {:induction false} TagAgrees(st: State, s: string, env: Env)
    ensures Agree(Tag(st, s, env), ScanTag(s, env.ents), Names(st.stack))
  {
    hide ReadTagName, ReadMarkup, ReadDeclaration, SkipToClose, OpenTag, ScanOpen, AddMarkup, ScanMarkup, Pop;
    var r := ReadTagName(s, [], env.ents);
    if r.Scanned? {
      var buf, ch, rest := r.text, r.ch, r.rest;
      MarkupAgrees(st, ReadMarkup(rest, buf, Comment), false, env.cb);
      MarkupAgrees(st, ReadMarkup(rest, buf, CData), false, env.cb);
      MarkupAgrees(st, ReadMarkup(rest, buf, Directive), true, env.cb);
      MarkupAgrees(st, ReadDeclaration(ch, rest, buf, env.ents), true, env.cb);
      OpenAgrees(st, buf, ch, rest, env);
      if st.stack != [] {
        PopKeeps(st, env.cb);
      }
    }
  }

  /** From every parse state on: up to the turn in which a malformed integer ends the load, the parser
      fails exactly where scanning or matching fails; otherwise it ends with the elements open that
      the matcher says. There is a node at the end if there was one before, or a tag, or a word that
      whitespace follows. */
  lemma {:induction false} RunAgrees(st: State, s: string, env: Env)
    requires HasNode(st) || st.ty == TextType
    ensures var r := Run(st, s, env); var events := Scan(s, env.ents, Cut(st, s, env));
            if events.None? || Match(events.value, Names(st.stack)).None? then r.Failed?
            else r.Stopped? && Names(r.st.stack) == Match(events.value, Names(st.stack)).value &&
                 (HasNode(r.st) <==> HasNode(st) || events.value != [] || WordEnds(s, env.ents, st.buf != []))
    decreases |s|
  {
    hide Tag, ScanTag, Flush, GetEntity, Match, After, HasNode, Names;
    var g := GetC(s);
    NoMatch(Names(st.stack));
    if g.Got? {
      FlushKeeps(st, g.c);
      if Flush(st, g.c).Flushed? {
        var st1 := Flush(st, g.c).st;
        if g.c == '<' {
          var st2 := st1.(buf := []);
          TagAgrees(st2, g.rest, env);
          ScanTagShrinks(g.rest, env.ents);
          var scan := ScanTag(g.rest, env.ents);
          SameNodes(st1, st2);
          if scan.TagEvent? {
            if After(scan.event, Names(st.stack)).Some? {
              var st3 := Tag(st2, g.rest, env).st;
              RunAgrees(st3, scan.rest, env);
              var more := Scan(scan.rest, env.ents, Cut(st3, scan.rest, env));
              if more.Some? {
                MatchCons(scan.event, more.value, Names(st.stack));
              }
            } else {
              NoClose(scan.event, scan.rest, env.ents, Names(st.stack));
            }
          } else if scan.CutTag? {
            SingleMatch(Names(st.stack));
          }
        } else if g.c == '&' {
          var e := GetEntity(g.rest, env.ents);
          if e.Entity? {
            SameNodes(st1, st1.(buf := st1.buf + AddChar(e.code)));
            RunAgrees(st1.(buf := st1.buf + AddChar(e.code)), e.rest, env);
          }
        } else if st1.ty == OpaqueType || !IsSpace(g.c) {
          SameNodes(st1, st1.(buf := st1.buf + AddChar(g.c as int)));
          RunAgrees(st1.(buf := st1.buf + AddChar(g.c as int)), g.rest, env);
        } else {
          RunAgrees(st1, g.rest, env);
        }
      }
    }
  }

  lemma {:induction false} SameNodes(st: State, st': State)
    requires st'.done == st.done && st'.stack == st.stack
    ensures HasNode(st') == HasNode(st)
  {
  }

  /** A close tag that does not fit cannot be matched, whatever follows. */
  lemma {:induction false} NoClose(event: Event, rest: string, ents: string -> int, open: seq<string>)
    requires After(event, open).None?
    ensures var more := Scan(rest, ents, None); Prepend(event, more).None? || Match(Prepend(event, more).value, open).None?
  {
    hide Scan;
    var more := Scan(rest, ents, None);
    if more.Some? {
      MatchCons(event, more.value, open);
    }
  }

  lemma {:induction false} NoMatch(open: seq<string>)
    ensures Match([], open) == Some(open)
  {
  }

  lemma {:induction false} SingleMatch(open: seq<string>)
    ensures Match([Single], open) == Some(open)
  {
    assert [Single][1..] == [];
  }

  /** Exactly which inputs load, for every load callback: up to a malformed integer, if there is one,
      every close tag names the innermost open element, at most one element is left open, and there is
      a tag or a word that whitespace follows. */
  lemma {:induction false} LoadsIffBalanced(s: string, env: Env)
    ensures var cut := Cut(Start, s, env);
            Load(s, env).Some? <==>
              Balanced(s, env.ents, cut) && (Scan(s, env.ents, cut).value != [] || WordEnds(s, env.ents, false))
  {
    hide Run, Scan, Match, Cut, WordEnds;
    NamesEqual([], []);
    RunAgrees(Start, s, env);
  }

  ghost predicate NeverInteger(cb: Callback) {
    forall name, attrs :: cb.TypeOf(name, attrs) != IntegerType
  }

  /** No integer is malformed when none is asked for: then the whole input has to be balanced. */
  lemma {:induction false} NoCut(st: State, s: string, env: Env)
    requires NeverInteger(env.cb) && st.ty != IntegerType
    ensures Cut(st, s, env) == None
    decreases |s|
  {
    hide Flush, GetEntity, Tag;
    var g := GetC(s);
    if g.Got? {
      FlushKeeps(st, g.c);
      TypeKept(st, g.c, g.rest, env);
      var o := Step(st, g.c, g.rest, env);
      if o.Running? {
        NoCut(o.st, o.rest, env);
      }
    }
  }

  lemma {:induction false} TypeKept(st: State, c: char, s: string, env: Env)
    requires NeverInteger(env.cb) && st.ty != IntegerType
    ensures var o := Step(st, c, s, env); o.Running? ==> o.st.ty != IntegerType
  {
    hide Tag, GetEntity, Flush;
    FlushKeeps(st, c);
    if Flush(st, c).Flushed? {
      TagTypeKept(Flush(st, c).st.(buf := []), s, env);
    }
  }

  lemma {:induction false} TagTypeKept(st: State, s: string, env: Env)
    requires NeverInteger(env.cb) && st.ty != IntegerType
    ensures var o := Tag(st, s, env); o.Running? ==> o.st.ty != IntegerType
  {
    hide ReadTagName, ReadMarkup, ReadDeclaration, ParseElement, SkipToClose, AddNode;
    forall t: Tree
      ensures AddNode(st, t).ty == st.ty
    {
      AddNodeKeeps(st, t);
    }
    if st.stack != [] {
      PopTypeKept(st, env.cb);
    }
  }

  lemma {:induction false} PopTypeKept(st: State, cb: Callback)
    requires NeverInteger(cb) && st.ty != IntegerType && st.stack != []
    ensures Pop(st, cb).ty != IntegerType
  {
    hide AddNode;
    var below := st.(stack := st.stack[..|st.stack| - 1]);
    AddNodeKeeps(below, st.stack[|st.stack| - 1].Close());
  }
}
