/** The many ways to write a tag: values in either kind of quotes or in none, whitespace around every
    part, all ends, and anything behind the name of a close tag. */
module TagForms {
  import opened Options
  import opened Chars
  import opened Trees
  import opened Reader
  import opened Canonical
  import opened TagProofs
  import opened References
  import opened Spellings

  /** An attribute value. Without quotes its first character is taken as it is, even if it is an '&'
      or one of the characters that end such a value further on. */
  datatype ValueForm = Quoted(quote: char, ps: seq<Piece>) | Unquoted(first: char, ps: seq<Piece>)

  /** An attribute: whitespace, its name, whitespace, '=', whitespace, its value. The first character
      of the name is taken as it is, too. */
  datatype AttrForm = AttrForm(lead: string, first: char, name: seq<Piece>, before: string, after: string, value: ValueForm)

  function ValueText(v: ValueForm): string {
    match v
    case Quoted(q, ps) => [q] + Spelled(ps) + [q]
    case Unquoted(c, ps) => [c] + Spelled(ps)
  }

  function ValueMeant(v: ValueForm, ents: string -> int): string {
    match v
    case Quoted(_, ps) => Meant(ps, ents)
    case Unquoted(c, ps) => [c] + Meant(ps, ents)
  }

  function AttrFormText(a: AttrForm): string {
    a.lead + [a.first] + Spelled(a.name) + a.before + "=" + a.after + ValueText(a.value)
  }

  function AttrMeant(a: AttrForm, ents: string -> int): Attr {
    Attr([a.first] + Meant(a.name, ents), Some(ValueMeant(a.value, ents)))
  }

  predicate ValueFormOk(v: ValueForm, ents: string -> int) {
    match v
    case Quoted(q, ps) => (q == '\'' || q == '\"') && PiecesOk(ps, [q], ents)
    case Unquoted(c, ps) => GoodByte(c) && c !in " \t\r\n\'\"" && PiecesOk(ps, " \t\r\n=/>", ents)
  }

  predicate AttrFormOk(a: AttrForm, ents: string -> int) {
    && Blank(a.lead) && Blank(a.before) && Blank(a.after)
    && GoodByte(a.first) && a.first !in " \t\r\n\'\"/?<>" && PiecesOk(a.name, " \t\r\n=/>?", ents)
    && ValueFormOk(a.value, ents)
  }

  // ----- whitespace -----

  lemma {:induction false} BlankGood(s: string)
    requires Blank(s) && s != []
    ensures GoodByte(s[0]) && GoodChar(s[0]) && IsSpace(s[0]) && Blank(s[1..])
  {
    assert s[0] in " \t\r\n";
  }

  lemma {:induction false} SkipBlank(blank: string, c: char, rest: string)
    requires Blank(blank) && GoodByte(c) && c !in " \t\r\n"
    ensures NextNonSpace(blank + ([c] + rest)) == Got(c, rest)
    decreases |blank|
  {
    hide GetC, GoodByte, Blank, AddChar, GoodChar, IsSpace;
    if blank == [] {
      assert blank + ([c] + rest) == [c] + rest;
      PlainRead(c, rest);
    } else {
      BlankGood(blank);
      assert blank + ([c] + rest) == [blank[0]] + (blank[1..] + ([c] + rest));
      PlainRead(blank[0], blank[1..] + ([c] + rest));
      SkipBlank(blank[1..], c, rest);
    }
  }

  lemma {:induction false} ParseBlank(blank: string, rest: string, attrs: seq<Attr>, ents: string -> int)
    requires Blank(blank)
    ensures ParseElement(blank + rest, attrs, ents) == ParseElement(rest, attrs, ents)
    decreases |blank|
  {
    hide ParseElement, Blank;
    if blank == [] {
      assert blank + rest == rest;
    } else {
      BlankGood(blank);
      assert blank + rest == [blank[0]] + (blank[1..] + rest);
      ParseSkipsSpace(blank[0], blank[1..] + rest, attrs, ents);
      ParseBlank(blank[1..], rest, attrs, ents);
    }
  }

  // ----- one attribute -----

  /** What may follow a name or a value without quotes */
  predicate Stops(more: string) {
    more != [] && more[0] in " \t\r\n/>"
  }

  /** What may follow a value without quotes */
  predicate StopsValue(more: string) {
    more != [] && more[0] in " \t\r\n=/>"
  }

  /** A value is read as what it means, up to and including the character that ends it. */
  lemma {:induction false} ValueRead(name: string, v: ValueForm, blank: string, more: string, ents: string -> int)
    requires ValueFormOk(v, ents) && Blank(blank) && (v.Unquoted? ==> StopsValue(more))
    ensures ReadValue(name, blank + (ValueText(v) + more), ents)
         == if v.Quoted? then AttrDone(name, ValueMeant(v, ents), Some(v.quote), more)
            else AttrDone(name, ValueMeant(v, ents), Some(more[0]), more[1..])
  {
    hide ReadQuoted, ReadUnquoted, NextNonSpace, Spelled, Meant, Blank, PiecesOk, GoodByte;
    match v
    case Quoted(q, ps) =>
      assert ValueText(v) + more == [q] + (Spelled(ps) + ([q] + more));
      assert GoodByte(q) by { QuoteGood(q); }
      SkipBlank(blank, q, Spelled(ps) + ([q] + more));
      QuotedPieces(ps, q, [], more, ents);
      assert [] + Meant(ps, ents) == Meant(ps, ents);
    case Unquoted(c, ps) =>
      assert more == [more[0]] + more[1..];
      assert ValueText(v) + more == [c] + (Spelled(ps) + ([more[0]] + more[1..]));
      SkipBlank(blank, c, Spelled(ps) + ([more[0]] + more[1..]));
      UnquotedPieces(ps, [c], more[0], more[1..], ents);
  }

  lemma {:induction false} QuoteGood(q: char)
    requires q == '\'' || q == '\"'
    ensures GoodByte(q)
  {
  }

  /** The text of an attribute behind the first character of its name */
  function AfterFirst(a: AttrForm, more: string): string {
    Spelled(a.name) + (a.before + (['='] + (a.after + (ValueText(a.value) + more))))
  }

  lemma {:induction false} AttrFormSplit(a: AttrForm, more: string)
    ensures AttrFormText(a) + more == a.lead + ([a.first] + AfterFirst(a, more))
  {
    hide Spelled, ValueText;
    Regroup7(a.lead, [a.first], Spelled(a.name), a.before, a.after, ValueText(a.value), more);
  }

  lemma {:induction false} Regroup7(a: string, b: string, c: string, d: string, e: string, f: string, more: string)
    ensures a + b + c + d + "=" + e + f + more == a + (b + (c + (d + (['='] + (e + (f + more))))))
  {
  }

  /** The name and the '=' */
  lemma {:induction false} NameAndEquals(a: AttrForm, rest: string, ents: string -> int) returns (r: Scanned)
    requires AttrFormOk(a, ents)
    ensures r == ReadAttrName(Spelled(a.name) + (a.before + (['='] + rest)), [a.first], ents)
    ensures r.Scanned? && r.text == AttrMeant(a, ents).name && AfterName(r.ch, r.rest) == Got('=', rest)
  {
    hide ReadAttrName, Spelled, Meant, NextNonSpace, Blank, PiecesOk, GoodByte, ValueFormOk;
    var tail := a.before + (['='] + rest);
    if a.before == [] {
      assert tail == ['='] + rest;
      AttrNamePieces(a.name, [a.first], '=', rest, ents);
      r := Scanned([a.first] + Meant(a.name, ents), Some('='), rest);
    } else {
      BlankGood(a.before);
      var c := a.before[0];
      assert tail == [c] + (a.before[1..] + (['='] + rest));
      assert c in " \t\r\n" by { FirstBlank(a.before); }
      AttrNamePieces(a.name, [a.first], c, a.before[1..] + (['='] + rest), ents);
      assert GoodByte('=') by { EqualsGood(); }
      SkipBlank(a.before[1..], '=', rest);
      r := Scanned([a.first] + Meant(a.name, ents), Some(c), a.before[1..] + (['='] + rest));
    }
  }

  lemma {:induction false} FirstBlank(s: string)
    requires Blank(s) && s != []
    ensures s[0] in " \t\r\n"
  {
  }

  lemma {:induction false} EqualsGood()
    ensures GoodByte('=')
  {
  }

  /** An attribute in any form is read as its name and its value. */
  lemma {:induction false} AttrFormRead(a: AttrForm, more: string, attrs: seq<Attr>, ents: string -> int)
    requires AttrFormOk(a, ents) && (a.value.Unquoted? ==> StopsValue(more))
    requires forall i :: 0 <= i < |attrs| ==> attrs[i].name != AttrMeant(a, ents).name
    ensures ReadAttr(a.first, AfterFirst(a, more), attrs, ents)
         == AttrDone(AttrMeant(a, ents).name, ValueMeant(a.value, ents),
                     Some(if a.value.Quoted? then a.value.quote else more[0]), if a.value.Quoted? then more else more[1..])
  {
    hide ReadAttrName, ReadQuotedName, ReadValue, AfterName, Spelled, Meant, Blank, PiecesOk, GoodByte, ValueFormOk, ValueText, ValueMeant;
    var rest := a.after + (ValueText(a.value) + more);
    var r := NameAndEquals(a, rest, ents);
    FindAttrAbsent(attrs, r.text);
    ValueRead(r.text, a.value, a.after, more, ents);
  }

  /** In the tag it becomes the next attribute, and reading goes on behind what ended its value. */
  lemma {:induction false} FormGoesOn(a: AttrForm, more: string, attrs: seq<Attr>, ents: string -> int)
    requires AttrFormOk(a, ents) && (a.value.Unquoted? ==> StopsValue(more))
    requires forall i :: 0 <= i < |attrs| ==> attrs[i].name != AttrMeant(a, ents).name
    ensures ParseElement(AttrFormText(a) + more, attrs, ents)
         == if a.value.Quoted? then GoOn(Some(a.value.quote), more, attrs + [AttrMeant(a, ents)], ents)
            else GoOn(Some(more[0]), more[1..], attrs + [AttrMeant(a, ents)], ents)
  {
    hide *;
    AttrFormSplit(a, more);
    FormFacts(a, ents);
    ParseBlank(a.lead, [a.first] + AfterFirst(a, more), attrs, ents);
    PlainRead(a.first, AfterFirst(a, more));
    AttrFormRead(a, more, attrs, ents);
    FindAttrAbsent(attrs, AttrMeant(a, ents).name);
    AttrIs(a, ents);
    ParseNext(a.first, AfterFirst(a, more), attrs, ents);
    SetAbsent(attrs, AttrMeant(a, ents));
    if a.value.Unquoted? {
      NotEmpty(more);
    }
  }

  lemma {:induction false} NotEmpty(more: string)
    requires StopsValue(more)
    ensures more != []
  {
  }

  /** Behind a closing quote, whitespace or the end of the tag it goes on with what follows. */
  lemma {:induction false} ParseForm(a: AttrForm, more: string, attrs: seq<Attr>, ents: string -> int)
    requires AttrFormOk(a, ents) && (a.value.Unquoted? ==> Stops(more))
    requires forall i :: 0 <= i < |attrs| ==> attrs[i].name != AttrMeant(a, ents).name
    ensures ParseElement(AttrFormText(a) + more, attrs, ents) == ParseElement(more, attrs + [AttrMeant(a, ents)], ents)
  {
    hide ParseElement, GoOn, AttrFormOk, AttrMeant, AttrFormText;
    FormGoesOn(a, more, attrs, ents);
    FormFacts(a, ents);
    if a.value.Unquoted? {
      AfterStop(more, attrs + [AttrMeant(a, ents)], ents);
    } else {
      AfterQuote(a.value.quote, more, attrs + [AttrMeant(a, ents)], ents);
    }
  }

  /** An '=' ends a value without quotes as well, and is dropped. */
  lemma {:induction false} EqualsEndsValue(a: AttrForm, more: string, attrs: seq<Attr>, ents: string -> int)
    requires AttrFormOk(a, ents) && a.value.Unquoted?
    requires forall i :: 0 <= i < |attrs| ==> attrs[i].name != AttrMeant(a, ents).name
    ensures ParseElement(AttrFormText(a) + ("=" + more), attrs, ents) == ParseElement(more, attrs + [AttrMeant(a, ents)], ents)
  {
    hide ParseElement, AttrFormOk, AttrMeant, AttrFormText;
    FormGoesOn(a, "=" + more, attrs, ents);
    assert ("=" + more)[1..] == more;
  }

  lemma {:induction false} AfterQuote(q: char, more: string, attrs: seq<Attr>, ents: string -> int)
    requires q == '\'' || q == '\"'
    ensures GoOn(Some(q), more, attrs, ents) == ParseElement(more, attrs, ents)
  {
    hide ParseElement;
  }

  lemma {:induction false} AttrIs(a: AttrForm, ents: string -> int)
    ensures AttrMeant(a, ents).value == Some(ValueMeant(a.value, ents))
  {
    hide ValueMeant;
  }

  lemma {:induction false} SetAbsent(attrs: seq<Attr>, a: Attr)
    requires FindAttr(attrs, a.name) == |attrs|
    ensures SetAttr(attrs, a.name, a.value) == attrs + [a]
  {
    hide FindAttr;
  }

  lemma {:induction false} FormFacts(a: AttrForm, ents: string -> int)
    requires AttrFormOk(a, ents)
    ensures Blank(a.lead) && GoodByte(a.first) && !IsSpace(a.first) && a.first !in "/?<>" && !IsQuote(a.first)
    ensures a.value.Quoted? ==> a.value.quote == '\'' || a.value.quote == '\"'
  {
    hide Blank, PiecesOk;
  }

  /** How the tag goes on after an attribute whose value ended at `ch` */
  function GoOn(ch: Option<char>, rest: string, attrs: seq<Attr>, ents: string -> int): Parsed {
    if ch == Some('/') || ch == Some('?') then ExpectGreater(ch.value, rest, attrs)
    else if ch == Some('>') then Parsed(attrs, '>', rest)
    else ParseElement(rest, attrs, ents)
  }

  lemma {:induction false} ParseNext(c: char, s: string, attrs: seq<Attr>, ents: string -> int)
    requires GetC([c] + s) == Got(c, s) && !IsSpace(c) && c !in "/?<>"
    ensures ParseElement([c] + s, attrs, ents) ==
              match ReadAttr(c, s, attrs, ents)
              case AttrError => ParseError
              case AttrDone(name, value, ch, rest) => GoOn(ch, rest, SetAttr(attrs, name, Some(value)), ents)
  {
    hide GetC, ReadAttr, SetAttr, ExpectGreater;
  }

  /** The character that ended a value without quotes counts once. */
  lemma {:induction false} AfterStop(more: string, attrs: seq<Attr>, ents: string -> int)
    requires Stops(more)
    ensures GoOn(Some(more[0]), more[1..], attrs, ents) == ParseElement(more, attrs, ents)
  {
    hide ReadAttr, ExpectGreater;
    assert more == [more[0]] + more[1..];
    GetCOf(more[0], more[1..]);
  }

  // ----- all attributes, and the end of the tag -----

  function FormsText(forms: seq<AttrForm>): string {
    if forms == [] then [] else AttrFormText(forms[0]) + FormsText(forms[1..])
  }

  function FormsMeant(forms: seq<AttrForm>, ents: string -> int): (attrs: seq<Attr>)
    ensures |attrs| == |forms| && forall i :: 0 <= i < |forms| ==> attrs[i] == AttrMeant(forms[i], ents)
  {
    seq(|forms|, i requires 0 <= i < |forms| => AttrMeant(forms[i], ents))
  }

  /** A name or a value without quotes is followed by whitespace or by the end of the tag; behind a
      closing quote the next attribute may start at once. */
  predicate Separated(forms: seq<AttrForm>, end: string, open: bool)
    decreases |forms|
  {
    if forms == [] then open ==> Stops(end)
    else (open ==> forms[0].lead != []) && Separated(forms[1..], end, forms[0].value.Unquoted?)
  }

  lemma {:induction false} SeparatedStops(forms: seq<AttrForm>, end: string, rest: string, ents: string -> int)
    requires Separated(forms, end, true) && (forall i :: 0 <= i < |forms| ==> AttrFormOk(forms[i], ents))
    ensures Stops(FormsText(forms) + (end + rest))
    ensures forms != [] ==> (FormsText(forms) + (end + rest))[0] in " \t\r\n"
  {
    hide Spelled, PiecesOk, GoodByte, ValueText;
    if forms == [] {
      assert FormsText(forms) + (end + rest) == end + rest;
    } else {
      assert AttrFormOk(forms[0], ents);
      FirstBlank(forms[0].lead);
      assert (FormsText(forms) + (end + rest))[0] == forms[0].lead[0];
    }
  }

  /** All attributes of a tag, in any form, are read in order. */
  lemma {:induction false} ParseForms(forms: seq<AttrForm>, open: bool, end: string, rest: string, attrs: seq<Attr>, ents: string -> int)
    requires forall i :: 0 <= i < |forms| ==> AttrFormOk(forms[i], ents)
    requires Separated(forms, end, open) && UniqueNames(attrs + FormsMeant(forms, ents))
    ensures ParseElement(FormsText(forms) + (end + rest), attrs, ents)
         == ParseElement(end + rest, attrs + FormsMeant(forms, ents), ents)
    decreases |forms|
  {
    hide ParseElement, AttrFormOk, AttrMeant, AttrFormText, Stops;
    var all := attrs + FormsMeant(forms, ents);
    if forms == [] {
      assert FormsText(forms) + (end + rest) == end + rest;
      assert all == attrs;
    } else {
      var a := forms[0];
      var more := FormsText(forms[1..]) + (end + rest);
      assert FormsText(forms) + (end + rest) == AttrFormText(a) + more;
      forall i | 0 <= i < |attrs|
        ensures attrs[i].name != AttrMeant(a, ents).name
      {
        assert all[i] == attrs[i] && all[|attrs|] == AttrMeant(a, ents);
      }
      if a.value.Unquoted? {
        SeparatedStops(forms[1..], end, rest, ents);
      }
      ParseForm(a, more, attrs, ents);
      assert attrs + [AttrMeant(a, ents)] + FormsMeant(forms[1..], ents) == all;
      ParseForms(forms[1..], a.value.Unquoted?, end, rest, attrs + [AttrMeant(a, ents)], ents);
    }
  }

  /** The three ends of a tag */
  predicate IsClose(close: string) {
    close == ">" || close == "/>" || close == "?>"
  }

  lemma {:induction false} CloseRead(close: string, rest: string, attrs: seq<Attr>, ents: string -> int)
    requires IsClose(close)
    ensures ParseElement(close + rest, attrs, ents) == Parsed(attrs, close[0], rest)
  {
    hide ReadAttr;
    GetCOf('>', rest);
    if close != ">" {
      assert close + rest == [close[0]] + (">" + rest);
      GetCOf(close[0], ">" + rest);
    }
  }

  // ----- whole tags -----

  /** An open tag, or the tag of an element without children: its name, its attributes, whitespace,
      and what closes it */
  datatype TagForm = TagForm(name: seq<Piece>, forms: seq<AttrForm>, space: string, close: string)

  function TagText(t: TagForm): string {
    "<" + Spelled(t.name) + FormsText(t.forms) + t.space + t.close
  }

  ghost predicate TagFormOk(t: TagForm, ents: string -> int) {
    var name := Meant(t.name, ents);
    && PiecesOk(t.name, " \t\r\n<>/", ents)
    && (if name == [] then t.forms != [] || t.space != [] || t.close != "/>" else name[0] !in "?!/")
    && (forall i :: 0 <= i < |t.forms| ==> AttrFormOk(t.forms[i], ents))
    && Blank(t.space) && IsClose(t.close)
    && Separated(t.forms, t.space + t.close, true)
    && UniqueNames(FormsMeant(t.forms, ents))
  }

  /** The parse state after the tag: "/>" makes a finished child, anything else a new parent. */
  function TagMeans(t: TagForm, st: State, env: Env): State {
    var name := Meant(t.name, env.ents);
    var attrs := FormsMeant(t.forms, env.ents);
    if t.close == "/>" then AddNode(st, Element(name, attrs, [])) else Push(st, name, attrs, env.cb)
  }

  function TagTail(t: TagForm, rest: string): string {
    FormsText(t.forms) + (t.space + t.close + rest)
  }

  lemma {:induction false} TagTextSplit(t: TagForm, rest: string)
    ensures TagText(t) + rest == ['<'] + (Spelled(t.name) + TagTail(t, rest))
  {
    hide Spelled, FormsText;
  }

  lemma {:induction false} TailRead(t: TagForm, rest: string, ents: string -> int)
    requires TagFormOk(t, ents)
    ensures ParseElement(TagTail(t, rest), [], ents) == Parsed(FormsMeant(t.forms, ents), t.close[0], rest)
  {
    hide ParseElement, AttrFormOk, FormsText, Separated, Blank, Stops, PiecesOk;
    var attrs := FormsMeant(t.forms, ents);
    assert [] + attrs == attrs;
    ParseForms(t.forms, true, t.space + t.close, rest, [], ents);
    assert t.space + t.close + rest == t.space + (t.close + rest);
    ParseBlank(t.space, t.close + rest, attrs, ents);
    CloseRead(t.close, rest, attrs, ents);
  }

  /** What `TagEnd` makes of the character that stopped the name is what reading on from it would. */
  lemma {:induction false} StopCounts(tail: string, ents: string -> int)
    requires Stops(tail)
    ensures TagEnd(tail[0], tail[1..], ents) == ParseElement(tail, [], ents)
  {
    hide ReadAttr, ExpectGreater;
    assert tail == [tail[0]] + tail[1..];
    GetCOf(tail[0], tail[1..]);
  }

  /** A tag in any form is read as its name and its attributes. */
  lemma {:induction false} TagFormRead(t: TagForm, rest: string, st: State, env: Env)
    requires TagFormOk(t, env.ents)
    ensures Tag(st, Spelled(t.name) + TagTail(t, rest), env) == Running(TagMeans(t, st, env), rest)
  {
    hide *;
    var name, tail := Meant(t.name, env.ents), TagTail(t, rest);
    TagFormFacts(t, rest, env.ents);
    TagNamePieces(t.name, [], tail, env.ents);
    assert [] + name == name;
    assert tail == [tail[0]] + tail[1..];
    NameStops(name, tail[0], tail[1..], env.ents);
    TagBranch(st, Spelled(t.name) + tail, name, Some(tail[0]), tail[1..], env);
    TailRead(t, rest, env.ents);
    StopCounts(tail, env.ents);
    OpenMeans(t, st, tail, rest, env);
  }

  lemma {:induction false} NameStops(name: string, c: char, rest: string, ents: string -> int)
    requires c in " \t\r\n/>" && (name == [] ==> c != '/')
    ensures ReadTagName([c] + rest, name, ents) == Scanned(name, Some(c), rest)
  {
    GetCOf(c, rest);
  }

  lemma {:induction false} TagFormFacts(t: TagForm, rest: string, ents: string -> int)
    requires TagFormOk(t, ents)
    ensures PiecesOk(t.name, " \t\r\n<>/", ents) && (Meant(t.name, ents) != [] ==> Meant(t.name, ents)[0] !in "?!/")
    ensures [] + Meant(t.name, ents) == Meant(t.name, ents)
    ensures var tail := TagTail(t, rest);
            Stops(tail) && tail != [] && tail[0] in " \t\r\n/>" && (Meant(t.name, ents) == [] ==> tail[0] != '/')
    ensures IsClose(t.close)
  {
    hide PiecesOk, Meant, FormsText, AttrFormOk, Separated;
    SeparatedStops(t.forms, t.space + t.close, rest, ents);
    var tail := TagTail(t, rest);
    assert tail == FormsText(t.forms) + (t.space + t.close + rest);
    if t.forms == [] {
      assert FormsText(t.forms) == [] by { NoForms(); }
      assert tail[0] == (t.space + t.close)[0];
      if t.space != [] {
        FirstBlank(t.space);
      }
    }
  }

  lemma {:induction false} NoForms()
    ensures FormsText([]) == []
  {
  }

  lemma {:induction false} OpenMeans(t: TagForm, st: State, tail: string, rest: string, env: Env)
    requires tail != [] && IsClose(t.close)
    requires TagEnd(tail[0], tail[1..], env.ents) == Parsed(FormsMeant(t.forms, env.ents), t.close[0], rest)
    ensures OpenTag(st, Meant(t.name, env.ents), Some(tail[0]), tail[1..], env) == Running(TagMeans(t, st, env), rest)
  {
    hide TagEnd, Meant, AddNode, Push, FormsMeant;
  }

  // ----- close tags -----

  /** A close tag: its name, and what follows that up to the '>' */
  datatype CloseForm = CloseForm(name: seq<Piece>, junk: string)

  function CloseText(t: CloseForm): string {
    "</" + Spelled(t.name) + t.junk + ">"
  }

  predicate CloseFormOk(t: CloseForm, ents: string -> int) {
    && PiecesOk(t.name, " \t\r\n<>/", ents)
    && (forall i :: 0 <= i < |t.junk| ==> GoodByte(t.junk[i]) && t.junk[i] != '>')
    && (t.junk != [] ==> t.junk[0] in " \t\r\n/")
  }

  lemma {:induction false} JunkSkipped(junk: string, c: char, rest: string)
    requires forall i :: 0 <= i < |junk| ==> GoodByte(junk[i]) && junk[i] != '>'
    requires c != '>'
    ensures SkipToClose(Some(c), junk + (">" + rest)) == rest
    decreases |junk|
  {
    hide GoodByte;
    if junk == [] {
      assert junk + (">" + rest) == ['>'] + rest;
      GetCOf('>', rest);
    } else {
      assert junk + (">" + rest) == [junk[0]] + (junk[1..] + (">" + rest));
      PlainRead(junk[0], junk[1..] + (">" + rest));
      JunkSkipped(junk[1..], junk[0], rest);
    }
  }

  /** A close tag ends the innermost element if that has its name, whatever follows the name. */
  lemma {:induction false} CloseFormRead(t: CloseForm, rest: string, st: State, env: Env)
    requires CloseFormOk(t, env.ents)
    ensures Tag(st, "/" + Spelled(t.name) + t.junk + ">" + rest, env)
         == if st.stack != [] && st.stack[|st.stack| - 1].name == Meant(t.name, env.ents) then Running(Pop(st, env.cb), rest)
            else Failed
  {
    hide *;
    var name := Meant(t.name, env.ents);
    var tail := t.junk + (">" + rest);
    var s := "/" + Spelled(t.name) + t.junk + ">" + rest;
    assert s == ['/'] + (Spelled(t.name) + tail);
    ReadSlash(Spelled(t.name) + tail, env.ents);
    CloseFormFacts(t, rest, env.ents);
    TagNamePieces(t.name, "/", tail, env.ents);
    assert ("/" + name)[0] == '/' && ("/" + name)[1..] == name;
    assert tail == [tail[0]] + tail[1..];
    NameStops("/" + name, tail[0], tail[1..], env.ents);
    TagBranch(st, s, "/" + name, Some(tail[0]), tail[1..], env);
    CloseMeans(st, "/" + name, tail[0], tail[1..], rest, env.cb);
  }

  lemma {:induction false} CloseFormFacts(t: CloseForm, rest: string, ents: string -> int)
    requires CloseFormOk(t, ents)
    ensures PiecesOk(t.name, " \t\r\n<>/", ents)
    ensures var tail := t.junk + (">" + rest); tail[0] in " \t\r\n/>" && SkipToClose(Some(tail[0]), tail[1..]) == rest
  {
    hide PiecesOk, GoodByte;
    var tail := t.junk + (">" + rest);
    if t.junk == [] {
      assert tail[0] == '>' && tail[1..] == rest;
    } else {
      assert tail[0] == t.junk[0] && tail[1..] == t.junk[1..] + (">" + rest);
      JunkSkipped(t.junk[1..], t.junk[0], rest);
    }
  }

  lemma {:induction false} CloseMeans(st: State, buf: string, ch: char, s: string, rest: string, cb: Callback)
    requires buf != [] && SkipToClose(Some(ch), s) == rest
    ensures CloseTag(st, buf, Some(ch), s, cb)
         == if st.stack != [] && st.stack[|st.stack| - 1].name == buf[1..] then Running(Pop(st, cb), rest) else Failed
  {
    hide Pop, SkipToClose;
  }
}
