/** The many ways to write a string in a document: every character can stand for itself or be
    referred to, and every loop of the parser that collects characters reads both alike. */
module Spellings {
  import opened Options
  import opened Chars
  import opened Reader
  import opened TagProofs
  import opened References

  /** One character of a name, a value or a text, as it is written */
  datatype Piece = Plain(c: char) | Ref(r: Reference)

  function PieceText(p: Piece): (s: string)
    ensures s != []
  {
    match p
    case Plain(c) => [c]
    case Ref(r) => "&" + RefName(r) + ";"
  }

  /** The bytes that it stands for */
  function PieceBytes(p: Piece, ents: string -> int): (s: string)
    ensures s != []
  {
    match p
    case Plain(c) => [c]
    case Ref(r) => AddChar(Code(r, ents))
  }

  function Spelled(ps: seq<Piece>): string {
    if ps == [] then [] else PieceText(ps[0]) + Spelled(ps[1..])
  }

  function Meant(ps: seq<Piece>, ents: string -> int): string {
    if ps == [] then [] else PieceBytes(ps[0], ents) + Meant(ps[1..], ents)
  }

  predicate Blank(s: string) {
    forall i :: 0 <= i < |s| ==> s[i] in " \t\r\n"
  }

  predicate GoodByte(c: char) {
    c as int < 256 && Acceptable(c as int)
  }

  /** A character that stands for itself is none of `stops`, and no '&'. */
  predicate PieceOk(p: Piece, stops: string, ents: string -> int) {
    match p
    case Plain(c) => GoodByte(c) && c != '&' && c !in stops
    case Ref(r) => RefOk(r, ents)
  }

  predicate PiecesOk(ps: seq<Piece>, stops: string, ents: string -> int) {
    forall i :: 0 <= i < |ps| ==> PieceOk(ps[i], stops, ents)
  }

  // ----- one piece -----

  lemma {:induction false} PlainRead(c: char, rest: string)
    requires GoodByte(c)
    ensures GetC([c] + rest) == Got(c, rest) && AddChar(c as int) == [c] && GoodChar(c)
    ensures IsSpace(c) <==> c in " \t\r\n"
  {
    GetCOf(c, rest);
  }

  lemma {:induction false} RefRead(r: Reference, rest: string, ents: string -> int)
    requires RefOk(r, ents)
    ensures GetC("&" + RefName(r) + ";" + rest) == Got('&', RefName(r) + ";" + rest)
    ensures GetEntity(RefName(r) + ";" + rest, ents) == Entity(Code(r, ents), rest)
  {
    hide RefName, RefOk, Code, GetEntity;
    ReferenceRead(r, rest, ents);
    assert "&" + RefName(r) + ";" + rest == ['&'] + (RefName(r) + ";" + rest);
    GetCOf('&', RefName(r) + ";" + rest);
  }

  lemma {:induction false} Pieces(ps: seq<Piece>, stops: string, more: string, ents: string -> int)
    requires PiecesOk(ps, stops, ents)
    ensures ps == [] ==> Spelled(ps) + more == more && Meant(ps, ents) == []
    ensures ps != [] ==> PieceOk(ps[0], stops, ents) && PiecesOk(ps[1..], stops, ents) &&
                         Spelled(ps) + more == PieceText(ps[0]) + (Spelled(ps[1..]) + more)
    ensures ps != [] ==> forall s: string :: s + Meant(ps, ents) == s + PieceBytes(ps[0], ents) + Meant(ps[1..], ents)
  {
    hide PieceText, PieceBytes, PieceOk;
    if ps != [] {
      assert Spelled(ps) + more == PieceText(ps[0]) + (Spelled(ps[1..]) + more);
      forall s: string
        ensures s + Meant(ps, ents) == s + PieceBytes(ps[0], ents) + Meant(ps[1..], ents)
      {
        assert s + (PieceBytes(ps[0], ents) + Meant(ps[1..], ents)) == s + PieceBytes(ps[0], ents) + Meant(ps[1..], ents);
      }
    }
  }

  // ----- the loops -----

  /** Attribute values in either kind of quotes */
  lemma {:induction false} QuotedPiece(p: Piece, q: char, v: string, more: string, ents: string -> int)
    requires (q == '\'' || q == '\"') && PieceOk(p, [q], ents)
    ensures ReadQuoted(PieceText(p) + more, q, v, ents) == ReadQuoted(more, q, v + PieceBytes(p, ents), ents)
  {
    hide GetEntity, RefOk, Code, RefName, GoodByte, GetC, AddChar;
    match p
    case Plain(c) => PlainRead(c, more);
    case Ref(r) => RefRead(r, more, ents);
  }

  lemma {:induction false} QuotedPieces(ps: seq<Piece>, q: char, v: string, rest: string, ents: string -> int)
    requires (q == '\'' || q == '\"') && PiecesOk(ps, [q], ents)
    ensures ReadQuoted(Spelled(ps) + ([q] + rest), q, v, ents) == Scanned(v + Meant(ps, ents), Some(q), rest)
    decreases |ps|
  {
    hide PieceOk, PieceText, PieceBytes, PiecesOk, Spelled, Meant;
    Pieces(ps, [q], [q] + rest, ents);
    if ps == [] {
      GetCOf(q, rest);
      assert v + [] == v;
    } else {
      QuotedPiece(ps[0], q, v, Spelled(ps[1..]) + ([q] + rest), ents);
      QuotedPieces(ps[1..], q, v + PieceBytes(ps[0], ents), rest, ents);
    }
  }

  /** Attribute values without quotes */
  lemma {:induction false} UnquotedPiece(p: Piece, v: string, more: string, ents: string -> int)
    requires PieceOk(p, " \t\r\n=/>", ents)
    ensures ReadUnquoted(PieceText(p) + more, v, ents) == ReadUnquoted(more, v + PieceBytes(p, ents), ents)
  {
    hide GetEntity, RefOk, Code, RefName, GoodByte, GetC, AddChar;
    match p
    case Plain(c) => PlainRead(c, more);
    case Ref(r) => RefRead(r, more, ents);
  }

  lemma {:induction false} UnquotedPieces(ps: seq<Piece>, v: string, stop: char, rest: string, ents: string -> int)
    requires PiecesOk(ps, " \t\r\n=/>", ents) && stop in " \t\r\n=/>"
    ensures ReadUnquoted(Spelled(ps) + ([stop] + rest), v, ents) == Scanned(v + Meant(ps, ents), Some(stop), rest)
    decreases |ps|
  {
    hide PieceOk, PieceText, PieceBytes, PiecesOk, Spelled, Meant;
    Pieces(ps, " \t\r\n=/>", [stop] + rest, ents);
    if ps == [] {
      PlainRead(stop, rest);
      assert v + [] == v;
    } else {
      UnquotedPiece(ps[0], v, Spelled(ps[1..]) + ([stop] + rest), ents);
      UnquotedPieces(ps[1..], v + PieceBytes(ps[0], ents), stop, rest, ents);
    }
  }

  /** Attribute names */
  lemma {:induction false} AttrNamePiece(p: Piece, n: string, more: string, ents: string -> int)
    requires PieceOk(p, " \t\r\n=/>?", ents)
    ensures ReadAttrName(PieceText(p) + more, n, ents) == ReadAttrName(more, n + PieceBytes(p, ents), ents)
  {
    hide GetEntity, RefOk, Code, RefName, GoodByte, GetC, AddChar;
    match p
    case Plain(c) => PlainRead(c, more);
    case Ref(r) => RefRead(r, more, ents);
  }

  lemma {:induction false} AttrNamePieces(ps: seq<Piece>, n: string, stop: char, rest: string, ents: string -> int)
    requires PiecesOk(ps, " \t\r\n=/>?", ents) && stop in " \t\r\n=/>?"
    ensures ReadAttrName(Spelled(ps) + ([stop] + rest), n, ents) == Scanned(n + Meant(ps, ents), Some(stop), rest)
    decreases |ps|
  {
    hide PieceOk, PieceText, PieceBytes, PiecesOk, Spelled, Meant;
    Pieces(ps, " \t\r\n=/>?", [stop] + rest, ents);
    if ps == [] {
      PlainRead(stop, rest);
      assert n + [] == n;
    } else {
      AttrNamePiece(ps[0], n, Spelled(ps[1..]) + ([stop] + rest), ents);
      AttrNamePieces(ps[1..], n + PieceBytes(ps[0], ents), stop, rest, ents);
    }
  }

  /** Names of tags that are no markup; a '/' ends the name, except as its first character. */
  lemma {:induction false} TagNamePiece(p: Piece, n: string, more: string, ents: string -> int)
    requires PieceOk(p, if n == [] then " \t\r\n<>" else " \t\r\n<>/", ents)
    requires (n + PieceBytes(p, ents))[0] !in "?!"
    ensures ReadTagName(PieceText(p) + more, n, ents) == ReadTagName(more, n + PieceBytes(p, ents), ents)
  {
    hide GetEntity, RefOk, Code, RefName, GoodByte, GetC, AddChar;
    match p
    case Plain(c) => PlainRead(c, more);
    case Ref(r) => RefRead(r, more, ents);
  }

  lemma {:induction false} TagNamePieces(ps: seq<Piece>, n: string, more: string, ents: string -> int)
    requires PiecesOk(ps, " \t\r\n<>/", ents)
    requires n + Meant(ps, ents) != [] ==> (n + Meant(ps, ents))[0] !in "?!"
    ensures ReadTagName(Spelled(ps) + more, n, ents) == ReadTagName(more, n + Meant(ps, ents), ents)
    decreases |ps|
  {
    hide PieceText, PieceBytes, PiecesOk, Spelled, Meant, GoodByte, RefOk, ReadTagName;
    Pieces(ps, " \t\r\n<>/", more, ents);
    if ps == [] {
      assert n + [] == n;
    } else {
      TagNamePiece(ps[0], n, Spelled(ps[1..]) + more, ents);
      TagNamePieces(ps[1..], n + PieceBytes(ps[0], ents), more, ents);
    }
  }

  /** The text between tags. Outside opaque values a written space is a separator, but a space that
      is referred to is part of the value. */
  lemma {:induction false} TextPiece(st: State, p: Piece, more: string, env: Env)
    requires PieceOk(p, if st.ty == OpaqueType then "<" else " \t\r\n<", env.ents)
    ensures Run(st, PieceText(p) + more, env) == Run(st.(buf := st.buf + PieceBytes(p, env.ents)), more, env)
  {
    hide GetEntity, RefOk, Code, RefName, GoodByte, GetC, AddChar, AddNode, Tag;
    match p
    case Plain(c) =>
      PlainRead(c, more);
      assert Flush(st, c) == Flushed(st);
    case Ref(r) =>
      RefRead(r, more, env.ents);
      assert Flush(st, '&') == Flushed(st);
  }

  lemma {:induction false} TextPieces(st: State, ps: seq<Piece>, more: string, env: Env)
    requires PiecesOk(ps, if st.ty == OpaqueType then "<" else " \t\r\n<", env.ents)
    ensures Run(st, Spelled(ps) + more, env) == Run(st.(buf := st.buf + Meant(ps, env.ents)), more, env)
    decreases |ps|
  {
    hide PieceText, PieceBytes, PiecesOk, Spelled, Meant, PieceOk, Run;
    Pieces(ps, if st.ty == OpaqueType then "<" else " \t\r\n<", more, env.ents);
    if ps == [] {
      assert st.buf + [] == st.buf;
    } else {
      TextPiece(st, ps[0], Spelled(ps[1..]) + more, env);
      TextPieces(st.(buf := st.buf + PieceBytes(ps[0], env.ents)), ps[1..], more, env);
    }
  }

  /** The rest of a declaration whose next character has not been read */
  function DeclarationFrom(s: string, buf: string, ents: string -> int): Scanned {
    match GetC(s)
    case Eof(_) => ScanError
    case Got(c, rest) => ReadDeclaration(Some(c), rest, buf, ents)
  }

  lemma {:induction false} DeclarationPiece(p: Piece, buf: string, more: string, ents: string -> int)
    requires PieceOk(p, ">", ents)
    ensures DeclarationFrom(PieceText(p) + more, buf, ents) == DeclarationFrom(more, buf + PieceBytes(p, ents), ents)
  {
    hide GetEntity, RefOk, Code, RefName, GoodByte, GetC, AddChar;
    match p
    case Plain(c) => PlainRead(c, more);
    case Ref(r) => RefRead(r, more, ents);
  }

  /** Declarations, up to their '>' */
  lemma {:induction false} DeclarationPieces(ps: seq<Piece>, buf: string, rest: string, ents: string -> int)
    requires PiecesOk(ps, ">", ents)
    ensures DeclarationFrom(Spelled(ps) + (">" + rest), buf, ents) == Scanned(buf + Meant(ps, ents), Some('>'), rest)
    decreases |ps|
  {
    hide PieceText, PieceBytes, PiecesOk, Spelled, Meant, PieceOk;
    Pieces(ps, ">", ">" + rest, ents);
    if ps == [] {
      GetCOf('>', rest);
      assert buf + [] == buf;
    } else {
      DeclarationPiece(ps[0], buf, Spelled(ps[1..]) + (">" + rest), ents);
      DeclarationPieces(ps[1..], buf + PieceBytes(ps[0], ents), rest, ents);
    }
  }

  // ----- the bytes -----

  /** Every piece stands for bytes that the parser takes as they are. */
  lemma {:induction false} MeantGood(ps: seq<Piece>, stops: string, ents: string -> int)
    requires PiecesOk(ps, stops, ents)
    ensures Good(Meant(ps, ents))
    decreases |ps|
  {
    hide PieceBytes, PieceOk, GoodChar;
    if ps != [] {
      assert PieceOk(ps[0], stops, ents);
      PieceGood(ps[0], stops, ents);
      MeantGood(ps[1..], stops, ents);
    }
  }

  lemma {:induction false} PieceGood(p: Piece, stops: string, ents: string -> int)
    requires PieceOk(p, stops, ents)
    ensures Good(PieceBytes(p, ents))
  {
    hide RefName, Code, AddChar;
    match p
    case Plain(_) =>
    case Ref(r) => BytesGood(Code(r, ents));
  }

  lemma {:induction false} BytesGood(ch: int)
    requires Acceptable(ch)
    ensures Good(AddChar(ch))
  {
    hide LowByte, GoodChar;
    GoodBytes(ch);
    assert ch / 0x80 % 2 == 1 ==> ch % 256 >= 0x80;
    assert ch / 0x1000 < 0x10 || ch >= 0x1_0000;
  }

  lemma {:induction false} GoodBytes(ch: int)
    ensures Acceptable(ch) && ch < 0x80 ==> GoodChar(LowByte(ch))
    ensures ch % 256 >= 0x80 ==> GoodChar(LowByte(ch))
    ensures forall k: int :: 0x80 <= k < 0x100 ==> GoodChar(LowByte(k))
  {
  }

  /** Plain pieces stand for themselves. */
  function Plainly(s: string): (ps: seq<Piece>)
    ensures |ps| == |s| && forall i :: 0 <= i < |s| ==> ps[i] == Plain(s[i])
  {
    seq(|s|, i requires 0 <= i < |s| => Plain(s[i]))
  }

  lemma {:induction false} PlainlyMeans(s: string, ents: string -> int)
    ensures Spelled(Plainly(s)) == s && Meant(Plainly(s), ents) == s
  {
    if s != [] {
      assert Plainly(s)[1..] == Plainly(s[1..]);
      PlainlyMeans(s[1..], ents);
      assert s == [s[0]] + s[1..];
    }
  }
}
