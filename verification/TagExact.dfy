/** The converse of TagProofs: a written tag is read back as the element that it stands for only if
    the names in it are ones that can be written. */
module TagExact {
  import opened Options
  import opened Chars
  import opened Numbers
  import opened Trees
  import opened Reader
  import opened Writer
  import opened Canonical
  import opened TagProofs
  import opened FinalTree
  import opened Loaded

  // ----- decoding an entity never gives back what was written -----

  /** How many ampersands are in `s`? */
  function Amps(s: string): nat {
    if s == [] then 0 else (if s[0] == '&' then 1 else 0) + Amps(s[1..])
  }

  lemma {:induction false} AmpsAppend(a: string, b: string)
    ensures Amps(a + b) == Amps(a) + Amps(b)
  {
    if a == [] {
      assert a + b == b;
    } else {
      assert (a + b)[0] == a[0] && (a + b)[1..] == a[1..] + b;
      AmpsAppend(a[1..], b);
    }
  }

  /** `a` can come from `b` by decoding entities: it has fewer ampersands, or as many and no more
      characters. */
  predicate Smaller(a: string, b: string) {
    Amps(a) <= Amps(b) && (Amps(a) == Amps(b) ==> |a| <= |b|)
  }

  predicate StrictlySmaller(a: string, b: string) {
    Amps(a) <= Amps(b) && (Amps(a) == Amps(b) ==> |a| < |b|)
  }

  lemma {:induction false} SmallerThan(a: string, b: string, c: string)
    requires Smaller(a, b)
    ensures Smaller(b, c) ==> Smaller(a, c)
    ensures StrictlySmaller(b, c) ==> StrictlySmaller(a, c) && Smaller(a, c) && a != c
  {
  }

  lemma {:induction false} PrefixSmaller(a: string, b: string)
    ensures Smaller(a, a + b)
  {
    AmpsAppend(a, b);
  }

  /** The bytes of one character: an ampersand among them is alone. */
  lemma {:induction false} CharAmps(code: int)
    requires code >= 0
    ensures Amps(AddChar(code)) <= 1 && (Amps(AddChar(code)) == 1 ==> |AddChar(code)| == 1)
  {
    hide LowByte;
    var s := AddChar(code);
    if |s| > 1 {
      HighByte(0xC0 + code / 0x40);
      HighByte(0xE0 + code / 0x1000);
      HighByte(0xF0 + code / 0x40000 % 0x10);
      HighByte(0x80 + code % 0x40);
      HighByte(0x80 + code / 0x40 % 0x40);
      HighByte(0x80 + code / 0x1000 % 0x40);
      assert forall i :: 0 <= i < |s| ==> s[i] != '&';
      NoAmps(s);
    } else {
      assert s[1..] == [];
    }
  }

  lemma {:induction false} HighByte(n: int)
    ensures 0x80 <= n < 0x100 ==> LowByte(n) != '&'
  {
  }

  lemma {:induction false} NoAmps(s: string)
    requires forall i :: 0 <= i < |s| ==> s[i] != '&'
    ensures Amps(s) == 0
  {
    if s != [] {
      NoAmps(s[1..]);
    }
  }

  /** A character behind a name that cannot be part of an entity */
  predicate Delimits(c: char) {
    GoodChar(c) && !IsAlnum(c) && c != '#' && c != ';'
  }

  lemma {:induction false} EntityNameInside(y: string, tail: string, name: string) returns (k: nat)
    requires tail != [] && Delimits(tail[0]) && ReadEntityName(y + tail, name).ch == Some(';')
    ensures 1 <= k <= |y| && ReadEntityName(y + tail, name).rest == y[k..] + tail
    decreases |y|
  {
    hide IsAlnum;
    k := 1;
    if y != [] {
      assert (y + tail)[0] == y[0] && (y + tail)[1..] == y[1..] + tail;
      var g := GetC(y + tail);
      if g.Got? && g.c as int <= 126 && (IsAlnum(g.c) || g.c == '#') && |name| < 63 {
        k := EntityNameInside(y[1..], tail, name + [y[0]]);
        k := k + 1;
        assert y[1..][k - 1..] == y[k..];
      }
    }
  }

  /** An entity that starts inside a name ends inside it, and decoding it makes the name smaller. */
  lemma {:induction false} EntityInside(buf: string, y: string, tail: string, ents: string -> int) returns (k: nat)
    requires tail != [] && Delimits(tail[0]) && GetEntity(y + tail, ents).Entity?
    ensures var e := GetEntity(y + tail, ents);
            1 <= k <= |y| && e.rest == y[k..] + tail && StrictlySmaller(buf + AddChar(e.code) + y[k..], buf + ['&'] + y)
  {
    hide ReadEntityName, EntityValue, AddChar;
    var e := GetEntity(y + tail, ents);
    k := EntityNameInside(y, tail, "");
    CharAmps(e.code);
    AmpsAppend(buf + AddChar(e.code), y[k..]);
    AmpsAppend(buf, AddChar(e.code));
    AmpsAppend(buf + ['&'], y);
    AmpsAppend(buf, ['&']);
    assert ['&'][1..] == [];
    assert y == y[..k] + y[k..];
    AmpsAppend(y[..k], y[k..]);
  }

  // ----- the name of an element -----

  /** The delimiter behind the name of an open tag or of markup */
  predicate EndsName(c: char) {
    IsSpace(c) || c == '>'
  }

  /** What a tag name makes of `z`, which `tail` follows: what is collected, together with the part
      of `z` from the stopping character `k` on, is smaller than what there was. */
  predicate Counted(r: Scanned, k: nat, z: string, tail: string, buf: string)
    requires r.Scanned? && tail != []
  {
    && k <= |z| && Smaller(r.text + z[k..], buf + z)
    && (StopsTagName(r.text) ||
        if k == |z| then r.ch == Some(tail[0]) && r.rest == tail[1..] else r.ch == Some(z[k]) && r.rest == z[k + 1..] + tail)
  }

  lemma {:induction false} CountedLater(r: Scanned, k: nat, z: string, j: nat, tail: string, buf: string, buf': string)
    requires r.Scanned? && tail != [] && j <= |z| && Counted(r, k, z[j..], tail, buf') && Smaller(buf' + z[j..], buf + z)
    ensures Counted(r, j + k, z, tail, buf)
  {
    hide Smaller, StopsTagName;
    assert z[j..][k..] == z[j + k..];
    assert k < |z[j..]| ==> z[j..][k + 1..] == z[j + k + 1..];
    SmallerThan(r.text + z[j + k..], buf' + z[j..], buf + z);
  }

  lemma {:induction false} SmallerSelf(a: string, b: string)
    requires a == b
    ensures Smaller(a, b)
  {
  }

  lemma {:induction false} CountStop(z: string, tail: string, buf: string, ents: string -> int)
    requires Good(z) && tail != [] && GoodChar(tail[0]) && EndsName(tail[0])
    requires z == [] || EndsName(z[0]) || (z[0] == '/' && buf != [])
    ensures var r := ReadTagName(z + tail, buf, ents); r.Scanned? && Counted(r, 0, z, tail, buf)
  {
    hide Smaller, StopsTagName, GetEntity;
    if z == [] {
      assert z + tail == [tail[0]] + tail[1..];
      GetCOf(tail[0], tail[1..]);
    } else {
      assert z + tail == [z[0]] + (z[1..] + tail);
      GetCOf(z[0], z[1..] + tail);
    }
    assert z[0..] == z;
    SmallerSelf(buf + z, buf + z);
  }

  /** One character of a tag name that neither ends it nor starts an entity */
  lemma {:induction false} TagNameStep(c: char, more: string, buf: string, ents: string -> int)
    requires GoodChar(c) && !EndsName(c) && c != '&' && (c == '/' ==> buf == [])
    ensures ReadTagName([c] + more, buf, ents) ==
              if c == '<' then ScanError
              else if StopsTagName(buf + [c]) then Scanned(buf + [c], Some(c), more)
              else ReadTagName(more, buf + [c], ents)
  {
    hide StopsTagName, GetEntity;
    GetCOf(c, more);
  }

  lemma {:induction false} TagNameEntity(more: string, buf: string, ents: string -> int)
    ensures ReadTagName(['&'] + more, buf, ents) ==
              match GetEntity(more, ents)
              case NoEntity => ScanError
              case Entity(code, rest) => ReadTagName(rest, buf + AddChar(code), ents)
  {
    hide StopsTagName, GetEntity, AddChar;
    GetCAmp(more);
  }

  lemma {:induction false} GetCAmp(more: string)
    ensures GetC(['&'] + more) == Got('&', more)
  {
    GetCOf('&', more);
  }

  lemma {:induction false} CountTagName(z: string, tail: string, buf: string, ents: string -> int) returns (k: nat)
    requires Good(z) && tail != [] && GoodChar(tail[0]) && EndsName(tail[0])
    requires ReadTagName(z + tail, buf, ents).Scanned?
    ensures Counted(ReadTagName(z + tail, buf, ents), k, z, tail, buf)
    decreases |z|
  {
    hide *;
    if z == [] || EndsName(z[0]) || (z[0] == '/' && buf != []) {
      CountStop(z, tail, buf, ents);
      k := 0;
    } else {
      var c, more := z[0], z[1..] + tail;
      assert z + tail == [c] + more;
      GoodParts(z);
      if c == '&' {
        TagNameEntity(more, buf, ents);
        EndDelimits(tail[0]);
        var j := EntityInside(buf, z[1..], tail, ents);
        var buf' := buf + AddChar(GetEntity(more, ents).code);
        assert z[1..][j..] == z[1 + j..] && buf + ['&'] + z[1..] == buf + z;
        GoodRest(z, 1 + j);
        k := CountTagName(z[1 + j..], tail, buf', ents);
        StrictIsSmaller(buf' + z[1 + j..], buf + z);
        CountedLater(ReadTagName(z + tail, buf, ents), k, z, 1 + j, tail, buf, buf');
        k := 1 + j + k;
      } else {
        TagNameStep(c, more, buf, ents);
        assert buf + [c] + z[1..] == buf + z;
        SmallerSelf(buf + [c] + z[1..], buf + z);
        if StopsTagName(buf + [c]) {
          StopCounted(z, more, tail, buf);
          k := 1;
        } else {
          k := CountTagName(z[1..], tail, buf + [c], ents);
          CountedLater(ReadTagName(z + tail, buf, ents), k, z, 1, tail, buf, buf + [c]);
          k := 1 + k;
        }
      }
    }
  }

  lemma {:induction false} StopCounted(z: string, more: string, tail: string, buf: string)
    requires z != [] && tail != [] && StopsTagName(buf + [z[0]]) && Smaller(buf + [z[0]] + z[1..], buf + z)
    ensures Counted(Scanned(buf + [z[0]], Some(z[0]), more), 1, z, tail, buf)
  {
    hide StopsTagName, Smaller;
  }

  lemma {:induction false} GoodRest(z: string, k: nat)
    requires Good(z) && k <= |z|
    ensures Good(z[k..])
  {
  }

  lemma {:induction false} EndDelimits(c: char)
    requires GoodChar(c) && EndsName(c)
    ensures Delimits(c)
  {
  }

  lemma {:induction false} StrictIsSmaller(a: string, b: string)
    requires StrictlySmaller(a, b)
    ensures Smaller(a, b) && a != b
  {
  }

  /** A name that is written as it is and read back whole */
  lemma {:induction false} RawName(n1: string, n2: string, name: string, tail: string, ents: string -> int)
    requires name == n1 + n2 && Good(n2) && tail != [] && GoodChar(tail[0]) && EndsName(tail[0])
    requires !IsMarkup(name) && (name == [] || name[0] != '/')
    requires var r := ReadTagName(n2 + tail, n1, ents); r.Scanned? && r.text == name
    ensures NoSpace(n2) && '/' !in n2 && Lacks(n2, "<>&")
    decreases |n2|
  {
    hide *;
    if n2 == [] {
      NothingInside();
    } else {
      var c, more := n2[0], n2[1..] + tail;
      GoodParts(n2);
      assert n2 + tail == [c] + more;
      assert n1 + [c] + n2[1..] == name;
      if EndsName(c) || (c == '/' && n1 != []) {
        CountStop(n2, tail, n1, ents);
        StopText(n2, tail, n1, ents);
        assert false;
      } else if c == '&' {
        TagNameEntity(more, n1, ents);
        EndDelimits(tail[0]);
        var j := EntityInside(n1, n2[1..], tail, ents);
        var buf' := n1 + AddChar(GetEntity(more, ents).code);
        assert n2[1..][j..] == n2[1 + j..] && n1 + ['&'] + n2[1..] == name;
        GoodRest(n2, 1 + j);
        var k := CountTagName(n2[1 + j..], tail, buf', ents);
        CountedText(ReadTagName(n2 + tail, n1, ents), k, n2[1 + j..], tail, buf');
        SmallerThan(name, buf' + n2[1 + j..], name);
        assert false;
      } else {
        FirstOfName(n1, n2, name);
        TagNameStep(c, more, n1, ents);
        NoStop(n1 + [c], name);
        RawName(n1 + [c], n2[1..], name, tail, ents);
        OneMore(n2);
      }
    }
  }

  lemma {:induction false} NothingInside()
    ensures NoSpace([]) && Lacks([], "<>&")
  {
  }

  lemma {:induction false} OneMore(n: string)
    requires n != [] && !EndsName(n[0]) && n[0] !in "&</"
    requires NoSpace(n[1..]) && '/' !in n[1..] && Lacks(n[1..], "<>&")
    ensures NoSpace(n) && '/' !in n && Lacks(n, "<>&")
  {
    assert n == [n[0]] + n[1..];
  }

  lemma {:induction false} StopText(z: string, tail: string, buf: string, ents: string -> int)
    requires z != [] && GoodChar(z[0]) && (EndsName(z[0]) || (z[0] == '/' && buf != []))
    ensures var r := ReadTagName(z + tail, buf, ents); r == Scanned(buf, Some(z[0]), z[1..] + tail)
    ensures buf != buf + z
  {
    hide StopsTagName, GetEntity;
    assert z + tail == [z[0]] + (z[1..] + tail);
    GetCOf(z[0], z[1..] + tail);
    assert |buf + z| > |buf|;
  }

  lemma {:induction false} CountedText(r: Scanned, k: nat, z: string, tail: string, buf: string)
    requires r.Scanned? && tail != [] && Counted(r, k, z, tail, buf)
    ensures Smaller(r.text, buf + z)
  {
    hide Smaller, StopsTagName;
    PrefixSmaller(r.text, z[k..]);
    SmallerThan(r.text, r.text + z[k..], buf + z);
  }

  lemma {:induction false} NoStop(buf: string, name: string)
    requires buf != [] && buf <= name && !IsMarkup(name)
    ensures !StopsTagName(buf)
  {
  }

  lemma {:induction false} FirstOfName(n1: string, n2: string, name: string)
    requires name == n1 + n2 && n2 != [] && (name == [] || name[0] != '/') && !(n2[0] == '/' && n1 != [])
    ensures n2[0] != '/' && n1 + [n2[0]] <= name
  {
  }

  // ----- a name in quotes -----

  lemma {:induction false} UpToFacts(s: string, quote: char)
    ensures var x := UpTo(s, quote); x <= s && quote !in x && (|x| < |s| ==> s[|x|] == quote)
  {
    if s != [] && s[0] != quote {
      UpToFacts(s[1..], quote);
    }
  }

  /** The escaped part of a name in quotes, which is read whole unless there is whitespace or a slash
      in it */
  lemma {:induction false} QuotedPart(n1: string, n2: string, more: string, ents: string -> int)
    requires StandardEntities(ents) && n1 != [] && n1[0] !in "?!" && Good(n2)
    requires !(NoSpace(n2) && '/' !in n2)
    ensures var r := ReadTagName(Escape(n2) + more, n1, ents); r.Scanned? && |r.text| < |n1| + |n2|
    decreases |n2|
  {
    hide GetEntity, Escape, StandardEntities, Good, NoSpace;
    if n2 == [] {
      NothingInside();
    } else {
      var c := n2[0];
      EscapeCons(n2, more);
      GoodParts(n2);
      GetCOf(c, Escape(n2[1..]) + more);
      if !IsSpace(c) && c != '/' {
        SpaceFirst(n2);
        ReadEscapedChar(n1, c, Escape(n2[1..]) + more, ents);
        QuotedPart(n1 + [c], n2[1..], more, ents);
      }
    }
  }

  lemma {:induction false} SpaceFirst(n: string)
    requires n != []
    ensures NoSpace(n) && '/' !in n <==> !IsSpace(n[0]) && n[0] != '/' && NoSpace(n[1..]) && '/' !in n[1..]
  {
    assert n == [n[0]] + n[1..];
    assert forall i :: 0 <= i < |n[1..]| ==> n[1..][i] == n[i + 1];
  }

  lemma {:induction false} QuotedName(name: string, tail: string, ents: string -> int)
    requires StandardEntities(ents) && Good(name) && name != [] && IsQuote(name[0])
    requires tail != [] && GoodChar(tail[0]) && EndsName(tail[0])
    requires var r := ReadTagName(WriteName(name) + tail, [], ents); r.Scanned? && r.text == name
    ensures NoSpace(name) && '/' !in name && PlainOrQuoted(name)
  {
    hide ReadTagName, Escape, StandardEntities, Good, NoSpace, UpTo;
    var q := name[0];
    var inner := UpTo(name[1..], q);
    UpToFacts(name[1..], q);
    GoodInner(name, |inner|);
    assert inner == name[1..][..|inner|];
    assert WriteName(name) + tail == [q] + (Escape(inner) + ([q] + tail));
    ReadQuote(q, [], Escape(inner) + ([q] + tail), ents);
    assert [] + [q] == [q];
    if NoSpace(inner) && '/' !in inner {
      ReadEscaped([q], inner, [q] + tail, ents);
      ReadQuote(q, [q] + inner, tail, ents);
      assert tail == [tail[0]] + tail[1..];
      ReadStop([q] + inner + [q], tail[0], tail[1..], ents);
      assert name == [q] + inner + [q];
      QuotedFits(q, inner, name);
    } else {
      QuotedPart([q], inner, [q] + tail, ents);
    }
  }

  lemma {:induction false} GoodInner(name: string, n: nat)
    requires Good(name) && name != [] && n < |name|
    ensures Good(name[1..][..n])
  {
  }

  lemma {:induction false} QuotedFits(q: char, inner: string, name: string)
    requires name == [q] + inner + [q] && IsQuote(q) && NoSpace(inner) && '/' !in inner && q !in inner
    ensures NoSpace(name) && '/' !in name && PlainOrQuoted(name)
  {
    assert name[1..|name| - 1] == inner;
  }

  /** The name of an open tag that is read back whole */
  lemma {:induction false} NameExact(name: string, tail: string, ents: string -> int)
    requires StandardEntities(ents) && Good(name) && !IsMarkup(name) && (name == [] || name[0] != '/')
    requires tail != [] && GoodChar(tail[0]) && EndsName(tail[0])
    requires var r := ReadTagName(WriteName(name) + tail, [], ents); r.Scanned? && r.text == name
    ensures ElementNameOk(name)
  {
    hide ReadTagName, StandardEntities, NoSpace, Good;
    if name != [] && IsQuote(name[0]) {
      QuotedName(name, tail, ents);
    } else {
      assert [] + name == name;
      RawName([], name, name, tail, ents);
    }
  }

  // ----- the attributes -----

  /** The characters that end the name of an attribute */
  predicate EndsAttrName(c: char) {
    IsSpace(c) || c in "=/>?"
  }

  lemma {:induction false} AttrNameStep(c: char, more: string, buf: string, ents: string -> int)
    requires GoodChar(c)
    ensures ReadAttrName([c] + more, buf, ents) ==
              if EndsAttrName(c) then Scanned(buf, Some(c), more)
              else if c != '&' then ReadAttrName(more, buf + [c], ents)
              else match GetEntity(more, ents)
                   case NoEntity => ScanError
                   case Entity(code, rest) => ReadAttrName(rest, buf + AddChar(code), ents)
  {
    hide GetEntity, AddChar;
    GetCOf(c, more);
  }

  lemma {:induction false} CountAttrName(z: string, tail: string, buf: string, ents: string -> int)
    requires Good(z) && tail != [] && tail[0] == '='
    requires ReadAttrName(z + tail, buf, ents).Scanned?
    ensures Smaller(ReadAttrName(z + tail, buf, ents).text, buf + z)
    decreases |z|
  {
    hide *;
    var c := (z + tail)[0];
    var more := (z + tail)[1..];
    assert z + tail == [c] + more;
    EqualsSign();
    if z == [] {
      AttrNameStep(c, more, buf, ents);
      PrefixSmaller(buf, z);
    } else {
      GoodParts(z);
      AttrNameStep(c, more, buf, ents);
      assert more == z[1..] + tail;
      if EndsAttrName(c) {
        PrefixSmaller(buf, z);
      } else if c == '&' {
        var j := EntityInside(buf, z[1..], tail, ents);
        var buf' := buf + AddChar(GetEntity(more, ents).code);
        assert z[1..][j..] == z[1 + j..] && buf + ['&'] + z[1..] == buf + z;
        GoodRest(z, 1 + j);
        CountAttrName(z[1 + j..], tail, buf', ents);
        SmallerThan(ReadAttrName(z + tail, buf, ents).text, buf' + z[1 + j..], buf + z);
      } else {
        CountAttrName(z[1..], tail, buf + [c], ents);
        assert buf + [c] + z[1..] == buf + z;
      }
    }
  }

  lemma {:induction false} EqualsSign()
    ensures GoodChar('=') && EndsAttrName('=') && Delimits('=')
  {
  }

  /** The name of an attribute that is read back whole, after its first character */
  lemma {:induction false} AttrNameExact(n1: string, n2: string, name: string, tail: string, ents: string -> int)
    requires name == n1 + n2 && Good(n2) && tail != [] && tail[0] == '='
    requires var r := ReadAttrName(n2 + tail, n1, ents); r.Scanned? && r.text == name
    ensures NoSpace(n2) && Lacks(n2, "=/>?&")
    decreases |n2|
  {
    hide *;
    if n2 == [] {
      NoAttrName();
    } else {
      var c, more := n2[0], n2[1..] + tail;
      GoodParts(n2);
      EqualsSign();
      assert n2 + tail == [c] + more;
      assert n1 + [c] + n2[1..] == name;
      AttrNameStep(c, more, n1, ents);
      assert |name| > |n1|;
      if EndsAttrName(c) {
        assert false;
      } else if c == '&' {
        var j := EntityInside(n1, n2[1..], tail, ents);
        var buf' := n1 + AddChar(GetEntity(more, ents).code);
        assert n2[1..][j..] == n2[1 + j..] && n1 + ['&'] + n2[1..] == name;
        GoodRest(n2, 1 + j);
        CountAttrName(n2[1 + j..], tail, buf', ents);
        SmallerThan(name, buf' + n2[1 + j..], name);
        assert false;
      } else {
        AttrNameExact(n1 + [c], n2[1..], name, tail, ents);
        OneMoreAttr(n2);
      }
    }
  }

  lemma {:induction false} NoAttrName()
    ensures NoSpace([]) && Lacks([], "=/>?&")
  {
  }

  lemma {:induction false} OneMoreAttr(n: string)
    requires n != [] && !EndsAttrName(n[0]) && n[0] != '&' && NoSpace(n[1..]) && Lacks(n[1..], "=/>?&")
    ensures NoSpace(n) && Lacks(n, "=/>?&")
  {
    assert n == [n[0]] + n[1..];
  }

  predicate Valued(attrs: seq<Attr>) {
    forall i :: 0 <= i < |attrs| ==> attrs[i].value.Some?
  }

  /** A new attribute comes behind the others: a name that is there already makes the load fail. */
  lemma {:induction false} SetAppends(attrs: seq<Attr>, name: string, value: string)
    requires Valued(attrs) && GetAttr(attrs, name) == None
    ensures SetAttr(attrs, name, Some(value)) == attrs + [Attr(name, Some(value))]
    ensures Valued(attrs + [Attr(name, Some(value))])
  {
  }

  lemma {:induction false} ReadAttrNew(c: char, s: string, attrs: seq<Attr>, ents: string -> int)
    ensures var r := ReadAttr(c, s, attrs, ents);
            r.AttrDone? ==> GetAttr(attrs, r.name) == None && !IsQuote(c) && r.name == ReadAttrName(s, [c], ents).text &&
                            ReadAttrName(s, [c], ents).Scanned?
  {
    hide ReadAttrName, ReadQuotedName, AfterName, GetAttr, NextNonSpace, ReadQuoted, ReadUnquoted;
    if IsQuote(c) {
      QuotedNameFails(c, s, attrs, ents);
    }
  }

  /** The attributes that an element has are the first of those that it gets. */
  lemma {:induction false} ParseExtends(s: string, attrs: seq<Attr>, ents: string -> int)
    requires Valued(attrs)
    ensures var r := ParseElement(s, attrs, ents); r.Parsed? ==> attrs <= r.attrs
    decreases |s|
  {
    hide GetC, ReadAttr, SetAttr, Valued, GetAttr;
    var g := GetC(s);
    if g.Got? {
      ParseExtends(g.rest, attrs, ents);
      var a := ReadAttr(g.c, g.rest, attrs, ents);
      if a.AttrDone? {
        ReadAttrNew(g.c, g.rest, attrs, ents);
        SetAppends(attrs, a.name, a.value);
        ParseExtends(a.rest, attrs + [Attr(a.name, Some(a.value))], ents);
      }
    }
  }

  /** After an attribute the parser goes on with one more. */
  lemma {:induction false} ParseAfter(c: char, s: string, attrs: seq<Attr>, ents: string -> int)
    requires GoodChar(c) && StartsName(c) && Valued(attrs) && ParseElement([c] + s, attrs, ents).Parsed?
    ensures var a := ReadAttr(c, s, attrs, ents);
            a.AttrDone? && attrs + [Attr(a.name, Some(a.value))] <= ParseElement([c] + s, attrs, ents).attrs
  {
    hide ReadAttr, SetAttr, Valued, GetAttr, ExpectGreater;
    GetCOf(c, s);
    var a := ReadAttr(c, s, attrs, ents);
    assert a.AttrDone?;
    ReadAttrNew(c, s, attrs, ents);
    SetAppends(attrs, a.name, a.value);
    ParseExtends(a.rest, attrs + [Attr(a.name, Some(a.value))], ents);
    if a.ch.Some? {
      GreaterAttrs(a.ch.value, a.rest, attrs + [Attr(a.name, Some(a.value))]);
    }
  }

  lemma {:induction false} GreaterAttrs(ch: char, s: string, attrs: seq<Attr>)
    ensures var r := ExpectGreater(ch, s, attrs); r.Parsed? ==> r.attrs == attrs
  {
  }

  /** What follows the name of an attribute with a value */
  function ValueText(a: Attr): string
    requires a.value.Some?
  {
    "=\"" + Escape(a.value.value) + "\""
  }

  lemma {:induction false} AttrTextOf(a: Attr, more: string)
    requires GoodAttr(a)
    ensures WriteName(a.name) == a.name && AttrText(a) + more == [a.name[0]] + (a.name[1..] + (ValueText(a) + more))
    ensures ValueText(a) + more != [] && (ValueText(a) + more)[0] == '=' && Good(a.name[1..])
  {
    hide Escape;
    assert a.name == [a.name[0]] + a.name[1..];
    GoodParts(a.name);
    RegroupAttr(a.name, ValueText(a), more);
  }

  lemma {:induction false} RegroupAttr(n: string, v: string, more: string)
    requires n != []
    ensures n + v + more == [n[0]] + (n[1..] + (v + more))
  {
  }

  /** One attribute that is read back as itself */
  lemma {:induction false} AttrExact(a: Attr, more: string, attrs: seq<Attr>, all: seq<Attr>, ents: string -> int)
    requires GoodAttr(a) && Valued(attrs) && attrs + [a] <= all
    requires var r := ParseElement(AttrText(a) + more, attrs, ents); r.Parsed? && r.attrs == all
    ensures AttrOk(a)
  {
    hide ParseElement, ReadAttr, ReadAttrName, AttrText, ValueText, Good, GoodChar, NoSpace, Lacks, Valued;
    var c, s := a.name[0], a.name[1..] + (ValueText(a) + more);
    AttrTextOf(a, more);
    GoodFirst(a.name);
    ParseAfter(c, s, attrs, ents);
    ReadAttrNew(c, s, attrs, ents);
    var b := ReadAttr(c, s, attrs, ents);
    assert (attrs + [Attr(b.name, Some(b.value))])[|attrs|] == all[|attrs|] == (attrs + [a])[|attrs|];
    assert a.name == [c] + a.name[1..];
    AttrNameExact([c], a.name[1..], a.name, ValueText(a) + more, ents);
  }

  lemma {:induction false} GoodFirst(name: string)
    requires Good(name) && name != []
    ensures GoodChar(name[0])
  {
  }

  lemma {:induction false} AttrsExact(attrs: seq<Attr>, attrs0: seq<Attr>, all: seq<Attr>, wrap: int, col: int,
                                      end: string, rest: string, s: string, ents: string -> int)
    requires StandardEntities(ents) && IsEnd(end) && all == attrs0 + attrs && RegularAttrs(all)
    requires s == WriteAttrs(attrs, wrap, col).text + (end + rest)
    requires var r := ParseElement(s, attrs0, ents); r.Parsed? && r.attrs == all
    ensures forall i :: 0 <= i < |attrs| ==> AttrOk(attrs[i])
    decreases |attrs|
  {
    hide *;
    if attrs != [] {
      var a := attrs[0];
      assert attrs0 + [a] <= all;
      var sep, col' := WriteAttrsCons(attrs, wrap, col, end + rest);
      var more := WriteAttrs(attrs[1..], wrap, col').text + (end + rest);
      ParseSkipsSpace(sep, AttrText(a) + more, attrs0, ents);
      FirstNew(attrs0, a, all);
      AttrExact(a, more, attrs0, all, ents);
      ParseOneAttr(a, more, attrs0, ents);
      assert attrs0 + [a] + attrs[1..] == all;
      AttrsExact(attrs[1..], attrs0 + [a], all, wrap, col', end, rest, more, ents);
      assert forall i :: 1 <= i < |attrs| ==> attrs[i] == attrs[1..][i - 1];
    }
  }

  lemma {:induction false} FirstNew(attrs0: seq<Attr>, a: Attr, all: seq<Attr>)
    requires RegularAttrs(all) && attrs0 + [a] <= all
    ensures GoodAttr(a) && Valued(attrs0) && forall i :: 0 <= i < |attrs0| ==> attrs0[i].name != a.name
  {
    assert all[|attrs0|] == (attrs0 + [a])[|attrs0|];
    forall i | 0 <= i < |attrs0|
      ensures attrs0[i].value.Some? && attrs0[i].name != a.name
    {
      assert attrs0[i] == (attrs0 + [a])[i] == all[i];
      assert GoodAttr(all[i]);
    }
  }

  // ----- whole tags -----

  lemma {:induction false} MarkupExtends(s: string, buf: string, kind: MarkupKind)
    ensures var r := ReadMarkup(s, buf, kind); r.Scanned? ==> buf <= r.text
    decreases |s|
  {
    hide GetC, AddChar, EndsMarkup;
    var g := GetC(s);
    if g.Got? {
      MarkupExtends(g.rest, buf + AddChar(g.c as int), kind);
    }
  }

  lemma {:induction false} DeclarationExtends(ch: Option<char>, s: string, buf: string, ents: string -> int)
    ensures var r := ReadDeclaration(ch, s, buf, ents); r.Scanned? ==> buf <= r.text
    decreases |s|
  {
    hide GetC, AddChar, GetEntity;
    if ch != Some('>') {
      var e := if ch == Some('&') then GetEntity(s, ents) else Entity(if ch.Some? then ch.value as int else -1, s);
      if e.Entity? {
        var g := GetC(e.rest);
        if g.Got? {
          DeclarationExtends(Some(g.c), g.rest, buf + AddChar(e.code), ents);
        }
      }
    }
  }

  /** An element without a markup name comes from an ordinary open tag. */
  lemma {:induction false} OrdinaryEffect(s: string, name: string, attrs: seq<Attr>, ents: string -> int)
    requires Effect(s, ents) == Adds(name, attrs) && !IsMarkup(name)
    ensures var r := ReadTagName(s, [], ents);
            r.Scanned? && r.text == name && OpenEffect(name, r.ch, r.rest, ents) == Adds(name, attrs) && (name == [] || name[0] != '/')
  {
    hide ReadTagName, ReadMarkup, ReadDeclaration, OpenEffect;
    var r := ReadTagName(s, [], ents);
    MarkupExtends(r.rest, r.text, Comment);
    MarkupExtends(r.rest, r.text, CData);
    MarkupExtends(r.rest, r.text, Directive);
    DeclarationExtends(r.ch, r.rest, r.text, ents);
    OpenName(r.text, r.ch, r.rest, ents);
  }

  lemma {:induction false} OpenName(name: string, ch: Option<char>, s: string, ents: string -> int)
    ensures var e := OpenEffect(name, ch, s, ents); e.Fails? || (e.Adds? && e.name == name)
  {
  }

  /** An open tag that is read back as itself */
  lemma {:induction false} OpenExact(name: string, attrs: seq<Attr>, wrap: int, col: int, end: string, rest: string, ents: string -> int)
    requires StandardEntities(ents) && Good(name) && !IsMarkup(name) && RegularAttrs(attrs) && IsEnd(end)
    requires Effect(WriteName(name) + OpenTail(name, attrs, wrap, col, end, rest), ents) == Adds(name, attrs)
    ensures ElementNameOk(name) && AttrsOk(attrs)
  {
    hide *;
    var tail := OpenTail(name, attrs, wrap, col, end, rest);
    OpenTailStart(name, attrs, wrap, col, end, rest);
    OrdinaryEffect(WriteName(name) + tail, name, attrs, ents);
    TailEnds(tail[0]);
    NameExact(name, tail, ents);
    ReadOpenName(name, tail, ents);
    if IsSpace(tail[0]) {
      SpaceEffect(name, tail[0], tail[1..], attrs, ents);
      ParseDropsSpace(tail, [], ents);
      OpenTailText(name, attrs, wrap, col, end, rest);
      assert [] + attrs == attrs;
      AttrsExact(attrs, [], attrs, wrap, col + |name| + 1, end, rest, tail, ents);
      AllAttrs(attrs);
    } else {
      NothingOk();
    }
  }

  lemma {:induction false} TailEnds(c: char)
    ensures IsSpace(c) || c == '>' ==> EndsName(c)
  {
  }

  lemma {:induction false} OpenTailText(name: string, attrs: seq<Attr>, wrap: int, col: int, end: string, rest: string)
    ensures OpenTail(name, attrs, wrap, col, end, rest) == WriteAttrs(attrs, wrap, col + |name| + 1).text + (end + rest)
  {
  }

  lemma {:induction false} SpaceEffect(name: string, c: char, s: string, attrs: seq<Attr>, ents: string -> int)
    requires IsSpace(c) && OpenEffect(name, Some(c), s, ents) == Adds(name, attrs)
    ensures var r := ParseElement(s, [], ents); r.Parsed? && r.attrs == attrs
  {
  }

  lemma {:induction false} AllAttrs(attrs: seq<Attr>)
    requires RegularAttrs(attrs) && forall i :: 0 <= i < |attrs| ==> AttrOk(attrs[i])
    ensures AttrsOk(attrs)
  {
    hide GoodAttr, AttrOk;
  }

  lemma {:induction false} NothingOk()
    ensures AttrsOk([])
  {
  }

  // ----- markup -----

  lemma {:induction false} MarkupStep(c: char, more: string, buf: string, kind: MarkupKind)
    requires GoodChar(c)
    ensures ReadMarkup([c] + more, buf, kind) ==
              if c == '>' && EndsMarkup(kind, buf) then Scanned(buf, Some(c), more) else ReadMarkup(more, buf + [c], kind)
  {
    hide EndsMarkup;
    GetCOf(c, more);
  }

  /** No end of this markup in `name` from place `i` on, but one behind it */
  predicate EndsThere(kind: MarkupKind, name: string, i: nat) {
    && EndsMarkup(kind, name)
    && forall j :: i <= j < |name| && name[j] == '>' ==> !EndsMarkup(kind, name[..j])
  }

  lemma {:induction false} EndsEarlier(kind: MarkupKind, name: string, i: nat)
    requires i < |name| && EndsThere(kind, name, i + 1) && !(name[i] == '>' && EndsMarkup(kind, name[..i]))
    ensures EndsThere(kind, name, i)
  {
    hide EndsMarkup;
  }

  lemma {:induction false} EndsAtEnd(kind: MarkupKind, name: string)
    requires EndsMarkup(kind, name)
    ensures EndsThere(kind, name, |name|)
  {
    hide EndsMarkup;
  }

  /** Text that is collected verbatim and read back whole */
  lemma {:induction false} VerbatimExact(n1: string, n2: string, name: string, kind: MarkupKind, rest: string)
    requires name == n1 + n2 && Good(n2)
    requires var r := ReadMarkup(n2 + ">" + rest, n1, kind); r.Scanned? && r.text == name
    ensures EndsThere(kind, name, |n1|)
    decreases |n2|
  {
    hide *;
    if n2 == [] {
      assert n2 + ">" + rest == ['>'] + rest;
      GreaterThanSign();
      MarkupStep('>', rest, n1, kind);
      MarkupExtends(rest, n1 + ['>'], kind);
      assert n1 == name && |name + ['>']| > |name|;
      if EndsMarkup(kind, name) {
        EndsAtEnd(kind, name);
      }
    } else {
      var c, more := n2[0], n2[1..] + ">" + rest;
      assert n2 + ">" + rest == [c] + more;
      GoodParts(n2);
      MarkupStep(c, more, n1, kind);
      assert n1 + [c] + n2[1..] == name && name[|n1|] == c && name[..|n1|] == n1 && |n1| < |name|;
      VerbatimExact(n1 + [c], n2[1..], name, kind, rest);
      EndsEarlier(kind, name, |n1|);
    }
  }

  lemma {:induction false} PrefixEffect(kind: MarkupKind, name: string, rest: string, ents: string -> int)
    requires Prefix(kind) <= name
    ensures Effect(name + ">" + rest, ents) == MarkupEffect(ReadMarkup(name[|Prefix(kind)|..] + ">" + rest, Prefix(kind), kind))
  {
    hide ReadTagName, ReadMarkup, ReadDeclaration, MarkupEffect;
    var p := Prefix(kind);
    var tail := name[|p|..] + ">" + rest;
    assert name == p + name[|p|..];
    assert name + ">" + rest == p + tail;
    ReadPrefix(kind, tail, ents);
    assert kind == CData ==> p[1] == '[';
  }

  lemma {:induction false} PrefixExact(kind: MarkupKind, name: string, rest: string, ents: string -> int)
    requires Good(name) && Prefix(kind) <= name && Effect(name + ">" + rest, ents) == Adds(name, [])
    ensures VerbatimOk(kind, name)
  {
    hide ReadMarkup, EndsMarkup, Effect, Good;
    var p := Prefix(kind);
    PrefixEffect(kind, name, rest, ents);
    assert name == p + name[|p|..];
    GoodRest(name, |p|);
    VerbatimExact(p, name[|p|..], name, kind, rest);
  }

  lemma {:induction false} CountDeclaration(c: char, z: string, rest: string, buf: string, ents: string -> int)
    requires GoodChar(c) && Good(z) && ReadDeclaration(Some(c), z + ">" + rest, buf, ents).Scanned?
    ensures Smaller(ReadDeclaration(Some(c), z + ">" + rest, buf, ents).text, buf + [c] + z)
    decreases |z|
  {
    hide *;
    DeclarationStep(c, z + ">" + rest, buf, ents);
    assert buf + [c] + z == buf + ([c] + z);
    if c == '>' {
      PrefixSmaller(buf, [c] + z);
    } else {
      var buf', z' := buf + [c], z;
      if c == '&' {
        buf', z' := DeclarationEntity(z, rest, buf, ents);
      } else {
        CharItself(c);
        SmallerSelf(buf' + z', buf + [c] + z);
      }
      NextOf(z', rest);
      if z' == [] {
        DeclarationStep('>', rest, buf', ents);
        assert buf' + z' == buf';
      } else {
        GoodParts(z');
        CountDeclaration(z'[0], z'[1..], rest, buf', ents);
        assert buf' + [z'[0]] + z'[1..] == buf' + z';
        SmallerThan(ReadDeclaration(Some(c), z + ">" + rest, buf, ents).text, buf' + z', buf + [c] + z);
      }
    }
  }

  lemma {:induction false} GreaterThanSign()
    ensures GoodChar('>') && EndsName('>') && Delimits('>')
  {
  }

  /** What an entity in a declaration is decoded to, and what is left of `z` behind it */
  lemma {:induction false} DeclarationEntity(z: string, rest: string, buf: string, ents: string -> int) returns (buf': string, z': string)
    requires Good(z) && GetEntity(z + ">" + rest, ents).Entity?
    ensures var e := GetEntity(z + ">" + rest, ents);
            buf' == buf + AddChar(e.code) && e.rest == z' + ">" + rest && Good(z') && |z'| < |z| &&
            StrictlySmaller(buf' + z', buf + ['&'] + z) && Smaller(buf' + z', buf + ['&'] + z)
  {
    hide *;
    var tail := ">" + rest;
    GreaterThanSign();
    assert z + ">" + rest == z + tail;
    var j := EntityInside(buf, z, tail, ents);
    buf', z' := buf + AddChar(GetEntity(z + tail, ents).code), z[j..];
    assert z' + ">" + rest == z' + tail;
    GoodRest(z, j);
    StrictIsSmaller(buf' + z', buf + ['&'] + z);
  }

  /** The part of a declaration behind its head that is read back whole */
  lemma {:induction false} DeclarationExact(c: char, n1: string, n2: string, name: string, rest: string, ents: string -> int)
    requires name == n1 + [c] + n2 && GoodChar(c) && Good(n2)
    requires var r := ReadDeclaration(Some(c), n2 + ">" + rest, n1, ents); r.Scanned? && r.text == name
    ensures Lacks([c] + n2, ">&")
    decreases |n2|
  {
    hide *;
    DeclarationStep(c, n2 + ">" + rest, n1, ents);
    assert |name| > |n1|;
    if c == '>' {
      assert false;
    } else if c == '&' {
      var buf', z' := DeclarationEntity(n2, rest, n1, ents);
      NextOf(z', rest);
      if z' == [] {
        DeclarationStep('>', rest, buf', ents);
        assert buf' + z' == buf';
      } else {
        GoodParts(z');
        CountDeclaration(z'[0], z'[1..], rest, buf', ents);
        assert buf' + [z'[0]] + z'[1..] == buf' + z';
      }
      SmallerSelf(buf' + z', buf' + z');
      SmallerThan(name, buf' + z', name);
      assert false;
    } else {
      CharItself(c);
      NextOf(n2, rest);
      if n2 == [] {
        LacksOne(c, n2);
      } else {
        GoodParts(n2);
        assert n1 + [c] + [n2[0]] + n2[1..] == name && [n2[0]] + n2[1..] == n2;
        DeclarationExact(n2[0], n1 + [c], n2[1..], name, rest, ents);
        LacksOne(c, n2);
      }
    }
  }

  lemma {:induction false} LacksOne(c: char, n: string)
    requires c !in ">&" && (n == [] || Lacks(n, ">&"))
    ensures Lacks([c] + n, ">&")
  {
  }

  /** The declaration that is made of a tag name */
  function DeclarationOf(r: Scanned, ents: string -> int): Scanned {
    if r.Scanned? then ReadDeclaration(r.ch, r.rest, r.text, ents) else ScanError
  }

  lemma {:induction false} CountHead(z: string, rest: string, buf: string, ents: string -> int)
    requires Good(z)
    requires var r := ReadTagName(z + ">" + rest, buf, ents); r.Scanned? && !StopsTagName(r.text) && DeclarationOf(r, ents).Scanned?
    ensures Smaller(DeclarationOf(ReadTagName(z + ">" + rest, buf, ents), ents).text, buf + z)
  {
    hide *;
    GreaterThanSign();
    var tail := ">" + rest;
    assert z + ">" + rest == z + tail;
    var r := ReadTagName(z + tail, buf, ents);
    var k := CountTagName(z, tail, buf, ents);
    CountedParts(r, k, z, tail, buf);
    DeclarationIs(r, ents);
    assert tail[1..] == rest;
    if k == |z| {
      DeclarationStep('>', rest, r.text, ents);
      assert r.text + z[k..] == r.text;
    } else {
      GoodRest(z, k);
      GoodParts(z[k..]);
      assert z[k..][1..] == z[k + 1..] && z[k + 1..] + tail == z[k + 1..] + ">" + rest;
      CountDeclaration(z[k], z[k + 1..], rest, r.text, ents);
      assert r.text + [z[k]] + z[k + 1..] == r.text + z[k..];
      SmallerThan(DeclarationOf(r, ents).text, r.text + z[k..], buf + z);
    }
  }

  lemma {:induction false} CountedParts(r: Scanned, k: nat, z: string, tail: string, buf: string)
    requires r.Scanned? && tail != [] && tail[0] == '>' && Counted(r, k, z, tail, buf) && !StopsTagName(r.text)
    ensures k <= |z| && Smaller(r.text + z[k..], buf + z)
    ensures if k == |z| then r.ch == Some('>') && r.rest == tail[1..] else r.ch == Some(z[k]) && r.rest == z[k + 1..] + tail
  {
    hide Smaller, StopsTagName;
  }

  lemma {:induction false} DeclarationIs(r: Scanned, ents: string -> int)
    ensures r.Scanned? ==> DeclarationOf(r, ents) == ReadDeclaration(r.ch, r.rest, r.text, ents)
  {
    hide ReadDeclaration;
  }

  /** A declaration that is read back whole */
  lemma {:induction false} HeadExact(n1: string, n2: string, name: string, rest: string, ents: string -> int)
    requires name == n1 + n2 && Good(n2)
    requires var r := ReadTagName(n2 + ">" + rest, n1, ents);
             r.Scanned? && !StopsTagName(r.text) && DeclarationOf(r, ents).Scanned? && DeclarationOf(r, ents).text == name
    ensures Lacks(n2, ">&") && (n1 != [] || (n2 != [] && n2[0] == '!') ==> '<' !in Head(n2))
    decreases |n2|
  {
    hide *;
    var tail := ">" + rest;
    assert n2 + ">" + rest == n2 + tail;
    var r := ReadTagName(n2 + tail, n1, ents);
    DeclarationIs(r, ents);
    if n2 == [] {
      NoHead();
    } else {
      var c, more := n2[0], n2[1..] + tail;
      assert n2 + tail == [c] + more && more == n2[1..] + ">" + rest;
      GoodParts(n2);
      assert n1 + [c] + n2[1..] == name && |name| > |n1| && [c] + n2[1..] == n2;
      if EndsName(c) || (c == '/' && n1 != []) {
        StopText(n2, tail, n1, ents);
        DeclarationExact(c, n1, n2[1..], name, rest, ents);
        HeadStops(n2);
      } else if c == '&' {
        TagNameEntity(more, n1, ents);
        var buf', z' := DeclarationEntity(n2[1..], rest, n1, ents);
        CountHead(z', rest, buf', ents);
        assert n1 + ['&'] + n2[1..] == name;
        SmallerThan(name, buf' + z', name);
        assert false;
      } else {
        TagNameStep(c, more, n1, ents);
        HeadExact(n1 + [c], n2[1..], name, rest, ents);
        HeadGoes(n2);
      }
    }
  }

  lemma {:induction false} NoHead()
    ensures Lacks([], ">&") && Head([]) == []
  {
  }

  lemma {:induction false} HeadStops(n: string)
    requires n != [] && (EndsName(n[0]) || n[0] == '/') && Lacks(n, ">&")
    ensures '<' !in Head(n)
  {
    assert n[0] !in ">&";
  }

  lemma {:induction false} HeadGoes(n: string)
    requires n != [] && !EndsName(n[0]) && n[0] !in "&<" && Lacks(n[1..], ">&") && '<' !in Head(n[1..])
    ensures Lacks(n, ">&") && '<' !in Head(n)
  {
    assert n == [n[0]] + n[1..];
  }

  /** Declarations that are neither comments nor CDATA sections */
  lemma {:induction false} DeclarationEffect(s: string, name: string, ents: string -> int)
    requires Effect(s, ents) == Adds(name, []) && name != [] && name[0] == '!' && !("!--" <= name) && !("![CDATA[" <= name)
    ensures var r := ReadTagName(s, [], ents);
            r.Scanned? && !StopsTagName(r.text) && DeclarationOf(r, ents).Scanned? && DeclarationOf(r, ents).text == name
  {
    hide ReadTagName, ReadMarkup, ReadDeclaration, OpenEffect;
    var r := ReadTagName(s, [], ents);
    MarkupExtends(r.rest, r.text, Comment);
    MarkupExtends(r.rest, r.text, CData);
    MarkupExtends(r.rest, r.text, Directive);
    DeclarationExtends(r.ch, r.rest, r.text, ents);
    OpenName(r.text, r.ch, r.rest, ents);
  }

  /** Markup that is read back as itself */
  lemma {:induction false} MarkupExact(name: string, rest: string, ents: string -> int)
    requires Good(name) && IsMarkup(name) && Effect(name + ">" + rest, ents) == Adds(name, [])
    ensures MarkupOk(name)
  {
    hide ReadTagName, ReadDeclaration, Effect, Good, VerbatimOk, StopsTagName, DeclarationOf;
    if name[0] == '?' {
      assert Prefix(Directive) <= name;
      PrefixExact(Directive, name, rest, ents);
    } else if "!--" <= name {
      PrefixExact(Comment, name, rest, ents);
    } else if "![CDATA[" <= name {
      PrefixExact(CData, name, rest, ents);
    } else {
      DeclarationEffect(name + ">" + rest, name, ents);
      assert [] + name == name;
      HeadExact([], name, name, rest, ents);
    }
  }
}
