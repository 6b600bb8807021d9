/** The standard entities of the upper half of ISO 8859-1 in the order of their codes, which is
    independent of the order of the table. */
module EntityCodes {
  import opened Chars
  import opened EntityTable
  import opened Entities

  /** Names of characters whose codes follow one another */
  datatype Row = Row(code: int, names: seq<string>)

  function Rows(): seq<Row> {
    [
      Row0(), Row1(), Row2(), Row3(), Row4(), Row5(),
      Row6(), Row7(), Row8(), Row9(), Row10(), Row11()
    ]
  }

  function Row0(): Row {
    Row(160, ["nbsp", "iexcl", "cent", "pound", "curren", "yen", "brvbar", "sect"])
  }

  function Row1(): Row {
    Row(168, ["uml", "copy", "ordf", "laquo", "not", "shy", "reg", "macr"])
  }

  function Row2(): Row {
    Row(176, ["deg", "plusmn", "sup2", "sup3", "acute", "micro", "para", "middot"])
  }

  function Row3(): Row {
    Row(184, ["cedil", "sup1", "ordm", "raquo", "frac14", "frac12", "frac34", "iquest"])
  }

  function Row4(): Row {
    Row(192, ["Agrave", "Aacute", "Acirc", "Atilde", "Auml", "Aring", "AElig", "Ccedil"])
  }

  function Row5(): Row {
    Row(200, ["Egrave", "Eacute", "Ecirc", "Euml", "Igrave", "Iacute", "Icirc", "Iuml"])
  }

  function Row6(): Row {
    Row(208, ["ETH", "Ntilde", "Ograve", "Oacute", "Ocirc", "Otilde", "Ouml", "times"])
  }

  function Row7(): Row {
    Row(216, ["Oslash", "Ugrave", "Uacute", "Ucirc", "Uuml", "Yacute", "THORN", "szlig"])
  }

  function Row8(): Row {
    Row(224, ["agrave", "aacute", "acirc", "atilde", "auml", "aring", "aelig", "ccedil"])
  }

  function Row9(): Row {
    Row(232, ["egrave", "eacute", "ecirc", "euml", "igrave", "iacute", "icirc", "iuml"])
  }

  function Row10(): Row {
    Row(240, ["eth", "ntilde", "ograve", "oacute", "ocirc", "otilde", "ouml", "divide"])
  }

  function Row11(): Row {
    Row(248, ["oslash", "ugrave", "uacute", "ucirc", "uuml", "yacute", "thorn", "yuml"])
  }

  ghost predicate InTable(r: Row) {
    forall i :: 0 <= i < |r.names| ==> Entry(r.names[i], r.code + i) in Table()
  }

  // ----- every part is in the table -----

  lemma {:induction false} PartsInTable(e: Entry)
    requires
      e in Part0() || e in Part1() || e in Part2() || e in Part3() || e in Part4() || e in Part5() ||
      e in Part6() || e in Part7() || e in Part8() || e in Part9() || e in Part10() || e in Part11() ||
      e in Part12() || e in Part13() || e in Part14() || e in Part15() || e in Part16() || e in Part17() ||
      e in Part18() || e in Part19() || e in Part20() || e in Part21() || e in Part22() || e in Part23() ||
      e in Part24() || e in Part25() || e in Part26() || e in Part27() || e in Part28() || e in Part29() ||
      e in Part30() || e in Part31()
    ensures e in Table()
  {
    hide
      Part0, Part1, Part2, Part3, Part4, Part5, Part6, Part7, Part8, Part9, Part10, Part11, Part12, Part13,
      Part14, Part15, Part16, Part17, Part18, Part19, Part20, Part21, Part22, Part23, Part24, Part25, Part26,
      Part27, Part28, Part29, Part30, Part31;
  }

  // ----- the rows -----

  lemma {:induction false} RowIn0()
    ensures InTable(Row0())
  {
    hide *;
    Members0();
    PartsInTable(Entry("nbsp", 160)); PartsInTable(Entry("iexcl", 161)); PartsInTable(Entry("cent", 162));
    PartsInTable(Entry("pound", 163)); PartsInTable(Entry("curren", 164)); PartsInTable(Entry("yen", 165));
    PartsInTable(Entry("brvbar", 166)); PartsInTable(Entry("sect", 167));
    EightIn(Row0());
  }

  lemma {:induction false} Members0()
    ensures Row0() == Row(160, ["nbsp", "iexcl", "cent", "pound", "curren", "yen", "brvbar", "sect"])
    ensures Entry("nbsp", 160) in Part20()
    ensures Entry("iexcl", 161) in Part16()
    ensures Entry("cent", 162) in Part10()
    ensures Entry("pound", 163) in Part24()
    ensures Entry("curren", 164) in Part11()
    ensures Entry("yen", 165) in Part31()
    ensures Entry("brvbar", 166) in Part9()
    ensures Entry("sect", 167) in Part27()
  {
  }

  lemma {:induction false} RowIn1()
    ensures InTable(Row1())
  {
    hide *;
    Members1();
    PartsInTable(Entry("uml", 168)); PartsInTable(Entry("copy", 169)); PartsInTable(Entry("ordf", 170));
    PartsInTable(Entry("laquo", 171)); PartsInTable(Entry("not", 172)); PartsInTable(Entry("shy", 173));
    PartsInTable(Entry("reg", 174)); PartsInTable(Entry("macr", 175));
    EightIn(Row1());
  }

  lemma {:induction false} Members1()
    ensures Row1() == Row(168, ["uml", "copy", "ordf", "laquo", "not", "shy", "reg", "macr"])
    ensures Entry("uml", 168) in Part30()
    ensures Entry("copy", 169) in Part11()
    ensures Entry("ordf", 170) in Part22()
    ensures Entry("laquo", 171) in Part17()
    ensures Entry("not", 172) in Part20()
    ensures Entry("shy", 173) in Part27()
    ensures Entry("reg", 174) in Part25()
    ensures Entry("macr", 175) in Part19()
  {
  }

  lemma {:induction false} RowIn2()
    ensures InTable(Row2())
  {
    hide *;
    Members2();
    PartsInTable(Entry("deg", 176)); PartsInTable(Entry("plusmn", 177)); PartsInTable(Entry("sup2", 178));
    PartsInTable(Entry("sup3", 179)); PartsInTable(Entry("acute", 180)); PartsInTable(Entry("micro", 181));
    PartsInTable(Entry("para", 182)); PartsInTable(Entry("middot", 183));
    EightIn(Row2());
  }

  lemma {:induction false} Members2()
    ensures Row2() == Row(176, ["deg", "plusmn", "sup2", "sup3", "acute", "micro", "para", "middot"])
    ensures Entry("deg", 176) in Part11()
    ensures Entry("plusmn", 177) in Part24()
    ensures Entry("sup2", 178) in Part28()
    ensures Entry("sup3", 179) in Part28()
    ensures Entry("acute", 180) in Part7()
    ensures Entry("micro", 181) in Part19()
    ensures Entry("para", 182) in Part23()
    ensures Entry("middot", 183) in Part19()
  {
  }

  lemma {:induction false} RowIn3()
    ensures InTable(Row3())
  {
    hide *;
    Members3();
    PartsInTable(Entry("cedil", 184)); PartsInTable(Entry("sup1", 185)); PartsInTable(Entry("ordm", 186));
    PartsInTable(Entry("raquo", 187)); PartsInTable(Entry("frac14", 188)); PartsInTable(Entry("frac12", 189));
    PartsInTable(Entry("frac34", 190)); PartsInTable(Entry("iquest", 191));
    EightIn(Row3());
  }

  lemma {:induction false} Members3()
    ensures Row3() == Row(184, ["cedil", "sup1", "ordm", "raquo", "frac14", "frac12", "frac34", "iquest"])
    ensures Entry("cedil", 184) in Part10()
    ensures Entry("sup1", 185) in Part28()
    ensures Entry("ordm", 186) in Part22()
    ensures Entry("raquo", 187) in Part25()
    ensures Entry("frac14", 188) in Part14()
    ensures Entry("frac12", 189) in Part14()
    ensures Entry("frac34", 190) in Part14()
    ensures Entry("iquest", 191) in Part16()
  {
  }

  lemma {:induction false} RowIn4()
    ensures InTable(Row4())
  {
    hide *;
    Members4();
    PartsInTable(Entry("Agrave", 192)); PartsInTable(Entry("Aacute", 193)); PartsInTable(Entry("Acirc", 194));
    PartsInTable(Entry("Atilde", 195)); PartsInTable(Entry("Auml", 196)); PartsInTable(Entry("Aring", 197));
    PartsInTable(Entry("AElig", 198)); PartsInTable(Entry("Ccedil", 199));
    EightIn(Row4());
  }

  lemma {:induction false} Members4()
    ensures Row4() == Row(192, ["Agrave", "Aacute", "Acirc", "Atilde", "Auml", "Aring", "AElig", "Ccedil"])
    ensures Entry("Agrave", 192) in Part0()
    ensures Entry("Aacute", 193) in Part0()
    ensures Entry("Acirc", 194) in Part0()
    ensures Entry("Atilde", 195) in Part0()
    ensures Entry("Auml", 196) in Part0()
    ensures Entry("Aring", 197) in Part0()
    ensures Entry("AElig", 198) in Part0()
    ensures Entry("Ccedil", 199) in Part1()
  {
  }

  lemma {:induction false} RowIn5()
    ensures InTable(Row5())
  {
    hide *;
    Members5();
    PartsInTable(Entry("Egrave", 200)); PartsInTable(Entry("Eacute", 201)); PartsInTable(Entry("Ecirc", 202));
    PartsInTable(Entry("Euml", 203)); PartsInTable(Entry("Igrave", 204)); PartsInTable(Entry("Iacute", 205));
    PartsInTable(Entry("Icirc", 206)); PartsInTable(Entry("Iuml", 207));
    EightIn(Row5());
  }

  lemma {:induction false} Members5()
    ensures Row5() == Row(200, ["Egrave", "Eacute", "Ecirc", "Euml", "Igrave", "Iacute", "Icirc", "Iuml"])
    ensures Entry("Egrave", 200) in Part2()
    ensures Entry("Eacute", 201) in Part1()
    ensures Entry("Ecirc", 202) in Part2()
    ensures Entry("Euml", 203) in Part2()
    ensures Entry("Igrave", 204) in Part3()
    ensures Entry("Iacute", 205) in Part2()
    ensures Entry("Icirc", 206) in Part2()
    ensures Entry("Iuml", 207) in Part3()
  {
  }

  lemma {:induction false} RowIn6()
    ensures InTable(Row6())
  {
    hide *;
    Members6();
    PartsInTable(Entry("ETH", 208)); PartsInTable(Entry("Ntilde", 209)); PartsInTable(Entry("Ograve", 210));
    PartsInTable(Entry("Oacute", 211)); PartsInTable(Entry("Ocirc", 212)); PartsInTable(Entry("Otilde", 213));
    PartsInTable(Entry("Ouml", 214)); PartsInTable(Entry("times", 215));
    EightIn(Row6());
  }

  lemma {:induction false} Members6()
    ensures Row6() == Row(208, ["ETH", "Ntilde", "Ograve", "Oacute", "Ocirc", "Otilde", "Ouml", "times"])
    ensures Entry("ETH", 208) in Part1()
    ensures Entry("Ntilde", 209) in Part3()
    ensures Entry("Ograve", 210) in Part4()
    ensures Entry("Oacute", 211) in Part4()
    ensures Entry("Ocirc", 212) in Part4()
    ensures Entry("Otilde", 213) in Part4()
    ensures Entry("Ouml", 214) in Part5()
    ensures Entry("times", 215) in Part29()
  {
  }

  lemma {:induction false} RowIn7()
    ensures InTable(Row7())
  {
    hide *;
    Members7();
    PartsInTable(Entry("Oslash", 216)); PartsInTable(Entry("Ugrave", 217)); PartsInTable(Entry("Uacute", 218));
    PartsInTable(Entry("Ucirc", 219)); PartsInTable(Entry("Uuml", 220)); PartsInTable(Entry("Yacute", 221));
    PartsInTable(Entry("THORN", 222)); PartsInTable(Entry("szlig", 223));
    EightIn(Row7());
  }

  lemma {:induction false} Members7()
    ensures Row7() == Row(216, ["Oslash", "Ugrave", "Uacute", "Ucirc", "Uuml", "Yacute", "THORN", "szlig"])
    ensures Entry("Oslash", 216) in Part4()
    ensures Entry("Ugrave", 217) in Part6()
    ensures Entry("Uacute", 218) in Part6()
    ensures Entry("Ucirc", 219) in Part6()
    ensures Entry("Uuml", 220) in Part6()
    ensures Entry("Yacute", 221) in Part7()
    ensures Entry("THORN", 222) in Part6()
    ensures Entry("szlig", 223) in Part28()
  {
  }

  lemma {:induction false} RowIn8()
    ensures InTable(Row8())
  {
    hide *;
    Members8();
    PartsInTable(Entry("agrave", 224)); PartsInTable(Entry("aacute", 225)); PartsInTable(Entry("acirc", 226));
    PartsInTable(Entry("atilde", 227)); PartsInTable(Entry("auml", 228)); PartsInTable(Entry("aring", 229));
    PartsInTable(Entry("aelig", 230)); PartsInTable(Entry("ccedil", 231));
    EightIn(Row8());
  }

  lemma {:induction false} Members8()
    ensures Row8() == Row(224, ["agrave", "aacute", "acirc", "atilde", "auml", "aring", "aelig", "ccedil"])
    ensures Entry("agrave", 224) in Part8()
    ensures Entry("aacute", 225) in Part7()
    ensures Entry("acirc", 226) in Part7()
    ensures Entry("atilde", 227) in Part9()
    ensures Entry("auml", 228) in Part9()
    ensures Entry("aring", 229) in Part8()
    ensures Entry("aelig", 230) in Part7()
    ensures Entry("ccedil", 231) in Part10()
  {
  }

  lemma {:induction false} RowIn9()
    ensures InTable(Row9())
  {
    hide *;
    Members9();
    PartsInTable(Entry("egrave", 232)); PartsInTable(Entry("eacute", 233)); PartsInTable(Entry("ecirc", 234));
    PartsInTable(Entry("euml", 235)); PartsInTable(Entry("igrave", 236)); PartsInTable(Entry("iacute", 237));
    PartsInTable(Entry("icirc", 238)); PartsInTable(Entry("iuml", 239));
    EightIn(Row9());
  }

  lemma {:induction false} Members9()
    ensures Row9() == Row(232, ["egrave", "eacute", "ecirc", "euml", "igrave", "iacute", "icirc", "iuml"])
    ensures Entry("egrave", 232) in Part12()
    ensures Entry("eacute", 233) in Part12()
    ensures Entry("ecirc", 234) in Part12()
    ensures Entry("euml", 235) in Part13()
    ensures Entry("igrave", 236) in Part16()
    ensures Entry("iacute", 237) in Part15()
    ensures Entry("icirc", 238) in Part16()
    ensures Entry("iuml", 239) in Part17()
  {
  }

  lemma {:induction false} RowIn10()
    ensures InTable(Row10())
  {
    hide *;
    Members10();
    PartsInTable(Entry("eth", 240)); PartsInTable(Entry("ntilde", 241)); PartsInTable(Entry("ograve", 242));
    PartsInTable(Entry("oacute", 243)); PartsInTable(Entry("ocirc", 244)); PartsInTable(Entry("otilde", 245));
    PartsInTable(Entry("ouml", 246)); PartsInTable(Entry("divide", 247));
    EightIn(Row10());
  }

  lemma {:induction false} Members10()
    ensures Row10() == Row(240, ["eth", "ntilde", "ograve", "oacute", "ocirc", "otilde", "ouml", "divide"])
    ensures Entry("eth", 240) in Part13()
    ensures Entry("ntilde", 241) in Part21()
    ensures Entry("ograve", 242) in Part21()
    ensures Entry("oacute", 243) in Part21()
    ensures Entry("ocirc", 244) in Part21()
    ensures Entry("otilde", 245) in Part22()
    ensures Entry("ouml", 246) in Part23()
    ensures Entry("divide", 247) in Part12()
  {
  }

  lemma {:induction false} RowIn11()
    ensures InTable(Row11())
  {
    hide *;
    Members11();
    PartsInTable(Entry("oslash", 248)); PartsInTable(Entry("ugrave", 249)); PartsInTable(Entry("uacute", 250));
    PartsInTable(Entry("ucirc", 251)); PartsInTable(Entry("uuml", 252)); PartsInTable(Entry("yacute", 253));
    PartsInTable(Entry("thorn", 254)); PartsInTable(Entry("yuml", 255));
    EightIn(Row11());
  }

  lemma {:induction false} Members11()
    ensures Row11() == Row(248, ["oslash", "ugrave", "uacute", "ucirc", "uuml", "yacute", "thorn", "yuml"])
    ensures Entry("oslash", 248) in Part22()
    ensures Entry("ugrave", 249) in Part30()
    ensures Entry("uacute", 250) in Part30()
    ensures Entry("ucirc", 251) in Part30()
    ensures Entry("uuml", 252) in Part31()
    ensures Entry("yacute", 253) in Part31()
    ensures Entry("thorn", 254) in Part29()
    ensures Entry("yuml", 255) in Part31()
  {
  }

  lemma {:induction false} EightIn(r: Row)
    requires |r.names| == 8
    requires Entry(r.names[0], r.code) in Table() && Entry(r.names[1], r.code + 1) in Table()
    requires Entry(r.names[2], r.code + 2) in Table() && Entry(r.names[3], r.code + 3) in Table()
    requires Entry(r.names[4], r.code + 4) in Table() && Entry(r.names[5], r.code + 5) in Table()
    requires Entry(r.names[6], r.code + 6) in Table() && Entry(r.names[7], r.code + 7) in Table()
    ensures InTable(r)
  {
    hide Table;
  }

  lemma {:induction false} KnownEntry(e: Entry)
    requires e in Table()
    ensures Lookup(e.name) == e.val
  {
    hide Table, Ascending, StrCmp;
    TableOrder();
    var k :| 0 <= k < |Table()| && Table()[k] == e;
    FindAt(Table(), k);
  }

  /** Each of these names stands for its character. */
  lemma {:induction false} NamesStandFor(r: nat, i: nat)
    requires r < |Rows()| && i < |Rows()[r].names|
    ensures Lookup(Rows()[r].names[i]) == Rows()[r].code + i
  {
    hide Lookup, Table;
    assert InTable(Rows()[r]) by { RowsIn(r); }
    var row := Rows()[r];
    KnownEntry(Entry(row.names[i], row.code + i));
  }

  lemma {:induction false} RowsIn(r: nat)
    requires r < |Rows()|
    ensures InTable(Rows()[r])
  {
    hide InTable, Row0, Row1, Row2, Row3, Row4, Row5, Row6, Row7, Row8, Row9, Row10, Row11;
    RowIn0(); RowIn1(); RowIn2(); RowIn3(); RowIn4(); RowIn5(); RowIn6(); RowIn7(); RowIn8(); RowIn9();
    RowIn10(); RowIn11();
  }
}
