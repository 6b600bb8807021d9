/** The table of named entities of mxml-entity.c, and the proof that it is in `strcmp` order,
    which the binary search relies on. */
module EntityTable {
  import opened Chars

  datatype Entry = Entry(name: string, val: int)

  /** Neighbouring entries are in `strcmp` order. */
  ghost predicate Ascending(t: seq<Entry>) {
    forall i :: 0 <= i < |t| - 1 ==> StrCmp(t[i].name, t[i + 1].name) < 0
  }

  /** `a` comes before `b`: they agree on `k` characters, and then `a` ends or is smaller. */
  lemma {:induction false} Before(a: string, b: string, k: nat)
    requires k <= |a| && k < |b| && a[..k] == b[..k] && (k == |a| || a[k] < b[k])
    ensures StrCmp(a, b) < 0
  {
    if k > 0 {
      assert a[..k][0] == b[..k][0];
      assert a[1..][..k - 1] == a[..k][1..] && b[1..][..k - 1] == b[..k][1..];
      Before(a[1..], b[1..], k - 1);
    }
  }

  lemma {:induction false} AscendingAppend(a: seq<Entry>, b: seq<Entry>)
    requires Ascending(a) && Ascending(b)
    requires a != [] && b != [] && StrCmp(a[|a| - 1].name, b[0].name) < 0
    ensures Ascending(a + b)
  {
    hide StrCmp;
  }

  // ----- the table, in parts -----

  function Part0(): seq<Entry> {
    [
      Entry("AElig", 198), Entry("Aacute", 193), Entry("Acirc", 194), Entry("Agrave", 192),
      Entry("Alpha", 913), Entry("Aring", 197), Entry("Atilde", 195), Entry("Auml", 196)
    ]
  }

  function Part1(): seq<Entry> {
    [
      Entry("Beta", 914), Entry("Ccedil", 199), Entry("Chi", 935), Entry("Dagger", 8225),
      Entry("Delta", 916), Entry("Dstrok", 208), Entry("ETH", 208), Entry("Eacute", 201)
    ]
  }

  function Part2(): seq<Entry> {
    [
      Entry("Ecirc", 202), Entry("Egrave", 200), Entry("Epsilon", 917), Entry("Eta", 919),
      Entry("Euml", 203), Entry("Gamma", 915), Entry("Iacute", 205), Entry("Icirc", 206)
    ]
  }

  function Part3(): seq<Entry> {
    [
      Entry("Igrave", 204), Entry("Iota", 921), Entry("Iuml", 207), Entry("Kappa", 922),
      Entry("Lambda", 923), Entry("Mu", 924), Entry("Ntilde", 209), Entry("Nu", 925)
    ]
  }

  function Part4(): seq<Entry> {
    [
      Entry("OElig", 338), Entry("Oacute", 211), Entry("Ocirc", 212), Entry("Ograve", 210),
      Entry("Omega", 937), Entry("Omicron", 927), Entry("Oslash", 216), Entry("Otilde", 213)
    ]
  }

  function Part5(): seq<Entry> {
    [
      Entry("Ouml", 214), Entry("Phi", 934), Entry("Pi", 928), Entry("Prime", 8243), Entry("Psi", 936),
      Entry("Rho", 929), Entry("Scaron", 352), Entry("Sigma", 931)
    ]
  }

  function Part6(): seq<Entry> {
    [
      Entry("THORN", 222), Entry("Tau", 932), Entry("Theta", 920), Entry("Uacute", 218), Entry("Ucirc", 219),
      Entry("Ugrave", 217), Entry("Upsilon", 933), Entry("Uuml", 220)
    ]
  }

  function Part7(): seq<Entry> {
    [
      Entry("Xi", 926), Entry("Yacute", 221), Entry("Yuml", 376), Entry("Zeta", 918), Entry("aacute", 225),
      Entry("acirc", 226), Entry("acute", 180), Entry("aelig", 230)
    ]
  }

  function Part8(): seq<Entry> {
    [
      Entry("agrave", 224), Entry("alefsym", 8501), Entry("alpha", 945), Entry("amp", 38),
      Entry("and", 8743), Entry("ang", 8736), Entry("apos", 39), Entry("aring", 229)
    ]
  }

  function Part9(): seq<Entry> {
    [
      Entry("asymp", 8776), Entry("atilde", 227), Entry("auml", 228), Entry("bdquo", 8222),
      Entry("beta", 946), Entry("brkbar", 166), Entry("brvbar", 166), Entry("bull", 8226)
    ]
  }

  function Part10(): seq<Entry> {
    [
      Entry("cap", 8745), Entry("ccedil", 231), Entry("cedil", 184), Entry("cent", 162), Entry("chi", 967),
      Entry("circ", 710), Entry("clubs", 9827), Entry("cong", 8773)
    ]
  }

  function Part11(): seq<Entry> {
    [
      Entry("copy", 169), Entry("crarr", 8629), Entry("cup", 8746), Entry("curren", 164),
      Entry("dArr", 8659), Entry("dagger", 8224), Entry("darr", 8595), Entry("deg", 176)
    ]
  }

  function Part12(): seq<Entry> {
    [
      Entry("delta", 948), Entry("diams", 9830), Entry("die", 168), Entry("divide", 247),
      Entry("eacute", 233), Entry("ecirc", 234), Entry("egrave", 232), Entry("empty", 8709)
    ]
  }

  function Part13(): seq<Entry> {
    [
      Entry("emsp", 8195), Entry("ensp", 8194), Entry("epsilon", 949), Entry("equiv", 8801),
      Entry("eta", 951), Entry("eth", 240), Entry("euml", 235), Entry("euro", 8364)
    ]
  }

  function Part14(): seq<Entry> {
    [
      Entry("exist", 8707), Entry("fnof", 402), Entry("forall", 8704), Entry("frac12", 189),
      Entry("frac14", 188), Entry("frac34", 190), Entry("frasl", 8260), Entry("gamma", 947)
    ]
  }

  function Part15(): seq<Entry> {
    [
      Entry("ge", 8805), Entry("gt", 62), Entry("hArr", 8660), Entry("harr", 8596), Entry("hearts", 9829),
      Entry("hellip", 8230), Entry("hibar", 175), Entry("iacute", 237)
    ]
  }

  function Part16(): seq<Entry> {
    [
      Entry("icirc", 238), Entry("iexcl", 161), Entry("igrave", 236), Entry("image", 8465),
      Entry("infin", 8734), Entry("int", 8747), Entry("iota", 953), Entry("iquest", 191)
    ]
  }

  function Part17(): seq<Entry> {
    [
      Entry("isin", 8712), Entry("iuml", 239), Entry("kappa", 954), Entry("lArr", 8656),
      Entry("lambda", 955), Entry("lang", 9001), Entry("laquo", 171), Entry("larr", 8592)
    ]
  }

  function Part18(): seq<Entry> {
    [
      Entry("lceil", 8968), Entry("ldquo", 8220), Entry("le", 8804), Entry("lfloor", 8970),
      Entry("lowast", 8727), Entry("loz", 9674), Entry("lrm", 8206), Entry("lsaquo", 8249)
    ]
  }

  function Part19(): seq<Entry> {
    [
      Entry("lsquo", 8216), Entry("lt", 60), Entry("macr", 175), Entry("mdash", 8212), Entry("micro", 181),
      Entry("middot", 183), Entry("minus", 8722), Entry("mu", 956)
    ]
  }

  function Part20(): seq<Entry> {
    [
      Entry("nabla", 8711), Entry("nbsp", 160), Entry("ndash", 8211), Entry("ne", 8800), Entry("ni", 8715),
      Entry("not", 172), Entry("notin", 8713), Entry("nsub", 8836)
    ]
  }

  function Part21(): seq<Entry> {
    [
      Entry("ntilde", 241), Entry("nu", 957), Entry("oacute", 243), Entry("ocirc", 244), Entry("oelig", 339),
      Entry("ograve", 242), Entry("oline", 8254), Entry("omega", 969)
    ]
  }

  function Part22(): seq<Entry> {
    [
      Entry("omicron", 959), Entry("oplus", 8853), Entry("or", 8744), Entry("ordf", 170), Entry("ordm", 186),
      Entry("oslash", 248), Entry("otilde", 245), Entry("otimes", 8855)
    ]
  }

  function Part23(): seq<Entry> {
    [
      Entry("ouml", 246), Entry("para", 182), Entry("part", 8706), Entry("permil", 8240),
      Entry("perp", 8869), Entry("phi", 966), Entry("pi", 960), Entry("piv", 982)
    ]
  }

  function Part24(): seq<Entry> {
    [
      Entry("plusmn", 177), Entry("pound", 163), Entry("prime", 8242), Entry("prod", 8719),
      Entry("prop", 8733), Entry("psi", 968), Entry("quot", 34), Entry("rArr", 8658)
    ]
  }

  function Part25(): seq<Entry> {
    [
      Entry("radic", 8730), Entry("rang", 9002), Entry("raquo", 187), Entry("rarr", 8594),
      Entry("rceil", 8969), Entry("rdquo", 8221), Entry("real", 8476), Entry("reg", 174)
    ]
  }

  function Part26(): seq<Entry> {
    [
      Entry("rfloor", 8971), Entry("rho", 961), Entry("rlm", 8207), Entry("rsaquo", 8250),
      Entry("rsquo", 8217), Entry("sbquo", 8218), Entry("scaron", 353), Entry("sdot", 8901)
    ]
  }

  function Part27(): seq<Entry> {
    [
      Entry("sect", 167), Entry("shy", 173), Entry("sigma", 963), Entry("sigmaf", 962), Entry("sim", 8764),
      Entry("spades", 9824), Entry("sub", 8834), Entry("sube", 8838)
    ]
  }

  function Part28(): seq<Entry> {
    [
      Entry("sum", 8721), Entry("sup", 8835), Entry("sup1", 185), Entry("sup2", 178), Entry("sup3", 179),
      Entry("supe", 8839), Entry("szlig", 223), Entry("tau", 964)
    ]
  }

  function Part29(): seq<Entry> {
    [
      Entry("there4", 8756), Entry("theta", 952), Entry("thetasym", 977), Entry("thinsp", 8201),
      Entry("thorn", 254), Entry("tilde", 732), Entry("times", 215), Entry("trade", 8482)
    ]
  }

  function Part30(): seq<Entry> {
    [
      Entry("uArr", 8657), Entry("uacute", 250), Entry("uarr", 8593), Entry("ucirc", 251),
      Entry("ugrave", 249), Entry("uml", 168), Entry("upsih", 978), Entry("upsilon", 965)
    ]
  }

  function Part31(): seq<Entry> {
    [
      Entry("uuml", 252), Entry("weierp", 8472), Entry("xi", 958), Entry("yacute", 253), Entry("yen", 165),
      Entry("yuml", 255), Entry("zeta", 950), Entry("zwj", 8205), Entry("zwnj", 8204)
    ]
  }

  // ----- each part is in order -----

  lemma {:induction false} Order0()
    ensures Ascending(Part0()) && |Part0()| == 8
    ensures Part0()[0].name == "AElig" && Part0()[7].name == "Auml"
  {
    hide StrCmp;
    Before("AElig", "Aacute", 1); Before("Aacute", "Acirc", 1); Before("Acirc", "Agrave", 1);
    Before("Agrave", "Alpha", 1); Before("Alpha", "Aring", 1); Before("Aring", "Atilde", 1);
    Before("Atilde", "Auml", 1);
  }

  lemma {:induction false} Order1()
    ensures Ascending(Part1()) && |Part1()| == 8
    ensures Part1()[0].name == "Beta" && Part1()[7].name == "Eacute"
  {
    hide StrCmp;
    Before("Beta", "Ccedil", 0); Before("Ccedil", "Chi", 1); Before("Chi", "Dagger", 0);
    Before("Dagger", "Delta", 1); Before("Delta", "Dstrok", 1); Before("Dstrok", "ETH", 0);
    Before("ETH", "Eacute", 1);
  }

  lemma {:induction false} Order2()
    ensures Ascending(Part2()) && |Part2()| == 8
    ensures Part2()[0].name == "Ecirc" && Part2()[7].name == "Icirc"
  {
    hide StrCmp;
    Before("Ecirc", "Egrave", 1); Before("Egrave", "Epsilon", 1); Before("Epsilon", "Eta", 1);
    Before("Eta", "Euml", 1); Before("Euml", "Gamma", 0); Before("Gamma", "Iacute", 0);
    Before("Iacute", "Icirc", 1);
  }

  lemma {:induction false} Order3()
    ensures Ascending(Part3()) && |Part3()| == 8
    ensures Part3()[0].name == "Igrave" && Part3()[7].name == "Nu"
  {
    hide StrCmp;
    Before("Igrave", "Iota", 1); Before("Iota", "Iuml", 1); Before("Iuml", "Kappa", 0);
    Before("Kappa", "Lambda", 0); Before("Lambda", "Mu", 0); Before("Mu", "Ntilde", 0); Before("Ntilde", "Nu", 1);
  }

  lemma {:induction false} Order4()
    ensures Ascending(Part4()) && |Part4()| == 8
    ensures Part4()[0].name == "OElig" && Part4()[7].name == "Otilde"
  {
    hide StrCmp;
    Before("OElig", "Oacute", 1); Before("Oacute", "Ocirc", 1); Before("Ocirc", "Ograve", 1);
    Before("Ograve", "Omega", 1); Before("Omega", "Omicron", 2); Before("Omicron", "Oslash", 1);
    Before("Oslash", "Otilde", 1);
  }

  lemma {:induction false} Order5()
    ensures Ascending(Part5()) && |Part5()| == 8
    ensures Part5()[0].name == "Ouml" && Part5()[7].name == "Sigma"
  {
    hide StrCmp;
    Before("Ouml", "Phi", 0); Before("Phi", "Pi", 1); Before("Pi", "Prime", 1); Before("Prime", "Psi", 1);
    Before("Psi", "Rho", 0); Before("Rho", "Scaron", 0); Before("Scaron", "Sigma", 1);
  }

  lemma {:induction false} Order6()
    ensures Ascending(Part6()) && |Part6()| == 8
    ensures Part6()[0].name == "THORN" && Part6()[7].name == "Uuml"
  {
    hide StrCmp;
    Before("THORN", "Tau", 1); Before("Tau", "Theta", 1); Before("Theta", "Uacute", 0);
    Before("Uacute", "Ucirc", 1); Before("Ucirc", "Ugrave", 1); Before("Ugrave", "Upsilon", 1);
    Before("Upsilon", "Uuml", 1);
  }

  lemma {:induction false} Order7()
    ensures Ascending(Part7()) && |Part7()| == 8
    ensures Part7()[0].name == "Xi" && Part7()[7].name == "aelig"
  {
    hide StrCmp;
    Before("Xi", "Yacute", 0); Before("Yacute", "Yuml", 1); Before("Yuml", "Zeta", 0); Before("Zeta", "aacute", 0);
    Before("aacute", "acirc", 1); Before("acirc", "acute", 2); Before("acute", "aelig", 1);
  }

  lemma {:induction false} Order8()
    ensures Ascending(Part8()) && |Part8()| == 8
    ensures Part8()[0].name == "agrave" && Part8()[7].name == "aring"
  {
    hide StrCmp;
    Before("agrave", "alefsym", 1); Before("alefsym", "alpha", 2); Before("alpha", "amp", 1);
    Before("amp", "and", 1); Before("and", "ang", 2); Before("ang", "apos", 1); Before("apos", "aring", 1);
  }

  lemma {:induction false} Order9()
    ensures Ascending(Part9()) && |Part9()| == 8
    ensures Part9()[0].name == "asymp" && Part9()[7].name == "bull"
  {
    hide StrCmp;
    Before("asymp", "atilde", 1); Before("atilde", "auml", 1); Before("auml", "bdquo", 0);
    Before("bdquo", "beta", 1); Before("beta", "brkbar", 1); Before("brkbar", "brvbar", 2);
    Before("brvbar", "bull", 1);
  }

  lemma {:induction false} Order10()
    ensures Ascending(Part10()) && |Part10()| == 8
    ensures Part10()[0].name == "cap" && Part10()[7].name == "cong"
  {
    hide StrCmp;
    Before("cap", "ccedil", 1); Before("ccedil", "cedil", 1); Before("cedil", "cent", 2); Before("cent", "chi", 1);
    Before("chi", "circ", 1); Before("circ", "clubs", 1); Before("clubs", "cong", 1);
  }

  lemma {:induction false} Order11()
    ensures Ascending(Part11()) && |Part11()| == 8
    ensures Part11()[0].name == "copy" && Part11()[7].name == "deg"
  {
    hide StrCmp;
    Before("copy", "crarr", 1); Before("crarr", "cup", 1); Before("cup", "curren", 2); Before("curren", "dArr", 0);
    Before("dArr", "dagger", 1); Before("dagger", "darr", 2); Before("darr", "deg", 1);
  }

  lemma {:induction false} Order12()
    ensures Ascending(Part12()) && |Part12()| == 8
    ensures Part12()[0].name == "delta" && Part12()[7].name == "empty"
  {
    hide StrCmp;
    Before("delta", "diams", 1); Before("diams", "die", 2); Before("die", "divide", 2);
    Before("divide", "eacute", 0); Before("eacute", "ecirc", 1); Before("ecirc", "egrave", 1);
    Before("egrave", "empty", 1);
  }

  lemma {:induction false} Order13()
    ensures Ascending(Part13()) && |Part13()| == 8
    ensures Part13()[0].name == "emsp" && Part13()[7].name == "euro"
  {
    hide StrCmp;
    Before("emsp", "ensp", 1); Before("ensp", "epsilon", 1); Before("epsilon", "equiv", 1);
    Before("equiv", "eta", 1); Before("eta", "eth", 2); Before("eth", "euml", 1); Before("euml", "euro", 2);
  }

  lemma {:induction false} Order14()
    ensures Ascending(Part14()) && |Part14()| == 8
    ensures Part14()[0].name == "exist" && Part14()[7].name == "gamma"
  {
    hide StrCmp;
    Before("exist", "fnof", 0); Before("fnof", "forall", 1); Before("forall", "frac12", 1);
    Before("frac12", "frac14", 5); Before("frac14", "frac34", 4); Before("frac34", "frasl", 3);
    Before("frasl", "gamma", 0);
  }

  lemma {:induction false} Order15()
    ensures Ascending(Part15()) && |Part15()| == 8
    ensures Part15()[0].name == "ge" && Part15()[7].name == "iacute"
  {
    hide StrCmp;
    Before("ge", "gt", 1); Before("gt", "hArr", 0); Before("hArr", "harr", 1); Before("harr", "hearts", 1);
    Before("hearts", "hellip", 2); Before("hellip", "hibar", 1); Before("hibar", "iacute", 0);
  }

  lemma {:induction false} Order16()
    ensures Ascending(Part16()) && |Part16()| == 8
    ensures Part16()[0].name == "icirc" && Part16()[7].name == "iquest"
  {
    hide StrCmp;
    Before("icirc", "iexcl", 1); Before("iexcl", "igrave", 1); Before("igrave", "image", 1);
    Before("image", "infin", 1); Before("infin", "int", 2); Before("int", "iota", 1); Before("iota", "iquest", 1);
  }

  lemma {:induction false} Order17()
    ensures Ascending(Part17()) && |Part17()| == 8
    ensures Part17()[0].name == "isin" && Part17()[7].name == "larr"
  {
    hide StrCmp;
    Before("isin", "iuml", 1); Before("iuml", "kappa", 0); Before("kappa", "lArr", 0); Before("lArr", "lambda", 1);
    Before("lambda", "lang", 2); Before("lang", "laquo", 2); Before("laquo", "larr", 2);
  }

  lemma {:induction false} Order18()
    ensures Ascending(Part18()) && |Part18()| == 8
    ensures Part18()[0].name == "lceil" && Part18()[7].name == "lsaquo"
  {
    hide StrCmp;
    Before("lceil", "ldquo", 1); Before("ldquo", "le", 1); Before("le", "lfloor", 1);
    Before("lfloor", "lowast", 1); Before("lowast", "loz", 2); Before("loz", "lrm", 1); Before("lrm", "lsaquo", 1);
  }

  lemma {:induction false} Order19()
    ensures Ascending(Part19()) && |Part19()| == 8
    ensures Part19()[0].name == "lsquo" && Part19()[7].name == "mu"
  {
    hide StrCmp;
    Before("lsquo", "lt", 1); Before("lt", "macr", 0); Before("macr", "mdash", 1); Before("mdash", "micro", 1);
    Before("micro", "middot", 2); Before("middot", "minus", 2); Before("minus", "mu", 1);
  }

  lemma {:induction false} Order20()
    ensures Ascending(Part20()) && |Part20()| == 8
    ensures Part20()[0].name == "nabla" && Part20()[7].name == "nsub"
  {
    hide StrCmp;
    Before("nabla", "nbsp", 1); Before("nbsp", "ndash", 1); Before("ndash", "ne", 1); Before("ne", "ni", 1);
    Before("ni", "not", 1); Before("not", "notin", 3); Before("notin", "nsub", 1);
  }

  lemma {:induction false} Order21()
    ensures Ascending(Part21()) && |Part21()| == 8
    ensures Part21()[0].name == "ntilde" && Part21()[7].name == "omega"
  {
    hide StrCmp;
    Before("ntilde", "nu", 1); Before("nu", "oacute", 0); Before("oacute", "ocirc", 1);
    Before("ocirc", "oelig", 1); Before("oelig", "ograve", 1); Before("ograve", "oline", 1);
    Before("oline", "omega", 1);
  }

  lemma {:induction false} Order22()
    ensures Ascending(Part22()) && |Part22()| == 8
    ensures Part22()[0].name == "omicron" && Part22()[7].name == "otimes"
  {
    hide StrCmp;
    Before("omicron", "oplus", 1); Before("oplus", "or", 1); Before("or", "ordf", 2); Before("ordf", "ordm", 3);
    Before("ordm", "oslash", 1); Before("oslash", "otilde", 1); Before("otilde", "otimes", 3);
  }

  lemma {:induction false} Order23()
    ensures Ascending(Part23()) && |Part23()| == 8
    ensures Part23()[0].name == "ouml" && Part23()[7].name == "piv"
  {
    hide StrCmp;
    Before("ouml", "para", 0); Before("para", "part", 3); Before("part", "permil", 1); Before("permil", "perp", 3);
    Before("perp", "phi", 1); Before("phi", "pi", 1); Before("pi", "piv", 2);
  }

  lemma {:induction false} Order24()
    ensures Ascending(Part24()) && |Part24()| == 8
    ensures Part24()[0].name == "plusmn" && Part24()[7].name == "rArr"
  {
    hide StrCmp;
    Before("plusmn", "pound", 1); Before("pound", "prime", 1); Before("prime", "prod", 2);
    Before("prod", "prop", 3); Before("prop", "psi", 1); Before("psi", "quot", 0); Before("quot", "rArr", 0);
  }

  lemma {:induction false} Order25()
    ensures Ascending(Part25()) && |Part25()| == 8
    ensures Part25()[0].name == "radic" && Part25()[7].name == "reg"
  {
    hide StrCmp;
    Before("radic", "rang", 2); Before("rang", "raquo", 2); Before("raquo", "rarr", 2); Before("rarr", "rceil", 1);
    Before("rceil", "rdquo", 1); Before("rdquo", "real", 1); Before("real", "reg", 2);
  }

  lemma {:induction false} Order26()
    ensures Ascending(Part26()) && |Part26()| == 8
    ensures Part26()[0].name == "rfloor" && Part26()[7].name == "sdot"
  {
    hide StrCmp;
    Before("rfloor", "rho", 1); Before("rho", "rlm", 1); Before("rlm", "rsaquo", 1); Before("rsaquo", "rsquo", 2);
    Before("rsquo", "sbquo", 0); Before("sbquo", "scaron", 1); Before("scaron", "sdot", 1);
  }

  lemma {:induction false} Order27()
    ensures Ascending(Part27()) && |Part27()| == 8
    ensures Part27()[0].name == "sect" && Part27()[7].name == "sube"
  {
    hide StrCmp;
    Before("sect", "shy", 1); Before("shy", "sigma", 1); Before("sigma", "sigmaf", 5); Before("sigmaf", "sim", 2);
    Before("sim", "spades", 1); Before("spades", "sub", 1); Before("sub", "sube", 3);
  }

  lemma {:induction false} Order28()
    ensures Ascending(Part28()) && |Part28()| == 8
    ensures Part28()[0].name == "sum" && Part28()[7].name == "tau"
  {
    hide StrCmp;
    Before("sum", "sup", 2); Before("sup", "sup1", 3); Before("sup1", "sup2", 3); Before("sup2", "sup3", 3);
    Before("sup3", "supe", 3); Before("supe", "szlig", 1); Before("szlig", "tau", 0);
  }

  lemma {:induction false} Order29()
    ensures Ascending(Part29()) && |Part29()| == 8
    ensures Part29()[0].name == "there4" && Part29()[7].name == "trade"
  {
    hide StrCmp;
    Before("there4", "theta", 3); Before("theta", "thetasym", 5); Before("thetasym", "thinsp", 2);
    Before("thinsp", "thorn", 2); Before("thorn", "tilde", 1); Before("tilde", "times", 2);
    Before("times", "trade", 1);
  }

  lemma {:induction false} Order30()
    ensures Ascending(Part30()) && |Part30()| == 8
    ensures Part30()[0].name == "uArr" && Part30()[7].name == "upsilon"
  {
    hide StrCmp;
    Before("uArr", "uacute", 1); Before("uacute", "uarr", 2); Before("uarr", "ucirc", 1);
    Before("ucirc", "ugrave", 1); Before("ugrave", "uml", 1); Before("uml", "upsih", 1);
    Before("upsih", "upsilon", 4);
  }

  lemma {:induction false} Order31()
    ensures Ascending(Part31()) && |Part31()| == 9
    ensures Part31()[0].name == "uuml" && Part31()[8].name == "zwnj"
  {
    hide StrCmp;
    Before("uuml", "weierp", 0); Before("weierp", "xi", 0); Before("xi", "yacute", 0); Before("yacute", "yen", 1);
    Before("yen", "yuml", 1); Before("yuml", "zeta", 0); Before("zeta", "zwj", 1); Before("zwj", "zwnj", 2);
  }

  // ----- the whole table -----

  function Group0(): seq<Entry> { Part0() + Part1() + Part2() + Part3() }
  function Group1(): seq<Entry> { Part4() + Part5() + Part6() + Part7() }
  function Group2(): seq<Entry> { Part8() + Part9() + Part10() + Part11() }
  function Group3(): seq<Entry> { Part12() + Part13() + Part14() + Part15() }
  function Group4(): seq<Entry> { Part16() + Part17() + Part18() + Part19() }
  function Group5(): seq<Entry> { Part20() + Part21() + Part22() + Part23() }
  function Group6(): seq<Entry> { Part24() + Part25() + Part26() + Part27() }
  function Group7(): seq<Entry> { Part28() + Part29() + Part30() + Part31() }
  function Half0(): seq<Entry> { Group0() + Group1() + Group2() + Group3() }
  function Half1(): seq<Entry> { Group4() + Group5() + Group6() + Group7() }

  /** `entities[]` of `_mxml_entity_cb` */
  function Table(): seq<Entry> {
    Half0() + Half1()
  }

  lemma {:induction false} GroupOrder0()
    ensures Ascending(Group0()) && |Group0()| == 32
    ensures Group0()[0].name == "AElig" && Group0()[31].name == "Nu"
  {
    hide StrCmp, Ascending, Part0, Part1, Part2, Part3;
    Order0(); Order1(); Order2(); Order3();
    Before("Auml", "Beta", 0); Before("Eacute", "Ecirc", 1); Before("Icirc", "Igrave", 1);
    AscendingAppend(Part0(), Part1());
    AscendingAppend(Part0() + Part1(), Part2());
    AscendingAppend(Part0() + Part1() + Part2(), Part3());
  }

  lemma {:induction false} GroupOrder1()
    ensures Ascending(Group1()) && |Group1()| == 32
    ensures Group1()[0].name == "OElig" && Group1()[31].name == "aelig"
  {
    hide StrCmp, Ascending, Part4, Part5, Part6, Part7;
    Order4(); Order5(); Order6(); Order7();
    Before("Otilde", "Ouml", 1); Before("Sigma", "THORN", 0); Before("Uuml", "Xi", 0);
    AscendingAppend(Part4(), Part5());
    AscendingAppend(Part4() + Part5(), Part6());
    AscendingAppend(Part4() + Part5() + Part6(), Part7());
  }

  lemma {:induction false} GroupOrder2()
    ensures Ascending(Group2()) && |Group2()| == 32
    ensures Group2()[0].name == "agrave" && Group2()[31].name == "deg"
  {
    hide StrCmp, Ascending, Part8, Part9, Part10, Part11;
    Order8(); Order9(); Order10(); Order11();
    Before("aring", "asymp", 1); Before("bull", "cap", 0); Before("cong", "copy", 2);
    AscendingAppend(Part8(), Part9());
    AscendingAppend(Part8() + Part9(), Part10());
    AscendingAppend(Part8() + Part9() + Part10(), Part11());
  }

  lemma {:induction false} GroupOrder3()
    ensures Ascending(Group3()) && |Group3()| == 32
    ensures Group3()[0].name == "delta" && Group3()[31].name == "iacute"
  {
    hide StrCmp, Ascending, Part12, Part13, Part14, Part15;
    Order12(); Order13(); Order14(); Order15();
    Before("empty", "emsp", 2); Before("euro", "exist", 1); Before("gamma", "ge", 1);
    AscendingAppend(Part12(), Part13());
    AscendingAppend(Part12() + Part13(), Part14());
    AscendingAppend(Part12() + Part13() + Part14(), Part15());
  }

  lemma {:induction false} GroupOrder4()
    ensures Ascending(Group4()) && |Group4()| == 32
    ensures Group4()[0].name == "icirc" && Group4()[31].name == "mu"
  {
    hide StrCmp, Ascending, Part16, Part17, Part18, Part19;
    Order16(); Order17(); Order18(); Order19();
    Before("iquest", "isin", 1); Before("larr", "lceil", 1); Before("lsaquo", "lsquo", 2);
    AscendingAppend(Part16(), Part17());
    AscendingAppend(Part16() + Part17(), Part18());
    AscendingAppend(Part16() + Part17() + Part18(), Part19());
  }

  lemma {:induction false} GroupOrder5()
    ensures Ascending(Group5()) && |Group5()| == 32
    ensures Group5()[0].name == "nabla" && Group5()[31].name == "piv"
  {
    hide StrCmp, Ascending, Part20, Part21, Part22, Part23;
    Order20(); Order21(); Order22(); Order23();
    Before("nsub", "ntilde", 1); Before("omega", "omicron", 2); Before("otimes", "ouml", 1);
    AscendingAppend(Part20(), Part21());
    AscendingAppend(Part20() + Part21(), Part22());
    AscendingAppend(Part20() + Part21() + Part22(), Part23());
  }

  lemma {:induction false} GroupOrder6()
    ensures Ascending(Group6()) && |Group6()| == 32
    ensures Group6()[0].name == "plusmn" && Group6()[31].name == "sube"
  {
    hide StrCmp, Ascending, Part24, Part25, Part26, Part27;
    Order24(); Order25(); Order26(); Order27();
    Before("rArr", "radic", 1); Before("reg", "rfloor", 1); Before("sdot", "sect", 1);
    AscendingAppend(Part24(), Part25());
    AscendingAppend(Part24() + Part25(), Part26());
    AscendingAppend(Part24() + Part25() + Part26(), Part27());
  }

  lemma {:induction false} GroupOrder7()
    ensures Ascending(Group7()) && |Group7()| == 33
    ensures Group7()[0].name == "sum" && Group7()[32].name == "zwnj"
  {
    hide StrCmp, Ascending, Part28, Part29, Part30, Part31;
    Order28(); Order29(); Order30(); Order31();
    Before("tau", "there4", 1); Before("trade", "uArr", 0); Before("upsilon", "uuml", 1);
    AscendingAppend(Part28(), Part29());
    AscendingAppend(Part28() + Part29(), Part30());
    AscendingAppend(Part28() + Part29() + Part30(), Part31());
  }

  lemma {:induction false} HalfOrder0()
    ensures Ascending(Half0()) && |Half0()| == 128
    ensures Half0()[0].name == "AElig" && Half0()[127].name == "iacute"
  {
    hide StrCmp, Ascending, Group0, Group1, Group2, Group3;
    GroupOrder0(); GroupOrder1(); GroupOrder2(); GroupOrder3();
    Before("Nu", "OElig", 0); Before("aelig", "agrave", 1); Before("deg", "delta", 2);
    AscendingAppend(Group0(), Group1());
    AscendingAppend(Group0() + Group1(), Group2());
    AscendingAppend(Group0() + Group1() + Group2(), Group3());
  }

  lemma {:induction false} HalfOrder1()
    ensures Ascending(Half1()) && |Half1()| == 129
    ensures Half1()[0].name == "icirc" && Half1()[128].name == "zwnj"
  {
    hide StrCmp, Ascending, Group4, Group5, Group6, Group7;
    GroupOrder4(); GroupOrder5(); GroupOrder6(); GroupOrder7();
    Before("mu", "nabla", 0); Before("piv", "plusmn", 1); Before("sube", "sum", 2);
    AscendingAppend(Group4(), Group5());
    AscendingAppend(Group4() + Group5(), Group6());
    AscendingAppend(Group4() + Group5() + Group6(), Group7());
  }

  lemma {:induction false} TableOrder()
    ensures Ascending(Table()) && |Table()| == 257
  {
    hide StrCmp, Ascending, Half0, Half1;
    HalfOrder0();
    HalfOrder1();
    Before("iacute", "icirc", 1);
    AscendingAppend(Half0(), Half1());
  }

  /** The entities that the printer writes, and where they stand in the table */
  lemma {:induction false} BasicEntries()
    ensures |Table()| == 257
    ensures Table()[67] == Entry("amp", 38)
    ensures Table()[121] == Entry("gt", 62)
    ensures Table()[153] == Entry("lt", 60)
    ensures Table()[198] == Entry("quot", 34)
  {
    hide *;
    TableHalves();
    HalfGroups();
    GroupParts();
    PartEntries();
  }

  lemma {:induction false} TableHalves()
    ensures |Table()| == 257 && |Half0()| == 128 && |Half1()| == 129
    ensures Table()[67] == Half0()[67]
    ensures Table()[121] == Half0()[121]
    ensures Table()[153] == Half1()[25]
    ensures Table()[198] == Half1()[70]
  {
    hide *;
    HalfOrder0();
    HalfOrder1();
    TableIs();
  }

  lemma {:induction false} TableIs()
    ensures Table() == Half0() + Half1()
  {
  }

  lemma {:induction false} HalfGroups()
    ensures |Half0()| == 128 && |Half1()| == 129
    ensures |Group2()| == 32
    ensures |Group3()| == 32
    ensures |Group4()| == 32
    ensures |Group6()| == 32
    ensures Half0()[67] == Group2()[3]
    ensures Half0()[121] == Group3()[25]
    ensures Half1()[25] == Group4()[25]
    ensures Half1()[70] == Group6()[6]
  {
    hide *;
    GroupOrder0(); GroupOrder1(); GroupOrder2(); GroupOrder3(); GroupOrder4(); GroupOrder5(); GroupOrder6();
    GroupOrder7();
    HalvesAre();
  }

  lemma {:induction false} HalvesAre()
    ensures Half0() == Group0() + Group1() + Group2() + Group3()
    ensures Half1() == Group4() + Group5() + Group6() + Group7()
  {
  }

  lemma {:induction false} GroupParts()
    ensures |Group2()| == 32
    ensures |Group3()| == 32
    ensures |Group4()| == 32
    ensures |Group6()| == 32
    ensures |Part8()| == 8
    ensures |Part15()| == 8
    ensures |Part19()| == 8
    ensures |Part24()| == 8
    ensures Group2()[3] == Part8()[3]
    ensures Group3()[25] == Part15()[1]
    ensures Group4()[25] == Part19()[1]
    ensures Group6()[6] == Part24()[6]
  {
  }

  lemma {:induction false} PartEntries()
    ensures |Part8()| == 8
    ensures |Part15()| == 8
    ensures |Part19()| == 8
    ensures |Part24()| == 8
    ensures Part8()[3] == Entry("amp", 38)
    ensures Part15()[1] == Entry("gt", 62)
    ensures Part19()[1] == Entry("lt", 60)
    ensures Part24()[6] == Entry("quot", 34)
  {
  }
}
