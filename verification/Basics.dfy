/** Optional values: the model's stand-in for C's null results. */
module Options {
  datatype Option<+T> = None | Some(value: T)
}

/** Characters and strings as mxml-file.c sees them: one `char` per stored byte. */
module Chars {

  /** `mxml_isspace` */
  predicate IsSpace(c: char) {
    c == ' ' || c == '\t' || c == '\r' || c == '\n'
  }

  predicate AllSpace(s: string) {
    forall i :: 0 <= i < |s| ==> IsSpace(s[i])
  }

  predicate NoSpace(s: string) {
    forall i :: 0 <= i < |s| ==> !IsSpace(s[i])
  }

  /** `mxml_bad_char`, on the `int` value of a character */
  predicate BadChar(code: int) {
    code < 32 && code != 10 && code != 13 && code != 9
  }

  /** A byte that `getc` hands to the parser: neither NUL nor a forbidden control character. */
  predicate GoodChar(c: char) {
    c as int < 256 && !BadChar(c as int)
  }

  predicate Good(s: string) {
    forall i :: 0 <= i < |s| ==> GoodChar(s[i])
  }

  predicate IsQuote(c: char) {
    c == '\"' || c == '\''
  }

  predicate IsDigit(c: char) {
    '0' <= c <= '9'
  }

  /** `isalnum` in the C locale, restricted to ASCII */
  predicate IsAlnum(c: char) {
    IsDigit(c) || 'a' <= c <= 'z' || 'A' <= c <= 'Z'
  }

  /** `strcmp`: negative, zero or positive by the first differing byte */
  function StrCmp(a: string, b: string): int {
    if a == [] && b == [] then 0
    else if a == [] then -1
    else if b == [] then 1
    else if a[0] != b[0] then a[0] as int - b[0] as int
    else StrCmp(a[1..], b[1..])
  }

  /** The sign of `strcmp` is that of the first difference; the end of a string comes before every
      character. */
  lemma {:induction false} StrCmpDiffers(a: string, b: string, k: nat)
    requires k <= |a| && k <= |b| && a[..k] == b[..k]
    ensures k < |a| && k < |b| && a[k] != b[k] ==> (StrCmp(a, b) < 0 <==> a[k] < b[k]) && StrCmp(a, b) != 0
    ensures k == |a| && k < |b| ==> StrCmp(a, b) < 0
    ensures k < |a| && k == |b| ==> StrCmp(a, b) > 0
    decreases k
  {
    if k > 0 {
      assert a[..k][0] == b[..k][0];
      assert a[1..][..k - 1] == a[..k][1..] && b[1..][..k - 1] == b[..k][1..];
      StrCmpDiffers(a[1..], b[1..], k - 1);
    }
  }

  lemma {:induction false} StrCmpZero(a: string, b: string)
    ensures StrCmp(a, b) == 0 <==> a == b
  {
    if a != [] && b != [] && a[0] == b[0] {
      StrCmpZero(a[1..], b[1..]);
      assert a == [a[0]] + a[1..] && b == [b[0]] + b[1..];
    }
  }

  lemma {:induction false} StrCmpAntisymmetric(a: string, b: string)
    ensures StrCmp(a, b) < 0 <==> StrCmp(b, a) > 0
  {
    if a != [] && b != [] && a[0] == b[0] {
      StrCmpAntisymmetric(a[1..], b[1..]);
    }
  }

  lemma {:induction false} StrCmpTransitive(a: string, b: string, c: string)
    requires StrCmp(a, b) <= 0 && StrCmp(b, c) <= 0
    ensures StrCmp(a, c) <= 0
    ensures StrCmp(a, c) == 0 ==> StrCmp(a, b) == 0 && StrCmp(b, c) == 0
  {
    if a != [] && b != [] && c != [] && a[0] == b[0] && b[0] == c[0] {
      StrCmpTransitive(a[1..], b[1..], c[1..]);
    }
  }
}
