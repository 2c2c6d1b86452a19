/** The few string operations of Go's strings package the handlers rely on. */
module Texts {

  /** unicode.IsSpace. */
  predicate IsSpace(c: char) {
    || '\t' <= c <= '\r' || c == ' ' || c == '\U{85}' || c == '\U{A0}'
    || c == '\U{1680}' || '\U{2000}' <= c <= '\U{200A}' || c == '\U{2028}' || c == '\U{2029}'
    || c == '\U{202F}' || c == '\U{205F}' || c == '\U{3000}'
  }

  function TrimLeft(s: string): (r: string)
    ensures |r| <= |s|
  {
    if s != [] && IsSpace(s[0]) then TrimLeft(s[1..]) else s
  }

  function TrimRight(s: string): (r: string)
    ensures |r| <= |s|
  {
    if s != [] && IsSpace(s[|s| - 1]) then TrimRight(s[..|s| - 1]) else s
  }

  /** strings.TrimSpace. */
  function TrimSpace(s: string): string {
    TrimRight(TrimLeft(s))
  }

  ghost predicate AllSpace(s: string) {
    forall i :: 0 <= i < |s| ==> IsSpace(s[i])
  }

  /** Trimming takes the white space off both ends and nothing else. */
  lemma {:induction false} TrimSpaceOf(l: string, m: string, r: string)
    requires AllSpace(l) && AllSpace(r)
    requires m != [] && !IsSpace(m[0]) && !IsSpace(m[|m| - 1])
    ensures TrimSpace(l + m + r) == m
  {
    hide IsSpace;
    if l != [] {
      TrimSpaceOf(l[1..], m, r);
      assert (l + m + r)[1..] == l[1..] + m + r;
    } else if r != [] {
      var init := r[..|r| - 1];
      TrimSpaceOf([], m, init);
      assert [] + m + r == m + r && [] + m + init == m + init;
      assert (m + r)[..|m + r| - 1] == m + init;
    } else {
      assert [] + m + [] == m;
    }
  }

  lemma {:induction false} TrimSpaceOfSpace(s: string)
    requires AllSpace(s)
    ensures TrimSpace(s) == ""
  {
    if s != [] {
      TrimSpaceOfSpace(s[1..]);
    }
  }

  /** Every string is white space around something that neither begins nor ends with any. */
  lemma {:induction false} TrimParts(s: string) returns (l: string, m: string, r: string)
    ensures s == l + m + r && AllSpace(l) && AllSpace(r)
    ensures m != [] ==> !IsSpace(m[0]) && !IsSpace(m[|m| - 1])
  {
    hide IsSpace;
    if s == [] {
      l, m, r := [], [], [];
    } else if IsSpace(s[0]) {
      l, m, r := TrimParts(s[1..]);
      l := [s[0]] + l;
    } else if IsSpace(s[|s| - 1]) {
      l, m, r := TrimParts(s[..|s| - 1]);
      r := r + [s[|s| - 1]];
    } else {
      l, m, r := [], s, [];
    }
  }

  lemma {:induction false} TrimSpaceTwice(s: string)
    ensures TrimSpace(TrimSpace(s)) == TrimSpace(s)
  {
    hide IsSpace;
    var l, m, r := TrimParts(s);
    if m == [] {
      assert s == l + r;
      TrimSpaceOfSpace(s);
      TrimSpaceOfSpace("");
    } else {
      TrimSpaceOf(l, m, r);
      TrimSpaceOf("", m, "");
      assert "" + m + "" == m;
    }
  }
}
