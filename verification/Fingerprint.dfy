/** Certificate fingerprints of the Android app: their normal form (handler/android_assetlinks.go)
    and the WebAuthn origins made from them (handler/passkeys.go, section 5 of RFC 4648).

    Go's ToLower maps no character outside ASCII to a hexadecimal digit, so lower-casing the
    ASCII letters alone accepts and produces the same. */
module Fingerprint {
  import Base64Url
  import IpBytes
  import opened Texts
  import opened Wrappers

  // ----- characters

  function Lower(c: char): char {
    if 'A' <= c <= 'Z' then ((c as int) + 32) as char else c
  }

  function Upper(c: char): char {
    if 'a' <= c <= 'z' then ((c as int) - 32) as char else c
  }

  function ToLower(s: string): string {
    seq(|s|, i requires 0 <= i < |s| => Lower(s[i]))
  }

  function ToUpper(s: string): string {
    seq(|s|, i requires 0 <= i < |s| => Upper(s[i]))
  }

  /** strings.ReplaceAll(s, c, ""). */
  function RemoveAll(s: string, c: char): string {
    if s == [] then [] else RemoveAll(s[..|s| - 1], c) + (if s[|s| - 1] == c then [] else [s[|s| - 1]])
  }

  lemma {:induction false} RemoveAllConcat(s: string, t: string, c: char)
    ensures RemoveAll(s + t, c) == RemoveAll(s, c) + RemoveAll(t, c)
  {
    if t == [] {
      assert s + t == s;
    } else {
      RemoveAllConcat(s, t[..|t| - 1], c);
      assert (s + t)[..|s + t| - 1] == s + t[..|t| - 1];
    }
  }

  lemma {:induction false} RemoveAbsent(s: string, c: char)
    requires c !in s
    ensures RemoveAll(s, c) == s
  {
    if s != [] {
      assert s == s[..|s| - 1] + [s[|s| - 1]];
      RemoveAbsent(s[..|s| - 1], c);
    }
  }

  predicate LowerHex(c: char) {
    '0' <= c <= '9' || 'a' <= c <= 'f'
  }

  predicate AllLowerHex(s: string) {
    forall i :: 0 <= i < |s| ==> LowerHex(s[i])
  }

  // ----- normalisation

  function Digits(raw: string): string {
    RemoveAll(ToLower(TrimSpace(RemoveAll(raw, ' '))), ':')
  }

  predicate Accepted(raw: string) {
    |Digits(raw)| == 64 && AllLowerHex(Digits(raw))
  }

  /** Upper-case pairs separated by colons. */
  function Paired(s: string): string {
    if |s| < 2 then ""
    else if |s| < 4 then ToUpper(s[..2])
    else Paired(s[..|s| - 2]) + ":" + ToUpper(s[|s| - 2..])
  }

  function Normalised(raw: string): Option<string> {
    if Accepted(raw) then Some(Paired(Digits(raw))) else None
  }

  method Normalize(raw: string) returns (r: Option<string>)
    ensures r == Normalised(raw)
    ensures r.Some? <==> Spelled(raw) && |HexChars(raw)| == 64
    ensures r.Some? ==> Prints(r.value, BytesOf(raw))
  {
    AcceptedIff(raw);
    if Accepted(raw) {
      NormalFormPrints(raw);
    }
    hide TrimSpace, RemoveAll, ToLower, Paired, Spelled, HexChars, Prints, BytesOf;
    var s := ToLower(TrimSpace(RemoveAll(raw, ' ')));
    s := RemoveAll(s, ':');
    if |s| != 64 {
      return None;
    }
    var ok := CheckHex(s);
    if !ok {
      return None;
    }
    var b := BuildPairs(s);
    r := Some(b);
  }

  method CheckHex(s: string) returns (ok: bool)
    ensures ok == AllLowerHex(s)
  {
    for i := 0 to |s|
      invariant AllLowerHex(s[..i])
    {
      if !('0' <= s[i] <= '9' || 'a' <= s[i] <= 'f') {
        assert !LowerHex(s[i]);
        return false;
      }
    }
    assert s[..|s|] == s;
    ok := true;
  }

  method BuildPairs(s: string) returns (b: string)
    requires |s| % 2 == 0
    ensures b == Paired(s)
  {
    b := "";
    assert b == Paired(s[..0]);
    hide Paired, ToUpper;
    var i := 0;
    while i < |s|
      invariant 0 <= i <= |s| && i % 2 == 0
      invariant b == Paired(s[..i])
    {
      NextPair(s, i);
      if i > 0 {
        b := b + ":";
      }
      b := b + ToUpper(s[i..i + 2]);
      i := i + 2;
    }
    assert s[..|s|] == s;
  }

  lemma {:induction false} NextPair(s: string, i: nat)
    requires i + 2 <= |s| && i != 1
    ensures Paired(s[..i + 2]) == (if i == 0 then "" else Paired(s[..i]) + ":") + ToUpper(s[i..i + 2])
  {
    hide ToUpper;
    var next := s[..i + 2];
    assert next[..i] == s[..i] && next[i..] == s[i..i + 2];
    assert i == 0 ==> next[..2] == s[i..i + 2];
    if i == 0 {
      assert "" + ToUpper(s[i..i + 2]) == ToUpper(s[i..i + 2]);
    }
  }

  // ----- the 32 bytes a fingerprint denotes

  /** hex.DecodeString. */
  function HexDecode(s: string): Option<seq<IpBytes.Byte>> {
    if s == [] then Some([])
    else if |s| == 1 then None
    else
      var before := HexDecode(s[..|s| - 2]);
      var hi, lo := HexValue(s[|s| - 2]), HexValue(s[|s| - 1]);
      if before.Some? && hi.Some? && lo.Some? then Some(before.value + [hi.value * 16 + lo.value]) else None
  }

  function HexValue(c: char): (v: Option<int>)
    ensures v.Some? ==> 0 <= v.value < 16
  {
    if '0' <= c <= '9' then Some(c as int - '0' as int)
    else if 'a' <= c <= 'f' then Some(c as int - 'a' as int + 10)
    else if 'A' <= c <= 'F' then Some(c as int - 'A' as int + 10)
    else None
  }

  function HexDigit(n: int): char
    requires 0 <= n < 16
  {
    if n < 10 then ('0' as int + n) as char else ('a' as int + n - 10) as char
  }

  function HexEncode(b: seq<IpBytes.Byte>): string {
    if b == [] then "" else HexEncode(b[..|b| - 1]) + [HexDigit(b[|b| - 1] / 16), HexDigit(b[|b| - 1] % 16)]
  }

  lemma {:induction false} DecodeLowerHex(s: string, n: nat)
    requires AllLowerHex(s) && |s| == n + n
    ensures HexDecode(s).Some? && |HexDecode(s).value| == n
    ensures HexEncode(HexDecode(s).value) == s
  {
    if n > 0 {
      hide HexEncode, HexDecode, HexValue, HexDigit;
      var init, hi, lo := s[..|s| - 2], s[|s| - 2], s[|s| - 1];
      assert LowerHex(hi) && LowerHex(lo) && AllLowerHex(init);
      DecodeLowerHex(init, n - 1);
      DecodeStep(s);
      hide LowerHex, AllLowerHex;
      EncodeAppend(HexDecode(init).value, HexValue(hi).value, HexValue(lo).value);
      assert s == init + [hi, lo];
    }
  }

  lemma {:induction false} DecodeStep(s: string)
    requires |s| >= 2 && LowerHex(s[|s| - 2]) && LowerHex(s[|s| - 1]) && HexDecode(s[..|s| - 2]).Some?
    ensures HexValue(s[|s| - 2]).Some? && HexValue(s[|s| - 1]).Some?
    ensures HexDigit(HexValue(s[|s| - 2]).value) == s[|s| - 2] && HexDigit(HexValue(s[|s| - 1]).value) == s[|s| - 1]
    ensures HexDecode(s) == Some(HexDecode(s[..|s| - 2]).value + [HexValue(s[|s| - 2]).value * 16 + HexValue(s[|s| - 1]).value])
  {
  }

  lemma {:induction false} EncodeAppend(b: seq<IpBytes.Byte>, hi: int, lo: int)
    requires 0 <= hi < 16 && 0 <= lo < 16
    ensures HexEncode(b + [hi * 16 + lo]) == HexEncode(b) + [HexDigit(hi), HexDigit(lo)]
  {
  }

  /** Letter case does not matter to the decoder. */
  lemma {:induction false} DecodeUpper(s: string)
    requires AllLowerHex(s)
    ensures HexDecode(ToUpper(s)) == HexDecode(s)
  {
    if |s| >= 2 {
      var init := s[..|s| - 2];
      DecodeUpper(init);
      assert ToUpper(s)[..|s| - 2] == ToUpper(init);
    } else if |s| == 0 {
      assert ToUpper(s) == [];
    }
  }

  /** The bytes an accepted spelling denotes. */
  function BytesOf(raw: string): seq<IpBytes.Byte>
    requires Accepted(raw)
  {
    DecodeLowerHex(Digits(raw), 32);
    HexDecode(Digits(raw)).value
  }

  // ----- pairs and back

  lemma {:induction false} LowerUpper(s: string)
    requires AllLowerHex(s)
    ensures ToLower(ToUpper(s)) == s
  {
  }

  lemma {:induction false} LowerConcat(s: string, t: string)
    ensures ToLower(s + t) == ToLower(s) + ToLower(t)
  {
  }

  predicate Printed(s: string) {
    forall i :: 0 <= i < |s| ==> '0' <= s[i] <= ':' || 'A' <= s[i] <= 'F'
  }

  /** Dropping the colons of the pairs gives the digits back, in upper case. */
  lemma {:induction false} PairedBack(s: string)
    requires AllLowerHex(s) && |s| % 2 == 0
    ensures RemoveAll(Paired(s), ':') == ToUpper(s)
  {
    if |s| == 0 {
      assert ToUpper(s) == [];
    } else if |s| == 2 {
      assert s[..2] == s;
      RemoveAbsent(ToUpper(s), ':');
    } else {
      hide RemoveAll, Paired;
      var init, last := s[..|s| - 2], s[|s| - 2..];
      PairedBack(init);
      PairedStep(s);
      RemoveAllConcat(Paired(init), ":" + ToUpper(last), ':');
      RemoveColon(ToUpper(last));
      assert ToUpper(init) + ToUpper(last) == ToUpper(s);
    }
  }

  lemma {:induction false} LowerRemove(s: string)
    ensures RemoveAll(ToLower(s), ':') == ToLower(RemoveAll(s, ':'))
  {
    if s == [] {
      assert ToLower(s) == [];
    } else {
      var init, last := s[..|s| - 1], s[|s| - 1];
      LowerRemove(init);
      assert s == init + [last];
      LowerConcat(init, [last]);
      assert ToLower([last]) == [Lower(last)];
      assert Lower(last) == ':' <==> last == ':';
      assert ToLower(s)[..|s| - 1] == ToLower(init);
      LowerConcat(RemoveAll(init, ':'), [last]);
      assert ToLower(RemoveAll(init, ':')) + [] == ToLower(RemoveAll(init, ':') + []);
    }
  }

  lemma {:induction false} PairedPrinted(s: string)
    requires AllLowerHex(s)
    ensures Printed(Paired(s))
  {
    if |s| >= 4 {
      PairedPrinted(s[..|s| - 2]);
    }
  }

  lemma {:induction false} PairedStep(s: string)
    requires |s| >= 4
    ensures Paired(s) == Paired(s[..|s| - 2]) + (":" + ToUpper(s[|s| - 2..]))
  {
  }

  lemma {:induction false} RemoveColon(s: string)
    requires ':' !in s
    ensures RemoveAll(":" + s, ':') == s
  {
    RemoveAllConcat(":", s, ':');
    RemoveAbsent(s, ':');
    assert ":"[..0] == "";
    assert "" + s == s;
  }

  /** A printed fingerprint has nothing to trim. */
  lemma {:induction false} NothingToTrim(s: string)
    requires Printed(s)
    ensures RemoveAll(s, ' ') == s && TrimSpace(s) == s
  {
    RemoveAbsent(s, ' ');
    if s != [] {
      assert !IsSpace(s[0]) && !IsSpace(s[|s| - 1]);
      hide IsSpace, TrimSpace;
      TrimSpaceOf("", s, "");
      assert "" + s + "" == s;
    }
  }

  // ----- theorems

  lemma {:induction false} DigitsOfNormalised(raw: string)
    requires Accepted(raw)
    ensures Digits(Normalised(raw).value) == Digits(raw)
  {
    hide RemoveAll, Paired, TrimSpace, ToLower;
    PairedBack(Digits(raw));
    LowerRemove(Paired(Digits(raw)));
    LowerUpper(Digits(raw));
    PairedPrinted(Digits(raw));
    NothingToTrim(Paired(Digits(raw)));
  }

  /** Normalising twice is normalising once. */
  lemma {:induction false} Idempotent(raw: string)
    requires Accepted(raw)
    ensures Normalised(Normalised(raw).value) == Normalised(raw)
  {
    hide Digits;
    DigitsOfNormalised(raw);
  }

  /** Two accepted spellings normalise equally exactly when they denote the same 32 bytes. */
  lemma {:induction false} Canonical(raw: string, other: string)
    requires Accepted(raw) && Accepted(other)
    ensures |BytesOf(raw)| == 32
    ensures Normalised(raw) == Normalised(other) <==> BytesOf(raw) == BytesOf(other)
  {
    hide Digits, Paired, HexDecode;
    DigitsOfNormalised(raw);
    DigitsOfNormalised(other);
    DecodeLowerHex(Digits(raw), 32);
    DecodeLowerHex(Digits(other), 32);
  }

  /** Dropping the colons of a normal form leaves decodable hexadecimal: the same bytes. */
  lemma {:induction false} NormalFormDecodes(raw: string)
    requires Accepted(raw)
    ensures HexDecode(RemoveAll(Normalised(raw).value, ':')) == Some(BytesOf(raw))
  {
    hide RemoveAll, Paired, Digits;
    PairedBack(Digits(raw));
    DecodeUpper(Digits(raw));
    DecodeLowerHex(Digits(raw), 32);
  }

  // ----- which spellings are accepted, and what they spell

  ghost predicate IsHex(c: char) {
    '0' <= c <= '9' || 'a' <= c <= 'f' || 'A' <= c <= 'F'
  }

  /** The hexadecimal digits of a text in order, in lower case. */
  ghost function HexChars(s: string): string {
    if s == [] then "" else HexChars(s[..|s| - 1]) + if IsHex(s[|s| - 1]) then [Lower(s[|s| - 1])] else []
  }

  /** White space, then hexadecimal digits with blanks and colons anywhere, then white space. */
  ghost predicate Spelled(raw: string) {
    exists l: string, m: string, r: string :: raw == l + m + r && Spells(l, m, r)
  }

  ghost predicate Spells(l: string, m: string, r: string) {
    && AllSpace(l) && AllSpace(r)
    && forall i :: 0 <= i < |m| ==> IsHex(m[i]) || m[i] == ' ' || m[i] == ':'
  }

  lemma {:induction false} HexCharsConcat(s: string, t: string)
    ensures HexChars(s + t) == HexChars(s) + HexChars(t)
  {
    hide IsHex;
    if t == [] {
      assert s + t == s;
    } else {
      HexCharsConcat(s, t[..|t| - 1]);
      assert (s + t)[..|s + t| - 1] == s + t[..|t| - 1];
    }
  }

  lemma {:induction false} SpaceIsNotHex(c: char)
    requires IsSpace(c)
    ensures !IsHex(c)
  {
  }

  lemma {:induction false} NoHexInSpace(s: string)
    requires AllSpace(s)
    ensures HexChars(s) == ""
  {
    if s != [] {
      hide IsSpace, IsHex;
      NoHexInSpace(s[..|s| - 1]);
      SpaceIsNotHex(s[|s| - 1]);
    }
  }

  /** Without blanks and colons only the digits are left, if there was nothing else. */
  lemma {:induction false} OnlyHexLeft(m: string)
    requires forall i :: 0 <= i < |m| ==> IsHex(m[i]) || m[i] == ' ' || m[i] == ':'
    ensures RemoveAll(ToLower(RemoveAll(m, ' ')), ':') == HexChars(m)
  {
    if m == [] {
      assert ToLower([]) == [];
    } else {
      hide IsHex, Lower, RemoveAll, ToLower, HexChars;
      OnlyHexLeft(m[..|m| - 1]);
      OneMoreChar(m[..|m| - 1], m[|m| - 1]);
      assert m == m[..|m| - 1] + [m[|m| - 1]];
    }
  }

  lemma {:induction false} OneMoreChar(m: string, c: char)
    requires IsHex(c) || c == ' ' || c == ':'
    ensures RemoveAll(ToLower(RemoveAll(m + [c], ' ')), ':') == RemoveAll(ToLower(RemoveAll(m, ' ')), ':') + if IsHex(c) then [Lower(c)] else []
    ensures HexChars(m + [c]) == HexChars(m) + if IsHex(c) then [Lower(c)] else []
  {
    var t := RemoveAll(m, ' ');
    assert HexChars(m + [c]) == HexChars(m) + if IsHex(c) then [Lower(c)] else [] by {
      assert (m + [c])[..|m|] == m;
    }
    NotHex(c);
    hide IsHex, HexChars, RemoveAll;
    RemoveSnoc(m, c, ' ');
    if c == ' ' {
      assert t + [] == t;
    } else {
      assert ToLower(t + [c]) == ToLower(t) + [Lower(c)];
      RemoveSnoc(ToLower(t), Lower(c), ':');
    }
    assert RemoveAll(ToLower(t), ':') + [] == RemoveAll(ToLower(t), ':');
  }

  lemma {:induction false} NotHex(c: char)
    ensures !IsHex(' ') && !IsHex(':') && (Lower(c) == ':' <==> c == ':')
  {
  }

  lemma {:induction false} RemoveSnoc(s: string, c: char, x: char)
    ensures RemoveAll(s + [c], x) == RemoveAll(s, x) + if c == x then [] else [c]
  {
    assert (s + [c])[..|s|] == s;
  }

  lemma {:induction false} HexCharsAreHex(s: string)
    ensures AllLowerHex(HexChars(s))
  {
    if s != [] {
      HexCharsAreHex(s[..|s| - 1]);
    }
  }

  /** What is left after removing blanks, trimming and removing colons shows what was there. */
  lemma {:induction false} RemovedOrLeft(s: string, c: char)
    ensures forall i :: 0 <= i < |s| ==> s[i] == c || s[i] in RemoveAll(s, c)
  {
    if s != [] {
      RemovedOrLeft(s[..|s| - 1], c);
    }
  }

  lemma {:induction false} OnlyHexIfAccepted(m: string)
    requires AllLowerHex(RemoveAll(ToLower(RemoveAll(m, ' ')), ':'))
    ensures forall i :: 0 <= i < |m| ==> IsHex(m[i]) || m[i] == ' ' || m[i] == ':'
  {
    var t := RemoveAll(m, ' ');
    RemovedOrLeft(m, ' ');
    RemovedOrLeft(ToLower(t), ':');
    forall i | 0 <= i < |m| ensures IsHex(m[i]) || m[i] == ' ' || m[i] == ':' {
      if m[i] != ' ' {
        var k :| 0 <= k < |t| && t[k] == m[i];
        assert ToLower(t)[k] == Lower(m[i]);
        HexIfLowerHex(m[i]);
      }
    }
  }

  lemma {:induction false} HexIfLowerHex(c: char)
    ensures LowerHex(Lower(c)) ==> IsHex(c)
    ensures Lower(c) == ':' ==> c == ':'
  {
  }

  lemma {:induction false} SpaceWithoutBlanks(s: string)
    requires AllSpace(s)
    ensures AllSpace(RemoveAll(s, ' '))
  {
    if s != [] {
      SpaceWithoutBlanks(s[..|s| - 1]);
      assert IsSpace(s[|s| - 1]);
    }
  }

  /** Blanks go first, so what is trimmed off is the white space around the rest. */
  lemma {:induction false} DigitsOfParts(l: string, m: string, r: string)
    requires AllSpace(l) && AllSpace(r) && m != [] && !IsSpace(m[0]) && !IsSpace(m[|m| - 1])
    ensures Digits(l + m + r) == RemoveAll(ToLower(RemoveAll(m, ' ')), ':')
  {
    hide IsSpace, TrimSpace, ToLower, RemoveAll;
    RemoveAllConcat(l + m, r, ' ');
    RemoveAllConcat(l, m, ' ');
    SpaceWithoutBlanks(l);
    SpaceWithoutBlanks(r);
    EndsStay(m);
    TrimSpaceOf(RemoveAll(l, ' '), RemoveAll(m, ' '), RemoveAll(r, ' '));
  }

  lemma {:induction false} EndsStay(m: string)
    requires m != [] && !IsSpace(m[0]) && !IsSpace(m[|m| - 1])
    ensures var t := RemoveAll(m, ' '); t != [] && t[0] == m[0] && t[|t| - 1] == m[|m| - 1]
  {
    assert !IsSpace(m[0]) ==> m[0] != ' ';
    assert !IsSpace(m[|m| - 1]) ==> m[|m| - 1] != ' ';
    hide IsSpace;
    assert m == [m[0]] + m[1..];
    RemoveAllConcat([m[0]], m[1..], ' ');
    RemoveAbsent([m[0]], ' ');
  }

  /** The white space, blanks and colons around and between the digits do not matter. */
  lemma {:induction false} DigitsSpelled(raw: string)
    requires Spelled(raw)
    ensures Digits(raw) == HexChars(raw)
  {
    hide IsSpace, IsHex, Digits, HexChars;
    var l: string, m: string, r: string :| raw == l + m + r && Spells(l, m, r);
    var l', m', r' := TrimParts(raw);
    if m' == [] {
      assert l' + m' + r' == l' + r';
      DigitsOfSpace(raw);
    } else {
      assert raw[|l'|] == m'[0] && raw[|l'| + |m'| - 1] == m'[|m'| - 1];
      forall i | 0 <= i < |m'| ensures IsHex(m'[i]) || m'[i] == ' ' || m'[i] == ':' {
        assert |l| <= |l'| && |l'| + |m'| <= |l| + |m|;
        assert m'[i] == raw[|l'| + i] == m[|l'| + i - |l|];
      }
      DigitsOfParts(l', m', r');
      OnlyHexLeft(m');
      HexCharsOfParts(l', m', r');
    }
  }

  lemma {:induction false} HexCharsOfParts(l: string, m: string, r: string)
    requires AllSpace(l) && AllSpace(r)
    ensures HexChars(l + m + r) == HexChars(m)
  {
    hide AllSpace, HexChars;
    HexCharsConcat(l + m, r);
    HexCharsConcat(l, m);
    NoHexInSpace(l);
    NoHexInSpace(r);
    assert [] + HexChars(m) + [] == HexChars(m);
  }

  lemma {:induction false} DigitsOfSpace(s: string)
    requires AllSpace(s)
    ensures Digits(s) == HexChars(s) == ""
  {
    hide IsSpace, TrimSpace, HexChars;
    SpaceWithoutBlanks(s);
    TrimSpaceOfSpace(RemoveAll(s, ' '));
    NoHexInSpace(s);
    assert ToLower("") == "";
  }

  /** A text is accepted exactly when it spells 64 hexadecimal digits in this way. */
  lemma {:induction false} AcceptedIff(raw: string)
    ensures Accepted(raw) <==> Spelled(raw) && |HexChars(raw)| == 64
  {
    hide IsSpace, IsHex, Digits, HexChars;
    HexCharsAreHex(raw);
    if Spelled(raw) {
      DigitsSpelled(raw);
    }
    if Accepted(raw) {
      var l, m, r := TrimParts(raw);
      if m != [] {
        DigitsOfParts(l, m, r);
        OnlyHexIfAccepted(m);
        assert Spells(l, m, r);
      } else {
        assert l + m + r == l + r;
        DigitsOfSpace(raw);
      }
    }
  }

  /** The k-th byte has the 2k-th and the next digit, by their positions in 0 to f. */
  lemma {:induction false} BytesSpelled(raw: string, k: nat)
    requires Accepted(raw) && k < 32
    ensures |BytesOf(raw)| == 32 && |HexChars(raw)| == 64
    ensures HexChars(raw)[2 * k] == "0123456789abcdef"[BytesOf(raw)[k] / 16]
    ensures HexChars(raw)[2 * k + 1] == "0123456789abcdef"[BytesOf(raw)[k] % 16]
  {
    hide Digits, HexEncode, HexDecode, HexChars;
    AcceptedIff(raw);
    DigitsSpelled(raw);
    DecodeLowerHex(Digits(raw), 32);
    HexEncodeAt(BytesOf(raw), k);
  }

  lemma {:induction false} HexEncodeAt(b: seq<IpBytes.Byte>, k: nat)
    requires k < |b|
    ensures |HexEncode(b)| == 2 * |b|
    ensures HexEncode(b)[2 * k] == "0123456789abcdef"[b[k] / 16] && HexEncode(b)[2 * k + 1] == "0123456789abcdef"[b[k] % 16]
  {
    var n := |b| - 1;
    if n > 0 {
      HexEncodeAt(b[..n], if k < n then k else 0);
    }
    HexDigitIs(b[k] / 16);
    HexDigitIs(b[k] % 16);
  }

  lemma {:induction false} HexDigitIs(n: nat)
    requires n < 16
    ensures HexDigit(n) == "0123456789abcdef"[n] && Upper(HexDigit(n)) == "0123456789ABCDEF"[n]
  {
  }

  ghost function UpperDigit(n: nat): char
    requires n < 16
  {
    "0123456789ABCDEF"[n]
  }

  /** Printed as pairs of upper-case digits with colons between them. */
  ghost predicate Prints(s: string, b: seq<IpBytes.Byte>) {
    && |s| == 3 * |b| - 1
    && (forall k :: 0 <= k < |b| ==> s[3 * k] == UpperDigit(b[k] / 16) && s[3 * k + 1] == UpperDigit(b[k] % 16))
    && forall k :: 0 <= k < |b| - 1 ==> s[3 * k + 2] == ':'
  }

  lemma {:induction false} PairsPrint(b: seq<IpBytes.Byte>)
    requires b != []
    ensures Prints(Paired(HexEncode(b)), b)
  {
    var n := |b| - 1;
    var s := HexEncode(b);
    HexEncodeAt(b, n);
    LastPair(b);
    hide HexEncode, ToUpper, Prints;
    if n == 0 {
      assert s[..2] == s[0..];
      PrintsOne(b);
      assert Paired(s) == ToUpper(s[..2]);
    } else {
      PairsPrint(b[..n]);
      PairedStep(s);
      hide Paired;
      PrintsSnoc(Paired(s[..2 * n]), b);
      var two := [UpperDigit(b[n] / 16), UpperDigit(b[n] % 16)];
      assert Paired(s[..2 * n]) + (":" + two) == Paired(s[..2 * n]) + ":" + two;
    }
  }

  lemma {:induction false} LastPair(b: seq<IpBytes.Byte>)
    requires b != []
    ensures var n, s := |b| - 1, HexEncode(b);
            |s| == 2 * n + 2 && s[..2 * n] == HexEncode(b[..n]) && ToUpper(s[2 * n..]) == [UpperDigit(b[n] / 16), UpperDigit(b[n] % 16)]
  {
    var n := |b| - 1;
    HexEncodeAt(b, n);
    HexDigitIs(b[n] / 16);
    HexDigitIs(b[n] % 16);
    assert HexEncode(b)[2 * n..] == [HexDigit(b[n] / 16), HexDigit(b[n] % 16)];
    if n > 0 {
      HexEncodeAt(b[..n], 0);
    }
    assert HexEncode(b)[..2 * n] == HexEncode(b[..n]);
  }

  lemma {:induction false} PrintsOne(b: seq<IpBytes.Byte>)
    requires |b| == 1
    ensures Prints([UpperDigit(b[0] / 16), UpperDigit(b[0] % 16)], b)
  {
  }

  lemma {:induction false} PrintsSnoc(s: string, b: seq<IpBytes.Byte>)
    requires |b| > 1 && Prints(s, b[..|b| - 1])
    ensures var n := |b| - 1; Prints(s + ":" + [UpperDigit(b[n] / 16), UpperDigit(b[n] % 16)], b)
  {
    hide UpperDigit;
  }

  /** The normal form prints the bytes that were spelled. */
  lemma {:induction false} NormalFormPrints(raw: string)
    requires Accepted(raw)
    ensures Prints(Normalised(raw).value, BytesOf(raw))
  {
    hide Digits, HexEncode, HexDecode, Paired, Prints;
    DecodeLowerHex(Digits(raw), 32);
    PairsPrint(BytesOf(raw));
  }

  // ----- origins

  const ORIGIN_PREFIX := "android:apk-key-hash:"

  function Origin(b: seq<IpBytes.Byte>): string {
    ORIGIN_PREFIX + Base64Url.Encode(b)
  }

  /** Two accepted spellings give the same origin exactly when they denote the same bytes. */
  lemma {:induction false} OriginsDistinct(raw: string, other: string)
    requires Accepted(raw) && Accepted(other)
    ensures Origin(BytesOf(raw)) == Origin(BytesOf(other)) <==> BytesOf(raw) == BytesOf(other)
  {
    hide Accepted, BytesOf;
    Canonical(raw, other);
    Canonical(other, raw);
    var b, c := BytesOf(raw), BytesOf(other);
    if Origin(b) == Origin(c) {
      assert Origin(b)[|ORIGIN_PREFIX|..] == Base64Url.Encode(b);
      assert Origin(c)[|ORIGIN_PREFIX|..] == Base64Url.Encode(c);
      Base64Url.EncodingDenotes(b);
      Base64Url.EncodingDenotes(c);
      Base64Url.DenotesOne(Base64Url.Encode(b), b, c);
    }
  }

  function Origins(fragments: seq<string>): seq<string> {
    if fragments == [] then []
    else
      var raw := TrimSpace(fragments[|fragments| - 1]);
      Origins(fragments[..|fragments| - 1]) + if Accepted(raw) then [Origin(BytesOf(raw))] else []
  }

  /** The accepted fragments, in order. */
  ghost function AcceptedOnes(fragments: seq<string>): (a: seq<string>)
    ensures forall k :: 0 <= k < |a| ==> Accepted(a[k])
  {
    if fragments == [] then []
    else
      var raw := TrimSpace(fragments[|fragments| - 1]);
      AcceptedOnes(fragments[..|fragments| - 1]) + if Accepted(raw) then [raw] else []
  }

  /** The origin the app sends for a certificate digest: the prefix, then base64url. */
  ghost predicate IsOriginOf(origin: string, b: seq<IpBytes.Byte>) {
    |origin| >= 21 && origin[..21] == "android:apk-key-hash:" && Base64Url.Denotes(origin[21..], b)
  }

  ghost predicate AreOriginsOf(out: seq<string>, accepted: seq<string>) {
    && |out| == |accepted|
    && forall k :: 0 <= k < |out| ==> Accepted(accepted[k]) && IsOriginOf(out[k], BytesOf(accepted[k]))
  }

  lemma {:induction false} OriginDenotes(b: seq<IpBytes.Byte>)
    ensures IsOriginOf(Origin(b), b)
  {
    hide Base64Url.Encode, Base64Url.Denotes;
    Base64Url.EncodingDenotes(b);
    assert Origin(b)[21..] == Base64Url.Encode(b);
  }

  lemma {:induction false} OriginsDenote(fragments: seq<string>)
    ensures AreOriginsOf(Origins(fragments), AcceptedOnes(fragments))
  {
    hide Accepted, BytesOf, TrimSpace, IsOriginOf, Origin;
    if fragments != [] {
      OriginsDenote(fragments[..|fragments| - 1]);
      var raw := TrimSpace(fragments[|fragments| - 1]);
      if Accepted(raw) {
        OriginDenotes(BytesOf(raw));
      }
    }
  }

  /** androidApkOriginsFromPasskeySHA256Env on the comma-separated fragments: the decoding step
      after normalisation never rejects anything, and the k-th origin is that of the k-th
      accepted fragment. */
  method ApkOrigins(fragments: seq<string>) returns (out: seq<string>)
    ensures out == Origins(fragments)
    ensures AreOriginsOf(out, AcceptedOnes(fragments))
  {
    out := [];
    for i := 0 to |fragments|
      invariant out == Origins(fragments[..i])
    {
      hide Digits, HexDecode, Paired, RemoveAll, Base64Url.Encode, TrimSpace, Accepted, BytesOf;
      assert fragments[..i + 1][..i] == fragments[..i];
      var frag := TrimSpace(fragments[i]);
      var fp := Normalize(frag);
      NormalForms(frag);
      if fp.Some? {
        var raw := HexDecode(RemoveAll(fp.value, ':'));
        if raw.Some? && |raw.value| == 32 {
          out := out + [ORIGIN_PREFIX + Base64Url.Encode(raw.value)];
        }
      }
    }
    assert fragments[..|fragments|] == fragments;
    OriginsDenote(fragments);
  }

  lemma {:induction false} NormalForms(raw: string)
    ensures Normalised(raw).Some? <==> Accepted(raw)
    ensures Accepted(raw) ==> HexDecode(RemoveAll(Normalised(raw).value, ':')) == Some(BytesOf(raw)) && |BytesOf(raw)| == 32
  {
    hide Digits, Paired, RemoveAll, HexDecode;
    if Accepted(raw) {
      NormalFormDecodes(raw);
      Canonical(raw, raw);
    }
  }
}
