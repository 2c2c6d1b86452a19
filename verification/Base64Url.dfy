/** The URL-safe base64 without padding of section 5 of RFC 4648, and what it denotes: the bytes
    and the characters write the same number, once in base 256 and once in base 64. */
module Base64Url {
  import opened IpBytes

  type Sextet = n: int | 0 <= n < 64

  function UrlChar(n: Sextet): char {
    if n < 26 then ('A' as int + n) as char
    else if n < 52 then ('a' as int + n - 26) as char
    else if n < 62 then ('0' as int + n - 52) as char
    else if n == 62 then '-' else '_'
  }

  function Two(x: Byte): seq<Sextet> {
    [x / 4, x % 4 * 16]
  }

  function Three(x: Byte, y: Byte): seq<Sextet> {
    [x / 4, x % 4 * 16 + y / 16, y % 16 * 4]
  }

  function Four(x: Byte, y: Byte, z: Byte): seq<Sextet> {
    [x / 4, x % 4 * 16 + y / 16, y % 16 * 4 + z / 64, z % 64]
  }

  /** The six-bit groups of some bytes: four for each three bytes, and for one or two bytes at the
      end two or three, filled up with zero bits. */
  function Sextets(b: Bytes): seq<Sextet>
    decreases |b|
  {
    var n := |b|;
    if n == 0 then []
    else if n % 3 == 1 then Sextets(b[..n - 1]) + Two(b[n - 1])
    else if n % 3 == 2 then Sextets(b[..n - 2]) + Three(b[n - 2], b[n - 1])
    else Sextets(b[..n - 3]) + Four(b[n - 3], b[n - 2], b[n - 1])
  }

  /** base64.RawURLEncoding.EncodeToString. */
  function Encode(b: Bytes): string {
    var v := Sextets(b);
    seq(|v|, i requires 0 <= i < |v| => UrlChar(v[i]))
  }

  // ----- what an encoding denotes

  /** The number written by some base-64 digits. */
  ghost function Base64Number(v: seq<Sextet>): nat {
    if v == [] then 0 else 64 * Base64Number(v[..|v| - 1]) + v[|v| - 1]
  }

  /** The alphabet of section 5 of RFC 4648: a character stands for its position in it. */
  ghost function Alphabet(): (a: string)
    ensures |a| == 64
  {
    "ABCDEFGHIJKLMNOPQRSTUVWXYZ" + "abcdefghijklmnopqrstuvwxyz" + "0123456789-_"
  }

  /** Character by character, s shows these positions of the alphabet. */
  ghost predicate Shows(s: string, v: seq<Sextet>) {
    |s| == |v| && forall i :: 0 <= i < |v| ==> s[i] == Alphabet()[v[i]]
  }

  /** The number of n bytes, shifted to the left by 0, 4 or 2 bits. */
  ghost function Shifted(x: nat, n: nat): nat {
    if n % 3 == 0 then x else if n % 3 == 1 then 16 * x else 4 * x
  }

  /** s writes the number of the bytes, followed by as many zero bits as fill its last character. */
  ghost predicate Denotes(s: string, b: Bytes) {
    && |s| == (8 * |b| + 5) / 6
    && exists v: seq<Sextet> :: Shows(s, v) && Base64Number(v) == Shifted(Num(b), |b|)
  }

  lemma {:induction false} InAlphabet(n: Sextet)
    ensures UrlChar(n) == Alphabet()[n]
  {
    if n < 26 {
      assert UrlChar(n) == "ABCDEFGHIJKLMNOPQRSTUVWXYZ"[n];
    } else if n < 52 {
      assert UrlChar(n) == "abcdefghijklmnopqrstuvwxyz"[n - 26];
    } else {
      assert UrlChar(n) == "0123456789-_"[n - 52];
    }
  }

  /** No character occurs twice in the alphabet. */
  lemma {:induction false} PositionUnique(m: Sextet, n: Sextet)
    requires Alphabet()[m] == Alphabet()[n]
    ensures m == n
  {
    hide Alphabet;
    InAlphabet(m);
    InAlphabet(n);
  }

  lemma {:induction false} NumberSnoc(v: seq<Sextet>, x: Sextet)
    ensures Base64Number(v + [x]) == 64 * Base64Number(v) + x
  {
    assert (v + [x])[..|v|] == v;
  }

  lemma {:induction false} NumberOfTwo(v: seq<Sextet>, x: Byte)
    ensures |Two(x)| == 2
    ensures Base64Number(v + Two(x)) == 4096 * Base64Number(v) + 16 * (x as int)
  {
    hide Base64Number;
    NumberSnoc(v, x / 4);
    NumberSnoc(v + [x / 4], x % 4 * 16);
    assert v + Two(x) == v + [x / 4] + [x % 4 * 16];
  }

  lemma {:induction false} NumberOfThree(v: seq<Sextet>, x: Byte, y: Byte)
    ensures |Three(x, y)| == 3
    ensures Base64Number(v + Three(x, y)) == 262_144 * Base64Number(v) + 4 * (256 * (x as int) + y as int)
  {
    hide Base64Number;
    var p, q, r := x / 4, x % 4 * 16 + y / 16, y % 16 * 4;
    NumberSnoc(v, p);
    NumberSnoc(v + [p], q);
    NumberSnoc(v + [p] + [q], r);
    assert v + Three(x, y) == v + [p] + [q] + [r];
  }

  lemma {:induction false} NumberOfFour(v: seq<Sextet>, x: Byte, y: Byte, z: Byte)
    ensures |Four(x, y, z)| == 4
    ensures Base64Number(v + Four(x, y, z)) == 16_777_216 * Base64Number(v) + 65_536 * (x as int) + 256 * (y as int) + z as int
  {
    hide Base64Number;
    var p, q, r, t := x / 4, x % 4 * 16 + y / 16, y % 16 * 4 + z / 64, z % 64;
    NumberSnoc(v, p);
    NumberSnoc(v + [p], q);
    NumberSnoc(v + [p] + [q], r);
    NumberSnoc(v + [p] + [q] + [r], t);
    assert v + Four(x, y, z) == v + [p] + [q] + [r] + [t];
  }

  lemma {:induction false} LastBytes(b: Bytes)
    ensures |b| >= 1 ==> Num(b) == 256 * Num(b[..|b| - 1]) + b[|b| - 1] as int
    ensures |b| >= 2 ==> Num(b) == 65_536 * Num(b[..|b| - 2]) + 256 * (b[|b| - 2] as int) + b[|b| - 1] as int
    ensures |b| >= 3 ==> Num(b) == 16_777_216 * Num(b[..|b| - 3]) + 65_536 * (b[|b| - 3] as int) + 256 * (b[|b| - 2] as int) + b[|b| - 1] as int
  {
    if |b| >= 2 {
      assert b[..|b| - 1][..|b| - 2] == b[..|b| - 2];
    }
    if |b| >= 3 {
      assert b[..|b| - 2][..|b| - 3] == b[..|b| - 3];
    }
  }

  lemma {:induction false} TriplesNumber(b: Bytes)
    requires |b| % 3 == 0
    ensures 3 * |Sextets(b)| == 4 * |b| && Base64Number(Sextets(b)) == Num(b)
    decreases |b|
  {
    hide Base64Number, Num, Four;
    var n := |b|;
    if n == 0 {
      NoDigits();
    } else {
      LastBytes(b);
      TriplesNumber(b[..n - 3]);
      NumberOfFour(Sextets(b[..n - 3]), b[n - 3], b[n - 2], b[n - 1]);
    }
  }

  /** The six-bit groups write the number of the bytes, shifted to the left by 0, 4 or 2 bits. */
  lemma {:induction false} SextetsNumber(b: Bytes)
    ensures |Sextets(b)| == (8 * |b| + 5) / 6
    ensures Base64Number(Sextets(b)) == Shifted(Num(b), |b|)
  {
    hide Base64Number, Num, Two, Three, Four;
    var n := |b|;
    LastBytes(b);
    if n % 3 == 0 {
      TriplesNumber(b);
    } else if n % 3 == 1 {
      TriplesNumber(b[..n - 1]);
      NumberOfTwo(Sextets(b[..n - 1]), b[n - 1]);
    } else {
      TriplesNumber(b[..n - 2]);
      NumberOfThree(Sextets(b[..n - 2]), b[n - 2], b[n - 1]);
    }
  }

  lemma {:induction false} NoDigits()
    ensures Base64Number([]) == Num([]) == 0
  {
  }

  /** Every byte string: its encoding denotes it. */
  lemma {:induction false} EncodingDenotes(b: Bytes)
    ensures Denotes(Encode(b), b)
  {
    hide Sextets, Base64Number, Num, UrlChar, Alphabet;
    SextetsNumber(b);
    forall i | 0 <= i < |Sextets(b)| ensures Encode(b)[i] == Alphabet()[Sextets(b)[i]] {
      InAlphabet(Sextets(b)[i]);
    }
    assert Shows(Encode(b), Sextets(b));
  }

  /** And no string denotes two byte strings. */
  lemma {:induction false} DenotesOne(s: string, b: Bytes, c: Bytes)
    requires Denotes(s, b) && Denotes(s, c)
    ensures b == c
  {
    hide Base64Number, Num, Alphabet;
    assert |b| == |c|;
    var v: seq<Sextet> :| Shows(s, v) && Base64Number(v) == Shifted(Num(b), |b|);
    var w: seq<Sextet> :| Shows(s, w) && Base64Number(w) == Shifted(Num(c), |c|);
    forall i | 0 <= i < |v| ensures v[i] == w[i] {
      PositionUnique(v[i], w[i]);
    }
    assert v == w;
    NumInjective(b, c);
  }
}
