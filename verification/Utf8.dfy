/** UTF-8 for the characters of the basic plane, common/sys/utf8.c (section 3 of RFC 3629). */
module Utf8 {
  import opened Basics

  type Ucs = bv16

  const QUESTION: Byte := 0x3F   // '?'

  /** The bytes written for a code point. */
  function Utf(u: Ucs): (r: seq<Byte>)
    ensures 1 <= |r| <= 3
  {
    if u & 0xFF80 == 0 then [u as Byte]
    else if u & 0xF800 == 0 then [0xC0 | ((u >> 6) as Byte), 0x80 | ((u & 0x3F) as Byte)]
    else [0xE0 | ((u >> 12) as Byte), 0x80 | (((u >> 6) & 0x3F) as Byte), 0x80 | ((u & 0x3F) as Byte)]
  }

  /** The length the first byte announces; a byte that cannot be first stands alone. */
  function Announced(a: Byte): (n: nat)
    ensures 1 <= n <= 3
  {
    if a & 0x80 == 0 then 1 else if a >> 5 == 6 then 2 else if a >> 5 == 7 then 3 else 1
  }

  function Three(x: Byte, y: Byte, z: Byte): Ucs {
    ((x as Ucs) << 12) | ((y as Ucs) << 6) | (z as Ucs)
  }

  /** The code point read from a first byte and the two that may follow it. */
  function UcsOf(a: Byte, b: Byte, c: Byte): Ucs {
    if a & 0x80 == 0 then a as Ucs
    else if a >> 5 == 6 then (((a & 0x1F) as Ucs) << 6) | ((b & 0x3F) as Ucs)
    else if a >> 5 == 7 then Three(a & 0x0F, b & 0x3F, c & 0x3F)
    else QUESTION as Ucs
  }

  /** ucs2utf: the bytes are stored from the start of the buffer. */
  method Ucs2Utf(u: Ucs, utf8: array<Byte>) returns (n: nat)
    requires utf8.Length >= 3
    modifies utf8
    ensures n == |Utf(u)| && utf8[..n] == Utf(u)
  {
    if u & 0xFF80 == 0 {
      utf8[0] := u as Byte;
      return 1;
    }
    if u & 0xF800 == 0 {
      utf8[0] := 0xC0 | ((u >> 6) as Byte);
      utf8[1] := 0x80 | ((u & 0x3F) as Byte);
      return 2;
    }
    utf8[0] := 0xE0 | ((u >> 12) as Byte);
    utf8[1] := 0x80 | (((u >> 6) & 0x3F) as Byte);
    utf8[2] := 0x80 | ((u & 0x3F) as Byte);
    return 3;
  }

  /** utf2ucs: the code point and the length; bytes past that length do not matter. */
  method Utf2Ucs(utf8: array<Byte>) returns (u: Ucs, n: nat)
    requires utf8.Length >= 3
    ensures n == Announced(utf8[0]) && u == UcsOf(utf8[0], utf8[1], utf8[2])
  {
    var c := utf8[0];
    if c & 0x80 == 0 {
      return c as Ucs, 1;
    }
    if c >> 5 == 6 {
      return (((c & 0x1F) as Ucs) << 6) | ((utf8[1] & 0x3F) as Ucs), 2;
    }
    if c >> 5 == 7 {
      return (((c & 0x0F) as Ucs) << 12) | (((utf8[1] & 0x3F) as Ucs) << 6) | ((utf8[2] & 0x3F) as Ucs), 3;
    }
    return QUESTION as Ucs, 1;
  }

  /** The shortest forms of section 3 of RFC 3629, for at most three bytes: what follows is marked as
      such, and no shorter form would do.  The forms of D800 to DFFF, which that section prohibits, are
      not told apart from the others. */
  predicate Shortest(a: Byte, b: Byte, c: Byte) {
    || a < 0x80
    || (0xC2 <= a < 0xE0 && b & 0xC0 == 0x80)
    || (0xE0 <= a < 0xF0 && b & 0xC0 == 0x80 && c & 0xC0 == 0x80 && (a == 0xE0 ==> b >= 0xA0))
  }

  /** Reading undoes writing. */
  lemma UcsOfUtf(u: Ucs, b: Byte, c: Byte)
    ensures var r := Utf(u) + [b, c];
            Announced(r[0]) == |Utf(u)| && UcsOf(r[0], r[1], r[2]) == u && Shortest(r[0], r[1], r[2])
  {
  }

  /** Writing undoes reading on exactly the shortest forms: everything else is read too, as something
      that is written differently. */
  lemma UtfOfUcs(a: Byte, b: Byte, c: Byte)
    ensures Utf(UcsOf(a, b, c)) == [a, b, c][..Announced(a)] <==> Shortest(a, b, c)
  {
    var n, w := Announced(a), Utf(UcsOf(a, b, c));
    FirstOf(w, a, b, c, n);
    if n == 2 {
      UtfOfTwo(a, b, c);
    } else if n == 3 {
      Fields(a & 0x0F, b & 0x3F, c & 0x3F);
      UtfOfThree(UcsOf(a, b, c), a & 0x0F, b & 0x3F, c & 0x3F, a, b, c);
    }
  }

  /** The overlong form C0 AF is read as a slash, which is written as one byte. */
  lemma OverlongExample()
    ensures UcsOf(0xC0, 0xAF, 0) == 0x2F && Utf(0x2F) == [0x2F] && !Shortest(0xC0, 0xAF, 0)
  {
  }

  /** The prohibited forms are exactly those that are read as surrogates. */
  lemma SurrogatesPass(a: Byte, b: Byte, c: Byte)
    requires Shortest(a, b, c)
    ensures a == 0xED && b >= 0xA0 <==> 0xD800 <= UcsOf(a, b, c) <= 0xDFFF
  {
    if a >= 0xE0 {
      Fields(a & 0x0F, b & 0x3F, c & 0x3F);
    }
  }

  lemma SurrogateExample()
    ensures Shortest(0xED, 0xA0, 0x80) && UcsOf(0xED, 0xA0, 0x80) == 0xD800 && Utf(0xD800) == [0xED, 0xA0, 0x80]
  {
  }

  /** The examples of the source, and the ends of the ranges of section 3 of RFC 3629. */
  lemma Utf8Examples()
    ensures Utf(0x24) == [0x24] && Utf(0xA2) == [0xC2, 0xA2] && Utf(0x20AC) == [0xE2, 0x82, 0xAC]
    ensures Utf(0x7F) == [0x7F] && Utf(0x80) == [0xC2, 0x80] && Utf(0x7FF) == [0xDF, 0xBF]
    ensures Utf(0x800) == [0xE0, 0xA0, 0x80] && Utf(0xFFFF) == [0xEF, 0xBF, 0xBF]
  {
  }

  lemma FirstOf(w: seq<Byte>, a: Byte, b: Byte, c: Byte, n: nat)
    requires 1 <= n <= 3
    ensures w == [a, b, c][..n] <==> |w| == n && w[0] == a && (n > 1 ==> w[1] == b) && (n > 2 ==> w[2] == c)
  {
  }

  lemma UtfOfTwo(a: Byte, b: Byte, c: Byte)
    requires Announced(a) == 2
    ensures var w := Utf(UcsOf(a, b, c)); |w| == 2 && w[0] == a && w[1] == b <==> Shortest(a, b, c)
  {
  }

  /** The three fields of a three-byte form stay apart. */
  lemma Fields(x: Byte, y: Byte, z: Byte)
    requires x < 0x10 && y < 0x40 && z < 0x40
    ensures var u := Three(x, y, z); u >> 12 == x as Ucs && (u >> 6) & 0x3F == y as Ucs && u & 0x3F == z as Ucs
    ensures Three(x, y, z) & 0xF800 == 0 <==> x == 0 && y < 0x20
  {
  }

  lemma ShortestOfThree(a: Byte, b: Byte, c: Byte)
    requires a >> 5 == 7
    ensures var x, y, z := a & 0x0F, b & 0x3F, c & 0x3F;
            && x < 0x10 && y < 0x40 && z < 0x40
            && (Shortest(a, b, c) <==> 0xE0 | x == a && 0x80 | y == b && 0x80 | z == c && !(x == 0 && y < 0x20))
  {
  }

  lemma WrittenAsThree(u: Ucs, x: Byte, y: Byte, z: Byte)
    requires x < 0x10 && y < 0x40 && z < 0x40
    requires u >> 12 == x as Ucs && (u >> 6) & 0x3F == y as Ucs && u & 0x3F == z as Ucs
    requires u & 0xF800 == 0 <==> x == 0 && y < 0x20
    ensures if x == 0 && y < 0x20 then |Utf(u)| < 3 else Utf(u) == [0xE0 | x, 0x80 | y, 0x80 | z]
  {
  }

  lemma SameThree(w: seq<Byte>, a: Byte, b: Byte, c: Byte, p: Byte, q: Byte, r: Byte, short: bool)
    requires if short then |w| < 3 else w == [p, q, r]
    ensures |w| == 3 && w[0] == a && w[1] == b && w[2] == c <==> p == a && q == b && r == c && !short
  {
  }

  lemma UtfOfFields(u: Ucs, x: Byte, y: Byte, z: Byte, a: Byte, b: Byte, c: Byte)
    requires x < 0x10 && y < 0x40 && z < 0x40
    requires u >> 12 == x as Ucs && (u >> 6) & 0x3F == y as Ucs && u & 0x3F == z as Ucs
    requires u & 0xF800 == 0 <==> x == 0 && y < 0x20
    ensures var w := Utf(u);
            |w| == 3 && w[0] == a && w[1] == b && w[2] == c
            <==> 0xE0 | x == a && 0x80 | y == b && 0x80 | z == c && !(x == 0 && y < 0x20)
  {
    WrittenAsThree(u, x, y, z);
    SameThree(Utf(u), a, b, c, 0xE0 | x, 0x80 | y, 0x80 | z, x == 0 && y < 0x20);
  }

  lemma UtfOfThree(u: Ucs, x: Byte, y: Byte, z: Byte, a: Byte, b: Byte, c: Byte)
    requires a >> 5 == 7 && x == a & 0x0F && y == b & 0x3F && z == c & 0x3F
    requires u >> 12 == x as Ucs && (u >> 6) & 0x3F == y as Ucs && u & 0x3F == z as Ucs
    requires u & 0xF800 == 0 <==> x == 0 && y < 0x20
    ensures var w := Utf(u); |w| == 3 && w[0] == a && w[1] == b && w[2] == c <==> Shortest(a, b, c)
  {
    ShortestOfThree(a, b, c);
    UtfOfFields(u, x, y, z, a, b, c);
  }
}
