/** The base32 key reader of util/totp.c: a key given as text is checked, then decoded in place.  The
    encoding is that of section 6 of RFC 4648. */
module Base32 {
  import opened Basics

  const PAD: Byte := 0x3D   // '='
  const BAD: Byte := 0xFF   // -1 in base32_vals

  /** base32_vals: besides the alphabet in both cases it takes 0, 1 and 8 for O, L and B, an opening
      brace for 2, and the pad for zero bits. */
  function Val(c: Byte): Byte {
    if 0x41 <= c <= 0x5A then c - 0x41
    else if 0x61 <= c <= 0x7B then c - 0x61
    else if 0x32 <= c <= 0x37 then c - 0x32 + 26
    else if c == 0x30 then 14
    else if c == 0x31 then 11
    else if c == 0x38 then 1
    else if c == PAD then 0
    else BAD
  }

  // ---------------------------------------------------------------------------
  // Checking.

  function FirstPad(s: seq<Byte>): (p: nat)
    ensures p <= |s| && (forall i :: 0 <= i < p ==> s[i] != PAD) && (p < |s| ==> s[p] == PAD)
  {
    if s == [] then 0 else if s[0] == PAD then 0 else 1 + FirstPad(s[1..])
  }

  /** Whole groups of eight characters with a value, the last one closed by 1, 3, 4 or 6 pads or none. */
  ghost predicate ValidKey(s: seq<Byte>) {
    var p := FirstPad(s);
    && |s| % 8 == 0
    && (forall i :: 0 <= i < p ==> Val(s[i]) != BAD)
    && (forall i :: p <= i < |s| ==> s[i] == PAD)
    && |s| - p in {0, 1, 3, 4, 6}
  }

  lemma {:induction false} FirstPadIs(s: seq<Byte>, p: nat)
    requires p <= |s| && (forall i :: 0 <= i < p ==> s[i] != PAD) && (p < |s| ==> s[p] == PAD)
    ensures FirstPad(s) == p
  {
    if p > 0 {
      FirstPadIs(s[1..], p - 1);
    }
  }

  /** The validation loop, over the first len bytes. */
  method Validate(k: array<Byte>, len: nat) returns (ok: bool)
    requires len <= k.Length
    ensures ok <==> ValidKey(k[..len])
  {
    ghost var s := k[..len];
    WholeGroups(len);
    if len % 16 != 0 && len % 16 != 8 {
      return false;
    }
    var pos := 0;
    while pos < len
      invariant 0 <= pos <= len
      invariant forall i :: 0 <= i < pos ==> s[i] != PAD && Val(s[i]) != BAD
    {
      if Val(k[pos]) == BAD {
        BadCharacter(s, pos);
        return false;
      }
      if k[pos] == PAD {
        FirstPadIs(s, pos);
        PadLengths(len, pos);
        if pos % 16 == 0 || pos % 16 == 8 {
          return false;
        }
        if len - pos > 6 {
          return false;
        }
        if !(pos % 8 == 2 || pos % 8 == 4 || pos % 8 == 5 || pos % 8 == 7) {
          return false;
        }
        ok := AllPads(k, pos, len);
        return;
      }
      pos := pos + 1;
    }
    FirstPadIs(s, len);
    return true;
  }

  /** The rest of the text once a pad is met. */
  method AllPads(k: array<Byte>, from: nat, len: nat) returns (ok: bool)
    requires from <= len <= k.Length
    ensures ok <==> forall i :: from <= i < len ==> k[i] == PAD
  {
    var pos := from;
    while pos < len
      invariant from <= pos <= len && forall i :: from <= i < pos ==> k[i] == PAD
    {
      if k[pos] != PAD {
        return false;
      }
      pos := pos + 1;
    }
    return true;
  }

  lemma WholeGroups(len: nat)
    ensures len % 8 == 0 <==> len % 16 == 0 || len % 16 == 8
  {
  }

  /** The tests made at the first pad, at p, of whole groups. */
  lemma PadLengths(len: nat, p: nat)
    requires p < len && (len % 16 == 0 || len % 16 == 8)
    ensures len - p in {0, 1, 3, 4, 6}
            <==> !(p % 16 == 0 || p % 16 == 8) && len - p <= 6 && (p % 8 == 2 || p % 8 == 4 || p % 8 == 5 || p % 8 == 7)
  {
    WholeGroups(len);
    WholeGroups(p);
    var whole, q, r := len / 8, p / 8, p % 8;
    assert len - p == 8 * (whole - q) - r;
  }

  lemma BadCharacter(s: seq<Byte>, i: nat)
    requires i < |s| && Val(s[i]) == BAD
    ensures !ValidKey(s)
  {
    assert Val(PAD) == 0;
    assert i < FirstPad(s) || i >= FirstPad(s);
  }

  // ---------------------------------------------------------------------------
  // Decoding.

  // The five bytes of a group, from the values of the characters that carry their bits; the parts of
  // each expression are stored one after the other.

  function High0(a: Byte): Byte { (a << 3) & 0xF8 }
  function Low0(b: Byte): Byte { (b >> 2) & 0x07 }
  function High1(a: Byte): Byte { (a << 6) & 0xC0 }
  function Mid1(b: Byte): Byte { (b << 1) & 0x3E }
  function Low1(c: Byte): Byte { (c >> 4) & 0x01 }
  function High2(a: Byte): Byte { (a << 4) & 0xF0 }
  function Low2(b: Byte): Byte { (b >> 1) & 0x0F }
  function High3(a: Byte): Byte { (a << 7) & 0x80 }
  function Mid3(b: Byte): Byte { (b << 2) & 0x7C }
  function Low3(c: Byte): Byte { (c >> 3) & 0x03 }
  function High4(a: Byte): Byte { (a << 5) & 0xE0 }
  function Low4(b: Byte): Byte { (b >> 0) & 0x1F }

  function Or(a: Byte, b: Byte): Byte { a | b }

  function Byte0(s: seq<Byte>): Byte
    requires |s| == 8
  {
    Or(High0(Val(s[0])), Low0(Val(s[1])))
  }

  function Byte1(s: seq<Byte>): Byte
    requires |s| == 8
  {
    Or(Or(High1(Val(s[1])), Mid1(Val(s[2]))), Low1(Val(s[3])))
  }

  function Byte2(s: seq<Byte>): Byte
    requires |s| == 8
  {
    Or(High2(Val(s[3])), Low2(Val(s[4])))
  }

  function Byte3(s: seq<Byte>): Byte
    requires |s| == 8
  {
    Or(Or(High3(Val(s[4])), Mid3(Val(s[5]))), Low3(Val(s[6])))
  }

  function Byte4(s: seq<Byte>): Byte
    requires |s| == 8
  {
    Or(High4(Val(s[6])), Low4(Val(s[7])))
  }

  function Bytes(s: seq<Byte>): (r: seq<Byte>)
    requires |s| == 8
    ensures |r| == 5
  {
    [Byte0(s), Byte1(s), Byte2(s), Byte3(s), Byte4(s)]
  }

  /** How many bytes a group carries, from the place of its first pad. */
  function Count(s: seq<Byte>): (n: nat)
    requires |s| == 8
    ensures 1 <= n <= 5
  {
    if s[2] == PAD then 1 else if s[4] == PAD then 2 else if s[5] == PAD then 3 else if s[7] == PAD then 4 else 5
  }

  /** The bytes of one group of eight characters. */
  function Group(s: seq<Byte>): (r: seq<Byte>)
    requires |s| == 8
    ensures 1 <= |r| <= 5
  {
    Bytes(s)[..Count(s)]
  }

  type GroupCode = seq<Byte> -> seq<Byte>

  /** g decodes groups; the proofs about whole keys look no further into a group than this. */
  ghost predicate IsGroup(g: GroupCode) {
    forall s {:trigger Group(s)} :: |s| == 8 ==> g(s) == Group(s)
  }

  /** Group after group, up to the first that is padded. */
  function GroupsOf(g: GroupCode, s: seq<Byte>): seq<Byte>
    decreases |s|
  {
    if |s| < 8 then [] else if |g(s[..8])| < 5 then g(s[..8]) else g(s[..8]) + GroupsOf(g, s[8..])
  }

  function Grouping(): (g: GroupCode)
    ensures IsGroup(g)
  {
    s => if |s| == 8 then Group(s) else []
  }

  function Decoded(s: seq<Byte>): seq<Byte> {
    GroupsOf(Grouping(), s)
  }

  // One byte of the key, built in its place from the characters at pos.

  method Put0(k: array<Byte>, at: nat, pos: nat, ghost s: seq<Byte>)
    requires at <= pos && pos + 8 <= k.Length && |s| == 8 && k[pos] == s[0] && k[pos + 1] == s[1]
    modifies k
    ensures k[at] == Byte0(s) && forall i :: 0 <= i < k.Length && i != at ==> k[i] == old(k[i])
  {
    k[at] := High0(Val(k[pos]));
    k[at] := Or(k[at], Low0(Val(k[pos + 1])));
  }

  method Put1(k: array<Byte>, at: nat, pos: nat, ghost s: seq<Byte>)
    requires at <= pos + 1 && pos + 8 <= k.Length && |s| == 8
    requires k[pos + 1] == s[1] && k[pos + 2] == s[2] && k[pos + 3] == s[3]
    modifies k
    ensures k[at] == Byte1(s) && forall i :: 0 <= i < k.Length && i != at ==> k[i] == old(k[i])
  {
    k[at] := High1(Val(k[pos + 1]));
    k[at] := Or(k[at], Mid1(Val(k[pos + 2])));
    k[at] := Or(k[at], Low1(Val(k[pos + 3])));
  }

  method Put2(k: array<Byte>, at: nat, pos: nat, ghost s: seq<Byte>)
    requires at <= pos + 2 && pos + 8 <= k.Length && |s| == 8 && k[pos + 3] == s[3] && k[pos + 4] == s[4]
    modifies k
    ensures k[at] == Byte2(s) && forall i :: 0 <= i < k.Length && i != at ==> k[i] == old(k[i])
  {
    k[at] := High2(Val(k[pos + 3]));
    k[at] := Or(k[at], Low2(Val(k[pos + 4])));
  }

  method Put3(k: array<Byte>, at: nat, pos: nat, ghost s: seq<Byte>)
    requires at <= pos + 3 && pos + 8 <= k.Length && |s| == 8
    requires k[pos + 4] == s[4] && k[pos + 5] == s[5] && k[pos + 6] == s[6]
    modifies k
    ensures k[at] == Byte3(s) && forall i :: 0 <= i < k.Length && i != at ==> k[i] == old(k[i])
  {
    k[at] := High3(Val(k[pos + 4]));
    k[at] := Or(k[at], Mid3(Val(k[pos + 5])));
    k[at] := Or(k[at], Low3(Val(k[pos + 6])));
  }

  method Put4(k: array<Byte>, at: nat, pos: nat, ghost s: seq<Byte>)
    requires at <= pos + 4 && pos + 8 <= k.Length && |s| == 8 && k[pos + 6] == s[6] && k[pos + 7] == s[7]
    modifies k
    ensures k[at] == Byte4(s) && forall i :: 0 <= i < k.Length && i != at ==> k[i] == old(k[i])
  {
    k[at] := High4(Val(k[pos + 6]));
    k[at] := Or(k[at], Low4(Val(k[pos + 7])));
  }

  /** One turn of the decoding loop.  The bytes are written no further than the characters already
      used, even where reading and writing start at the same place. */
  method DecodeGroup(k: array<Byte>, keylen: nat, pos: nat, ghost s: seq<Byte>) returns (n: nat)
    requires keylen <= pos && pos + 8 <= k.Length && |s| == 8
    requires k[pos] == s[0] && k[pos + 1] == s[1] && k[pos + 2] == s[2] && k[pos + 3] == s[3]
    requires k[pos + 4] == s[4] && k[pos + 5] == s[5] && k[pos + 6] == s[6] && k[pos + 7] == s[7]
    modifies k
    ensures n == Count(s) && k[keylen] == Byte0(s)
    ensures n > 1 ==> k[keylen + 1] == Byte1(s)
    ensures n > 2 ==> k[keylen + 2] == Byte2(s)
    ensures n > 3 ==> k[keylen + 3] == Byte3(s)
    ensures n > 4 ==> k[keylen + 4] == Byte4(s)
    ensures forall i :: (0 <= i < keylen || pos + 8 <= i < k.Length) ==> k[i] == old(k[i])
  {
    Put0(k, keylen, pos, s);
    if k[pos + 2] == PAD {
      return 1;
    }
    Put1(k, keylen + 1, pos, s);
    if k[pos + 4] == PAD {
      return 2;
    }
    Put2(k, keylen + 2, pos, s);
    if k[pos + 5] == PAD {
      return 3;
    }
    Put3(k, keylen + 3, pos, s);
    if k[pos + 7] == PAD {
      return 4;
    }
    Put4(k, keylen + 4, pos, s);
    return 5;
  }

  /** The same, on the key so far and the text left. */
  method TakeGroup(k: array<Byte>, keylen: nat, pos: nat, len: nat, ghost g: GroupCode) returns (n: nat)
    requires keylen <= pos && pos + 8 <= len <= k.Length && IsGroup(g)
    modifies k
    ensures n == |g(old(k[pos..pos + 8]))| && 1 <= n <= 5
    ensures k[..keylen + n] == old(k[..keylen]) + g(old(k[pos..pos + 8]))
    ensures k[pos + 8..len] == old(k[pos + 8..len])
  {
    ghost var s := k[pos..pos + 8];
    n := DecodeGroup(k, keylen, pos, s);
    assert g(s) == Group(s);
  }

  /** Between two turns of the loop: more to come, or the key is complete. */
  ghost predicate Decoding(g: GroupCode, was: seq<Byte>, k: array<Byte>, keylen: nat, pos: nat, len: nat, more: bool)
    reads k
  {
    && pos <= len < k.Length && keylen <= len && pos % 8 == len % 8 == 0
    && if more then keylen <= pos && Halfway(g, was, k[..keylen], k[pos..len]) else k[..keylen] == was
  }

  /** And on what has been decoded so far. */
  method DecodeTurn(k: array<Byte>, keylen: nat, pos: nat, len: nat, ghost g: GroupCode, ghost was: seq<Byte>)
      returns (keylen': nat, pos': nat, more: bool)
    requires Decoding(g, was, k, keylen, pos, len, true) && pos + 8 <= len && IsGroup(g)
    modifies k
    ensures Decoding(g, was, k, keylen', pos', len, more) && (more ==> pos' == pos + 8)
  {
    assert k[pos..len][..8] == k[pos..pos + 8] && k[pos..len][8..] == k[pos + 8..len];
    HalfwayNext(g, was, k[..keylen], k[pos..len]);
    var n := TakeGroup(k, keylen, pos, len, g);
    keylen', pos', more := keylen + n, pos, n == 5;
    if more {
      pos' := pos + 8;
    }
  }

  /** The decoding loop: the key and its length, followed by a NUL. */
  method Decode(k: array<Byte>, len: nat, ghost g: GroupCode) returns (keylen: nat)
    requires 8 <= len < k.Length && len % 8 == 0 && IsGroup(g)
    modifies k
    ensures keylen == |GroupsOf(g, old(k[..len]))| <= len
    ensures k[..keylen] == GroupsOf(g, old(k[..len])) && k[keylen] == 0
  {
    ghost var was := GroupsOf(g, k[..len]);
    keylen := 0;
    var pos: nat := 0;
    var more := true;
    assert k[..0] + was == was && k[0..len] == k[..len];
    while more && pos <= len - 8
      invariant Decoding(g, was, k, keylen, pos, len, more)
      decreases more, len - pos
    {
      keylen, pos, more := DecodeTurn(k, keylen, pos, len, g, was);
    }
    if more {
      HalfwayEnds(g, was, k[..keylen], k[pos..len]);
    }
    k[keylen] := 0;
  }

  /** was is what has been decoded so far, followed by what the text left decodes to. */
  ghost predicate Halfway(g: GroupCode, was: seq<Byte>, done: seq<Byte>, rest: seq<Byte>) {
    was == done + GroupsOf(g, rest)
  }

  lemma HalfwayNext(g: GroupCode, was: seq<Byte>, done: seq<Byte>, rest: seq<Byte>)
    requires |rest| >= 8 && Halfway(g, was, done, rest)
    ensures var more := g(rest[..8]);
            if |more| < 5 then was == done + more else Halfway(g, was, done + more, rest[8..])
  {
    if |g(rest[..8])| >= 5 {
      assert done + (g(rest[..8]) + GroupsOf(g, rest[8..])) == (done + g(rest[..8])) + GroupsOf(g, rest[8..]);
    }
  }

  lemma HalfwayEnds(g: GroupCode, was: seq<Byte>, done: seq<Byte>, rest: seq<Byte>)
    requires |rest| < 8 && Halfway(g, was, done, rest)
    ensures was == done
  {
    assert done + [] == done;
  }

  lemma GroupCount(s: seq<Byte>)
    requires |s| == 8 && ValidKey(s)
    ensures Count(s) == FirstPad(s) * 5 / 8
  {
    var p := FirstPad(s);
    assert p in {8, 7, 5, 4, 2};
  }

  lemma ValidTail(s: seq<Byte>)
    requires |s| > 8 && ValidKey(s)
    ensures ValidKey(s[..8]) && FirstPad(s[..8]) == 8 && ValidKey(s[8..]) && FirstPad(s[8..]) + 8 == FirstPad(s)
  {
    var p := FirstPad(s);
    MoreThanOneGroup(|s|);
    FirstPadIs(s[..8], 8);
    FirstPadIs(s[8..], p - 8);
    ValidHead(s, s[..8]);
    ValidRest(s, s[8..], p);
  }

  lemma MoreThanOneGroup(n: nat)
    requires n > 8 && n % 8 == 0
    ensures n >= 16 && (n - 8) % 8 == 0
  {
  }

  lemma ValidHead(s: seq<Byte>, head: seq<Byte>)
    requires |s| >= 8 && head == s[..8] && FirstPad(head) == 8 && FirstPad(s) >= 8 && ValidKey(s)
    ensures ValidKey(head)
  {
  }

  lemma ValidRest(s: seq<Byte>, tail: seq<Byte>, p: nat)
    requires |s| >= 8 && tail == s[8..] && |tail| % 8 == 0
    requires p == FirstPad(s) && p >= 8 && FirstPad(tail) == p - 8 && ValidKey(s)
    ensures ValidKey(tail)
  {
    assert |tail| - (p - 8) == |s| - p;
  }

  /** Every valid key gives as many bytes as its characters before the pads hold whole, whatever bits
      are left over. */
  lemma {:induction false} KeyLength(g: GroupCode, s: seq<Byte>)
    requires IsGroup(g) && ValidKey(s)
    ensures |GroupsOf(g, s)| == FirstPad(s) * 5 / 8
    decreases |s|
  {
    if |s| == 8 {
      assert s[..8] == s && s[8..] == [] && g(s) == Group(s);
      GroupCount(s);
    } else if |s| > 8 {
      ValidTail(s);
      GroupCount(s[..8]);
      assert g(s[..8]) == Group(s[..8]);
      KeyLength(g, s[8..]);
    }
  }

  // ---------------------------------------------------------------------------
  // Encoding, section 6 of RFC 4648.

  function Char(v: Byte): Byte {
    if v < 26 then v + 0x41 else v - 26 + 0x32
  }

  lemma CharHasValue(v: Byte)
    requires v < 32
    ensures Val(Char(v)) == v && Char(v) != PAD
  {
  }

  // Eight symbols of five bits from five bytes.

  function Sym0(b0: Byte): (v: Byte) ensures v < 32 { b0 >> 3 }
  function Sym1(b0: Byte, b1: Byte): (v: Byte) ensures v < 32 { ((b0 & 0x07) << 2) | (b1 >> 6) }
  function Sym2(b1: Byte): (v: Byte) ensures v < 32 { (b1 >> 1) & 0x1F }
  function Sym3(b1: Byte, b2: Byte): (v: Byte) ensures v < 32 { ((b1 & 0x01) << 4) | (b2 >> 4) }
  function Sym4(b2: Byte, b3: Byte): (v: Byte) ensures v < 32 { ((b2 & 0x0F) << 1) | (b3 >> 7) }
  function Sym5(b3: Byte): (v: Byte) ensures v < 32 { (b3 >> 2) & 0x1F }
  function Sym6(b3: Byte, b4: Byte): (v: Byte) ensures v < 32 { ((b3 & 0x03) << 3) | (b4 >> 5) }
  function Sym7(b4: Byte): (v: Byte) ensures v < 32 { b4 & 0x1F }

  /** How many characters carry bits of n bytes; the rest of the group is padded. */
  function Used(n: nat): nat {
    if n == 1 then 2 else if n == 2 then 4 else if n == 3 then 5 else if n == 4 then 7 else 8
  }

  function At(b: seq<Byte>, i: nat): Byte {
    if i < |b| then b[i] else 0
  }

  function Symbols(b: seq<Byte>): (r: seq<Byte>)
    ensures |r| == 8 && forall i :: 0 <= i < 8 ==> r[i] < 32
  {
    [Sym0(At(b, 0)), Sym1(At(b, 0), At(b, 1)), Sym2(At(b, 1)), Sym3(At(b, 1), At(b, 2)),
     Sym4(At(b, 2), At(b, 3)), Sym5(At(b, 3)), Sym6(At(b, 3), At(b, 4)), Sym7(At(b, 4))]
  }

  function EncodedGroup(b: seq<Byte>): (r: seq<Byte>)
    requires 1 <= |b| <= 5
    ensures |r| == 8
  {
    seq(8, i requires 0 <= i < 8 => if i < Used(|b|) then Char(Symbols(b)[i]) else PAD)
  }

  /** Five bytes at a time; the last group may be short. */
  function GroupsFor(e: GroupCode, b: seq<Byte>): seq<Byte>
    decreases |b|
  {
    if b == [] then [] else if |b| <= 5 then e(b) else e(b[..5]) + GroupsFor(e, b[5..])
  }

  function Ungrouping(): GroupCode {
    b => if 1 <= |b| <= 5 then EncodedGroup(b) else []
  }

  function Encoded(b: seq<Byte>): seq<Byte> {
    GroupsFor(Ungrouping(), b)
  }

  lemma EncodedGroupIs(b: seq<Byte>)
    requires 1 <= |b| <= 5
    ensures var s := EncodedGroup(b);
            && (forall i :: 0 <= i < Used(|b|) ==> s[i] != PAD && Val(s[i]) == Symbols(b)[i])
            && (forall i :: Used(|b|) <= i < 8 ==> s[i] == PAD)
  {
    forall i | 0 <= i < Used(|b|)
      ensures EncodedGroup(b)[i] != PAD && Val(EncodedGroup(b)[i]) == Symbols(b)[i]
    {
      CharHasValue(Symbols(b)[i]);
    }
  }

  lemma Bits0(b0: Byte, b1: Byte)
    ensures Or(High0(Sym0(b0)), Low0(Sym1(b0, b1))) == b0
  {
  }

  lemma Bits1(b0: Byte, b1: Byte, b2: Byte)
    ensures Or(Or(High1(Sym1(b0, b1)), Mid1(Sym2(b1))), Low1(Sym3(b1, b2))) == b1
  {
  }

  lemma Bits2(b1: Byte, b2: Byte, b3: Byte)
    ensures Or(High2(Sym3(b1, b2)), Low2(Sym4(b2, b3))) == b2
  {
  }

  lemma Bits3(b2: Byte, b3: Byte, b4: Byte)
    ensures Or(Or(High3(Sym4(b2, b3)), Mid3(Sym5(b3))), Low3(Sym6(b3, b4))) == b3
  {
  }

  lemma Bits4(b3: Byte, b4: Byte)
    ensures Or(High4(Sym6(b3, b4)), Low4(Sym7(b4))) == b4
  {
  }

  /** The bits of a group come back from its symbols. */
  lemma BytesComeBack(b: seq<Byte>, s: seq<Byte>)
    requires 1 <= |b| <= 5 && |s| == 8
    requires forall i :: 0 <= i < Used(|b|) ==> Val(s[i]) == Symbols(b)[i]
    ensures Byte0(s) == b[0]
    ensures |b| > 1 ==> Byte1(s) == b[1]
    ensures |b| > 2 ==> Byte2(s) == b[2]
    ensures |b| > 3 ==> Byte3(s) == b[3]
    ensures |b| > 4 ==> Byte4(s) == b[4]
  {
    Bits0(At(b, 0), At(b, 1));
    Bits1(At(b, 0), At(b, 1), At(b, 2));
    Bits2(At(b, 1), At(b, 2), At(b, 3));
    Bits3(At(b, 2), At(b, 3), At(b, 4));
    Bits4(At(b, 3), At(b, 4));
  }

  lemma GroupRoundTrip(b: seq<Byte>)
    requires 1 <= |b| <= 5
    ensures Group(EncodedGroup(b)) == b
  {
    var s := EncodedGroup(b);
    EncodedGroupIs(b);
    BytesComeBack(b, s);
    assert Count(s) == |b|;
  }

  ghost predicate Undoes(g: GroupCode, e: GroupCode) {
    forall b {:trigger e(b)} :: 1 <= |b| <= 5 ==> |e(b)| == 8 && g(e(b)) == b
  }

  lemma {:induction false} GroupsUndo(g: GroupCode, e: GroupCode, b: seq<Byte>)
    requires Undoes(g, e)
    ensures GroupsOf(g, GroupsFor(e, b)) == b && |GroupsFor(e, b)| % 8 == 0
    decreases |b|
  {
    if b == [] {
    } else if |b| <= 5 {
      assert e(b)[..8] == e(b) && e(b)[8..] == [];
    } else {
      GroupsUndo(g, e, b[5..]);
      Halves(e(b[..5]), GroupsFor(e, b[5..]));
      assert b[..5] + b[5..] == b;
    }
  }

  /** Decoding undoes encoding. */
  lemma DecodeEncode(b: seq<Byte>)
    ensures Decoded(Encoded(b)) == b && |Encoded(b)| % 8 == 0
  {
    GroupingUndoes(Grouping(), Ungrouping());
    GroupsUndo(Grouping(), Ungrouping(), b);
  }

  lemma GroupingUndoes(g: GroupCode, e: GroupCode)
    requires IsGroup(g) && forall c {:trigger e(c)} :: 1 <= |c| <= 5 ==> e(c) == EncodedGroup(c)
    ensures Undoes(g, e)
  {
    forall c: seq<Byte> | 1 <= |c| <= 5
      ensures |e(c)| == 8 && g(e(c)) == c
    {
      GroupRoundTrip(c);
      assert e(c) == EncodedGroup(c);
      assert g(e(c)) == Group(e(c));
    }
  }

  // What the characters stand for.

  /** The alphabet of section 6 of RFC 4648: A to Z, then 2 to 7. */
  lemma AlphabetIs(v: Byte)
    requires v < 32
    ensures v < 26 ==> Char(v) == 0x41 + v
    ensures v >= 26 ==> Char(v) == 0x32 + (v - 26)
    ensures Val(Char(v)) == v
  {
  }

  /** The letter that a character stands for: the lower-case ones for themselves, 0, 1 and 8 for O, L and B,
      and the opening brace for 2. */
  function Letter(c: Byte): Byte {
    if 0x61 <= c <= 0x7A then c - 0x20
    else if c == 0x30 then 0x4F
    else if c == 0x31 then 0x4C
    else if c == 0x38 then 0x42
    else if c == 0x7B then 0x32
    else c
  }

  /** Nothing else is accepted but the alphabet and the pad. */
  lemma AcceptedIff(c: Byte)
    ensures Val(c) != BAD <==> 0x41 <= Letter(c) <= 0x5A || 0x32 <= Letter(c) <= 0x37 || c == 0x3D
    ensures Val(Letter(c)) == Val(c) && (Letter(c) == 0x3D <==> c == 0x3D)
  {
  }

  predicate Spelled(s: seq<Byte>, t: seq<Byte>) {
    |s| == |t| && forall i :: 0 <= i < |s| ==> t[i] == Letter(s[i])
  }

  /** Texts of which one spells the other in upper case are accepted alike, and decoded alike. */
  lemma SpellingDoesNotMatter(s: seq<Byte>, t: seq<Byte>)
    requires Spelled(s, t)
    ensures ValidKey(s) <==> ValidKey(t)
    ensures Decoded(s) == Decoded(t)
  {
    var p := FirstPad(s);
    forall i | 0 <= i < |s|
      ensures Val(t[i]) == Val(s[i]) && (t[i] == PAD <==> s[i] == PAD)
    {
      AcceptedIff(s[i]);
    }
    FirstPadIs(t, p);
    ValidAlike(s, t, p);
    SpelledGroups(Grouping());
    GroupsAlike(Grouping(), s, t);
  }

  lemma ValidAlike(s: seq<Byte>, t: seq<Byte>, p: nat)
    requires |s| == |t| && p == FirstPad(s) == FirstPad(t)
    requires forall i :: 0 <= i < |s| ==> Val(t[i]) == Val(s[i]) && (t[i] == PAD <==> s[i] == PAD)
    ensures ValidKey(s) <==> ValidKey(t)
  {
  }

  /** g takes a group and its spelling for the same. */
  ghost predicate Alike(g: GroupCode) {
    forall s, t {:trigger g(s), g(t)} :: |s| == 8 && Spelled(s, t) ==> g(s) == g(t)
  }

  lemma SpelledGroups(g: GroupCode)
    requires IsGroup(g)
    ensures Alike(g)
  {
    forall s: seq<Byte>, t: seq<Byte> | |s| == 8 && Spelled(s, t)
      ensures g(s) == g(t)
    {
      GroupSpelled(s, t);
      assert g(s) == Group(s) && g(t) == Group(t);
    }
  }

  lemma GroupSpelled(s: seq<Byte>, t: seq<Byte>)
    requires |s| == 8 && Spelled(s, t)
    ensures Group(s) == Group(t)
  {
    forall i | 0 <= i < 8
      ensures Val(t[i]) == Val(s[i]) && (t[i] == PAD <==> s[i] == PAD)
    {
      AcceptedIff(s[i]);
    }
    assert Bytes(s) == Bytes(t) && Count(s) == Count(t);
  }

  lemma {:induction false} GroupsAlike(g: GroupCode, s: seq<Byte>, t: seq<Byte>)
    requires Alike(g) && Spelled(s, t)
    ensures GroupsOf(g, s) == GroupsOf(g, t)
    decreases |s|
  {
    if |s| >= 8 {
      assert Spelled(s[..8], t[..8]) && Spelled(s[8..], t[8..]);
      GroupsAlike(g, s[8..], t[8..]);
    }
  }

  /** The test vector foobar of section 10 of RFC 4648: MZXW6YTBOI and six pads. */
  lemma FoobarExample()
    ensures Encoded([0x66, 0x6F, 0x6F, 0x62, 0x61, 0x72])
         == [0x4D, 0x5A, 0x58, 0x57, 0x36, 0x59, 0x54, 0x42,
             0x4F, 0x49, 0x3D, 0x3D, 0x3D, 0x3D, 0x3D, 0x3D]
  {
    var b: seq<Byte> := [0x66, 0x6F, 0x6F, 0x62, 0x61, 0x72];
    assert b[..5] == [0x66, 0x6F, 0x6F, 0x62, 0x61] && b[5..] == [0x72];
    assert EncodedGroup([0x66, 0x6F, 0x6F, 0x62, 0x61]) == [0x4D, 0x5A, 0x58, 0x57, 0x36, 0x59, 0x54, 0x42];
    assert EncodedGroup([0x72]) == [0x4F, 0x49, 0x3D, 0x3D, 0x3D, 0x3D, 0x3D, 0x3D];
    assert Encoded(b) == EncodedGroup(b[..5]) + Encoded(b[5..]);
  }

  // The other way round: which accepted texts are what their bytes encode to.

  /** The bits of the last character before the pads that belong to no byte. */
  function Leftover(p: nat): Byte {
    if p == 2 then 0x03 else if p == 4 then 0x0F else if p == 5 then 0x01 else if p == 7 then 0x07 else 0
  }

  /** Character i of a text with p characters before the pads is the encoding alphabet's own letter for
      its value, and if it is the last, it has no bits left over. */
  predicate CanonicalAt(s: seq<Byte>, p: nat, i: nat)
    requires i < |s|
  {
    Char(Val(s[i])) == s[i] && (i + 1 == p ==> Val(s[i]) & Leftover(p % 8) == 0)
  }

  /** Upper case throughout, no 0, 1, 8 or brace for another letter, and no bits left over. */
  predicate Canonical(s: seq<Byte>) {
    forall i :: 0 <= i < FirstPad(s) ==> CanonicalAt(s, FirstPad(s), i)
  }

  lemma SymBack0(a: Byte, b: Byte)
    requires a < 32 && b < 32
    ensures Sym0(Or(High0(a), Low0(b))) == a
    ensures Sym1(Or(High0(a), Low0(b)), 0) == b & 0x1C
  {
  }

  lemma SymBack1(a: Byte, b: Byte, c: Byte, d: Byte)
    requires a < 32 && b < 32 && c < 32 && d < 32
    ensures Sym1(Or(High0(a), Low0(b)), Or(Or(High1(b), Mid1(c)), Low1(d))) == b
    ensures Sym2(Or(Or(High1(b), Mid1(c)), Low1(d))) == c
    ensures Sym3(Or(Or(High1(b), Mid1(c)), Low1(d)), 0) == d & 0x10
  {
  }

  lemma SymBack3(b: Byte, c: Byte, d: Byte, e: Byte)
    requires b < 32 && c < 32 && d < 32 && e < 32
    ensures Sym3(Or(Or(High1(b), Mid1(c)), Low1(d)), Or(High2(d), Low2(e))) == d
    ensures Sym4(Or(High2(d), Low2(e)), 0) == e & 0x1E
  {
  }

  lemma SymBack4(d: Byte, e: Byte, f: Byte, g: Byte)
    requires d < 32 && e < 32 && f < 32 && g < 32
    ensures Sym4(Or(High2(d), Low2(e)), Or(Or(High3(e), Mid3(f)), Low3(g))) == e
    ensures Sym5(Or(Or(High3(e), Mid3(f)), Low3(g))) == f
    ensures Sym6(Or(Or(High3(e), Mid3(f)), Low3(g)), 0) == g & 0x18
  {
  }

  lemma SymBack6(e: Byte, f: Byte, g: Byte, h: Byte)
    requires e < 32 && f < 32 && g < 32 && h < 32
    ensures Sym6(Or(Or(High3(e), Mid3(f)), Low3(g)), Or(High4(g), Low4(h))) == g
    ensures Sym7(Or(High4(g), Low4(h))) == h
  {
  }

  /** The letter written for a value with some bits cleared is the letter read if and only if it is the
      alphabet's own and those bits were clear. */
  lemma LetterBack(c: Byte, left: Byte)
    requires Val(c) < 32 && left < 32
    ensures Char(Val(c) & (0x1F ^ left)) == c <==> Char(Val(c)) == c && Val(c) & left == 0
  {
    var v, w := Val(c), Val(c) & (0x1F ^ left);
    ClearedBits(v, left);
    CharHasValue(v);
    CharHasValue(w);
  }

  lemma ClearedBits(v: Byte, left: Byte)
    requires v < 32 && left < 32
    ensures v & (0x1F ^ left) < 32 && (v & (0x1F ^ left) == v <==> v & left == 0)
  {
  }

  lemma ValIsSmall(c: Byte)
    ensures Val(c) != BAD ==> Val(c) < 32
  {
  }

  /** The first p characters of a group have values of five bits. */
  predicate Small(s: seq<Byte>, p: nat) {
    p <= |s| && forall i :: 0 <= i < p ==> Val(s[i]) < 32
  }

  // The symbols of the first bytes of a group are the values of its characters, but for the bits left
  // over in the last one.

  lemma Symbols1(s: seq<Byte>, r: seq<Byte>)
    requires |s| == 8 && Small(s, 2) && r == Symbols([Byte0(s)])
    ensures r[0] == Val(s[0]) && r[1] == Val(s[1]) & 0x1C
  {
    SymBack0(Val(s[0]), Val(s[1]));
  }

  lemma Symbols2(s: seq<Byte>, r: seq<Byte>)
    requires |s| == 8 && Small(s, 4) && r == Symbols([Byte0(s), Byte1(s)])
    ensures r[0] == Val(s[0]) && r[1] == Val(s[1]) && r[2] == Val(s[2]) && r[3] == Val(s[3]) & 0x10
  {
    SymBack0(Val(s[0]), Val(s[1]));
    SymBack1(Val(s[0]), Val(s[1]), Val(s[2]), Val(s[3]));
  }

  lemma Symbols3(s: seq<Byte>, r: seq<Byte>)
    requires |s| == 8 && Small(s, 5) && r == Symbols([Byte0(s), Byte1(s), Byte2(s)])
    ensures r[0] == Val(s[0]) && r[1] == Val(s[1]) && r[2] == Val(s[2]) && r[3] == Val(s[3]) && r[4] == Val(s[4]) & 0x1E
  {
    SymBack0(Val(s[0]), Val(s[1]));
    SymBack1(Val(s[0]), Val(s[1]), Val(s[2]), Val(s[3]));
    SymBack3(Val(s[1]), Val(s[2]), Val(s[3]), Val(s[4]));
  }

  lemma Symbols4(s: seq<Byte>, r: seq<Byte>)
    requires |s| == 8 && Small(s, 7) && r == Symbols([Byte0(s), Byte1(s), Byte2(s), Byte3(s)])
    ensures r[0] == Val(s[0]) && r[1] == Val(s[1]) && r[2] == Val(s[2]) && r[3] == Val(s[3]) && r[4] == Val(s[4])
    ensures r[5] == Val(s[5]) && r[6] == Val(s[6]) & 0x18
  {
    SymBack0(Val(s[0]), Val(s[1]));
    SymBack1(Val(s[0]), Val(s[1]), Val(s[2]), Val(s[3]));
    SymBack3(Val(s[1]), Val(s[2]), Val(s[3]), Val(s[4]));
    SymBack4(Val(s[3]), Val(s[4]), Val(s[5]), Val(s[6]));
  }

  lemma Symbols5(s: seq<Byte>, r: seq<Byte>)
    requires |s| == 8 && Small(s, 8) && r == Symbols([Byte0(s), Byte1(s), Byte2(s), Byte3(s), Byte4(s)])
    ensures r[0] == Val(s[0]) && r[1] == Val(s[1]) && r[2] == Val(s[2]) && r[3] == Val(s[3]) && r[4] == Val(s[4])
    ensures r[5] == Val(s[5]) && r[6] == Val(s[6]) && r[7] == Val(s[7])
  {
    SymBack0(Val(s[0]), Val(s[1]));
    SymBack1(Val(s[0]), Val(s[1]), Val(s[2]), Val(s[3]));
    SymBack3(Val(s[1]), Val(s[2]), Val(s[3]), Val(s[4]));
    SymBack4(Val(s[3]), Val(s[4]), Val(s[5]), Val(s[6]));
    SymBack6(Val(s[4]), Val(s[5]), Val(s[6]), Val(s[7]));
  }

  /** Character i of a group as it is written again. */
  function Rewritten(s: seq<Byte>, p: nat, i: nat): Byte
    requires i < |s|
  {
    Val(s[i]) & (0x1F ^ (if i + 1 == p then Leftover(p) else 0))
  }

  lemma SymbolsAre(s: seq<Byte>, r: seq<Byte>)
    requires |s| == 8 && ValidKey(s) && r == Symbols(Group(s))
    ensures Used(|Group(s)|) == FirstPad(s) && FirstPad(s) >= 2
    ensures forall i :: 0 <= i < FirstPad(s) ==> r[i] == Rewritten(s, FirstPad(s), i)
  {
    var p := FirstPad(s);
    assert p in {8, 7, 5, 4, 2};
    SmallBefore(s);
    WholeValue(s, p);
    if p == 2 {
      Symbols1(s, r);
    } else if p == 4 {
      Symbols2(s, r);
    } else if p == 5 {
      Symbols3(s, r);
    } else if p == 7 {
      Symbols4(s, r);
    } else {
      Symbols5(s, r);
    }
  }

  lemma SmallBefore(s: seq<Byte>)
    requires ValidKey(s)
    ensures Small(s, FirstPad(s))
  {
    forall i | 0 <= i < FirstPad(s)
      ensures Val(s[i]) < 32
    {
      ValIsSmall(s[i]);
    }
  }

  lemma WholeValue(s: seq<Byte>, p: nat)
    requires Small(s, p)
    ensures forall i :: 0 <= i < p && i + 1 != p ==> Rewritten(s, p, i) == Val(s[i])
    ensures p == 8 ==> Rewritten(s, p, 7) == Val(s[7])
  {
    forall i | 0 <= i < p
      ensures Val(s[i]) & 0x1F == Val(s[i])
    {
      FiveBits(Val(s[i]));
    }
  }

  lemma FiveBits(v: Byte)
    requires v < 32
    ensures v & 0x1F == v && v & (0x1F ^ 0) == v
  {
  }

  lemma LetterAt(s: seq<Byte>, p: nat, i: nat)
    requires i < p <= |s| && p in {2, 4, 5, 7, 8} && Val(s[i]) < 32
    ensures Char(Rewritten(s, p, i)) == s[i] <==> CanonicalAt(s, p, i)
  {
    LeftoverOf(p);
    var left := if i + 1 == p then Leftover(p) else 0;
    LetterBack(s[i], left);
    NoBits(Val(s[i]));
  }

  lemma LeftoverOf(p: nat)
    requires p in {2, 4, 5, 7, 8}
    ensures Leftover(p % 8) == Leftover(p) < 32
  {
  }

  lemma NoBits(v: Byte)
    ensures v & 0 == 0
  {
  }

  lemma EncodedAt(b: seq<Byte>, r: seq<Byte>, i: nat)
    requires 1 <= |b| <= 5 && r == Symbols(b) && i < 8
    ensures EncodedGroup(b)[i] == if i < Used(|b|) then Char(r[i]) else PAD
  {
  }

  /** An accepted group is what its bytes encode to if and only if it is canonical. */
  lemma GroupBackIff(s: seq<Byte>)
    requires |s| == 8 && ValidKey(s)
    ensures EncodedGroup(Group(s)) == s <==> Canonical(s)
  {
    GroupBackFor(s, Group(s), Symbols(Group(s)), FirstPad(s));
  }

  lemma GroupBackFor(s: seq<Byte>, b: seq<Byte>, r: seq<Byte>, p: nat)
    requires |s| == 8 && ValidKey(s) && b == Group(s) && r == Symbols(b) && p == FirstPad(s)
    ensures EncodedGroup(b) == s <==> Canonical(s)
  {
    SymbolsAre(s, r);
    SmallBefore(s);
    PadsOf(s);
    var e := EncodedGroup(b);
    SameAt(e, s);
    forall i | 0 <= i < 8
      ensures e[i] == s[i] <==> (i < p ==> CanonicalAt(s, p, i))
    {
      EncodedAt(b, r, i);
      if i < p {
        LetterAt(s, p, i);
      }
    }
  }

  lemma PadsOf(s: seq<Byte>)
    requires |s| == 8 && ValidKey(s)
    ensures FirstPad(s) in {2, 4, 5, 7, 8} && forall i :: FirstPad(s) <= i < 8 ==> s[i] == PAD
  {
  }

  lemma SameAt<T>(a: seq<T>, b: seq<T>)
    requires |a| == |b|
    ensures a == b <==> forall i {:trigger a[i]} :: 0 <= i < |a| ==> a[i] == b[i]
  {
  }

  /** A text of several groups is canonical if and only if its first group and the rest are. */
  lemma CanonicalSplits(s: seq<Byte>)
    requires |s| > 8 && ValidKey(s)
    ensures Canonical(s) <==> Canonical(s[..8]) && Canonical(s[8..])
  {
    var p, head, tail := FirstPad(s), s[..8], s[8..];
    ValidTail(s);
    MoreThanOneGroup(|s|);
    forall i | 0 <= i < 8
      ensures CanonicalAt(head, 8, i) <==> CanonicalAt(s, p, i)
    {
      HeadLetter(s, head, p, i);
    }
    var q := p - 8;
    forall i {:trigger CanonicalAt(tail, q, i)} | 0 <= i < q
      ensures CanonicalAt(tail, q, i) <==> CanonicalAt(s, p, 8 + i)
    {
      TailLetter(s, tail, p, q, i);
    }
    CanonicalHalves(s, head, tail, p, q);
  }

  lemma HeadLetter(s: seq<Byte>, head: seq<Byte>, p: nat, i: nat)
    requires i < 8 == |head| && p > 8 && |s| >= 8 && head[i] == s[i]
    ensures CanonicalAt(head, 8, i) <==> CanonicalAt(s, p, i)
  {
    assert Leftover(8 % 8) == 0;
    NoBits(Val(s[i]));
  }

  lemma TailLetter(s: seq<Byte>, tail: seq<Byte>, p: nat, q: nat, i: nat)
    requires i < q && p == q + 8 && i < |tail| && 8 + i < |s| && tail[i] == s[8 + i]
    ensures CanonicalAt(tail, q, i) <==> CanonicalAt(s, p, 8 + i)
  {
    assert p % 8 == q % 8;
  }

  lemma CanonicalHalves(s: seq<Byte>, head: seq<Byte>, tail: seq<Byte>, p: nat, q: nat)
    requires p == FirstPad(s) == 8 + q && FirstPad(head) == 8 && FirstPad(tail) == q && |head| == 8
    requires forall i :: 0 <= i < 8 ==> (CanonicalAt(head, 8, i) <==> CanonicalAt(s, p, i))
    requires forall i {:trigger CanonicalAt(tail, q, i)} :: 0 <= i < q ==>
               (CanonicalAt(tail, q, i) <==> CanonicalAt(s, p, 8 + i))
    ensures Canonical(s) <==> Canonical(head) && Canonical(tail)
  {
    if Canonical(head) && Canonical(tail) {
      forall i | 0 <= i < p
        ensures CanonicalAt(s, p, i)
      {
        if i < 8 {
          assert CanonicalAt(head, 8, i);
        } else {
          assert CanonicalAt(tail, q, i - 8);
          assert 8 + (i - 8) == i;
        }
      }
    }
  }

  /** c tells, for accepted texts, group by group whether e undoes g. */
  ghost predicate Tells(g: GroupCode, e: GroupCode, c: seq<Byte> -> bool) {
    && (forall s {:trigger g(s)} :: |s| == 8 && ValidKey(s) ==>
          1 <= |g(s)| <= 5 && (|g(s)| == 5 <==> FirstPad(s) == 8) && |e(g(s))| == 8 && (e(g(s)) == s <==> c(s)))
    && (forall s {:trigger c(s)} :: |s| > 8 && ValidKey(s) ==> (c(s) <==> c(s[..8]) && c(s[8..])))
  }

  lemma {:induction false} GroupsBackIff(g: GroupCode, e: GroupCode, c: seq<Byte> -> bool, s: seq<Byte>)
    requires Tells(g, e, c) && ValidKey(s) && s != []
    ensures GroupsOf(g, s) != []
    ensures GroupsFor(e, GroupsOf(g, s)) == s <==> c(s)
    decreases |s|
  {
    if |s| == 8 {
      assert s[..8] == s && s[8..] == [];
      assert GroupsOf(g, s) == g(s);
    } else {
      ValidTail(s);
      GroupsBackIff(g, e, c, s[8..]);
      var head, rest := g(s[..8]), GroupsOf(g, s[8..]);
      assert |head| == 5;
      Halves(head, rest);
      assert s[..8] + s[8..] == s;
      SameParts(e(head), GroupsFor(e, rest), s[..8], s[8..]);
    }
  }

  /** Encoding gives an accepted text back if and only if it is canonical; other accepted texts are
      decoded, too, to bytes that are encoded differently. */
  lemma EncodeDecode(s: seq<Byte>)
    requires ValidKey(s)
    ensures Encoded(Decoded(s)) == s <==> Canonical(s)
  {
    if s == [] {
      assert FirstPad(s) == 0;
    } else {
      CanonicalTells(Grouping(), Ungrouping(), x => Canonical(x));
      GroupsBackIff(Grouping(), Ungrouping(), x => Canonical(x), s);
    }
  }

  lemma CanonicalTells(g: GroupCode, e: GroupCode, c: seq<Byte> -> bool)
    requires IsGroup(g) && forall b {:trigger e(b)} :: 1 <= |b| <= 5 ==> e(b) == EncodedGroup(b)
    requires forall s {:trigger c(s)} :: c(s) == Canonical(s)
    ensures Tells(g, e, c)
  {
    forall s: seq<Byte> | |s| == 8 && ValidKey(s)
      ensures 1 <= |g(s)| <= 5 && (|g(s)| == 5 <==> FirstPad(s) == 8) && |e(g(s))| == 8 && (e(g(s)) == s <==> c(s))
    {
      GroupBackIff(s);
      GroupCount(s);
      assert g(s) == Group(s);
      assert e(g(s)) == EncodedGroup(g(s));
      assert c(s) == Canonical(s);
    }
    forall s: seq<Byte> | |s| > 8 && ValidKey(s)
      ensures c(s) <==> c(s[..8]) && c(s[8..])
    {
      CanonicalSplits(s);
    }
  }

  /** Lower case is read as upper case, and written as such. */
  lemma LowerCaseExample()
    ensures var s := [0x61, 0x61, PAD, PAD, PAD, PAD, PAD, PAD]; ValidKey(s) && !Canonical(s)
  {
    var s: seq<Byte> := [0x61, 0x61, PAD, PAD, PAD, PAD, PAD, PAD];
    FirstPadIs(s, 2);
    assert !CanonicalAt(s, 2, 0);
  }

  lemma ValidGroup(b: seq<Byte>)
    requires 1 <= |b| <= 5
    ensures ValidKey(EncodedGroup(b)) && FirstPad(EncodedGroup(b)) == Used(|b|)
  {
    EncodedGroupIs(b);
    FirstPadIs(EncodedGroup(b), Used(|b|));
  }

  lemma ValidBehindFull(s: seq<Byte>, t: seq<Byte>)
    requires |s| == 8 && ValidKey(s) && FirstPad(s) == 8 && ValidKey(t)
    ensures ValidKey(s + t)
  {
    var p := FirstPad(t);
    FirstPadIs(s + t, 8 + p);
    forall i | 8 + p <= i < |s + t|
      ensures (s + t)[i] == PAD
    {
      assert (s + t)[i] == t[i - 8];
    }
  }

  ghost predicate ValidGroups(e: GroupCode) {
    forall b {:trigger e(b)} :: 1 <= |b| <= 5 ==> |e(b)| == 8 && ValidKey(e(b)) && (|b| == 5 ==> FirstPad(e(b)) == 8)
  }

  lemma {:induction false} GroupsAreValid(e: GroupCode, b: seq<Byte>)
    requires ValidGroups(e)
    ensures ValidKey(GroupsFor(e, b)) && (b != [] ==> |GroupsFor(e, b)| >= 8)
    decreases |b|
  {
    if |b| > 5 {
      GroupsAreValid(e, b[5..]);
      ValidBehindFull(e(b[..5]), GroupsFor(e, b[5..]));
    }
  }

  /** The padded encoding of any byte string passes the check. */
  lemma EncodedIsValid(b: seq<Byte>)
    ensures ValidKey(Encoded(b)) && (b != [] ==> |Encoded(b)| >= 8)
  {
    forall c: seq<Byte> | 1 <= |c| <= 5
      ensures ValidKey(EncodedGroup(c)) && FirstPad(EncodedGroup(c)) == Used(|c|)
    {
      ValidGroup(c);
    }
    GroupsAreValid(Ungrouping(), b);
  }

  /** The whole program on a non-empty argument: check the text, then decode it in place. */
  method ReadKey(k: array<Byte>, len: nat) returns (ok: bool, keylen: nat)
    requires 0 < len < k.Length
    modifies k
    ensures ok <==> ValidKey(old(k[..len]))
    ensures ok ==> keylen == FirstPad(old(k[..len])) * 5 / 8 <= len
    ensures ok ==> k[..keylen] == Decoded(old(k[..len])) && k[keylen] == 0
    ensures forall b: seq<Byte> :: b != [] && old(k[..len]) == Encoded(b) ==> ok && keylen == |b| && k[..keylen] == b
    ensures !ok ==> k[..] == old(k[..])
  {
    ghost var s := k[..len];
    forall b: seq<Byte> | b != [] && s == Encoded(b)
      ensures ValidKey(s) && Decoded(s) == b
    {
      EncodedIsValid(b);
      DecodeEncode(b);
    }
    keylen := 0;
    ok := Validate(k, len);
    if ok {
      KeyLength(Grouping(), s);
      keylen := Decode(k, len, Grouping());
    }
  }
}
