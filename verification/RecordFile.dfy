/** Files of fixed-size records, in common/sys/record.c.  A file is a sequence of bytes: whole records,
    and possibly the torn beginning of one more.  File locks make each operation atomic. */
module RecordFile {
  import opened Basics


  const CHUNK := 512   // BUFSIZE

  // ---------------------------------------------------------------------------
  // The records of a file.

  function Records(f: seq<Byte>, size: nat): seq<seq<Byte>>
    requires size > 0
    decreases |f|
  {
    if |f| < size then [] else [f[..size]] + Records(f[size..], size)
  }

  function Torn(f: seq<Byte>, size: nat): seq<Byte>
    requires size > 0
    decreases |f|
  {
    if |f| < size then f else Torn(f[size..], size)
  }

  lemma {:induction false} RecordsCount(f: seq<Byte>, size: nat)
    requires size > 0
    ensures size * |Records(f, size)| + |Torn(f, size)| == |f| && |Torn(f, size)| < size
    decreases |f|
  {
    if |f| >= size {
      RecordsCount(f[size..], size);
    }
  }

  /** Behind whole records, more bytes only add records. */
  lemma {:induction false} RecordsConcat(a: seq<Byte>, b: seq<Byte>, size: nat)
    requires size > 0 && Torn(a, size) == []
    ensures Records(a + b, size) == Records(a, size) + Records(b, size) && Torn(a + b, size) == Torn(b, size)
    decreases |a|
  {
    if |a| < size {
      assert a + b == b;
    } else {
      RecordsConcat(a[size..], b, size);
      assert (a + b)[..size] == a[..size] && (a + b)[size..] == a[size..] + b;
      Regroup([a[..size]], Records(a[size..], size), Records(b, size));
    }
  }

  lemma OneRecord(r: seq<Byte>, size: nat)
    requires |r| == size > 0
    ensures Records(r, size) == [r] && Torn(r, size) == []
  {
    assert r[..size] == r && r[size..] == [];
  }

  /** Cutting a file in front of record i, at byte number at. */
  lemma CutAt(f: seq<Byte>, size: nat, i: nat, at: nat)
    requires size > 0 && i <= |Records(f, size)| && at == size * i
    ensures at <= |f|
    ensures Torn(f[..at], size) == [] && Records(f[..at], size) == Records(f, size)[..i]
    ensures Records(f[at..], size) == Records(f, size)[i..] && Torn(f[at..], size) == Torn(f, size)
  {
    PlaceIs(size, i);
    CutAtPlace(f, size, i);
  }

  /** Where record i starts. */
  function Place(size: nat, i: nat): nat {
    if i == 0 then 0 else size + Place(size, i - 1)
  }

  lemma {:induction false} PlaceIs(size: nat, i: nat)
    ensures Place(size, i) == size * i
  {
    if i > 0 {
      PlaceIs(size, i - 1);
      assert size * i == size * (i - 1) + size;
    }
  }

  lemma {:induction false} CutAtPlace(f: seq<Byte>, size: nat, i: nat)
    requires size > 0 && i <= |Records(f, size)|
    ensures var at := Place(size, i);
            && at <= |f|
            && Torn(f[..at], size) == [] && Records(f[..at], size) == Records(f, size)[..i]
            && Records(f[at..], size) == Records(f, size)[i..] && Torn(f[at..], size) == Torn(f, size)
    decreases i
  {
    if i == 0 {
      assert f[..0] == [] && f[0..] == f;
    } else {
      CutAtPlace(f[size..], size, i - 1);
      CutBehind(f, size, i - 1, Place(size, i - 1));
    }
  }

  /** A cut m bytes behind the first record. */
  lemma CutBehind(f: seq<Byte>, size: nat, i: nat, m: nat)
    requires 0 < size && size + m <= |f| && i < |Records(f, size)|
    requires var g := f[size..];
             && Torn(g[..m], size) == [] && Records(g[..m], size) == Records(g, size)[..i]
             && Records(g[m..], size) == Records(g, size)[i..] && Torn(g[m..], size) == Torn(g, size)
    ensures Torn(f[..size + m], size) == [] && Records(f[..size + m], size) == Records(f, size)[..i + 1]
    ensures Records(f[size + m..], size) == Records(f, size)[i + 1..] && Torn(f[size + m..], size) == Torn(f, size)
  {
    var first, g := f[..size], f[size..];
    assert f[..size + m] == first + g[..m] && f[size + m..] == g[m..];
    OneRecord(first, size);
    RecordsConcat(first, g[..m], size);
    assert Records(f, size) == [first] + Records(g, size);
  }

  /** Record i is the i-th stretch of size bytes. */
  lemma RecordIs(f: seq<Byte>, size: nat, i: nat, at: nat)
    requires size > 0 && i < |Records(f, size)| && at == size * i
    ensures at + size <= |f| && Records(f, size)[i] == f[at..at + size]
  {
    CutAt(f, size, i, at);
    var b := f[at..];
    assert Records(b, size)[0] == Records(f, size)[i] && |b| >= size;
    assert b[..size] == f[at..at + size];
  }

  /** The torn tail is what is left behind the last. */
  lemma TornIs(f: seq<Byte>, size: nat, at: nat)
    requires size > 0 && at == size * |Records(f, size)|
    ensures at <= |f| < at + size && Torn(f, size) == f[at..]
  {
    RecordsCount(f, size);
    CutAt(f, size, |Records(f, size)|, at);
    assert |f[at..]| < size;
  }

  // ---------------------------------------------------------------------------
  // What each operation does to the bytes.

  /** write at a position: bytes in between are zero. */
  function Written(f: seq<Byte>, at: nat, s: seq<Byte>): seq<Byte> {
    if at <= |f| then f[..at] + s + (if at + |s| <= |f| then f[at + |s|..] else [])
    else f + seq(at - |f|, _ => 0) + s
  }

  /** The same, byte by byte. */
  lemma WrittenBytes(f: seq<Byte>, at: nat, s: seq<Byte>)
    ensures |Written(f, at, s)| == if at + |s| <= |f| then |f| else at + |s|
    ensures forall k :: 0 <= k < |Written(f, at, s)| ==>
              Written(f, at, s)[k]
              == if at <= k < at + |s| then s[k - at] else if k < |f| then f[k] else 0
  {
  }

  type Guard = (seq<Byte>, seq<Byte>) -> bool

  /** The record that delete_record2 takes number id for. */
  function Numbered(size: nat, id: int): int {
    if size == 1 && id == 0 then 1 else id
  }

  class File {
    var data: seq<Byte>

    /** read of up to n bytes at a position. */
    method ReadAt(at: nat, n: nat) returns (s: seq<Byte>)
      ensures at >= |data| ==> s == []
      ensures at < |data| ==> s == data[at..if at + n < |data| then at + n else |data|]
    {
      if at >= |data| {
        return [];
      }
      s := data[at..if at + n < |data| then at + n else |data|];
    }

    method WriteAt(at: nat, s: seq<Byte>)
      modifies this
      ensures data == Written(old(data), at, s)
    {
      data := if at <= |data| then data[..at] + s + (if at + |s| <= |data| then data[at + |s|..] else [])
              else data + seq(at - |data|, _ => 0) + s;
    }

    /** ftruncate to no more than the present length; a negative length is refused. */
    method Truncate(n: int)
      requires n <= |data|
      modifies this
      ensures data == if n >= 0 then old(data)[..n] else old(data)
    {
      if n >= 0 {
        data := data[..n];
      }
    }

    /** append_record: the new record takes the place of a torn one. */
    method Append(record: seq<Byte>, size: nat) returns (count: nat)
      requires |record| == size > 0
      modifies this
      ensures Records(data, size) == Records(old(data), size) + [record] && Torn(data, size) == []
      ensures count == |Records(data, size)|
    {
      ghost var f := data;
      var fsize := |data|;
      var index := fsize / size;
      RecordsCount(f, size);
      DivUnique(fsize, size, |Records(f, size)|, |Torn(f, size)|);
      CutAt(f, size, index, index * size);
      WriteAt(index * size, record);
      var a := f[..index * size];
      assert data == a + record;
      OneRecord(record, size);
      RecordsConcat(a, record, size);
      count := index + 1;
    }

    /** substitute_record2: with a guard, record id is replaced if it is there and the guard agrees. */
    method Substitute(src: seq<Byte>, dest: seq<Byte>, size: nat, id: int, guard: Option<Guard>) returns (err: int)
      requires |dest| == size > 0
      modifies this
      ensures err == 0 || err == -1
      ensures id < 1 ==> err == -1
      ensures guard.Some? && id >= 1 ==>
                var r := Records(old(data), size);
                err == (if id <= |r| && guard.value(r[id - 1], src) then 0 else -1)
      ensures guard.Some? && err == 0 ==>
                && id <= |Records(old(data), size)|
                && Records(data, size) == Records(old(data), size)[id - 1 := dest] &&
                      Torn(data, size) == Torn(old(data), size)
      ensures guard.None? && id >= 1 ==> err == 0 && data == Written(old(data), size * (id - 1), dest)
      ensures err == -1 ==> data == old(data)
    {
      if id < 1 {
        return -1;
      }
      var offset := size * (id - 1);
      if guard.Some? {
        var p := ReadAt(offset, size);
        RecordRead(data, size, id - 1, p);
        if |p| != size || !guard.value(p, src) {
          return -1;
        }
        ReplaceRecord(data, size, id - 1, offset, dest);
      }
      WriteAt(offset, dest);
      return 0;
    }

    /** A full-sized read at record i is record i, and it is short exactly if there is no such record. */
    static lemma RecordRead(f: seq<Byte>, size: nat, i: nat, p: seq<Byte>)
      requires size > 0
      requires size * i >= |f| ==> p == []
      requires size * i < |f| ==> p == f[size * i..if size * i + size < |f| then size * i + size else |f|]
      ensures |p| == size <==> i < |Records(f, size)|
      ensures i < |Records(f, size)| ==> p == Records(f, size)[i]
    {
      var r, t := Records(f, size), Torn(f, size);
      RecordsCount(f, size);
      if i < |r| {
        CutAt(f, size, i, size * i);
        var b := f[size * i..];
        assert Records(b, size)[0] == b[..size];
        assert b[..size] == f[size * i..size * i + size];
      } else {
        Multiply(size, |r|, i);
      }
    }

    static lemma ReplaceRecord(f: seq<Byte>, size: nat, i: nat, at: nat, dest: seq<Byte>)
      requires |dest| == size > 0 && i < |Records(f, size)| && at == size * i
      ensures at + size <= |f|
      ensures Records(Written(f, at, dest), size) == Records(f, size)[i := dest]
      ensures Torn(Written(f, at, dest), size) == Torn(f, size)
    {
      assert at + size == size * (i + 1);
      CutAt(f, size, i, at);
      CutAt(f, size, i + 1, at + size);
      var a, c := f[..at], f[at + size..];
      WrittenInside(f, at, dest);
      OneRecord(dest, size);
      RecordsConcat(dest, c, size);
      RecordsConcat(a, dest + c, size);
      UpdateIs(Records(f, size), i, dest);
    }

    static lemma WrittenInside(f: seq<Byte>, at: nat, s: seq<Byte>)
      requires at + |s| <= |f|
      ensures Written(f, at, s) == f[..at] + (s + f[at + |s|..])
    {
    }

    static lemma UpdateIs(r: seq<seq<Byte>>, i: nat, x: seq<Byte>)
      requires i < |r|
      ensures r[..i] + ([x] + r[i + 1..]) == r[i := x]
    {
    }

    /** The copying loops: everything behind the gap of k bytes at offset moves down, through a buffer
        of CHUNK bytes, within the one file. */
    method ShiftDown(offset: nat, k: nat)
      requires offset + k <= |data|
      modifies this
      ensures data == old(data)[..offset] + old(data)[offset + k..] + old(data)[|old(data)| - k..]
    {
      ghost var f := data;
      var readsize := |data| - offset - k;
      var d := 0;
      ShiftedEnds(f, offset, k);
      while d < readsize
        invariant 0 <= d <= readsize && data == Shifted(f, offset, k, d)
      {
        d := CopyChunk(offset, k, d, f);
      }
    }

    /** One turn of the copying loop. */
    method CopyChunk(offset: nat, k: nat, d: nat, ghost f: seq<Byte>) returns (d': nat)
      requires offset + k + d < |f| && data == Shifted(f, offset, k, d)
      modifies this
      ensures d < d' && offset + k + d' <= |f| && data == Shifted(f, offset, k, d')
    {
      var buf := ReadAt(offset + k + d, CHUNK);
      ShiftStep(f, offset, k, d, data, buf);
      WriteAt(offset + d, buf);
      d' := d + |buf|;
    }

    static lemma ShiftedEnds(f: seq<Byte>, offset: nat, k: nat)
      requires offset + k <= |f|
      ensures Shifted(f, offset, k, 0) == f
      ensures Shifted(f, offset, k, |f| - offset - k) == f[..offset] + f[offset + k..] + f[|f| - k..]
    {
    }

    /** The file when d bytes have been moved: what is still to be read has not been touched. */
    static ghost function Shifted(f: seq<Byte>, offset: nat, k: nat, d: nat): (r: seq<Byte>)
      requires offset + k + d <= |f|
      ensures |r| == |f| && r[offset + d..] == f[offset + d..]
    {
      f[..offset] + f[offset + k..offset + k + d] + f[offset + d..]
    }

    static lemma ShiftStep(f: seq<Byte>, offset: nat, k: nat, d: nat, now: seq<Byte>, buf: seq<Byte>)
      requires offset + k + d + |buf| <= |f| && now == Shifted(f, offset, k, d)
      requires buf == now[offset + k + d..offset + k + d + |buf|]
      ensures Written(now, offset + d, buf) == Shifted(f, offset, k, d + |buf|)
    {
      var c := |buf|;
      assert buf == now[offset + d..][k..k + c] == f[offset + k + d..offset + k + d + c];
      WrittenInside(now, offset + d, buf);
      assert now[offset + d + c..] == f[offset + d + c..];
      ShiftJoins(f[..offset], f[offset + k..offset + k + d], buf, f[offset + d + c..]);
      assert f[offset + k..offset + k + d + c] == f[offset + k..offset + k + d] + buf;
    }

    static lemma ShiftJoins<T>(a: seq<T>, b: seq<T>, c: seq<T>, e: seq<T>)
      ensures (a + b) + (c + e) == a + (b + c) + e
    {
    }

    /** delete_record2: with a guard, record id is taken out if it is there and the guard agrees;
        without one, the call always fails.  Record 0 of one-byte records is taken for record 1: its
        position is -1, which is also what the refused seek returns, and the file is still at its start. */
    method DeleteGuarded(src: seq<Byte>, size: nat, id: int, guard: Option<Guard>) returns (err: int)
      requires size > 0
      modifies this
      ensures err == 0 || err == -1
      ensures err == -1 ==> data == old(data)
      ensures var r, i := Records(old(data), size), Numbered(size, id);
              err == (if guard.Some? && 1 <= i <= |r| && guard.value(r[i - 1], src) then 0 else -1)
      ensures err == 0 ==>
                var i := Numbered(size, id);
                && Records(data, size) == Records(old(data), size)[..i - 1] + Records(old(data), size)[i..]
                && Torn(data, size) == Torn(old(data), size)
    {
      var length := |data|;
      var offset := size * (id - 1);
      RecordPlace(data, size, id);
      if length - offset < 0 {
        return -1;
      }
      if guard.None? || offset < -1 {
        return -1;
      }
      var at := if offset == -1 then 0 else offset;
      ghost var i := if offset == -1 then 1 else id;
      MinusOne(size, id);
      assert at == size * (i - 1);
      var p := ReadAt(at, size);
      RecordRead(data, size, i - 1, p);
      if |p| != size || !guard.value(p, src) {
        return -1;
      }
      assert at + size == size * i;
      RemoveRecords(data, size, i - 1, 1, at, size);
      CloseGap(at, size);
      return 0;
    }

    static lemma MinusOne(size: nat, id: int)
      requires size > 0
      ensures size * (id - 1) == -1 <==> id == 0 && size == 1
    {
      if id < 0 {
        Multiply(size, 2, 1 - id);
        assert size * (id - 1) == -(size * (1 - id));
      } else if id > 1 {
        Multiply(size, 0, id - 1);
      }
    }

    /** The end of a deletion: copy down, then cut the file off. */
    method CloseGap(offset: nat, k: nat)
      requires offset + k <= |data|
      modifies this
      ensures data == Remaining(old(data), offset, k)
    {
      ghost var f := data;
      ShiftDown(offset, k);
      assert data[..|f| - k] == f[..offset] + f[offset + k..];
      Truncate(|data| - k);
    }

    static lemma RecordPlace(f: seq<Byte>, size: nat, id: int)
      requires size > 0
      ensures 1 <= id <= |Records(f, size)| ==> size * (id - 1) <= |f|
      ensures size * (id - 1) < 0 <==> id < 1
    {
      RecordsCount(f, size);
      if 1 <= id <= |Records(f, size)| {
        Multiply(size, id - 1, |Records(f, size)|);
      }
      if id >= 1 {
        Multiply(size, 0, id - 1);
      } else {
        Multiply(size, 1, 1 - id);
        assert size * (id - 1) == -(size * (1 - id));
      }
    }

    static lemma RemoveRecords(f: seq<Byte>, size: nat, i: nat, num: nat, at: nat, k: nat)
      requires size > 0 && i + num <= |Records(f, size)| && at == size * i && at + k == size * (i + num)
      ensures at + k <= |f|
      ensures var g := Remaining(f, at, k);
              && Records(g, size) == Records(f, size)[..i] + Records(f, size)[i + num..]
              && Torn(g, size) == Torn(f, size)
    {
      CutAt(f, size, i, at);
      CutAt(f, size, i + num, at + k);
      RecordsConcat(f[..at], f[at + k..], size);
    }

    /** delete_records, byte by byte. */
    method DeleteMany(size: nat, id: int, num: nat) returns (err: int)
      requires size > 0
      modifies this
      ensures err == if size * (id - 1) > |old(data)| then -1 else 0
      ensures data == if err == 0 then DeleteBytes(old(data), size * (id - 1), size * num) else old(data)
    {
      var length := |data|;
      var offset, k := size * (id - 1), size * num;
      var locksize := length - offset;
      var readsize := locksize - k;
      if locksize < 0 {
        return -1;
      }
      if readsize > 0 {
        var from, to := Sought(offset + k), Sought(offset);
        ShiftDown(to, from - to);
      }
      Truncate(length - k);
      return 0;
    }
  }

  /** Where a seek from the start of a file leads: one to a negative position is refused. */
  function Sought(at: int): nat {
    if at < 0 then 0 else at
  }

  /** What delete_records leaves: what lies behind the range moves down, if anything does, and the length
      of the range is taken off, if the file is long enough for that. */
  function DeleteBytes(f: seq<Byte>, offset: int, k: nat): seq<Byte>
    requires offset <= |f|
  {
    var from, to := Sought(offset + k), Sought(offset);
    var moved := if offset + k < |f| then f[..to] + f[from..] + f[|f| - (from - to)..] else f;
    if k <= |f| then moved[..|f| - k] else moved
  }

  /** What deleting from offset should leave: what is in front, and what is behind the range. */
  function Remaining(f: seq<Byte>, offset: int, k: nat): seq<Byte>
    requires offset <= |f|
  {
    f[..Sought(offset)] + (if offset + k <= |f| then f[Sought(offset + k)..] else [])
  }

  /** Ranges that delete_records takes out as it should: those inside the file, and some of which nothing
      is cut, because they are longer than the file or empty. */
  predicate RangeOk(length: nat, offset: int, k: nat) {
    if offset >= 0 then offset + k <= length || (offset == length && k > length)
    else k == 0 || (k > length && (k <= -offset || length == 0))
  }

  /** delete_records leaves what it should for exactly these ranges. */
  lemma DeleteBytesIff(f: seq<Byte>, offset: int, k: nat)
    requires offset <= |f|
    ensures DeleteBytes(f, offset, k) == Remaining(f, offset, k) <==> RangeOk(|f|, offset, k)
  {
    if offset >= 0 {
      DeleteInsideIff(f, offset, k);
    } else if k < -offset {
      assert f[..0] + f[0..] + f[|f|..] == f && f[..0] + f[0..] == f;
    } else {
      DeleteInFrontIff(f, -offset, k);
    }
  }

  /** What is left for a range that reaches past the end of the file. */
  lemma DeletePastEnd(f: seq<Byte>, offset: nat, k: nat)
    requires offset <= |f| < offset + k
    ensures DeleteBytes(f, offset, k) == if k <= |f| then f[..|f| - k] else f
  {
  }

  /** What is left for a range that starts d bytes in front of the file. */
  lemma DeleteInFront(f: seq<Byte>, d: int, k: nat)
    requires 0 < d
    ensures k <= |f| && k < d ==> DeleteBytes(f, -d, k) == f[..|f| - k]
    ensures k <= |f| && k >= d ==> DeleteBytes(f, -d, k) == f[k - d..|f| - d]
    ensures k > |f| && d <= k < |f| + d ==> DeleteBytes(f, -d, k) == f[k - d..] + f[|f| - (k - d)..]
    ensures k > |f| && (k < d || k >= |f| + d) ==> DeleteBytes(f, -d, k) == f
  {
    if k < d {
      DeleteAhead(f, d, k);
    } else if k < |f| + d {
      DeleteAcross(f, d, k, k - d);
    }
  }

  /** The range ends in front of the file, too. */
  lemma DeleteAhead(f: seq<Byte>, d: int, k: nat)
    requires 0 <= k < d
    ensures DeleteBytes(f, -d, k) == if k <= |f| then f[..|f| - k] else f
  {
    assert f[..0] + f[0..] + f[|f|..] == f;
  }

  /** The range ends at byte from of the file. */
  lemma DeleteAcross(f: seq<Byte>, d: int, k: nat, from: nat)
    requires 0 < d && k == from + d && from < |f|
    ensures DeleteBytes(f, -d, k) == if k <= |f| then f[from..|f| - d] else f[from..] + f[|f| - from..]
  {
    assert f[..0] + f[from..] + f[|f| - from..] == f[from..] + f[|f| - from..];
    if k <= |f| {
      FrontOfTwo(f[from..], f[|f| - from..], |f| - k);
    }
  }

  lemma FrontOfTwo<T>(a: seq<T>, b: seq<T>, n: nat)
    requires n <= |a|
    ensures (a + b)[..n] == a[..n]
  {
  }

  lemma DeleteInsideIff(f: seq<Byte>, offset: nat, k: nat)
    requires offset <= |f|
    ensures DeleteBytes(f, offset, k) == Remaining(f, offset, k) <==> RangeOk(|f|, offset, k)
    ensures offset + k <= |f| ==> DeleteBytes(f, offset, k) == Remaining(f, offset, k)
  {
    var r, g := Remaining(f, offset, k), DeleteBytes(f, offset, k);
    if offset + k <= |f| {
      assert offset + k < |f| ==>
            (f[..offset] + f[offset + k..] + f[|f| - k..])[..|f| - k] == f[..offset] + f[offset + k..];
      assert offset + k == |f| ==> f[..|f| - k] == f[..offset] + [];
    } else if offset == |f| && k > |f| {
      assert f[..offset] + [] == f;
    } else {
      assert |r| == offset && |g| != offset;
    }
  }

  /** The range starts d bytes in front of the file. */
  lemma DeleteInFrontIff(f: seq<Byte>, d: int, k: nat)
    requires 0 < d <= k
    ensures DeleteBytes(f, -d, k) == Remaining(f, -d, k) <==> RangeOk(|f|, -d, k)
  {
    var from := k - d;
    var r, g := Remaining(f, -d, k), DeleteBytes(f, -d, k);
    if from < |f| {
      assert |r| == |f| - from;
      if k <= |f| {
        assert |g| == |f| - k;
      } else if from == 0 {
        assert f[..0] + f[0..] + f[|f|..] == f && f[..0] + f[0..] == f;
      } else {
        assert |g| == |f|;
      }
    } else {
      assert |r| == 0 && |g| == |f|;
    }
  }

  /** Deleting one record more than there are loses a record in front of the range. */
  lemma DeletePastEndExample()
    ensures Records(DeleteBytes([1, 2, 3, 4], 2, 4), 2) == [] && Records(Remaining([1, 2, 3, 4], 2, 4), 2) == [[1, 2]]
  {
    OneRecord([1, 2], 2);
    assert Remaining([1, 2, 3, 4], 2, 4) == [1, 2];
  }

  /** Deleting records 0 and 1 takes a record off the end, too. */
  lemma DeleteInFrontExample()
    ensures DeleteBytes([1, 2, 3], -1, 2) == [2] && Remaining([1, 2, 3], -1, 2) == [2, 3]
  {
    var f: seq<Byte> := [1, 2, 3];
    assert f[..0] + f[1..] + f[2..] == [2, 3, 3];
    assert f[..0] + f[1..] == [2, 3];
  }

  /** In range, delete_records takes out num records. */
  lemma DeleteBytesRemoves(f: seq<Byte>, size: nat, i: nat, num: nat, at: nat, k: nat)
    requires size > 0 && i + num <= |Records(f, size)| && at == size * i && k == size * num
    ensures at <= |f|
    ensures var g := DeleteBytes(f, at, k);
            && Records(g, size) == Records(f, size)[..i] + Records(f, size)[i + num..]
            && Torn(g, size) == Torn(f, size)
  {
    assert at + k == size * (i + num);
    File.RemoveRecords(f, size, i, num, at, k);
    DeleteInsideIff(f, at, k);
  }

  // ---------------------------------------------------------------------------
  // Runs: the file behaves like a sequence of records.

  datatype Op =
    | AppendOp(record: seq<Byte>)
    | SubstituteOp(src: seq<Byte>, dest: seq<Byte>, id: int, guard: Guard)
    | DeleteOp(src: seq<Byte>, id: int, guard: Guard)
    | DeleteManyOp(id: int, num: nat)

  datatype State = State(records: seq<seq<Byte>>, torn: seq<Byte>)

  function StateOf(f: seq<Byte>, size: nat): State
    requires size > 0
  {
    State(Records(f, size), Torn(f, size))
  }

  /** Records of the right size; a range inside the file. */
  predicate Sensible(s: State, size: nat, op: Op) {
    match op
    case AppendOp(record) => |record| == size
    case SubstituteOp(_, dest, _, _) => |dest| == size
    case DeleteOp(_, _, _) => true
    case DeleteManyOp(id, num) => 1 <= id && id - 1 + num <= |s.records|
  }

  /** The operation on the sequence of records, and what the call returns. */
  function Apply(s: State, size: nat, op: Op): (State, int) {
    var r := s.records;
    match op
    case AppendOp(record) => (State(r + [record], []), |r| + 1)
    case SubstituteOp(src, dest, id, guard) =>
      if 1 <= id <= |r| && guard(r[id - 1], src) then (s.(records := r[id - 1 := dest]), 0) else (s, -1)
    case DeleteOp(src, id, guard) =>
      var i := Numbered(size, id);
      if 1 <= i <= |r| && guard(r[i - 1], src) then (s.(records := r[..i - 1] + r[i..]), 0) else (s, -1)
    case DeleteManyOp(id, num) =>
      if 1 <= id && id - 1 + num <= |r| then (s.(records := r[..id - 1] + r[id - 1 + num..]), 0) else (s, -1)
  }

  function ApplyAll(s: State, size: nat, ops: seq<Op>): (State, seq<int>) {
    if ops == [] then (s, [])
    else
      var (s', rets) := ApplyAll(s, size, ops[..|ops| - 1]);
      var (s'', ret) := Apply(s', size, ops[|ops| - 1]);
      (s'', rets + [ret])
  }

  /** Every operation is sensible when its turn comes. */
  ghost predicate AllSensible(s: State, size: nat, ops: seq<Op>) {
    forall i :: 0 <= i < |ops| ==> Sensible(ApplyAll(s, size, ops[..i]).0, size, ops[i])
  }

  /** One operation of a run. */
  method Perform(file: File, size: nat, op: Op) returns (ret: int)
    requires size > 0 && Sensible(StateOf(file.data, size), size, op)
    modifies file
    ensures (StateOf(file.data, size), ret) == Apply(old(StateOf(file.data, size)), size, op)
  {
    match op
    case AppendOp(record) => ret := DoAppend(file, size, record);
    case SubstituteOp(src, dest, id, guard) => ret := DoSubstitute(file, size, src, dest, id, guard);
    case DeleteOp(src, id, guard) => ret := DoDelete(file, size, src, id, guard);
    case DeleteManyOp(id, num) => ret := DoDeleteMany(file, size, id, num);
  }

  method DoAppend(file: File, size: nat, record: seq<Byte>) returns (ret: int)
    requires |record| == size > 0
    modifies file
    ensures (StateOf(file.data, size), ret) == Apply(old(StateOf(file.data, size)), size, AppendOp(record))
  {
    ret := file.Append(record, size);
  }

  method DoSubstitute(file: File, size: nat, src: seq<Byte>, dest: seq<Byte>, id: int, guard: Guard) returns (ret: int)
    requires |dest| == size > 0
    modifies file
    ensures (StateOf(file.data, size), ret)
            == Apply(old(StateOf(file.data, size)), size, SubstituteOp(src, dest, id, guard))
  {
    ret := file.Substitute(src, dest, size, id, Some(guard));
  }

  method DoDelete(file: File, size: nat, src: seq<Byte>, id: int, guard: Guard) returns (ret: int)
    requires size > 0
    modifies file
    ensures (StateOf(file.data, size), ret) == Apply(old(StateOf(file.data, size)), size, DeleteOp(src, id, guard))
  {
    ret := file.DeleteGuarded(src, size, id, Some(guard));
  }

  method DoDeleteMany(file: File, size: nat, id: int, num: nat) returns (ret: int)
    requires size > 0 && 1 <= id && id - 1 + num <= |Records(file.data, size)|
    modifies file
    ensures (StateOf(file.data, size), ret) == Apply(old(StateOf(file.data, size)), size, DeleteManyOp(id, num))
  {
    RangeRemoved(file.data, size, id, num, size * (id - 1), size * num);
    ret := file.DeleteMany(size, id, num);
  }

  lemma RangeRemoved(f: seq<Byte>, size: nat, id: int, num: nat, at: int, k: int)
    requires size > 0 && 1 <= id && id - 1 + num <= |Records(f, size)| && at == size * (id - 1) && k == size * num
    ensures 0 <= k && at <= |f|
    ensures (StateOf(DeleteBytes(f, at, k), size), 0) == Apply(StateOf(f, size), size, DeleteManyOp(id, num))
  {
    DeleteBytesRemoves(f, size, id - 1, num, at, k);
  }

  /** Any run on the file is the same run on the sequence of records; a torn tail stays where it is
      until a record is appended over it. */
  method PerformAll(file: File, size: nat, ops: seq<Op>) returns (rets: seq<int>)
    requires size > 0 && AllSensible(StateOf(file.data, size), size, ops)
    modifies file
    ensures (StateOf(file.data, size), rets) == ApplyAll(old(StateOf(file.data, size)), size, ops)
  {
    rets := [];
    ghost var s := StateOf(file.data, size);
    for i := 0 to |ops|
      invariant (StateOf(file.data, size), rets) == ApplyAll(s, size, ops[..i])
    {
      assert ops[..i + 1][..i] == ops[..i];
      var ret := Perform(file, size, ops[i]);
      rets := rets + [ret];
    }
    assert ops[..|ops|] == ops;
  }
}
