/** What `lil::Str<SIZE>` does, on values: the layout of its array, C
    strings, what each mutator does to the content, and what each mutator's
    steps do to the bytes of the array. The class `Strings.Str` is proved
    against these definitions. */
module StrSpec {
  import opened Intervals

  /** The bit pattern of one C++ `char`. */
  newtype byte = x: int | 0 <= x < 256

  const NUL: byte := 0

  /** One more than the largest `size_t`. */
  const SizeTModulus: nat := 0x1_0000_0000_0000_0000

  /** `a + b` computed in `size_t` does not wrap. */
  predicate NoWrap(a: nat, b: nat)
  {
    a + b < SizeTModulus
  }

  /** The byte layout of a `Str` whose `_data` is `buf` and whose characters
      are `content`: the characters, then the terminator, and in the last
      byte the number of characters that still fit. */
  ghost predicate Layout(buf: seq<byte>, content: seq<byte>)
  {
    && 1 <= |buf| <= 128
    && |content| < |buf|
    && buf[..|content|] == content
    && buf[|content|] == NUL
    && buf[|buf| - 1] as int == |buf| - 1 - |content|
  }

  /** `set_size_unsafe(sz)` on the bytes `b` of a `Str`: the marker, then the
      terminator. The first `sz` bytes become the content. */
  function SetSizeBytes(b: seq<byte>, sz: nat): (r: seq<byte>)
    requires 1 <= |b| <= 128 && sz < |b|
    ensures |r| == |b| && Layout(r, b[..sz])
    ensures forall i :: 0 <= i < |b| && i != sz && i != |b| - 1 ==> r[i] == b[i]
  {
    b[|b| - 1 := (|b| - 1 - sz) as byte][sz := NUL]
  }

  // ---------------------------------------------------------------------
  // C strings: `str` is the memory a `const char*` may read.

  /** Reading `str` with a bound of `n` stays inside `str`: either the bound
      itself does, or a terminator stops the read. */
  predicate Readable(str: seq<byte>, n: nat)
  {
    n <= |str| || NUL in str
  }

  /** What `Str::len(str, n)` computes: the index of the first NUL below `n`,
      or `n` when there is none. */
  function CLen(str: seq<byte>, n: nat): (l: nat)
    requires Readable(str, n)
    ensures l <= n && l <= |str|
    ensures l < n ==> l < |str| && str[l] == NUL
    ensures forall i :: 0 <= i < l ==> str[i] != NUL
    decreases n
  {
    if n == 0 || str[0] == NUL then 0
    else
      assert str == [str[0]] + str[1..];
      1 + CLen(str[1..], n - 1)
  }

  /** `count` copies of `c`. */
  function Repeat(c: byte, count: nat): (r: seq<byte>)
    ensures |r| == count
    ensures forall i :: 0 <= i < count ==> r[i] == c
  {
    seq(count, _ => c)
  }

  /** What `Str::cpy(dst, src, n)` leaves in `dst[0, n)`: the C string `src`
      up to its terminator or `n`, padded with NULs, with `dst[n - 1]`
      forced to NUL. */
  function CopyPadded(src: seq<byte>, n: nat): (r: seq<byte>)
    requires 1 <= n && Readable(src, n)
    ensures |r| == n && r[n - 1] == NUL
  {
    var k := Minimum(CLen(src, n), n - 1);
    src[..k] + Repeat(NUL, n - k)
  }

  // ---------------------------------------------------------------------
  // What the mutators do to the content, on values.

  /** The first `max` characters of `s`: truncation drops the tail. */
  function Truncate(s: seq<byte>, max: nat): (r: seq<byte>)
    ensures |r| == Minimum(|s|, max) && r == s[..|r|]
  {
    if |s| <= max then s else s[..max]
  }

  /** `t` inserted into `s` at position `at`, before any truncation. */
  function Splice(s: seq<byte>, at: nat, t: seq<byte>): (r: seq<byte>)
    requires at <= |s|
    ensures |r| == |s| + |t|
  {
    s[..at] + t + s[at..]
  }

  /** Content after `insert(index, count, fill)` on content `s` with room for
      `max` characters. */
  function InsertedFill(s: seq<byte>, index: nat, count: nat, fill: byte, max: nat): (r: seq<byte>)
    ensures |r| == Minimum(|s| + count, max)
  {
    Truncate(Splice(s, Minimum(index, |s|), Repeat(fill, count)), max)
  }

  /** `insertion_point` of `insert(index, str, count)`. */
  function InsertionPoint(index: nat, size: nat): (r: nat)
    ensures r <= index && r <= size
    ensures index <= size ==> r == index
    ensures index >= size ==> r == size
  {
    Minimum(index, size)
  }

  /** `insertion_size` of `insert(index, str, count)`: no more than fits after
      the insertion point. */
  function InsertionSize(index: nat, count: nat, size: nat, max: nat): (r: nat)
    requires size <= max
    ensures r <= count && InsertionPoint(index, size) + r <= max
    ensures InsertionPoint(index, size) + count <= max ==> r == count
    ensures InsertionPoint(index, size) + count > max ==> InsertionPoint(index, size) + r == max
  {
    Minimum(count, max - InsertionPoint(index, size))
  }

  /** The regimes in which `insert(index, str, count)` as written keeps
      every write inside the array and leaves no stale terminator inside
      the content: everything fits, or the string was full and the insertion
      is longer than the insertion point. */
  predicate PtrInsertSafe(size: nat, max: nat, index: nat, count: nat)
    requires size <= max
    ensures PtrInsertSafe(size, max, index, count) ==>
      var ip, isz := InsertionPoint(index, size), InsertionSize(index, count, size, max);
      ip + isz + MoveSizeAsWritten(size, ip, isz, max) <= max
  {
    var ip := InsertionPoint(index, size);
    var isz := InsertionSize(index, count, size, max);
    size + isz <= max || (size == max && ip < isz)
  }

  /** Content after `insert(index, str, count)` on content `s`. */
  function InsertedPtr(s: seq<byte>, index: nat, str: seq<byte>, count: nat, max: nat): (r: seq<byte>)
    requires |s| <= max
    requires InsertionSize(index, count, |s|, max) <= |str|
    ensures |r| == Minimum(|s| + InsertionSize(index, count, |s|, max), max)
  {
    Truncate(Splice(s, InsertionPoint(index, |s|), str[..InsertionSize(index, count, |s|, max)]), max)
  }

  /** Content after `erase(index, count)`: at most `count` characters go,
      never past the end. */
  function Erased(s: seq<byte>, index: nat, count: nat): (r: seq<byte>)
    requires index <= |s|
    ensures |r| == |s| - Minimum(count, |s| - index)
  {
    s[..index] + s[index + Minimum(count, |s| - index)..]
  }

  // ---------------------------------------------------------------------
  // What the mutators' steps do to the bytes of the array.

  /** What one call leaves in the array: the new bytes, or the fact that it
      touched memory past the array. */
  datatype Outcome = Written(buf: seq<byte>) | OutOfBounds

  /** What `available()` returns for the marker byte `b`: the `char` there,
      taken as signed, widened to `size_t`. Below 128 it is the byte itself,
      whatever the signedness of `char`. */
  function AvailableRead(b: byte): (r: nat)
    ensures r < SizeTModulus
    ensures b < 128 ==> r == b as nat
    ensures b >= 128 ==> r + 256 == SizeTModulus + b as nat
  {
    if b < 128 then b as nat else SizeTModulus - 256 + b as nat
  }

  /** What `size()` returns for the bytes `b`: `MAX_CHARS - available()` in
      `size_t`. Where the marker is at most `MAX_CHARS` this is the size it
      records; otherwise the difference wraps, to a size past the array. */
  function SizeReadAsWritten(b: seq<byte>): (r: nat)
    requires 1 <= |b| <= 128
    ensures r < SizeTModulus
    ensures b[|b| - 1] as int <= |b| - 1 ==> r == |b| - 1 - b[|b| - 1] as int
    ensures |b| - 1 < b[|b| - 1] as int < 128 ==> r == SizeTModulus + |b| - 1 - b[|b| - 1] as int
    ensures b[|b| - 1] >= 128 ==> r == |b| - 1 + 256 - b[|b| - 1] as int
    ensures b[|b| - 1] as int > |b| - 1 ==> r >= |b|
  {
    (|b| - 1 - AvailableRead(b[|b| - 1])) % SizeTModulus
  }

  /** The array of a string holding `size` characters. */
  ghost predicate Holds(buf: seq<byte>, size: nat)
  {
    size < |buf| && Layout(buf, buf[..size])
  }

  /** Setting the size a string already has changes none of its bytes. */
  lemma SetSizeBytesKeeps(buf: seq<byte>, size: nat)
    requires Holds(buf, size)
    ensures SetSizeBytes(buf, size) == buf
  {
    var r := SetSizeBytes(buf, size);
    assert r[size] == NUL == buf[size];
    assert r[|buf| - 1] == buf[|buf| - 1];
    assert forall j :: 0 <= j < |buf| ==> r[j] == buf[j];
  }

  /** `memmove(&b[dst], &b[src], n)`: every source byte is read before any
      is written, so overlapping ranges are moved correctly. */
  function MoveBytes(b: seq<byte>, dst: nat, src: nat, n: nat): (r: seq<byte>)
    requires dst + n <= |b| && src + n <= |b|
    ensures |r| == |b|
    ensures forall j :: dst <= j < dst + n ==> r[j] == b[j - dst + src]
    ensures forall j :: 0 <= j < |b| && !(dst <= j < dst + n) ==> r[j] == b[j]
  {
    seq(|b|, j requires 0 <= j < |b| => if dst <= j < dst + n then b[j - dst + src] else b[j])
  }

  /** `memcpy(&b[dst], src, n)`. */
  function CopyBytes(b: seq<byte>, dst: nat, src: seq<byte>, n: nat): (r: seq<byte>)
    requires dst + n <= |b| && n <= |src|
    ensures |r| == |b|
    ensures forall j :: dst <= j < dst + n ==> r[j] == src[j - dst]
    ensures forall j :: 0 <= j < |b| && !(dst <= j < dst + n) ==> r[j] == b[j]
  {
    seq(|b|, j requires 0 <= j < |b| => if dst <= j < dst + n then src[j - dst] else b[j])
  }

  // --- insert(index, count, fill) ---------------------------------------

  /** The first loop of `insert(index, count, fill)`: position `j - count`
      is copied to `j` for `j` from `last` down to `index + count`. */
  function ShiftLoop(buf: seq<byte>, index: nat, count: nat, last: nat): (r: seq<byte>)
    ensures |r| == |buf|
    ensures forall j :: 0 <= j < |buf| && index + count <= j <= last ==> r[j] == buf[j - count]
    ensures forall j :: 0 <= j < |buf| && !(index + count <= j <= last) ==> r[j] == buf[j]
  {
    seq(|buf|, j requires 0 <= j < |buf| =>
      if index + count <= j <= last then buf[j - count] else buf[j])
  }

  /** The second loop of `insert(index, count, fill)`: `fill` from `index`
      on, `count` times, stopping at `MAX_CHARS`, the last position of `buf`
      but one. */
  function FillLoop(buf: seq<byte>, index: nat, count: nat, fill: byte): (r: seq<byte>)
    ensures |r| == |buf|
    ensures forall j :: 0 <= j < |buf| && index <= j < index + count && j < |buf| - 1 ==> r[j] == fill
    ensures forall j :: 0 <= j < |buf| && !(index <= j < index + count && j < |buf| - 1) ==> r[j] == buf[j]
  {
    seq(|buf|, j requires 0 <= j < |buf| =>
      if index <= j < index + count && j < |buf| - 1 then fill else buf[j])
  }

  /** The bytes `insert(index, count, fill)` leaves: both loops, then the
      old size plus `count`, capped at `MAX_CHARS`. `index` is not clamped. */
  function FillBytes(buf: seq<byte>, size: nat, index: nat, count: nat, fill: byte): (r: seq<byte>)
    requires Holds(buf, size)
    ensures |r| == |buf|
  {
    var ts := Minimum(size + count, |buf| - 1);
    SetSizeBytes(FillLoop(ShiftLoop(buf, index, count, ts), index, count, fill), ts)
  }

  /** Where the index lies inside the content, or the string is full, or
      nothing is inserted, the loops leave exactly the content
      `InsertedFill` describes; inserting nothing changes no byte. */
  lemma {:induction false} FillBytesContent(buf: seq<byte>, size: nat, index: nat, count: nat, fill: byte)
    requires Holds(buf, size)
    requires index <= size || size == |buf| - 1 || count == 0
    ensures Layout(FillBytes(buf, size, index, count, fill), InsertedFill(buf[..size], index, count, fill, |buf| - 1))
    ensures count == 0 ==> FillBytes(buf, size, index, count, fill) == buf
  {
    var ts := Minimum(size + count, |buf| - 1);
    var filled := FillLoop(ShiftLoop(buf, index, count, ts), index, count, fill);
    if index <= size {
      FillLoopsInside(buf, size, index, count, fill);
    } else {
      FillLoopsIdle(buf, size, index, count, fill);
    }
    assert filled[..ts] == InsertedFill(buf[..size], index, count, fill, |buf| - 1);
    if count == 0 {
      FillLoopsKeep(buf, size, index, fill);
      SetSizeBytesKeeps(buf, size);
    }
  }

  /** From an index inside the content, the first `size + count` bytes the
      loops leave (capped) are the old content with `count` copies of `fill`
      spliced in. */
  lemma FillLoopsInside(buf: seq<byte>, size: nat, index: nat, count: nat, fill: byte)
    requires Holds(buf, size) && index <= size
    ensures var ts := Minimum(size + count, |buf| - 1);
      FillLoop(ShiftLoop(buf, index, count, ts), index, count, fill)[..ts]
        == InsertedFill(buf[..size], index, count, fill, |buf| - 1)
  {
    var max := |buf| - 1;
    var s := buf[..size];
    var ts := Minimum(size + count, max);
    var filled := FillLoop(ShiftLoop(buf, index, count, ts), index, count, fill);
    var expected := InsertedFill(s, index, count, fill, max);
    assert |expected| == ts;
    forall j | 0 <= j < ts
      ensures filled[j] == expected[j]
    {
      if j < index {
        assert filled[j] == s[j];
      } else if j < index + count {
        assert filled[j] == fill;
      } else {
        assert filled[j] == buf[j - count] == s[j - count];
      }
    }
  }

  /** From an index past the content of a full string, or with nothing to
      insert, neither loop writes a byte, and the content is unchanged. */
  lemma FillLoopsIdle(buf: seq<byte>, size: nat, index: nat, count: nat, fill: byte)
    requires Holds(buf, size) && index > size
    requires size == |buf| - 1 || count == 0
    ensures var ts := Minimum(size + count, |buf| - 1);
      && FillLoop(ShiftLoop(buf, index, count, ts), index, count, fill) == buf
      && InsertedFill(buf[..size], index, count, fill, |buf| - 1) == buf[..size]
      && ts == size
  {
  }

  /** Inserting nothing: the shift copies each byte onto itself. */
  lemma FillLoopsKeep(buf: seq<byte>, size: nat, index: nat, fill: byte)
    requires Holds(buf, size)
    ensures FillLoop(ShiftLoop(buf, index, 0, size), index, 0, fill) == buf
  {
  }

  // --- insert(index, str, count) ----------------------------------------

  /** `move_size` as written: the whole tail, less `insertion_size` when the
      tail and the insertion together exceed `MAX_CHARS`, in `size_t`. */
  function MoveSizeAsWritten(size: nat, ip: nat, isz: nat, max: nat): (r: nat)
    requires ip <= size
    ensures r < SizeTModulus || size - ip + isz <= max
    ensures size - ip + isz <= max ==> r == size - ip
    ensures size - ip + isz > max && isz <= size - ip < SizeTModulus ==> r == size - ip - isz
    ensures size - ip + isz > max && size - ip < isz < size - ip + SizeTModulus ==> r == SizeTModulus + size - ip - isz
  {
    var m := size - ip;
    if m + isz > max then (m - isz) % SizeTModulus else m
  }

  /** The intended move size: as much of the tail as still fits after the
      insertion. */
  function MoveSizeFixed(size: nat, ip: nat, isz: nat, max: nat): (r: nat)
    requires ip <= size && ip + isz <= max
    ensures ip + isz + r <= max
    ensures r <= size - ip
    ensures size + isz <= max ==> r == size - ip
    ensures size + isz > max ==> ip + isz + r == max
  {
    Minimum(size - ip, max - ip - isz)
  }

  /** The bytes `insert(index, str, count)` leaves once it has settled on
      the insertion point `ip`, the insertion size `isz` and the number of
      bytes `move` its `memmove` moves: the tail moves right by `isz`, `isz`
      bytes of `str` are copied in, and the new size is what `size()` then
      reads plus `isz`, in `size_t`, capped at `MAX_CHARS`. Unless the move
      ends on the marker, `size()` still reads the old size. */
  function PtrInsertBytes(buf: seq<byte>, size: nat, ip: nat, isz: nat, str: seq<byte>, move: nat): (o: Outcome)
    requires Holds(buf, size)
    requires ip <= size && ip + isz <= |buf| - 1 && isz <= |str|
    ensures o.OutOfBounds? <==> ip + isz + move > |buf|
    ensures o.Written? ==> |o.buf| == |buf|
  {
    if ip + isz + move > |buf| then OutOfBounds
    else if ip + isz + move == |buf| && move > 0 then
      var copied := CopyBytes(MoveBytes(buf, ip + isz, ip, move), ip, str, isz);
      Written(SetSizeBytes(copied, Minimum((SizeReadAsWritten(copied) + isz) % SizeTModulus, |buf| - 1)))
    else Written(MoveAndCopy(buf, ip, isz, move, str, Minimum(size + isz, |buf| - 1)))
  }

  /** The bytes after moving `move` bytes from `ip` to `ip + isz`, copying
      `isz` bytes of `str` to `ip`, and setting the size to `n`. */
  function MoveAndCopy(buf: seq<byte>, ip: nat, isz: nat, move: nat, str: seq<byte>, n: nat): (r: seq<byte>)
    requires 1 <= |buf| <= 128 && ip + isz + move <= |buf| && isz <= |str| && n < |buf|
    ensures |r| == |buf|
  {
    SetSizeBytes(CopyBytes(MoveBytes(buf, ip + isz, ip, move), ip, str, isz), n)
  }

  /** When the size set is the end of the moved tail, the content is the
      head, the copied bytes and the moved bytes. */
  lemma MoveAndCopyLayout(buf: seq<byte>, ip: nat, isz: nat, move: nat, str: seq<byte>, n: nat, content: seq<byte>)
    requires 1 <= |buf| <= 128 && n == ip + isz + move < |buf| && isz <= |str|
    requires content == buf[..ip] + str[..isz] + buf[ip..ip + move]
    ensures Layout(MoveAndCopy(buf, ip, isz, move, str, n), content)
  {
    MoveThenCopy(buf, ip, isz, move, str);
  }

  /** `insert(index, str, count)` as written, with its own move size. */
  function PtrInsertAsWritten(buf: seq<byte>, size: nat, index: nat, str: seq<byte>, count: nat): (o: Outcome)
    requires Holds(buf, size)
    requires InsertionSize(index, count, size, |buf| - 1) <= |str|
    ensures var max := |buf| - 1;
      var ip, isz := InsertionPoint(index, size), InsertionSize(index, count, size, max);
      o.OutOfBounds? <==> ip + isz + MoveSizeAsWritten(size, ip, isz, max) > |buf|
    ensures o.Written? ==> |o.buf| == |buf|
  {
    var max := |buf| - 1;
    var ip, isz := InsertionPoint(index, size), InsertionSize(index, count, size, max);
    PtrInsertBytes(buf, size, ip, isz, str, MoveSizeAsWritten(size, ip, isz, max))
  }

  /** `insert(index, str, count)` with the intended move size. */
  function PtrInsertFixed(buf: seq<byte>, size: nat, index: nat, str: seq<byte>, count: nat): (o: Outcome)
    requires Holds(buf, size)
    requires InsertionSize(index, count, size, |buf| - 1) <= |str|
    ensures o.Written? && |o.buf| == |buf|
  {
    var max := |buf| - 1;
    var ip, isz := InsertionPoint(index, size), InsertionSize(index, count, size, max);
    PtrInsertBytes(buf, size, ip, isz, str, MoveSizeFixed(size, ip, isz, max))
  }

  /** Where the fix-up is not needed or is exactly right, the move size as
      written is the intended one, so the call as written is the intended
      one. */
  lemma MoveSizeAgreesWhenSafe(buf: seq<byte>, size: nat, index: nat, str: seq<byte>, count: nat)
    requires Holds(buf, size)
    requires InsertionSize(index, count, size, |buf| - 1) <= |str|
    requires PtrInsertSafe(size, |buf| - 1, index, count)
    ensures var max := |buf| - 1;
      var ip, isz := InsertionPoint(index, size), InsertionSize(index, count, size, max);
      MoveSizeAsWritten(size, ip, isz, max) == MoveSizeFixed(size, ip, isz, max)
    ensures PtrInsertAsWritten(buf, size, index, str, count) == PtrInsertFixed(buf, size, index, str, count)
  {
    var max := |buf| - 1;
    var ip, isz := InsertionPoint(index, size), InsertionSize(index, count, size, max);
    if size - ip + isz > max {
      assert 0 <= size - ip - isz < SizeTModulus;
    }
  }

  /** With the intended move size, every insertion stays inside the array
      and leaves exactly the content `InsertedPtr` describes. */
  lemma {:induction false} PtrInsertFixedCorrect(buf: seq<byte>, size: nat, index: nat, str: seq<byte>, count: nat)
    requires Holds(buf, size)
    requires InsertionSize(index, count, size, |buf| - 1) <= |str|
    ensures var o := PtrInsertFixed(buf, size, index, str, count);
      o.Written? && |o.buf| == |buf| && Layout(o.buf, InsertedPtr(buf[..size], index, str, count, |buf| - 1))
  {
    var max := |buf| - 1;
    var ip, isz := InsertionPoint(index, size), InsertionSize(index, count, size, max);
    var move := MoveSizeFixed(size, ip, isz, max);
    PtrInsertFixedWritten(buf, MoveAndCopy(buf, ip, isz, move, str, Minimum(size + isz, max)), size, index, str, count, ip, isz, move);
  }

  /** The bytes of the steps of `insert(index, str, count)` with the
      intended move size are laid out for the content `InsertedPtr`
      describes. */
  lemma PtrInsertLayout(buf: seq<byte>, size: nat, index: nat, str: seq<byte>, count: nat, ip: nat, isz: nat, move: nat)
    requires Holds(buf, size)
    requires ip == InsertionPoint(index, size) && isz == InsertionSize(index, count, size, |buf| - 1)
    requires isz <= |str|
    requires move == MoveSizeFixed(size, ip, isz, |buf| - 1)
    ensures Layout(MoveAndCopy(buf, ip, isz, move, str, Minimum(size + isz, |buf| - 1)),
                   InsertedPtr(buf[..size], index, str, count, |buf| - 1))
  {
    InsertedPtrSplit(buf, size, index, str, count, |buf| - 1);
    MoveAndCopyLayout(buf, ip, isz, move, str, Minimum(size + isz, |buf| - 1), InsertedPtr(buf[..size], index, str, count, |buf| - 1));
  }

  /** The bytes the steps of `insert(index, str, count)` leave, with the
      intended move size, are the outcome `PtrInsertFixed` describes, laid
      out for the content `InsertedPtr` describes. */
  lemma PtrInsertFixedWritten(before: seq<byte>, after: seq<byte>, size: nat, index: nat, str: seq<byte>, count: nat,
                               ip: nat, isz: nat, move: nat)
    requires Holds(before, size)
    requires ip == InsertionPoint(index, size) && isz == InsertionSize(index, count, size, |before| - 1)
    requires isz <= |str|
    requires move == MoveSizeFixed(size, ip, isz, |before| - 1)
    requires after == MoveAndCopy(before, ip, isz, move, str, Minimum(size + isz, |before| - 1))
    ensures PtrInsertFixed(before, size, index, str, count) == Written(after)
    ensures Layout(after, InsertedPtr(before[..size], index, str, count, |before| - 1))
  {
    assert PtrInsertBytes(before, size, ip, isz, str, move) == Written(after);
    PtrInsertLayout(before, size, index, str, count, ip, isz, move);
  }

  /** Moving `move` tail bytes right by `isz` and copying `isz` bytes of
      `str` into the gap: the head, the copied bytes, the moved bytes. */
  lemma MoveThenCopy(buf: seq<byte>, ip: nat, isz: nat, move: nat, str: seq<byte>)
    requires ip + isz + move <= |buf| && isz <= |str|
    ensures CopyBytes(MoveBytes(buf, ip + isz, ip, move), ip, str, isz)[..ip + isz + move]
      == buf[..ip] + str[..isz] + buf[ip..ip + move]
  {
    var copied := CopyBytes(MoveBytes(buf, ip + isz, ip, move), ip, str, isz);
    var expected := buf[..ip] + str[..isz] + buf[ip..ip + move];
    forall j | 0 <= j < ip + isz + move
      ensures copied[j] == expected[j]
    {
      if j < ip {
      } else if j < ip + isz {
      } else {
        assert copied[j] == buf[j - isz];
      }
    }
  }

  /** `InsertedPtr` of the first `size` bytes of `buf` as the head, the
      inserted bytes and the part of the tail that the intended move keeps. */
  lemma InsertedPtrSplit(buf: seq<byte>, size: nat, index: nat, str: seq<byte>, count: nat, max: nat)
    requires size <= max && size <= |buf|
    requires InsertionSize(index, count, size, max) <= |str|
    ensures var ip, isz := InsertionPoint(index, size), InsertionSize(index, count, size, max);
      InsertedPtr(buf[..size], index, str, count, max) == buf[..ip] + str[..isz] + buf[ip..ip + MoveSizeFixed(size, ip, isz, max)]
  {
    var s := buf[..size];
    var ip, isz := InsertionPoint(index, size), InsertionSize(index, count, size, max);
    var move := MoveSizeFixed(size, ip, isz, max);
    assert s[..ip] == buf[..ip];
    var t := s[..ip] + str[..isz] + s[ip..];
    if |t| > max {
      assert t[..max] == buf[..ip] + str[..isz] + buf[ip..ip + move];
    } else {
      assert s[ip..] == buf[ip..ip + move];
    }
  }

  // --- erase(index, count) ----------------------------------------------

  /** The intended erase size: never past the end of the content, and
      nothing at all from an index past the end. */
  function EraseSizeFixed(size: nat, index: nat, count: nat): (r: nat)
    ensures r <= count && Minimum(index, size) + r <= size
    ensures index >= size ==> r == 0
  {
    Minimum(count, size - Minimum(index, size))
  }

  /** The intended move length: the part of the tail after the erased
      characters, `move_size - erase_size`. */
  function EraseMoveFixed(size: nat, index: nat, count: nat): (r: nat)
    ensures Minimum(index, size) + EraseSizeFixed(size, index, count) + r == size
  {
    size - Minimum(index, size) - EraseSizeFixed(size, index, count)
  }

  /** The bytes `erase` leaves when it removes `es` characters at the erase
      point and its `memmove` moves `move` bytes. */
  function EraseBytes(buf: seq<byte>, size: nat, index: nat, es: nat, move: nat): (o: Outcome)
    requires Holds(buf, size)
    requires es <= size
    ensures o.OutOfBounds? <==> Minimum(index, size) + es + move > |buf|
    ensures o.Written? ==> |o.buf| == |buf| && Layout(o.buf, o.buf[..size - es])
  {
    var ep := Minimum(index, size);
    if ep + es + move > |buf| then OutOfBounds
    else Written(CloseGap(buf, ep, es, move, size - es))
  }

  /** The bytes after moving `move` bytes from `ep + es` down to `ep` and
      setting the size to `n`. */
  function CloseGap(buf: seq<byte>, ep: nat, es: nat, move: nat, n: nat): (r: seq<byte>)
    requires 1 <= |buf| <= 128 && ep + es + move <= |buf| && n < |buf|
    ensures |r| == |buf|
  {
    SetSizeBytes(MoveBytes(buf, ep, ep + es, move), n)
  }

  /** When the size set is the end of the moved bytes, the content is the
      head and the moved bytes. */
  lemma CloseGapLayout(buf: seq<byte>, ep: nat, es: nat, move: nat, content: seq<byte>)
    requires 1 <= |buf| <= 128 && ep + es + move < |buf|
    requires content == buf[..ep] + buf[ep + es..ep + es + move]
    ensures Layout(CloseGap(buf, ep, es, move, ep + move), content)
  {
    var moved := MoveBytes(buf, ep, ep + es, move);
    forall j | 0 <= j < ep + move
      ensures moved[j] == content[j]
    {
      if j >= ep {
        assert moved[j] == buf[j + es];
      }
    }
    assert moved[..ep + move] == content;
  }

  /** `Erased` of the first `size` bytes of `buf`: the head and the part of
      the tail after the erased characters. */
  lemma ErasedSplit(buf: seq<byte>, size: nat, index: nat, count: nat)
    requires size <= |buf|
    ensures var ep, es := Minimum(index, size), EraseSizeFixed(size, index, count);
      Erased(buf[..size], ep, count) == buf[..ep] + buf[ep + es..size]
  {
    var s := buf[..size];
    var ep, es := Minimum(index, size), EraseSizeFixed(size, index, count);
    assert s[..ep] == buf[..ep];
    assert s[ep + es..] == buf[ep + es..size];
  }

  /** With the intended sizes, `erase` stays inside the array, removes at
      most `count` characters from the erase point, and changes nothing for
      an index past the end. */
  lemma {:induction false} EraseFixedCorrect(buf: seq<byte>, size: nat, index: nat, count: nat)
    requires Holds(buf, size)
    ensures var o := EraseBytes(buf, size, index, EraseSizeFixed(size, index, count), EraseMoveFixed(size, index, count));
      && o.Written? && |o.buf| == |buf|
      && Layout(o.buf, Erased(buf[..size], Minimum(index, size), count))
      && (index >= size ==> o.buf == buf)
  {
    var ep := Minimum(index, size);
    var es := EraseSizeFixed(size, index, count);
    var move := EraseMoveFixed(size, index, count);
    assert ep + move == size - es;
    ErasedSplit(buf, size, index, count);
    CloseGapLayout(buf, ep, es, move, Erased(buf[..size], ep, count));
    assert EraseBytes(buf, size, index, es, move) == Written(CloseGap(buf, ep, es, move, size - es));
    if index >= size {
      assert MoveBytes(buf, ep, ep + es, move) == buf;
      SetSizeBytesKeeps(buf, size);
    }
  }

  /** The bytes the steps of `erase(index, count)` leave, with the intended
      sizes, are the outcome `EraseBytes` describes, laid out for the
      content `Erased` describes. */
  lemma EraseFixedWritten(before: seq<byte>, after: seq<byte>, size: nat, index: nat, count: nat, es: nat, move: nat)
    requires Holds(before, size) && index <= size
    requires es == EraseSizeFixed(size, index, count) && move == EraseMoveFixed(size, index, count)
    requires after == CloseGap(before, index, es, move, size - es)
    ensures EraseBytes(before, size, index, es, move) == Written(after)
    ensures Layout(after, Erased(before[..size], index, count))
  {
    EraseFixedCorrect(before, size, index, count);
  }

  // ---------------------------------------------------------------------
  // Lemmas on contents.

  lemma AppendFillIsConcat(s: seq<byte>, count: nat, fill: byte, max: nat)
    requires |s| <= max
    ensures InsertedFill(s, |s|, count, fill, max) == s + Repeat(fill, Minimum(count, max - |s|))
  {
  }

  lemma AppendPtrIsConcat(s: seq<byte>, str: seq<byte>, count: nat, max: nat)
    requires |s| <= max
    requires Minimum(count, max - |s|) <= |str|
    ensures InsertionSize(|s|, count, |s|, max) == Minimum(count, max - |s|)
    ensures InsertedPtr(s, |s|, str, count, max) == s + str[..Minimum(count, max - |s|)]
  {
  }

  /** `Str::cpy` character by character: the source up to its first NUL,
      and never its last position, then NULs. */
  lemma CopyPaddedAt(src: seq<byte>, n: nat, i: nat)
    requires 1 <= n && Readable(src, n) && i < n
    ensures CopyPadded(src, n)[i] == if i < CLen(src, n) && i < n - 1 then src[i] else NUL
  {
  }

  /** The content `insert(index, count, fill)` describes, character by
      character: the head up to the clamped index, the fill, then the tail
      shifted right by `count`. */
  lemma InsertedFillAt(s: seq<byte>, index: nat, count: nat, fill: byte, max: nat, i: nat)
    requires i < |InsertedFill(s, index, count, fill, max)|
    ensures var ip := Minimum(index, |s|);
      InsertedFill(s, index, count, fill, max)[i] == if i < ip then s[i] else if i < ip + count then fill else s[i - count]
  {
    var ip := Minimum(index, |s|);
    var t := Splice(s, ip, Repeat(fill, count));
    assert InsertedFill(s, index, count, fill, max)[i] == t[i];
    if i >= ip + count {
      assert t[i] == s[ip..][i - ip - count];
    }
  }

  /** The content `insert(index, str, count)` describes, character by
      character: the head up to the insertion point, `insertion_size`
      bytes of `str`, then the tail shifted right. */
  lemma InsertedPtrAt(s: seq<byte>, index: nat, str: seq<byte>, count: nat, max: nat, i: nat)
    requires |s| <= max
    requires InsertionSize(index, count, |s|, max) <= |str|
    requires i < |InsertedPtr(s, index, str, count, max)|
    ensures var ip, isz := InsertionPoint(index, |s|), InsertionSize(index, count, |s|, max);
      InsertedPtr(s, index, str, count, max)[i] == if i < ip then s[i] else if i < ip + isz then str[i - ip] else s[i - isz]
  {
    var ip, isz := InsertionPoint(index, |s|), InsertionSize(index, count, |s|, max);
    var t := Splice(s, ip, str[..isz]);
    assert InsertedPtr(s, index, str, count, max)[i] == t[i];
    if i >= ip + isz {
      assert t[i] == s[ip..][i - ip - isz];
    }
  }

  /** The content `erase(index, count)` describes, character by character:
      the head, then the tail shifted left by the number erased. */
  lemma ErasedAt(s: seq<byte>, index: nat, count: nat, i: nat)
    requires index <= |s| && i < |Erased(s, index, count)|
    ensures Erased(s, index, count)[i] == if i < index then s[i] else s[i + Minimum(count, |s| - index)]
  {
  }

  /** `len` of a C string: the characters before its terminator, when
      there are no more of them than the bound. */
  lemma {:induction false} CLenOfTerminated(t: seq<byte>, rest: seq<byte>, n: nat)
    requires NUL !in t && |t| <= n
    ensures Readable(t + [NUL] + rest, n)
    ensures CLen(t + [NUL] + rest, n) == |t|
  {
    var str := t + [NUL] + rest;
    assert str[|t|] == NUL;
    if t != [] {
      assert str[1..] == t[1..] + [NUL] + rest;
      CLenOfTerminated(t[1..], rest, n - 1);
    }
  }

  /** `len` of a C string whose first terminator is at `l`, no later than
      the bound: `l`. */
  lemma CLenOfFirstNul(str: seq<byte>, n: nat, l: nat)
    requires l <= n && l < |str| && str[l] == NUL
    requires forall i :: 0 <= i < l ==> str[i] != NUL
    ensures Readable(str, n) && CLen(str, n) == l
  {
    assert str == str[..l] + [NUL] + str[l + 1..];
    CLenOfTerminated(str[..l], str[l + 1..], n);
  }

  /** `len` with a bound that no terminator precedes: the bound itself. */
  lemma {:induction false} CLenOfNulFree(str: seq<byte>, n: nat)
    requires n <= |str| && NUL !in str[..n]
    ensures CLen(str, n) == n
  {
    if n > 0 {
      assert str[0] == str[..n][0];
      assert str[1..][..n - 1] == str[..n][1..];
      CLenOfNulFree(str[1..], n - 1);
    }
  }

  lemma LiteralContent(literal: seq<byte>)
    requires 1 <= |literal|
    requires forall i :: 0 <= i < |literal| - 1 ==> literal[i] != NUL
    ensures CopyPadded(literal, |literal|)[..|literal| - 1] == literal[..|literal| - 1]
  {
  }
}
