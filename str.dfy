/** `lil::Str<SIZE>`: a fixed-capacity string that lives in one array of
    `SIZE` bytes.

    Layout (`Str.Valid`): bytes `[0, size())` are the characters, byte
    `size()` is the terminator, and the last byte, `SIZE - 1`, holds the
    remaining capacity `MAX_CHARS - size()` so that `size()` costs one read.
    When the string is full the marker is 0 and doubles as the terminator.
    Every mutator ends by calling `set_size_unsafe`, which rewrites only the
    marker and the terminator. */
module Strings {
  import opened Intervals
  import opened StrSpec
  import ArrayView

  // ---------------------------------------------------------------------
  // The steps the mutators are made of, each proved against the function
  // in `StrSpec` that says what it does to the bytes.

  /** `memmove(&a[dst], &a[src], n)`. */
  method MemMove(a: array<byte>, dst: nat, src: nat, n: nat)
    requires dst + n <= a.Length && src + n <= a.Length
    modifies a
    ensures a[..] == MoveBytes(old(a[..]), dst, src, n)
  {
    forall j | dst <= j < dst + n {
      a[j] := a[j - dst + src];
    }
  }

  /** `memcpy(&a[dst], src, n)`. */
  method MemCpy(a: array<byte>, dst: nat, src: seq<byte>, n: nat)
    requires dst + n <= a.Length && n <= |src|
    modifies a
    ensures a[..] == CopyBytes(old(a[..]), dst, src, n)
  {
    forall j | dst <= j < dst + n {
      a[j] := src[j - dst];
    }
  }

  /** `set_size_unsafe(sz)` on the bytes: the marker `MAX_CHARS - sz` goes
      to the last byte, then the terminator to `size()` as the marker now
      gives it. */
  method SetSizeInPlace(a: array<byte>, sz: nat)
    requires 1 <= a.Length <= 128 && sz < a.Length
    modifies a
    ensures a[..] == SetSizeBytes(old(a[..]), sz)
  {
    a[a.Length - 1] := (a.Length - 1 - sz) as byte;
    a[a.Length - 1 - a[a.Length - 1] as int] := NUL;
  }

  /** What `size()` reads from the bytes of a string: `MAX_CHARS` less the
      marker. */
  function SizeRead(buf: seq<byte>): (r: int)
    requires 1 <= |buf| <= 128
    ensures r < |buf|
  {
    |buf| - 1 - buf[|buf| - 1] as int
  }

  /** The methods read `size()` without `size_t` arithmetic. Where that
      gives a size that is not negative, it is the one `size()` reads;
      otherwise `size()` wraps to a size past the array. On the bytes of a
      string of `size` characters it is `size`. */
  lemma SizeReadAgrees(buf: seq<byte>, size: nat)
    requires 1 <= |buf| <= 128
    ensures 0 <= SizeRead(buf) ==> SizeRead(buf) == SizeReadAsWritten(buf)
    ensures SizeRead(buf) < 0 ==> SizeReadAsWritten(buf) >= |buf|
    ensures Holds(buf, size) ==> SizeRead(buf) == size
  {
  }

  /** The `memmove` of the tail from `ip` to `ip + isz`, the `memcpy` of
      `isz` bytes of `str` to `ip`, and `set_size_unsafe` with `size()` plus
      `isz`, capped at `MAX_CHARS`. Neither copy reaches the marker, so
      `size()` still reads the old size. */
  method MoveCopyAndSetSize(a: array<byte>, ip: nat, isz: nat, move: nat, str: seq<byte>)
    requires 1 <= a.Length <= 128 && ip + isz + move < a.Length && isz <= |str|
    requires 0 <= SizeRead(a[..])
    modifies a
    ensures a[..] == MoveAndCopy(old(a[..]), ip, isz, move, str, Minimum(SizeRead(old(a[..])) + isz, a.Length - 1))
  {
    ghost var before := a[..];
    MemMove(a, ip + isz, ip, move);
    ghost var moved := a[..];
    assert moved == MoveBytes(before, ip + isz, ip, move);
    MemCpy(a, ip, str, isz);
    ghost var copied := a[..];
    assert copied == CopyBytes(moved, ip, str, isz);
    assert SizeRead(copied) == SizeRead(before);
    var appendedSize := Minimum(a.Length - 1 - a[a.Length - 1] as int + isz, a.Length - 1);
    SetSizeInPlace(a, appendedSize);
    assert a[..] == SetSizeBytes(copied, appendedSize);
  }

  /** The bytes of `insert(index, str, count)` on a string of `size`
      characters: the clamped insertion point and size, the `memmove` of
      the tail, the `memcpy`, and `set_size_unsafe` with the length `size()`
      now gives plus the insertion, truncated. The move size is computed as
      written; the regimes of `PtrInsertSafe` keep its `size_t` difference
      from wrapping, and in them it is the intended one. */
  method InsertPtrInPlace(a: array<byte>, size: nat, index: nat, str: seq<byte>, count: nat)
    requires Holds(a[..], size)
    requires InsertionSize(index, count, size, a.Length - 1) <= |str|
    requires PtrInsertSafe(size, a.Length - 1, index, count)
    modifies a
    ensures PtrInsertFixed(old(a[..]), size, index, str, count) == Written(a[..])
    ensures Layout(a[..], InsertedPtr(old(a[..])[..size], index, str, count, a.Length - 1))
  {
    ghost var before := a[..];
    var max := a.Length - 1;
    var insertionPoint := InsertionPoint(index, size);
    var insertionSize := InsertionSize(index, count, size, max);
    var moveSize := size - insertionPoint;
    moveSize := if moveSize + insertionSize > max then moveSize - insertionSize else moveSize;
    assert moveSize == MoveSizeFixed(size, insertionPoint, insertionSize, max);
    assert SizeRead(before) == size;
    MoveCopyAndSetSize(a, insertionPoint, insertionSize, moveSize, str);
    PtrInsertFixedWritten(before, a[..], size, index, str, count, insertionPoint, insertionSize, moveSize);
  }

  /** The `memmove` of `move` bytes from `ep + es` down to `ep`, then
      `modify_size(-es)`, which sets the size to `size()` less `es`. The
      move does not reach the marker. */
  method MoveAndSetSize(a: array<byte>, ep: nat, es: nat, move: nat)
    requires 1 <= a.Length <= 128 && ep + es + move < a.Length
    requires es <= SizeRead(a[..])
    modifies a
    ensures a[..] == CloseGap(old(a[..]), ep, es, move, SizeRead(old(a[..])) - es)
  {
    ghost var before := a[..];
    MemMove(a, ep, ep + es, move);
    ghost var moved := a[..];
    assert moved == MoveBytes(before, ep, ep + es, move);
    assert SizeRead(moved) == SizeRead(before);
    var newSize := a.Length - 1 - a[a.Length - 1] as int - es;
    SetSizeInPlace(a, newSize);
    assert a[..] == SetSizeBytes(moved, newSize);
  }

  /** The bytes of `erase(index, count)` on a string of `size` characters,
      for `index <= size`: the characters after the erased ones move to the
      erase point, and `modify_size(-erase_size)` sets the new size. */
  method EraseInPlace(a: array<byte>, size: nat, index: nat, count: nat)
    requires Holds(a[..], size)
    requires index <= size
    modifies a
    ensures EraseBytes(old(a[..]), size, index, EraseSizeFixed(size, index, count),
                       EraseMoveFixed(size, index, count)) == Written(a[..])
    ensures Layout(a[..], Erased(old(a[..])[..size], index, count))
  {
    ghost var before := a[..];
    var erasePoint := Minimum(index, size);
    var eraseSize := Minimum(count, size - index);
    assert eraseSize == EraseSizeFixed(size, index, count);
    assert size - index - eraseSize == EraseMoveFixed(size, index, count);
    assert SizeRead(before) == size;
    MoveAndSetSize(a, erasePoint, eraseSize, size - index - eraseSize);
    EraseFixedWritten(before, a[..], size, index, count, eraseSize, size - index - eraseSize);
  }

  /** The backward loop of `insert(index, count, fill)`: for `i` from `last`
      down to `index + count`, `a[i] = a[i - count]`. The loop test is
      `i >= index + count` on an unsigned `i`, which never fails when
      `index + count == 0`; such calls are excluded. */
  method ShiftRight(a: array<byte>, index: nat, count: nat, last: nat)
    requires last < a.Length
    requires index + count >= 1
    modifies a
    ensures a[..] == ShiftLoop(old(a[..]), index, count, last)
  {
    var i: int := last;
    while i >= index + count
      invariant i <= last
      invariant i >= index + count - 1 || i == last
      invariant forall j :: i < j <= last ==> a[j] == old(a[j - count])
      invariant forall j :: 0 <= j < a.Length && !(i < j <= last) ==> a[j] == old(a[j])
      decreases i
    {
      a[i] := a[i - count];
      i := i - 1;
    }
  }

  /** The forward loop of `insert(index, count, fill)`: `count` copies of
      `fill` from `index` on, stopping at `MAX_CHARS`, the last position of
      `a` but one. */
  method FillForward(a: array<byte>, index: nat, count: nat, fill: byte)
    requires 1 <= a.Length
    modifies a
    ensures a[..] == FillLoop(old(a[..]), index, count, fill)
  {
    var k := 0;
    while k < count && index + k < a.Length - 1
      invariant k <= count
      invariant k == 0 || index + k <= a.Length - 1
      invariant forall j :: index <= j < index + k ==> a[j] == fill
      invariant forall j :: 0 <= j < a.Length && !(index <= j < index + k) ==> a[j] == old(a[j])
    {
      a[index + k] := fill;
      k := k + 1;
    }
  }

  /** The bytes of `insert(index, count, fill)` on a string of `size`
      characters: `size()` read from the marker plus `count`, capped at
      `MAX_CHARS`, then both loops, then `set_size_unsafe`. */
  method InsertFillInPlace(a: array<byte>, size: nat, index: nat, count: nat, fill: byte)
    requires Holds(a[..], size)
    requires index + count >= 1
    requires index <= size || size == a.Length - 1 || count == 0
    modifies a
    ensures a[..] == FillBytes(old(a[..]), size, index, count, fill)
    ensures Layout(a[..], InsertedFill(old(a[..])[..size], index, count, fill, a.Length - 1))
    ensures count == 0 ==> a[..] == old(a[..])
  {
    ghost var before := a[..];
    var max := a.Length - 1;
    var appendedSize := max - a[max] as int + count;
    assert appendedSize == size + count;
    var truncatedSize := if appendedSize < max then appendedSize else max;
    assert truncatedSize == Minimum(size + count, max);
    ShiftRight(a, index, count, truncatedSize);
    ghost var shifted := a[..];
    assert shifted == ShiftLoop(before, index, count, truncatedSize);
    FillForward(a, index, count, fill);
    ghost var filled := a[..];
    assert filled == FillLoop(shifted, index, count, fill);
    SetSizeInPlace(a, truncatedSize);
    assert a[..] == SetSizeBytes(filled, truncatedSize) == FillBytes(before, size, index, count, fill);
    FillBytesContent(before, size, index, count, fill);
  }

  // ---------------------------------------------------------------------

  class Str {
    /** `SIZE`: the number of bytes in `_data`. */
    const Bytes: nat
    /** `MAX_CHARS == SIZE - 1`: the most characters the string holds. */
    const MaxChars: nat
    /** `_data`. */
    const data: array<byte>
    /** The characters, `_data[0, size())`. */
    ghost var Contents: seq<byte>

    /** `SIZE` is a `uint8_t` template argument of at least 1; `available()`
        returns a `char` and `modify_size` takes an `int8_t`, so the marker
        arithmetic is right on signed-char targets only up to 128 bytes. */
    ghost predicate Shape()
    {
      1 <= Bytes <= 128 && MaxChars == Bytes - 1 && data.Length == Bytes
    }

    ghost predicate Valid()
      reads this, data
    {
      && Shape()
      && |Contents| <= MaxChars
      && data[..|Contents|] == Contents
      && data[|Contents|] == NUL
      && data[MaxChars] as int == MaxChars - |Contents|
    }

    /** The content of a valid string is the one its bytes are laid out
        for. */
    lemma ContentsOfWritten(o: Outcome, c: seq<byte>)
      requires Valid() && o == Written(data[..]) && Layout(o.buf, c)
      ensures Contents == c
    {
      assert data[..][..|c|] == data[..|c|];
    }

    // --- accessors --------------------------------------------------------

    /** `available()`: the marker byte, the room left. */
    function Available(): (r: nat)
      reads this, data
      requires Shape()
      ensures Valid() ==> r == MaxChars - |Contents|
    {
      data[MaxChars] as int
    }

    /** `max_size()`: room for every byte but the terminator. */
    function MaxSize(): (r: nat)
      requires Shape()
      ensures r + 1 == Bytes
    {
      MaxChars
    }

    /** `capacity()`: the same as `max_size()`. */
    function Capacity(): (r: nat)
      reads this, data
      requires Shape()
      ensures r == MaxSize()
      ensures Valid() ==> |Contents| <= r
    {
      MaxChars
    }

    /** `size()`, computed from the marker and not by scanning. It only
        needs the array, so the mutators may re-read it part-way. */
    function Size(): (n: int)
      reads this, data
      requires Shape()
      ensures Valid() ==> n == |Contents|
    {
      MaxSize() - Available()
    }

    /** `full()`. */
    function Full(): (r: bool)
      reads this, data
      requires Valid()
      ensures r <==> |Contents| == MaxChars
    {
      Size() == MaxSize()
    }

    /** `data()`: the whole array, laid out as the class invariant says. */
    function Data(): (r: seq<byte>)
      reads this, data
      requires Valid()
      ensures |r| == Bytes
      ensures r[..|Contents|] == Contents && r[|Contents|] == NUL
      ensures r[Bytes - 1] as int == MaxChars - |Contents|
    {
      data[..]
    }

    /** `c_str()`: the same array, read as a C string. When the content holds
        no NUL of its own, reading it back yields exactly the content. */
    function CStr(): (r: seq<byte>)
      reads this, data
      requires Valid()
      ensures |r| == Bytes && r[|Contents|] == NUL
      ensures (forall i :: 0 <= i < |Contents| ==> Contents[i] != NUL) ==>
                CLen(r, Bytes) == |Contents| && r[..CLen(r, Bytes)] == Contents
    {
      data[..]
    }

    /** The pair `IArr` is built on: `size()` and the storage `data()` points
        at. */
    function View(): (v: ArrayView.View<byte>)
      reads this, data
      requires Valid()
      ensures ArrayView.Wf(v) && ArrayView.Elements(v) == Contents
      ensures v.size < |v.data| == Bytes && v.data == data[..]
      ensures ArrayView.Back(v) == NUL
    {
      ArrayView.View(Size(), data[..])
    }

    // --- static helpers ---------------------------------------------------

    /** `Str::len(str, n)`. */
    static method Len(str: seq<byte>, n: nat) returns (length: nat)
      requires Readable(str, n)
      ensures length == CLen(str, n)
    {
      length := 0;
      while length < n && str[length] != NUL
        invariant length <= CLen(str, n)
        invariant forall i :: 0 <= i < length ==> str[i] != NUL
      {
        length := length + 1;
      }
    }

    /** `Str::cpy(dst, src, n)`. */
    static method Cpy(dst: array<byte>, src: seq<byte>, n: nat)
      requires 1 <= n <= dst.Length
      requires Readable(src, n)
      modifies dst
      ensures dst[..n] == CopyPadded(src, n)
      ensures dst[n..] == old(dst[n..])
    {
      ghost var l := CLen(src, n);
      var i := 0;
      while i < n && src[i] != NUL
        invariant i <= l
        invariant dst[..i] == src[..i]
        invariant dst[n..] == old(dst[n..])
      {
        dst[i] := src[i];
        i := i + 1;
      }
      assert i == l;
      while i < n
        invariant l <= i <= n
        invariant dst[..i] == src[..l] + Repeat(NUL, i - l)
        invariant dst[n..] == old(dst[n..])
      {
        dst[i] := NUL;
        i := i + 1;
      }
      dst[n - 1] := NUL;
      assert dst[..n] == CopyPadded(src, n);
    }

    // --- constructors -----------------------------------------------------

    /** `Str()`: the empty string. */
    constructor Empty(bytes: nat)
      requires 1 <= bytes <= 128
      ensures Valid() && fresh(data) && Bytes == bytes
      ensures Contents == []
    {
      Bytes := bytes;
      MaxChars := bytes - 1;
      data := new byte[bytes];
      new;
      Clear();
    }

    /** `Str(str, sz)`: the C string `str`, read up to `sz` bytes, keeping at
        most `MAX_CHARS` of them. (The default `sz` is `MAX_CHARS`.) */
    constructor FromPtr(bytes: nat, str: seq<byte>, sz: nat)
      requires 1 <= bytes <= 128
      requires Readable(str, sz)
      ensures Valid() && fresh(data) && Bytes == bytes
      ensures Contents == str[..Minimum(CLen(str, sz), bytes - 1)]
    {
      Bytes := bytes;
      MaxChars := bytes - 1;
      data := new byte[bytes];
      new;
      var inputSize := Len(str, sz);
      var truncatedSize := if inputSize < MaxChars then inputSize else MaxChars;
      MemCpy(data, 0, str, truncatedSize);
      SetSizeUnsafe(truncatedSize);
      assert data[..truncatedSize] == str[..truncatedSize];
    }

    /** `Str(literal, AtCompileTime{})`: `literal` has exactly `SIZE` bytes;
        the array is zeroed and `cpy` copies the literal into it, forcing the
        last byte to 0, so the marker reads 0 and the string is full. */
    constructor FromLiteral(literal: seq<byte>)
      requires 1 <= |literal| <= 128
      ensures Valid() && fresh(data) && Bytes == |literal|
      ensures |Contents| == MaxChars
      ensures Contents == CopyPadded(literal, |literal|)[..MaxChars]
    {
      Bytes := |literal|;
      MaxChars := |literal| - 1;
      data := new byte[|literal|];
      new;
      Cpy(data, literal, Bytes);
      Contents := data[..MaxChars];
      assert data[..Bytes][..MaxChars] == data[..MaxChars];
    }

    /** `Str(const TStr& other)`: delegates to `Str(other.c_str(),
        other.size())`; `other` is given as its storage and its size. */
    static method FromStr(bytes: nat, other: seq<byte>, otherSize: nat) returns (s: Str)
      requires 1 <= bytes <= 128
      requires Readable(other, otherSize)
      ensures fresh(s) && fresh(s.data) && s.Valid() && s.Bytes == bytes
      ensures s.Contents == other[..Minimum(CLen(other, otherSize), bytes - 1)]
    {
      s := new Str.FromPtr(bytes, other, otherSize);
    }

    // --- size bookkeeping -------------------------------------------------

    /** `set_size_unsafe(sz)`: writes the marker, then the terminator at the
        `size()` the marker now gives. Nothing else is touched, so the first
        `sz` bytes become the content. */
    method SetSizeUnsafe(sz: nat)
      requires Shape()
      requires sz <= MaxChars
      modifies this, data
      ensures Valid()
      ensures Contents == old(data[..sz])
      ensures data[MaxChars] as int == MaxChars - sz && data[sz] == NUL
      ensures forall i :: 0 <= i < Bytes && i != sz && i != MaxChars ==> data[i] == old(data[i])
      ensures data[..] == SetSizeBytes(old(data[..]), sz)
    {
      SetSizeInPlace(data, sz);
      Contents := data[..sz];
    }

    /** `modify_size(diff)`: `set_size_unsafe(size() + diff)`. */
    method ModifySize(diff: int)
      requires Shape()
      requires -128 <= diff < 128
      requires 0 <= Size() + diff <= MaxChars
      modifies this, data
      ensures Valid()
      ensures Contents == old(data[..Size() + diff])
      ensures data[..] == SetSizeBytes(old(data[..]), old(Size()) + diff)
    {
      SetSizeUnsafe(Size() + diff);
    }

    // --- single characters ------------------------------------------------

    /** `push_back(c)`; undefined on a full string. */
    method PushBack(c: byte)
      requires Valid()
      requires |Contents| < MaxChars
      modifies this, data
      ensures Valid()
      ensures Contents == old(Contents) + [c]
    {
      data[Size()] := c;
      ModifySize(1);
    }

    /** `pop_back()`; undefined on an empty string. */
    method PopBack()
      requires Valid()
      requires |Contents| > 0
      modifies this, data
      ensures Valid()
      ensures Contents == old(Contents)[..|old(Contents)| - 1]
    {
      data[Size() - 1] := NUL;
      ModifySize(-1);
    }

    /** `clear()`. Needs no prior invariant: the default constructor uses it
        on fresh storage. */
    method Clear()
      requires Shape()
      modifies this, data
      ensures Valid()
      ensures Contents == []
    {
      SetSizeUnsafe(0);
    }

    // --- insertion --------------------------------------------------------

    /** `insert(index, count, fill)`: shifts the tail right by `count` with a
        backward loop, fills, and truncates to `MAX_CHARS`.
        The source loops forever when `index + count == 0` (an unsigned
        `i >= 0` test), and for `index > size()` on a string that is not full
        it grows the length without writing the new bytes; both are excluded,
        as is `size_t` wrap-around. */
    method InsertFill(index: nat, count: nat, fill: byte)
      requires Valid()
      requires index + count >= 1
      requires index <= |Contents| || |Contents| == MaxChars || count == 0
      requires NoWrap(index, count) && NoWrap(MaxChars, count)
      modifies this, data
      ensures Valid()
      ensures data[..] == FillBytes(old(data[..]), |old(Contents)|, index, count, fill)
      ensures Contents == InsertedFill(old(Contents), index, count, fill, MaxChars)
      ensures count == 0 ==> data[..] == old(data[..])
    {
      ghost var s := Contents;
      assert data[..][..|s|] == s;
      InsertFillInPlace(data, Size(), index, count, fill);
      Contents := InsertedFill(s, index, count, fill, MaxChars);
      assert data[..][..|Contents|] == data[..|Contents|];
    }

    /** `insert(index, str)`: the C string `str`, read up to `MAX_CHARS`
        bytes. */
    method InsertCStr(index: nat, str: seq<byte>)
      requires Valid()
      requires Readable(str, MaxChars)
      requires PtrInsertSafe(|Contents|, MaxChars, index, CLen(str, MaxChars))
      modifies this, data
      ensures Valid()
      ensures Contents == InsertedPtr(old(Contents), index, str, CLen(str, MaxChars), MaxChars)
    {
      var count := Len(str, MaxChars);
      InsertPtr(index, str, count);
    }

    /** `insert(index, str, count)`: clamps the insertion point to `size()`
        and the insertion to the room after it, moves the tail with
        `memmove`, copies with `memcpy`, and re-reads `size()` for the new
        length. Only the regimes of `PtrInsertSafe` are admitted. */
    method InsertPtr(index: nat, str: seq<byte>, count: nat)
      requires Valid()
      requires InsertionSize(index, count, |Contents|, MaxChars) <= |str|
      requires PtrInsertSafe(|Contents|, MaxChars, index, count)
      modifies this, data
      ensures Valid()
      ensures PtrInsertFixed(old(data[..]), |old(Contents)|, index, str, count) == Written(data[..])
      ensures Contents == InsertedPtr(old(Contents), index, str, count, MaxChars)
    {
      ghost var s := Contents;
      assert data[..][..|s|] == s;
      InsertPtrInPlace(data, Size(), index, str, count);
      Contents := InsertedPtr(s, index, str, count, MaxChars);
      assert data[..][..|Contents|] == data[..|Contents|];
    }

    /** `insert(index, const TStr& str)`: `insert(index, str.data(),
        str.size())`. */
    method InsertStr(index: nat, other: seq<byte>, otherSize: nat)
      requires Valid()
      requires InsertionSize(index, otherSize, |Contents|, MaxChars) <= |other|
      requires PtrInsertSafe(|Contents|, MaxChars, index, otherSize)
      modifies this, data
      ensures Valid()
      ensures Contents == InsertedPtr(old(Contents), index, other, otherSize, MaxChars)
    {
      InsertPtr(index, other, otherSize);
    }

    // --- appending --------------------------------------------------------

    /** `append(count, fill)`: `insert(size(), count, fill)`. On an empty
        string `count` must not be 0 (that is `insert(0, 0, fill)`). */
    method AppendFill(count: nat, fill: byte)
      requires Valid()
      requires |Contents| + count >= 1
      requires NoWrap(MaxChars, count)
      modifies this, data
      ensures Valid()
      ensures Contents == InsertedFill(old(Contents), |old(Contents)|, count, fill, MaxChars)
      ensures Contents == old(Contents) + Repeat(fill, Minimum(count, MaxChars - |old(Contents)|))
    {
      ghost var s := Contents;
      InsertFill(Size(), count, fill);
      AppendFillIsConcat(s, count, fill, MaxChars);
    }

    /** `append(str)`: `insert(size(), str)`. */
    method AppendCStr(str: seq<byte>)
      requires Valid()
      requires Readable(str, MaxChars)
      modifies this, data
      ensures Valid()
      ensures Contents == InsertedPtr(old(Contents), |old(Contents)|, str, CLen(str, MaxChars), MaxChars)
      ensures Contents == old(Contents) + str[..Minimum(CLen(str, MaxChars), MaxChars - |old(Contents)|)]
    {
      ghost var s := Contents;
      InsertCStr(Size(), str);
      AppendPtrIsConcat(s, str, CLen(str, MaxChars), MaxChars);
    }

    /** `append(str, count)`: `insert(size(), str, count)`. Appending never
        needs the move-size fix-up, so every call is in a safe regime. */
    method AppendPtr(str: seq<byte>, count: nat)
      requires Valid()
      requires Minimum(count, MaxChars - |Contents|) <= |str|
      modifies this, data
      ensures Valid()
      ensures Contents == InsertedPtr(old(Contents), |old(Contents)|, str, count, MaxChars)
      ensures Contents == old(Contents) + str[..Minimum(count, MaxChars - |old(Contents)|)]
    {
      ghost var s := Contents;
      InsertPtr(Size(), str, count);
      AppendPtrIsConcat(s, str, count, MaxChars);
    }

    /** `append(const TStr& str)`: `insert(size(), str)`. */
    method AppendStr(other: seq<byte>, otherSize: nat)
      requires Valid()
      requires Minimum(otherSize, MaxChars - |Contents|) <= |other|
      modifies this, data
      ensures Valid()
      ensures Contents == InsertedPtr(old(Contents), |old(Contents)|, other, otherSize, MaxChars)
      ensures Contents == old(Contents) + other[..Minimum(otherSize, MaxChars - |old(Contents)|)]
    {
      ghost var s := Contents;
      InsertStr(Size(), other, otherSize);
      AppendPtrIsConcat(s, other, otherSize, MaxChars);
    }

    /** `operator+=(chr)`: `append(&chr, 1)`; a no-op on a full string. */
    method AddChar(chr: byte)
      requires Valid()
      modifies this, data
      ensures Valid()
      ensures |old(Contents)| < MaxChars ==> Contents == old(Contents) + [chr]
      ensures |old(Contents)| == MaxChars ==> Contents == old(Contents)
    {
      AppendPtr([chr], 1);
    }

    /** `operator+=(str)`: `append(str)`. */
    method AddCStr(str: seq<byte>)
      requires Valid()
      requires Readable(str, MaxChars)
      modifies this, data
      ensures Valid()
      ensures Contents == old(Contents) + str[..Minimum(CLen(str, MaxChars), MaxChars - |old(Contents)|)]
    {
      AppendCStr(str);
    }

    /** `operator+=(const TString& str)`: `append(str)`. */
    method AddStr(other: seq<byte>, otherSize: nat)
      requires Valid()
      requires Minimum(otherSize, MaxChars - |Contents|) <= |other|
      modifies this, data
      ensures Valid()
      ensures Contents == old(Contents) + other[..Minimum(otherSize, MaxChars - |old(Contents)|)]
    {
      AppendStr(other, otherSize);
    }

    // --- erasure ----------------------------------------------------------

    /** `erase(index, count)`: removes `min(count, size() - index)`
        characters at `index` and moves the tail left. The source computes
        with `index` where it means the clamped `erase_point`, so
        `index > size()` is excluded. It also moves `size() - index` bytes,
        reading past the content; only the first
        `size() - index - erase_size` of them end up inside the content, and
        those are the ones moved here. */
    method Erase(index: nat, count: nat)
      requires Valid()
      requires index <= |Contents|
      modifies this, data
      ensures Valid()
      ensures EraseBytes(old(data[..]), |old(Contents)|, index, EraseSizeFixed(|old(Contents)|, index, count),
                EraseMoveFixed(|old(Contents)|, index, count)) == Written(data[..])
      ensures Contents == Erased(old(Contents), index, count)
    {
      ghost var s := Contents;
      assert data[..][..|s|] == s;
      EraseInPlace(data, Size(), index, count);
      Contents := Erased(s, index, count);
      assert data[..][..|Contents|] == data[..|Contents|];
    }

    /** `erase(position)`: `erase(position - cbegin(), 1)`, with iterators as
        indices. */
    method ErasePos(position: nat)
      requires Valid()
      requires position <= |Contents|
      modifies this, data
      ensures Valid()
      ensures Contents == Erased(old(Contents), position, 1)
    {
      Erase(position - ArrayView.CBegin(View()), 1);
    }

    /** `erase(first, last)`: `erase(first - cbegin(), last - first)`. The
        difference is converted to `size_t`, so `last < first` wraps to a
        huge count and erases everything from `first` on. */
    method EraseRange(first: nat, last: nat)
      requires Valid()
      requires first <= |Contents| && last <= Bytes
      modifies this, data
      ensures Valid()
      ensures first <= last ==> Contents == Erased(old(Contents), first, last - first)
      ensures last < first ==> Contents == old(Contents)[..first]
    {
      ghost var s := Contents;
      var count := (last - first) % SizeTModulus;
      assert first <= last ==> count == last - first;
      assert last < first ==> count >= |s| - first;
      Erase(first - ArrayView.CBegin(View()), count);
      assert last < first ==> Erased(s, first, count) == s[..first];
    }
  }

  // ---------------------------------------------------------------------
  // Free functions.

  /** `str_literal(literal)`: the literal constructor. */
  method StrLiteral(literal: seq<byte>) returns (s: Str)
    requires 1 <= |literal| <= 128
    ensures fresh(s) && fresh(s.data) && s.Valid() && s.Bytes == |literal|
    ensures s.Full()
    ensures (forall i :: 0 <= i < |literal| - 1 ==> literal[i] != NUL) ==> s.Contents == literal[..|literal| - 1]
  {
    s := new Str.FromLiteral(literal);
    if forall i :: 0 <= i < |literal| - 1 ==> literal[i] != NUL {
      LiteralContent(literal);
    }
  }

  /** `lhs % rhs`: a new `Str<LSIZE + RSIZE - 1>`, built from `""` by
      appending `lhs` and then `rhs`; it is large enough that nothing is
      truncated. */
  method Concat(lhs: Str, rhs: Str) returns (r: Str)
    requires lhs.Valid() && rhs.Valid()
    requires lhs.Bytes + rhs.Bytes - 1 <= 128
    ensures fresh(r) && fresh(r.data) && r.Valid()
    ensures r.Bytes == lhs.Bytes + rhs.Bytes - 1
    ensures r.Contents == lhs.Contents + rhs.Contents
  {
    r := new Str.FromPtr(lhs.Bytes + rhs.Bytes - 1, [NUL], lhs.Bytes + rhs.Bytes - 2);
    assert r.Contents == [];
    r.AppendStr(lhs.Data(), lhs.Size());
    assert r.Contents == lhs.Contents;
    assert rhs.Valid();
    r.AppendStr(rhs.Data(), rhs.Size());
  }
}
