/** Three places where the byte arithmetic of `lil::Str` does not do what the
    surrounding code and documentation say it does. Each is modelled twice on
    the whole array of a string: once as written, with concrete inputs that
    show the discrepancy, and once corrected, with the intended content
    proved. The class `Strings.Str` admits only the inputs on which the two
    agree. */
module StrFindings {
  import opened Intervals
  import opened StrSpec

  // ---------------------------------------------------------------------
  // insert(index, str, count): the move size.

  /** A string that is not full, with an insertion that overflows:
      `Str<10>("12345678").insert(1, "abc", 3)` moves too little of the tail,
      so the old terminator ends up inside the new content "1abc2345\0",
      which should have been "1abc23456". */
  lemma StaleTerminatorExample()
    ensures Holds([49, 50, 51, 52, 53, 54, 55, 56, 0, 1], 8)
    ensures MoveSizeAsWritten(8, 1, 3, 9) == 4
    ensures PtrInsertAsWritten([49, 50, 51, 52, 53, 54, 55, 56, 0, 1], 8, 1, [97, 98, 99], 3)
         == Written([49, 97, 98, 99, 50, 51, 52, 53, 0, 0])
    ensures InsertedPtr([49, 50, 51, 52, 53, 54, 55, 56], 1, [97, 98, 99], 3, 9)
         == [49, 97, 98, 99, 50, 51, 52, 53, 54]
  {
    var buf: seq<byte> := [49, 50, 51, 52, 53, 54, 55, 56, 0, 1];
    assert buf[..8] == [49, 50, 51, 52, 53, 54, 55, 56];
    var moved := MoveBytes(buf, 4, 1, 4);
    assert moved == [49, 50, 51, 52, 50, 51, 52, 53, 0, 1];
    var copied := CopyBytes(moved, 1, [97, 98, 99], 3);
    assert copied == [49, 97, 98, 99, 50, 51, 52, 53, 0, 1];
    assert SetSizeBytes(copied, 9) == [49, 97, 98, 99, 50, 51, 52, 53, 0, 0];
  }

  /** A full string, with a short insertion near the end:
      `Str<10>("123456789").insert(5, "ab", 2)` moves the whole tail, four
      bytes to positions 7 to 10, one past the array. */
  lemma OutOfBoundsExample()
    ensures Holds([49, 50, 51, 52, 53, 54, 55, 56, 57, 0], 9)
    ensures MoveSizeAsWritten(9, 5, 2, 9) == 4
    ensures PtrInsertAsWritten([49, 50, 51, 52, 53, 54, 55, 56, 57, 0], 9, 5, [97, 98], 2) == OutOfBounds
  {
    var buf: seq<byte> := [49, 50, 51, 52, 53, 54, 55, 56, 57, 0];
    assert buf[..9] == [49, 50, 51, 52, 53, 54, 55, 56, 57];
  }

  /** A full string, with a one-character insertion just before the end:
      in `Str<10>("12345678\n").insert(8, "a", 1)` the `memmove` moves the
      newline onto the size marker. `size()` then reads `9 - 10`, which
      wraps, and adding the insertion wraps back to 0: the string becomes
      empty instead of "12345678a". */
  lemma MarkerMisreadExample()
    ensures Holds([49, 50, 51, 52, 53, 54, 55, 56, 10, 0], 9)
    ensures MoveSizeAsWritten(9, 8, 1, 9) == 1
    ensures PtrInsertAsWritten([49, 50, 51, 52, 53, 54, 55, 56, 10, 0], 9, 8, [97], 1)
         == Written([0, 50, 51, 52, 53, 54, 55, 56, 97, 9])
    ensures InsertedPtr([49, 50, 51, 52, 53, 54, 55, 56, 10], 8, [97], 1, 9)
         == [49, 50, 51, 52, 53, 54, 55, 56, 97]
  {
    var buf: seq<byte> := [49, 50, 51, 52, 53, 54, 55, 56, 10, 0];
    assert buf[..9] == [49, 50, 51, 52, 53, 54, 55, 56, 10];
    var moved := MoveBytes(buf, 9, 8, 1);
    assert moved == [49, 50, 51, 52, 53, 54, 55, 56, 10, 10];
    var copied := CopyBytes(moved, 8, [97], 1);
    assert copied == [49, 50, 51, 52, 53, 54, 55, 56, 97, 10];
    assert SizeReadAsWritten(copied) == SizeTModulus - 1;
    assert (SizeTModulus - 1 + 1) % SizeTModulus == 0;
    MarkerOverwriteAsWritten(buf, 97, copied, 0);
    assert SetSizeBytes(copied, 0) == [0, 50, 51, 52, 53, 54, 55, 56, 97, 9];
  }

  /** On a full string of at least two characters, inserting one character
      before the last moves the last character `c` onto the size marker.
      The result is still the intended one exactly when `c` is not both
      between 2 and `MAX_CHARS + 1` and below 128: then `size()` reads a size that, plus one and
      capped, is `MAX_CHARS` again. */
  lemma {:induction false} MarkerOverwriteExactly(buf: seq<byte>, x: byte)
    requires |buf| >= 3 && Holds(buf, |buf| - 1)
    ensures var max := |buf| - 1;
      var c := buf[max - 1];
      var same := PtrInsertAsWritten(buf, max, max - 1, [x], 1) == PtrInsertFixed(buf, max, max - 1, [x], 1);
      same <==> !(2 <= c as int <= max + 1 && c < 128)
  {
    var max := |buf| - 1;
    var copied := CopyBytes(MoveBytes(buf, max, max - 1, 1), max - 1, [x], 1);
    assert copied[max] == buf[max - 1];
    var read := SizeReadAsWritten(copied);
    var n := Minimum((read + 1) % SizeTModulus, max);
    MarkerOverwriteAsWritten(buf, x, copied, n);
    MarkerOverwriteFixed(buf, x);
    MarkerReadSize(max, buf[max - 1], read, n);
    var asWritten := SetSizeBytes(copied, n);
    var fixed := SetSizeBytes(CopyBytes(buf, max - 1, [x], 1), max);
    if n == max {
      forall j | 0 <= j < |buf|
        ensures asWritten[j] == fixed[j]
      {
      }
      assert asWritten == fixed;
    } else {
      assert asWritten[max] != fixed[max];
    }
  }

  /** As written, the last character moves onto the marker, and the size
      is re-read from it plus one, capped. */
  lemma MarkerOverwriteAsWritten(buf: seq<byte>, x: byte, copied: seq<byte>, n: nat)
    requires |buf| >= 3 && Holds(buf, |buf| - 1)
    requires copied == CopyBytes(MoveBytes(buf, |buf| - 1, |buf| - 2, 1), |buf| - 2, [x], 1)
    requires n == Minimum((SizeReadAsWritten(copied) + 1) % SizeTModulus, |buf| - 1)
    ensures PtrInsertAsWritten(buf, |buf| - 1, |buf| - 2, [x], 1) == Written(SetSizeBytes(copied, n))
  {
    var max := |buf| - 1;
    assert InsertionPoint(max - 1, max) == max - 1;
    assert InsertionSize(max - 1, 1, max, max) == 1;
    assert MoveSizeAsWritten(max, max - 1, 1, max) == 1;
    assert PtrInsertBytes(buf, max, max - 1, 1, [x], 1) == Written(SetSizeBytes(copied, n));
  }

  /** With the intended move size nothing moves, and the string stays
      full. */
  lemma MarkerOverwriteFixed(buf: seq<byte>, x: byte)
    requires |buf| >= 3 && Holds(buf, |buf| - 1)
    ensures PtrInsertFixed(buf, |buf| - 1, |buf| - 2, [x], 1)
         == Written(SetSizeBytes(CopyBytes(buf, |buf| - 2, [x], 1), |buf| - 1))
  {
    var max := |buf| - 1;
    assert InsertionPoint(max - 1, max) == max - 1;
    assert InsertionSize(max - 1, 1, max, max) == 1;
    assert MoveSizeFixed(max, max - 1, 1, max) == 0;
    assert MoveBytes(buf, max, max - 1, 0) == buf;
    assert PtrInsertBytes(buf, max, max - 1, 1, [x], 0) == Written(MoveAndCopy(buf, max - 1, 1, 0, [x], max));
  }

  /** The size `insert` sets after reading the marker byte `c` as
      `available()` and adding one is `MAX_CHARS` again exactly when `c` is
      not both between 2 and `MAX_CHARS + 1` and below 128. */
  lemma MarkerReadSize(max: nat, c: byte, read: nat, n: nat)
    requires 2 <= max <= 127
    requires c as int <= max ==> read == max - c as int
    requires max < c as int < 128 ==> read == SizeTModulus + max - c as int
    requires c >= 128 ==> read == max + 256 - c as int
    requires n == Minimum((read + 1) % SizeTModulus, max)
    ensures n <= max
    ensures n == max <==> !(2 <= c as int <= max + 1 && c < 128)
  {
    if c as int == max + 1 && c < 128 {
      assert read + 1 == SizeTModulus;
    } else if max + 1 < c as int < 128 {
      assert read + 1 < SizeTModulus;
    }
  }

  /** An insertion longer than the tail: in `Str<10>("1234").insert(0,
      "abcdef", 6)` the subtraction `4 - 6` wraps, and `memmove` is asked to
      move almost `2^64` bytes. */
  lemma WrapExample()
    ensures Holds([49, 50, 51, 52, 0, 0, 0, 0, 0, 5], 4)
    ensures MoveSizeAsWritten(4, 0, 6, 9) == SizeTModulus - 2
    ensures PtrInsertAsWritten([49, 50, 51, 52, 0, 0, 0, 0, 0, 5], 4, 0, [97, 98, 99, 100, 101, 102], 6)
         == OutOfBounds
  {
    var buf: seq<byte> := [49, 50, 51, 52, 0, 0, 0, 0, 0, 5];
    assert buf[..4] == [49, 50, 51, 52];
  }

  // ---------------------------------------------------------------------
  // erase(index, count): the erase size and the move length.

  /** `erase_size` as written: `size() - index`, not `size() - erase_point`,
      in `size_t`. */
  function EraseSizeAsWritten(size: nat, index: nat, count: nat): (r: nat)
    ensures r <= count
    ensures index <= size < index + SizeTModulus ==> r == Minimum(count, size - index)
    ensures size < index < size + SizeTModulus ==> r == Minimum(count, SizeTModulus + size - index)
  {
    Minimum(count, (size - index) % SizeTModulus)
  }

  /** The `memmove` length as written: `size() - index`, in `size_t`. */
  function EraseMoveAsWritten(size: nat, index: nat): (r: nat)
    ensures r < SizeTModulus
    ensures index <= size < index + SizeTModulus ==> r == size - index
    ensures size < index < size + SizeTModulus ==> r == SizeTModulus + size - index
  {
    (size - index) % SizeTModulus
  }

  /** For an index inside the content the erase size as written is the
      intended one; only the move length differs, by `erase_size`. */
  lemma EraseAgreesInRange(size: nat, index: nat, count: nat)
    requires index <= size < SizeTModulus
    ensures EraseSizeAsWritten(size, index, count) == EraseSizeFixed(size, index, count)
    ensures EraseMoveAsWritten(size, index) == EraseMoveFixed(size, index, count) + EraseSizeFixed(size, index, count)
  {
  }

  /** For an index inside the content, `erase` as written reads past the
      array exactly when the string and the erased characters together are
      longer than the array. Otherwise the extra bytes it moves land at or
      after the new terminator, and the content is the intended one. */
  lemma {:induction false} EraseAsWrittenInRange(buf: seq<byte>, size: nat, index: nat, count: nat)
    requires Holds(buf, size) && index <= size
    ensures var es := EraseSizeAsWritten(size, index, count);
      var o := EraseBytes(buf, size, index, es, EraseMoveAsWritten(size, index));
      && (o.OutOfBounds? <==> size + es > |buf|)
      && (o.Written? ==> Layout(o.buf, Erased(buf[..size], index, count)))
  {
    EraseAgreesInRange(size, index, count);
    var es := EraseSizeAsWritten(size, index, count);
    var move := size - index;
    assert EraseMoveAsWritten(size, index) == move;
    if size + es <= |buf| {
      var s := buf[..size];
      var moved := MoveBytes(buf, index, index + es, move);
      var expected := Erased(s, index, count);
      assert |expected| == size - es;
      forall j | 0 <= j < size - es
        ensures moved[j] == expected[j]
      {
        if j < index {
          assert moved[j] == s[j];
        } else {
          assert moved[j] == buf[j + es] == s[j + es];
        }
      }
      assert moved[..size - es] == expected;
    }
  }

  /** A long erase from near the start: in `Str<11>("0123456789").erase(1,
      99)` the `memmove` reads nine bytes from position 10, up to position
      19 of an 11-byte array. */
  lemma OverReadExample()
    ensures Holds([48, 49, 50, 51, 52, 53, 54, 55, 56, 57, 0], 10)
    ensures EraseSizeAsWritten(10, 1, 99) == 9
    ensures EraseMoveAsWritten(10, 1) == 9
    ensures EraseBytes([48, 49, 50, 51, 52, 53, 54, 55, 56, 57, 0], 10, 1, 9, 9) == OutOfBounds
  {
    var buf: seq<byte> := [48, 49, 50, 51, 52, 53, 54, 55, 56, 57, 0];
    assert buf[..10] == [48, 49, 50, 51, 52, 53, 54, 55, 56, 57];
  }

  /** An index past the end: in `Str<10>("ab").erase(5, 1)` the subtraction
      `2 - 5` wraps, so one character would be erased where there is none,
      and `memmove` is asked to move almost `2^64` bytes. */
  lemma ErasePastEndExample()
    ensures Holds([97, 98, 0, 0, 0, 0, 0, 0, 0, 7], 2)
    ensures EraseSizeAsWritten(2, 5, 1) == 1
    ensures EraseMoveAsWritten(2, 5) == SizeTModulus - 3
    ensures EraseBytes([97, 98, 0, 0, 0, 0, 0, 0, 0, 7], 2, 5, 1, SizeTModulus - 3) == OutOfBounds
  {
    var buf: seq<byte> := [97, 98, 0, 0, 0, 0, 0, 0, 0, 7];
    assert buf[..2] == [97, 98];
  }

  // ---------------------------------------------------------------------
  // insert(index, count, fill): an index past the end.

  /** An index past the end of a string that is not full. The pointer
      constructor writes only the characters and the terminator, so in
      `Str<10>("ab")` the bytes from position 3 to 8 are whatever was in
      memory. `insert(5, 2, 'x')` then writes the fill at positions 5 and
      6, outside the new content, and sets the size to 4: the content is
      "ab", the old terminator and the unwritten byte at position 3.
      `insert(3, 2, 'x')` writes the fill at positions 3 and 4 and also sets
      the size to 4: the content is "ab", the old terminator and one 'x'.
      Clamping the index, as the pointer overload does, gives "abxx" in
      both cases; leaving the string as it is gives "ab". */
  lemma FillPastEndExample(buf: seq<byte>)
    requires |buf| == 10 && Holds(buf, 2) && buf[..2] == [97, 98]
    ensures FillBytes(buf, 2, 5, 2, 120)[..4] == [97, 98, NUL, buf[3]]
    ensures FillBytes(buf, 2, 5, 2, 120)[5..7] == [120, 120]
    ensures FillBytes(buf, 2, 3, 2, 120)[..4] == [97, 98, NUL, 120]
    ensures Layout(FillBytes(buf, 2, 5, 2, 120), [97, 98, NUL, buf[3]])
    ensures Layout(FillBytes(buf, 2, 3, 2, 120), [97, 98, NUL, 120])
    ensures InsertedFill([97, 98], 5, 2, 120, 9) == [97, 98, 120, 120]
    ensures InsertedFill([97, 98], 3, 2, 120, 9) == [97, 98, 120, 120]
  {
    assert buf[0] == 97 && buf[1] == 98;
    var far := FillBytes(buf, 2, 5, 2, 120);
    assert far[0] == 97 && far[1] == 98 && far[2] == NUL && far[3] == buf[3];
    assert far[..4] == [97, 98, NUL, buf[3]];
    var near := FillBytes(buf, 2, 3, 2, 120);
    assert near[0] == 97 && near[1] == 98 && near[2] == NUL && near[3] == 120;
    assert near[..4] == [97, 98, NUL, 120];
    assert Repeat(120, 2) == [120, 120];
  }

  /** With the index clamped to the size, as the pointer overload does, the
      loops leave exactly the content `InsertedFill` describes, for every
      index. */
  lemma {:induction false} FillClampedCorrect(buf: seq<byte>, size: nat, index: nat, count: nat, fill: byte)
    requires Holds(buf, size)
    ensures var r := FillBytes(buf, size, Minimum(index, size), count, fill);
      Layout(r, InsertedFill(buf[..size], index, count, fill, |buf| - 1))
  {
    var ip := Minimum(index, size);
    FillLoopsInside(buf, size, ip, count, fill);
    assert InsertedFill(buf[..size], ip, count, fill, |buf| - 1) == InsertedFill(buf[..size], index, count, fill, |buf| - 1);
  }
}
