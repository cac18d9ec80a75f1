/** The scenarios of the repository's tests of `lil::Str`, stated against the
    model. Each method records what `c_str()` reads after every step, as the
    tests' string comparisons do, and its contract is the list the test
    expects. Strings are written as their ASCII bytes, with the text in a
    comment; a lemma beside each scenario computes the contents on values. */
module StrScenarios {
  import opened Strings
  import opened StrSpec
  import ArrayView

  /** What a `strcmp` against `c_str()` sees: the bytes before the first
      terminator. */
  method Observe(s: Str) returns (r: seq<byte>)
    requires s.Valid()
    ensures NUL !in s.Contents ==> r == s.Contents
  {
    var n := Str.Len(s.CStr(), s.Bytes);
    r := s.CStr()[..n];
  }

  // One step of a test: a mutator, then a comparison of `c_str()` with the
  // content the test expects.

  /** `insert(index, count, fill)`, then `c_str()`. */
  method FillStep(s: Str, index: nat, count: nat, fill: byte, expected: seq<byte>) returns (r: seq<byte>)
    requires s.Valid() && index + count >= 1
    requires index <= |s.Contents| || |s.Contents| == s.MaxChars || count == 0
    requires NoWrap(index, count) && NoWrap(s.MaxChars, count)
    requires InsertedFill(s.Contents, index, count, fill, s.MaxChars) == expected && NUL !in expected
    modifies s, s.data
    ensures s.Valid() && s.Contents == expected && r == expected
  {
    s.InsertFill(index, count, fill);
    r := Observe(s);
  }

  /** `insert(index, str)`, then `c_str()`. */
  method CStrStep(s: Str, index: nat, str: seq<byte>, expected: seq<byte>) returns (r: seq<byte>)
    requires s.Valid() && Readable(str, s.MaxChars)
    requires PtrInsertSafe(|s.Contents|, s.MaxChars, index, CLen(str, s.MaxChars))
    requires InsertedPtr(s.Contents, index, str, CLen(str, s.MaxChars), s.MaxChars) == expected && NUL !in expected
    modifies s, s.data
    ensures s.Valid() && s.Contents == expected && r == expected
  {
    s.InsertCStr(index, str);
    r := Observe(s);
  }

  /** `erase(index, count)`, then `c_str()`. */
  method EraseStep(s: Str, index: nat, count: nat, expected: seq<byte>) returns (r: seq<byte>)
    requires s.Valid() && index <= |s.Contents|
    requires Erased(s.Contents, index, count) == expected && NUL !in expected
    modifies s, s.data
    ensures s.Valid() && s.Contents == expected && r == expected
  {
    s.Erase(index, count);
    r := Observe(s);
  }

  /** `erase(cbegin() + first, cbegin() + last)`, then `c_str()`. */
  method EraseRangeStep(s: Str, first: nat, last: nat, expected: seq<byte>) returns (r: seq<byte>)
    requires s.Valid() && first <= last <= |s.Contents|
    requires Erased(s.Contents, first, last - first) == expected && NUL !in expected
    modifies s, s.data
    ensures s.Valid() && s.Contents == expected && r == expected
  {
    var begin := ArrayView.CBegin(s.View());
    s.EraseRange(begin + first, begin + last);
    r := Observe(s);
  }

  /** `erase(cbegin() + position)`, then `c_str()`. */
  method ErasePosStep(s: Str, position: nat, expected: seq<byte>) returns (r: seq<byte>)
    requires s.Valid() && position <= |s.Contents|
    requires Erased(s.Contents, position, 1) == expected && NUL !in expected
    modifies s, s.data
    ensures s.Valid() && s.Contents == expected && r == expected
  {
    var begin := ArrayView.CBegin(s.View());
    s.ErasePos(begin + position);
    r := Observe(s);
  }

  /** `std::distance(cend(), cbegin())` of `Str<5>` "abcd". */
  method CEndPosition() returns (distance: int)
    ensures distance == -4
  {
    CLenOfFirstNul([97, 98, 99, 100, 0], 4, 4);
    var s := new Str.FromPtr(5, [97, 98, 99, 100, 0], 4);
    distance := ArrayView.CBegin(s.View()) - ArrayView.CEnd(s.View());
  }

  /** `size()` of an empty `Str<5>`, and after four `push_back`s. */
  method SizeAfterPushes() returns (sizes: seq<int>)
    ensures sizes == [0, 4]
  {
    var s := new Str.Empty(5);
    var before := s.Size();
    s.PushBack(97);
    s.PushBack(98);
    s.PushBack(99);
    s.PushBack(100);
    var after := s.Size();
    sizes := [before, after];
  }

  /** "input" with its terminator, as a C string and as the buffer of a
      std::string. */
  const Input: seq<byte> := [105, 110, 112, 117, 116, 0]

  /** `len` of "input", bounded by its length or by `MAX_CHARS` of a
      `Str<3>`. */
  lemma InputLengths()
    ensures CLen(Input, 5) == 5 && CLen(Input, 2) == 2
    ensures CLen([105, 110, 0], 2) == 2
  {
    CLenOfFirstNul(Input, 5, 5);
    assert NUL !in Input[..2];
    CLenOfNulFree(Input, 2);
    CLenOfFirstNul([105, 110, 0], 2, 2);
  }

  /** Every way of building a `Str<3>` from "input" or "in" keeps "in". */
  method Construction() returns (seen: seq<seq<byte>>)
    ensures seen == [[105, 110], [105, 110], [105, 110], [105, 110], [105, 110]]
  {
    var r1, r2 := ConstructFromInput();
    var r3 := ConstructFromShorter();
    var r4 := ConstructFromLonger();
    var r5 := ConstructFromSame();
    seen := [r1, r2, r3, r4, r5];
  }

  /** A `Str<3>` from the std::string "input", through its `c_str()` and
      `size()`, and from the C string "input", read up to `MAX_CHARS`. */
  method ConstructFromInput() returns (r1: seq<byte>, r2: seq<byte>)
    ensures r1 == [105, 110] && r2 == [105, 110]
  {
    InputLengths();
    var a := Str.FromStr(3, Input, 5);
    assert a.Contents == [105, 110];
    r1 := Observe(a);
    var b := new Str.FromPtr(3, Input, 2);
    assert b.Contents == [105, 110];
    r2 := Observe(b);
  }

  /** A `Str<5>` from a shorter `Str<3>` "in". */
  method ConstructFromShorter() returns (r: seq<byte>)
    ensures r == [105, 110]
  {
    InputLengths();
    var c := new Str.FromPtr(3, [105, 110, 0], 2);
    assert c.Contents == [105, 110];
    var d := Str.FromStr(5, c.CStr(), c.Size());
    assert d.Contents == [105, 110];
    r := Observe(d);
  }

  /** A `Str<3>` from a longer `Str<6>` "input". */
  method ConstructFromLonger() returns (r: seq<byte>)
    ensures r == [105, 110]
  {
    InputLengths();
    var e := new Str.FromPtr(6, Input, 5);
    assert e.Contents == [105, 110, 112, 117, 116];
    var f := Str.FromStr(3, e.CStr(), e.Size());
    assert f.Contents == [105, 110];
    r := Observe(f);
  }

  /** A `Str<3>` from another `Str<3>` "in". In C++ this declaration
      selects the implicit copy constructor, which copies all three bytes,
      not the converting template; the copy has the same content as the
      template's `Str(other.c_str(), other.size())` stated here. */
  method ConstructFromSame() returns (r: seq<byte>)
    ensures r == [105, 110]
  {
    InputLengths();
    var c := new Str.FromPtr(3, [105, 110, 0], 2);
    assert c.Contents == [105, 110];
    var g := Str.FromStr(3, c.CStr(), c.Size());
    assert g.Contents == [105, 110];
    r := Observe(g);
  }

  /** The contents the fitting insertions produce, on values. */
  lemma FittingInsertions()
    ensures InsertedFill([53, 56], 0, 1, 49, 9) == [49, 53, 56]
    ensures InsertedFill([49, 53, 56], 1, 3, 48, 9) == [49, 48, 48, 48, 53, 56]
    ensures InsertedFill([49, 48, 48, 48, 53, 56], 5, 2, 48, 9) == [49, 48, 48, 48, 53, 48, 48, 56]
    ensures InsertedFill([49, 48, 48, 48, 53, 48, 48, 56], 8, 1, 48, 9) == [49, 48, 48, 48, 53, 48, 48, 56, 48]
  {
    assert Repeat(49, 1) == [49];
    assert Repeat(48, 3) == [48, 48, 48];
    assert Repeat(48, 2) == [48, 48];
    assert Repeat(48, 1) == [48];
  }

  /** Inserting fitting characters into a `Str<10>` "58". */
  method InsertFittingCharacters() returns (seen: seq<seq<byte>>)
    ensures seen == [
      [53, 56],                              // "58"
      [49, 53, 56],                          // "158"
      [49, 48, 48, 48, 53, 56],              // "100058"
      [49, 48, 48, 48, 53, 48, 48, 56],      // "10005008"
      [49, 48, 48, 48, 53, 48, 48, 56, 48],  // "100050080"
      [49, 48, 48, 48, 53, 48, 48, 56, 48]]  // "100050080"
  {
    FittingInsertions();
    CLenOfFirstNul([53, 56, 0], 9, 2);
    var s := new Str.FromPtr(10, [53, 56, 0], 9);
    assert s.Contents == [53, 56];
    var r1 := Observe(s);
    var r2 := FillStep(s, 0, 1, 49, [49, 53, 56]);
    var r3 := FillStep(s, 1, 3, 48, [49, 48, 48, 48, 53, 56]);
    var r4 := FillStep(s, 5, 2, 48, [49, 48, 48, 48, 53, 48, 48, 56]);
    var r5 := FillStep(s, 8, 1, 48, [49, 48, 48, 48, 53, 48, 48, 56, 48]);
    var r6 := FillStep(s, 5, 0, 88, [49, 48, 48, 48, 53, 48, 48, 56, 48]);
    seen := [r1, r2, r3, r4, r5, r6];
  }

  /** The contents the overflowing insertions produce, on values. */
  lemma OverflowingInsertions()
    ensures InsertedFill([50, 51, 52], 0, 1, 49, 4) == [49, 50, 51, 52]
    ensures InsertedFill([49, 50, 51, 52], 0, 1, 48, 4) == [48, 49, 50, 51]
    ensures InsertedFill([48, 49, 50, 51], 1, 3, 48, 4) == [48, 48, 48, 48]
    ensures InsertedFill([48, 48, 48, 48], 1, 10, 49, 4) == [48, 49, 49, 49]
    ensures InsertedFill([48, 49, 49, 49], 10, 10, 88, 4) == [48, 49, 49, 49]
  {
    assert Repeat(49, 1) == [49];
    assert Repeat(48, 1) == [48];
    assert Repeat(48, 3) == [48, 48, 48];
    assert Repeat(49, 10) == [49, 49, 49, 49, 49, 49, 49, 49, 49, 49];
    assert Repeat(88, 10) == [88, 88, 88, 88, 88, 88, 88, 88, 88, 88];
  }

  /** Inserting characters that overflow a `Str<5>` "234": the rightmost
      characters are truncated. */
  method InsertOverflowingCharacters() returns (seen: seq<seq<byte>>)
    ensures seen == [
      [49, 50, 51, 52],  // "1234"
      [48, 49, 50, 51],  // "0123"
      [48, 48, 48, 48],  // "0000"
      [48, 49, 49, 49],  // "0111"
      [48, 49, 49, 49]]  // "0111"
  {
    OverflowingInsertions();
    CLenOfFirstNul([50, 51, 52, 0], 4, 3);
    var s := new Str.FromPtr(5, [50, 51, 52, 0], 4);
    assert s.Contents == [50, 51, 52];
    var r1 := FillStep(s, 0, 1, 49, [49, 50, 51, 52]);
    var r2 := FillStep(s, 0, 1, 48, [48, 49, 50, 51]);
    var r3 := FillStep(s, 1, 3, 48, [48, 48, 48, 48]);
    var r4 := FillStep(s, 1, 10, 49, [48, 49, 49, 49]);
    var r5 := FillStep(s, 10, 10, 88, [48, 49, 49, 49]);
    seen := [r1, r2, r3, r4, r5];
  }

  /** "99999999999999999999999" with its terminator. */
  const Nines: seq<byte> := Repeat(57, 23) + [NUL]

  /** `len` of the C strings the insertions read, bounded by `MAX_CHARS`. */
  lemma CStringLengths()
    ensures CLen([49, 50, 0], 9) == 2 && CLen([54, 55, 0], 9) == 2 && CLen([95, 95, 0], 9) == 2
    ensures CLen([0], 9) == 0 && CLen([95, 95, 95, 0], 9) == 3 && CLen([88, 0], 9) == 1
    ensures CLen([51, 52, 53, 0], 9) == 3
  {
    CLenOfFirstNul([49, 50, 0], 9, 2);
    CLenOfFirstNul([54, 55, 0], 9, 2);
    CLenOfFirstNul([95, 95, 0], 9, 2);
    CLenOfFirstNul([0], 9, 0);
    CLenOfFirstNul([95, 95, 95, 0], 9, 3);
    CLenOfFirstNul([88, 0], 9, 1);
    CLenOfFirstNul([51, 52, 53, 0], 9, 3);
  }

  /** `len` of the nines stops at the bound. */
  lemma NinesLength()
    ensures CLen(Nines, 9) == 9
    ensures Nines[..9] == [57, 57, 57, 57, 57, 57, 57, 57, 57]
  {
    assert Nines[..9] == Repeat(57, 9);
    CLenOfNulFree(Nines, 9);
  }

  /** The contents the C-string insertions produce, on values. */
  lemma CStringInsertions()
    ensures InsertedPtr([51, 52, 53], 0, [49, 50, 0], 2, 9) == [49, 50, 51, 52, 53]
    ensures InsertedPtr([49, 50, 51, 52, 53], 5, [54, 55, 0], 2, 9) == [49, 50, 51, 52, 53, 54, 55]
    ensures InsertedPtr([49, 50, 51, 52, 53, 54, 55], 4, [95, 95, 0], 2, 9) == [49, 50, 51, 52, 95, 95, 53, 54, 55]
    ensures InsertedPtr([49, 50, 51, 52, 95, 95, 53, 54, 55], 4, [0], 0, 9) == [49, 50, 51, 52, 95, 95, 53, 54, 55]
    ensures InsertedPtr([49, 50, 51, 52, 95, 95, 53, 54, 55], 0, [95, 95, 95, 0], 3, 9) == [95, 95, 95, 49, 50, 51, 52, 95, 95]
    ensures InsertedPtr([95, 57, 57, 57, 57, 57, 57, 57, 57], 99, [88, 0], 1, 9) == [95, 57, 57, 57, 57, 57, 57, 57, 57]
  {
    assert Splice([51, 52, 53], 0, [49, 50]) == [49, 50, 51, 52, 53];
    assert Splice([49, 50, 51, 52, 53], 5, [54, 55]) == [49, 50, 51, 52, 53, 54, 55];
    assert Splice([49, 50, 51, 52, 53, 54, 55], 4, [95, 95]) == [49, 50, 51, 52, 95, 95, 53, 54, 55];
    var t := Splice([49, 50, 51, 52, 95, 95, 53, 54, 55], 0, [95, 95, 95]);
    assert t == [95, 95, 95, 49, 50, 51, 52, 95, 95, 53, 54, 55];
    assert Truncate(t, 9) == [95, 95, 95, 49, 50, 51, 52, 95, 95];
  }

  /** The insertion of the nines, on values: it fills the room after the
      first character. */
  lemma NinesInsertion()
    ensures InsertedPtr([95, 95, 95, 49, 50, 51, 52, 95, 95], 1, Nines, 9, 9) == [95, 57, 57, 57, 57, 57, 57, 57, 57]
  {
    NinesLength();
  }

  /** Inserting C strings into a `Str<10>` "345". */
  method InsertCStrings() returns (seen: seq<seq<byte>>)
    ensures seen == [
      [49, 50, 51, 52, 53],                  // "12345"
      [49, 50, 51, 52, 53, 54, 55],          // "1234567"
      [49, 50, 51, 52, 95, 95, 53, 54, 55],  // "1234__567"
      [49, 50, 51, 52, 95, 95, 53, 54, 55],  // "1234__567"
      [95, 95, 95, 49, 50, 51, 52, 95, 95],  // "___1234__"
      [95, 57, 57, 57, 57, 57, 57, 57, 57],  // "_99999999"
      [95, 57, 57, 57, 57, 57, 57, 57, 57]]  // "_99999999"
  {
    CStringLengths();
    var s := new Str.FromPtr(10, [51, 52, 53, 0], 9);
    assert s.Contents == [51, 52, 53];
    var r1, r2, r3, r4 := InsertFittingCStrings(s);
    var r5, r6, r7 := InsertTruncatedCStrings(s);
    seen := [r1, r2, r3, r4, r5, r6, r7];
  }

  /** The insertions of "12", "67", "__" and "" that fit. */
  method InsertFittingCStrings(s: Str) returns (r1: seq<byte>, r2: seq<byte>, r3: seq<byte>, r4: seq<byte>)
    requires s.Valid() && s.MaxChars == 9 && s.Contents == [51, 52, 53]
    modifies s, s.data
    ensures s.Valid() && s.Contents == [49, 50, 51, 52, 95, 95, 53, 54, 55]
    ensures r1 == [49, 50, 51, 52, 53] && r2 == [49, 50, 51, 52, 53, 54, 55]
    ensures r3 == [49, 50, 51, 52, 95, 95, 53, 54, 55] && r4 == [49, 50, 51, 52, 95, 95, 53, 54, 55]
  {
    CStringLengths();
    CStringInsertions();
    r1 := CStrStep(s, 0, [49, 50, 0], [49, 50, 51, 52, 53]);
    r2 := CStrStep(s, 5, [54, 55, 0], [49, 50, 51, 52, 53, 54, 55]);
    r3 := CStrStep(s, 4, [95, 95, 0], [49, 50, 51, 52, 95, 95, 53, 54, 55]);
    r4 := CStrStep(s, 4, [0], [49, 50, 51, 52, 95, 95, 53, 54, 55]);
  }

  /** The insertions of "___", the nines and "X" into a full string: the
      tail, then everything after the first character, is truncated, and
      nothing fits after the end. */
  method InsertTruncatedCStrings(s: Str) returns (r5: seq<byte>, r6: seq<byte>, r7: seq<byte>)
    requires s.Valid() && s.MaxChars == 9 && s.Contents == [49, 50, 51, 52, 95, 95, 53, 54, 55]
    modifies s, s.data
    ensures s.Valid()
    ensures r5 == [95, 95, 95, 49, 50, 51, 52, 95, 95]
    ensures r6 == [95, 57, 57, 57, 57, 57, 57, 57, 57] && r7 == [95, 57, 57, 57, 57, 57, 57, 57, 57]
  {
    CStringLengths();
    CStringInsertions();
    NinesLength();
    NinesInsertion();
    r5 := CStrStep(s, 0, [95, 95, 95, 0], [95, 95, 95, 49, 50, 51, 52, 95, 95]);
    r6 := CStrStep(s, 1, Nines, [95, 57, 57, 57, 57, 57, 57, 57, 57]);
    r7 := CStrStep(s, 99, [88, 0], [95, 57, 57, 57, 57, 57, 57, 57, 57]);
  }

  /** Inserting a std::string "two " at the front of a `Str<10>` "frog". */
  method InsertStringClass() returns (seen: seq<byte>)
    ensures seen == [116, 119, 111, 32, 102, 114, 111, 103]  // "two frog"
  {
    CLenOfFirstNul([102, 114, 111, 103, 0], 9, 4);
    var s := new Str.FromPtr(10, [102, 114, 111, 103, 0], 9);
    assert s.Contents == [102, 114, 111, 103];
    s.InsertStr(0, [116, 119, 111, 32, 0], 4);
    assert s.Contents == [116, 119, 111, 32, 102, 114, 111, 103];
    seen := Observe(s);
  }

  /** "0123456789". */
  const Digits: seq<byte> := [48, 49, 50, 51, 52, 53, 54, 55, 56, 57]

  /** "0123456789" with its terminator. */
  const DigitsCStr: seq<byte> := [48, 49, 50, 51, 52, 53, 54, 55, 56, 57, 0]

  /** `len` of "0123456789", bounded by `MAX_CHARS` of a `Str<11>`, and the
      content it gives. */
  lemma DigitsLength()
    ensures CLen(DigitsCStr, 10) == 10 && DigitsCStr[..10] == Digits
  {
    CLenOfFirstNul(DigitsCStr, 10, 10);
  }

  /** The contents the erasures produce, on values. */
  lemma Erasures()
    ensures Erased(Digits, 5, 0) == Digits
    ensures Erased(Digits, 2, 2) == [48, 49, 52, 53, 54, 55, 56, 57]
    ensures Erased([48, 49, 52, 53, 54, 55, 56, 57], 0, 3) == [53, 54, 55, 56, 57]
    ensures Erased([53, 54, 55, 56, 57], 3, 2) == [53, 54, 55]
    ensures Erased([53, 54, 55], 2, 1) == [53, 54]
    ensures Erased([53, 54], 0, 2) == []
    ensures Erased(Digits, 1, 99) == [48]
    ensures Erased([53, 54], 1, 1) == [53]
    ensures Erased([53], 0, 1) == []
  {
  }

  /** Erasing by index from a `Str<11>` "0123456789". */
  method EraseByIndex() returns (seen: seq<seq<byte>>)
    ensures seen == [
      Digits,                            // "0123456789"
      [48, 49, 52, 53, 54, 55, 56, 57],  // "01456789"
      [53, 54, 55, 56, 57],              // "56789"
      [53, 54, 55],                      // "567"
      [53, 54],                          // "56"
      [],                                // ""
      [48]]                              // "0"
  {
    Erasures();
    DigitsLength();
    var s := new Str.FromPtr(11, DigitsCStr, 10);
    assert s.Contents == Digits;
    var r1 := EraseStep(s, 5, 0, Digits);
    var r2 := EraseStep(s, 2, 2, [48, 49, 52, 53, 54, 55, 56, 57]);
    var r3 := EraseStep(s, 0, 3, [53, 54, 55, 56, 57]);
    var r4 := EraseStep(s, 3, 2, [53, 54, 55]);
    var r5 := EraseStep(s, 2, 1, [53, 54]);
    var r6 := EraseStep(s, 0, s.Size(), []);
    s := new Str.FromPtr(11, DigitsCStr, 10);
    assert s.Contents == Digits;
    var r7 := EraseStep(s, 1, 99, [48]);
    seen := [r1, r2, r3, r4, r5, r6, r7];
  }

  /** Erasing by iterator range and by position from a `Str<11>`
      "0123456789"; an iterator is `cbegin()` plus an offset. */
  method EraseByIterator() returns (seen: seq<seq<byte>>)
    ensures seen == [
      Digits,                            // "0123456789"
      [48, 49, 52, 53, 54, 55, 56, 57],  // "01456789"
      [53, 54, 55, 56, 57],              // "56789"
      [53, 54, 55],                      // "567"
      [53, 54],                          // "56"
      [53],                              // "5"
      []]                                // ""
  {
    DigitsLength();
    var s := new Str.FromPtr(11, DigitsCStr, 10);
    assert s.Contents == Digits;
    var r1, r2, r3, r4, r5 := EraseRanges(s);
    var r6, r7 := ErasePositions(s);
    seen := [r1, r2, r3, r4, r5, r6, r7];
  }

  /** The range erasures of the iterator scenario. */
  method EraseRanges(s: Str) returns (r1: seq<byte>, r2: seq<byte>, r3: seq<byte>, r4: seq<byte>, r5: seq<byte>)
    requires s.Valid() && s.Contents == Digits
    modifies s, s.data
    ensures s.Valid() && s.Contents == [53, 54]
    ensures r1 == Digits && r2 == [48, 49, 52, 53, 54, 55, 56, 57] && r3 == [53, 54, 55, 56, 57]
    ensures r4 == [53, 54, 55] && r5 == [53, 54]
  {
    Erasures();
    r1 := EraseRangeStep(s, 5, 5, Digits);
    r2 := EraseRangeStep(s, 2, 2 + 2, [48, 49, 52, 53, 54, 55, 56, 57]);
    r3 := EraseRangeStep(s, 0, 3, [53, 54, 55, 56, 57]);
    r4 := EraseRangeStep(s, 3, 3 + 2, [53, 54, 55]);
    r5 := EraseRangeStep(s, 2, 2 + 1, [53, 54]);
  }

  /** The single-position erasures of the iterator scenario. */
  method ErasePositions(s: Str) returns (r6: seq<byte>, r7: seq<byte>)
    requires s.Valid() && s.Contents == [53, 54]
    modifies s, s.data
    ensures s.Valid() && s.Contents == []
    ensures r6 == [53] && r7 == []
  {
    Erasures();
    r6 := ErasePosStep(s, 1, [53]);
    r7 := ErasePosStep(s, 0, []);
  }

  /** `str_literal("abc") % str_literal("defg")`: seven characters in a
      `Str<8>`, whose `capacity()` is `MAX_CHARS`, 7. */
  method Builder() returns (size: int, capacity: nat)
    ensures size == 7 && capacity == 7
  {
    var lhs := StrLiteral([97, 98, 99, 0]);
    var rhs := StrLiteral([100, 101, 102, 103, 0]);
    var both := Concat(lhs, rhs);
    size := both.Size();
    capacity := both.Capacity();
  }
}
