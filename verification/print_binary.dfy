/**
  `printBinary` of utils/voxel_octree.h, a debugging serialiser: the 32 bits
  of a word, most significant first, with a space after each byte (after the
  digits of bits 24, 16, 8 and 0) and a final newline. The text written to
  standard output is the function's result; `int` is read as its 32-bit
  pattern.
 */
module BinaryText {

  /** The digit of the top bit of `w`. */
  function TopDigit(w: bv32): char {
    if w >> 31 == 0 then '0' else '1'
  }

  /**
    The loop of `printBinary` for the bits `k - 1` down to 0 of the original
    word, whose bit `k - 1` is now the top bit of `w`; a space follows the
    digit of every bit whose index is a multiple of 8.
   */
  function BinaryDigits(w: bv32, k: nat): string
    decreases k
  {
    if k == 0 then ""
    else [TopDigit(w)] + (if (k - 1) % 8 == 0 then " " else "") + BinaryDigits(w << 1, k - 1)
  }

  /** `printBinary(num)`. */
  function PrintBinary(num: bv32): string {
    BinaryDigits(num, 32) + "\n"
  }

  // ---------------------------------------------------------------------------
  // Reading the text back
  // ---------------------------------------------------------------------------

  /** Reads the binary digits of `s` left to right into `acc`, skipping other characters. */
  function ReadBinary(acc: bv32, s: string): bv32
    decreases |s|
  {
    if |s| == 0 then acc
    else if s[0] == '0' then ReadBinary(acc << 1, s[1..])
    else if s[0] == '1' then ReadBinary((acc << 1) | 1, s[1..])
    else ReadBinary(acc, s[1..])
  }

  /** Shifts the top `k` bits of `w` into `acc`, one at a time. */
  function ShiftIn(acc: bv32, w: bv32, k: nat): bv32
    decreases k
  {
    if k == 0 then acc else ShiftIn((acc << 1) | (w >> 31), w << 1, k - 1)
  }

  lemma {:induction false} ReadBinaryAppend(acc: bv32, a: string, b: string)
    ensures ReadBinary(acc, a + b) == ReadBinary(ReadBinary(acc, a), b)
    decreases |a|
  {
    if |a| > 0 {
      assert (a + b)[1..] == a[1..] + b;
      if a[0] == '0' {
        ReadBinaryAppend(acc << 1, a[1..], b);
      } else if a[0] == '1' {
        ReadBinaryAppend((acc << 1) | 1, a[1..], b);
      } else {
        ReadBinaryAppend(acc, a[1..], b);
      }
    } else {
      assert a + b == b;
    }
  }

  /** Reading one digit, and the separator after it, shifts in the top bit. */
  lemma ReadOneDigit(acc: bv32, w: bv32, sep: string)
    requires sep == "" || sep == " "
    ensures ReadBinary(acc, [TopDigit(w)] + sep) == (acc << 1) | (w >> 31)
  {
    TopBit(w);
    if w >> 31 == 0 {
      ReadZeroDigit(acc, sep);
      OrZero(acc << 1, w >> 31);
    } else {
      ReadOneDigitOne(acc, sep);
    }
  }

  /** A '0' digit followed by a separator. */
  lemma ReadZeroDigit(acc: bv32, sep: string)
    requires sep == "" || sep == " "
    ensures ReadBinary(acc, ['0'] + sep) == acc << 1
  {
    var s := ['0'] + sep;
    assert s[1..] == sep;
    ReadZero(acc, s);
    SkipSeparator(acc << 1, sep);
  }

  /** A '1' digit followed by a separator. */
  lemma ReadOneDigitOne(acc: bv32, sep: string)
    requires sep == "" || sep == " "
    ensures ReadBinary(acc, ['1'] + sep) == (acc << 1) | 1
  {
    var s := ['1'] + sep;
    assert s[1..] == sep;
    ReadOne(acc, s);
    SkipSeparator((acc << 1) | 1, sep);
  }

  /** One unfolding of `ReadBinary` on a leading '0'. */
  lemma ReadZero(acc: bv32, s: string)
    requires |s| > 0 && s[0] == '0'
    ensures ReadBinary(acc, s) == ReadBinary(acc << 1, s[1..])
  {
  }

  /** One unfolding of `ReadBinary` on a leading '1'. */
  lemma ReadOne(acc: bv32, s: string)
    requires |s| > 0 && s[0] == '1'
    ensures ReadBinary(acc, s) == ReadBinary((acc << 1) | 1, s[1..])
  {
  }

  /** Or-ing in a zero bit changes nothing. */
  lemma OrZero(x: bv32, z: bv32)
    requires z == 0
    ensures x | z == x
  {
  }

  /** A separator, or the final newline, adds no bits. */
  lemma SkipSeparator(acc: bv32, sep: string)
    requires sep == "" || sep == " " || sep == "\n"
    ensures ReadBinary(acc, sep) == acc
  {
    if sep != "" {
      assert sep[1..] == "";
    }
  }

  /** The top bit is 0 or 1. */
  lemma TopBit(w: bv32)
    ensures w >> 31 == 0 || w >> 31 == 1
  {
  }

  /** Reading the digits of the top `k` bits shifts exactly those bits in. */
  lemma {:induction false} ReadDigits(acc: bv32, w: bv32, k: nat)
    ensures ReadBinary(acc, BinaryDigits(w, k)) == ShiftIn(acc, w, k)
    decreases k
  {
    if k > 0 {
      var sep := if (k - 1) % 8 == 0 then " " else "";
      var head := [TopDigit(w)] + sep;
      assert BinaryDigits(w, k) == head + BinaryDigits(w << 1, k - 1);
      ReadBinaryAppend(acc, head, BinaryDigits(w << 1, k - 1));
      ReadOneDigit(acc, w, sep);
      ReadDigits((acc << 1) | (w >> 31), w << 1, k - 1);
    }
  }

  /** Eight steps of `ShiftIn` move a whole byte. */
  lemma ShiftInByte(acc: bv32, w: bv32, k: nat)
    ensures ShiftIn(acc, w, k + 8) == ShiftIn((acc << 8) | (w >> 24), w << 8, k)
  {
    var a1, w1 := (acc << 1) | (w >> 31), w << 1;
    var a2, w2 := (a1 << 1) | (w1 >> 31), w1 << 1;
    var a3, w3 := (a2 << 1) | (w2 >> 31), w2 << 1;
    var a4, w4 := (a3 << 1) | (w3 >> 31), w3 << 1;
    var a5, w5 := (a4 << 1) | (w4 >> 31), w4 << 1;
    var a6, w6 := (a5 << 1) | (w5 >> 31), w5 << 1;
    var a7, w7 := (a6 << 1) | (w6 >> 31), w6 << 1;
    var a8, w8 := (a7 << 1) | (w7 >> 31), w7 << 1;
    ShiftInStep(acc, w, k + 7);
    ShiftInStep(a1, w1, k + 6);
    ShiftInStep(a2, w2, k + 5);
    ShiftInStep(a3, w3, k + 4);
    ShiftInStep(a4, w4, k + 3);
    ShiftInStep(a5, w5, k + 2);
    ShiftInStep(a6, w6, k + 1);
    ShiftInStep(a7, w7, k + 0);
    ByteShifted(acc, w, a8, w8, a1, a2, a3, a4, a5, a6, a7, w1, w2, w3, w4, w5, w6, w7);
  }

  /** One step of `ShiftIn`. */
  lemma ShiftInStep(acc: bv32, w: bv32, k: nat)
    ensures ShiftIn(acc, w, k + 1) == ShiftIn((acc << 1) | (w >> 31), w << 1, k)
  {
  }

  /** The bit-level half of `ShiftInByte`. */
  lemma ByteShifted(acc: bv32, w: bv32, a8: bv32, w8: bv32,
                    a1: bv32, a2: bv32, a3: bv32, a4: bv32, a5: bv32, a6: bv32, a7: bv32,
                    w1: bv32, w2: bv32, w3: bv32, w4: bv32, w5: bv32, w6: bv32, w7: bv32)
    requires a1 == (acc << 1) | (w >> 31) && w1 == w << 1
    requires a2 == (a1 << 1) | (w1 >> 31) && w2 == w1 << 1
    requires a3 == (a2 << 1) | (w2 >> 31) && w3 == w2 << 1
    requires a4 == (a3 << 1) | (w3 >> 31) && w4 == w3 << 1
    requires a5 == (a4 << 1) | (w4 >> 31) && w5 == w4 << 1
    requires a6 == (a5 << 1) | (w5 >> 31) && w6 == w5 << 1
    requires a7 == (a6 << 1) | (w6 >> 31) && w7 == w6 << 1
    requires a8 == (a7 << 1) | (w7 >> 31) && w8 == w7 << 1
    ensures a8 == (acc << 8) | (w >> 24) && w8 == w << 8
  {
  }

  /** The text determines the word: reading its digits back gives `num`. */
  lemma PrintBinaryRoundTrip(num: bv32)
    ensures ReadBinary(0, PrintBinary(num)) == num
  {
    var digits := BinaryDigits(num, 32);
    assert ReadBinary(0, digits) == num by {
      ReadDigits(0, num, 32);
      ShiftInWord(num);
    }
    ReadBinaryAppend(0, digits, "\n");
    SkipSeparator(num, "\n");
  }

  /** Shifting in all 32 bits of `num`, byte by byte, rebuilds it. */
  lemma ShiftInWord(num: bv32)
    ensures ShiftIn(0, num, 32) == num
  {
    ShiftInTopByte(num);
    ShiftInSecondByte(num);
    ShiftInThirdByte(num);
    ShiftInLastByte(num);
  }

  /** After the first byte, the accumulator holds the top byte of `num`. */
  lemma ShiftInTopByte(num: bv32)
    ensures ShiftIn(0, num, 32) == ShiftIn(num >> 24, num << 8, 24)
  {
    ShiftInByte(0, num, 24);
    assert (0 << 8) | (num >> 24) == num >> 24;
  }

  /** After the second byte, it holds the top two bytes. */
  lemma ShiftInSecondByte(num: bv32)
    ensures ShiftIn(num >> 24, num << 8, 24) == ShiftIn(num >> 16, num << 16, 16)
  {
    ShiftInByte(num >> 24, num << 8, 16);
    assert ((num >> 24) << 8) | ((num << 8) >> 24) == num >> 16;
    assert (num << 8) << 8 == num << 16;
  }

  /** After the third byte, the top three. */
  lemma ShiftInThirdByte(num: bv32)
    ensures ShiftIn(num >> 16, num << 16, 16) == ShiftIn(num >> 8, num << 24, 8)
  {
    ShiftInByte(num >> 16, num << 16, 8);
    assert ((num >> 16) << 8) | ((num << 16) >> 24) == num >> 8;
    assert (num << 16) << 8 == num << 24;
  }

  /** After the last byte, all of `num`. */
  lemma ShiftInLastByte(num: bv32)
    ensures ShiftIn(num >> 8, num << 24, 8) == num
  {
    ShiftInByte(num >> 8, num << 24, 0);
    assert ((num >> 8) << 8) | ((num << 24) >> 24) == num;
  }

  /** `k` digits, and a space after every eighth from the end. */
  lemma {:induction false} DigitsLength(w: bv32, k: nat)
    ensures |BinaryDigits(w, k)| == k + (k + 7) / 8
    decreases k
  {
    if k > 0 {
      DigitsLength(w << 1, k - 1);
    }
  }

  /**
    In the digits of the top `k` bits, the first group holds `(k - 1) % 8 + 1`
    digits and every later group eight; a space ends each group and every
    other character is a binary digit.
   */
  lemma {:induction false} DigitSpaces(w: bv32, k: nat)
    ensures forall p :: 0 <= p < |BinaryDigits(w, k)| ==>
      && (BinaryDigits(w, k)[p] == ' ' <==> (p - ((k - 1) % 8 + 1)) % 9 == 0)
      && (BinaryDigits(w, k)[p] == ' ' || BinaryDigits(w, k)[p] == '0' || BinaryDigits(w, k)[p] == '1')
    decreases k
  {
    if k > 0 {
      var s := BinaryDigits(w, k);
      var t := BinaryDigits(w << 1, k - 1);
      var sep := if (k - 1) % 8 == 0 then " " else "";
      assert s == [TopDigit(w)] + sep + t;
      DigitSpaces(w << 1, k - 1);
      forall p | 0 <= p < |s|
        ensures s[p] == ' ' <==> (p - ((k - 1) % 8 + 1)) % 9 == 0
        ensures s[p] == ' ' || s[p] == '0' || s[p] == '1'
      {
        if p >= 1 + |sep| {
          assert s[p] == t[p - 1 - |sep|];
          if sep == " " && k > 1 {
            assert (k - 2) % 8 == 7;
          }
        }
      }
    }
  }

  /**
    The text is 37 characters: the 32 digits in four groups of eight, a space
    after each group, and a newline.
   */
  lemma PrintBinaryLength(num: bv32)
    ensures |PrintBinary(num)| == 37 && PrintBinary(num)[36] == '\n'
    ensures forall p :: 0 <= p < 36 ==> (PrintBinary(num)[p] == ' ' <==> p % 9 == 8)
    ensures forall p :: 0 <= p < 36 && p % 9 != 8 ==> PrintBinary(num)[p] == '0' || PrintBinary(num)[p] == '1'
  {
    DigitsLength(num, 32);
    DigitSpaces(num, 32);
    GroupedText(BinaryDigits(num, 32), PrintBinary(num));
  }

  /** The digits of a whole word, in groups of eight, followed by the newline. */
  lemma GroupedText(s: string, text: string)
    requires |s| == 36 && text == s + "\n"
    requires forall p :: 0 <= p < |s| ==>
      && (s[p] == ' ' <==> (p - 8) % 9 == 0)
      && (s[p] == ' ' || s[p] == '0' || s[p] == '1')
    ensures |text| == 37 && text[36] == '\n'
    ensures forall p :: 0 <= p < 36 ==> (text[p] == ' ' <==> p % 9 == 8)
    ensures forall p :: 0 <= p < 36 && p % 9 != 8 ==> text[p] == '0' || text[p] == '1'
  {
    forall p | 0 <= p < 36
      ensures text[p] == s[p]
      ensures (p - 8) % 9 == 0 <==> p % 9 == 8
    {
    }
  }
}
