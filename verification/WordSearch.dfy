// Searching memory a word at a time, forwards and backwards.
module WordSearch {
  import opened Wrappers

  function Flip(b: bv8, c: bv8): bv8 { b ^ c }

  lemma FlipZero(b: bv8, c: bv8)
    ensures Flip(b, c) == 0 <==> b == c
  {
  }

  // ------------------------------------------------------------------------------------ words of 8 bytes

  // b0 is the least significant byte.
  function Pack64(b0: bv8, b1: bv8, b2: bv8, b3: bv8, b4: bv8, b5: bv8, b6: bv8, b7: bv8): bv64
  {
    (b0 as bv64) | ((b1 as bv64) << 8) | ((b2 as bv64) << 16) | ((b3 as bv64) << 24) |
    ((b4 as bv64) << 32) | ((b5 as bv64) << 40) | ((b6 as bv64) << 48) | ((b7 as bv64) << 56)
  }

  // A word read from memory.
  function Load64(b: seq<bv8>, bigEndian: bool): bv64
    requires |b| == 8
  {
    if bigEndian then Pack64(b[7], b[6], b[5], b[4], b[3], b[2], b[1], b[0])
    else Pack64(b[0], b[1], b[2], b[3], b[4], b[5], b[6], b[7])
  }

  function RepeatedOne64(): bv64
  {
    var r: bv64 := 0x01010101;
    r | ((r << 31) << 1)
  }

  function RepeatedC64(c: bv8): bv64
  {
    var r := (c as bv64) | ((c as bv64) << 8);
    var half := r | (r << 16);
    half | ((half << 31) << 1)
  }

  // The subtract-and-mask test.
  predicate AnyZero64(x: bv64) { (x - RepeatedOne64()) & !x & (RepeatedOne64() << 7) != 0 }

  lemma ZeroByte64(b0: bv8, b1: bv8, b2: bv8, b3: bv8, b4: bv8, b5: bv8, b6: bv8, b7: bv8)
    ensures AnyZero64(Pack64(b0, b1, b2, b3, b4, b5, b6, b7)) <==>
            b0 == 0 || b1 == 0 || b2 == 0 || b3 == 0 || b4 == 0 || b5 == 0 || b6 == 0 || b7 == 0
  {
  }

  lemma RepeatedBytes64(c: bv8)
    ensures RepeatedC64(c) == Pack64(c, c, c, c, c, c, c, c)
  {
  }

  function Xor64(x: bv64, y: bv64): bv64 { x ^ y }

  lemma XorBytes64(b0: bv8, b1: bv8, b2: bv8, b3: bv8, b4: bv8, b5: bv8, b6: bv8, b7: bv8,
                 c0: bv8, c1: bv8, c2: bv8, c3: bv8, c4: bv8, c5: bv8, c6: bv8, c7: bv8)
    ensures Xor64(Pack64(b0, b1, b2, b3, b4, b5, b6, b7), Pack64(c0, c1, c2, c3, c4, c5, c6, c7))
         == Pack64(Flip(b0, c0), Flip(b1, c1), Flip(b2, c2), Flip(b3, c3),
                Flip(b4, c4), Flip(b5, c5), Flip(b6, c6), Flip(b7, c7))
  {
  }

  // The test for byte c on a word.
  predicate AnyByte64(x: bv64, c: bv8) { AnyZero64(Xor64(x, RepeatedC64(c))) }

  lemma FlipBytes64(b0: bv8, b1: bv8, b2: bv8, b3: bv8, b4: bv8, b5: bv8, b6: bv8, b7: bv8, c: bv8)
    ensures AnyByte64(Pack64(b0, b1, b2, b3, b4, b5, b6, b7), c)
        <==> AnyZero64(Pack64(Flip(b0, c), Flip(b1, c), Flip(b2, c), Flip(b3, c),
                              Flip(b4, c), Flip(b5, c), Flip(b6, c), Flip(b7, c)))
  {
    hide Pack64, RepeatedC64, AnyZero64, Flip, Xor64;
    RepeatedBytes64(c);
    XorBytes64(b0, b1, b2, b3, b4, b5, b6, b7, c, c, c, c, c, c, c, c);
  }

  lemma FindByte64(b0: bv8, b1: bv8, b2: bv8, b3: bv8, b4: bv8, b5: bv8, b6: bv8, b7: bv8, c: bv8)
    ensures AnyByte64(Pack64(b0, b1, b2, b3, b4, b5, b6, b7), c) <==>
            b0 == c || b1 == c || b2 == c || b3 == c || b4 == c || b5 == c || b6 == c || b7 == c
  {
    hide Pack64, RepeatedC64, AnyZero64, AnyByte64, Flip;
    FlipBytes64(b0, b1, b2, b3, b4, b5, b6, b7, c);
    ZeroByte64(Flip(b0, c), Flip(b1, c), Flip(b2, c), Flip(b3, c), Flip(b4, c), Flip(b5, c), Flip(b6, c), Flip(b7, c));
    FlipZero(b0, c);
    FlipZero(b1, c);
    FlipZero(b2, c);
    FlipZero(b3, c);
    FlipZero(b4, c);
    FlipZero(b5, c);
    FlipZero(b6, c);
    FlipZero(b7, c);
  }

  // The test on a word says whether one of its bytes is c, in either byte order.
  lemma WordTest64(b: seq<bv8>, bigEndian: bool, c: bv8)
    requires |b| == 8
    ensures AnyByte64(Load64(b, bigEndian), c) <==> c in b
  {
    hide Pack64, AnyByte64;
    if bigEndian {
      FindByte64(b[7], b[6], b[5], b[4], b[3], b[2], b[1], b[0], c);
    } else {
      FindByte64(b[0], b[1], b[2], b[3], b[4], b[5], b[6], b[7], c);
    }
  }

  // ------------------------------------------------------------------------------------ words of 4 bytes

  // b0 is the least significant byte.
  function Pack32(b0: bv8, b1: bv8, b2: bv8, b3: bv8): bv32
  {
    (b0 as bv32) | ((b1 as bv32) << 8) | ((b2 as bv32) << 16) | ((b3 as bv32) << 24)
  }

  // A word read from memory.
  function Load32(b: seq<bv8>, bigEndian: bool): bv32
    requires |b| == 4
  {
    if bigEndian then Pack32(b[3], b[2], b[1], b[0]) else Pack32(b[0], b[1], b[2], b[3])
  }

  function RepeatedOne32(): bv32
  {
    0x01010101
  }

  function RepeatedC32(c: bv8): bv32
  {
    var r := (c as bv32) | ((c as bv32) << 8);
    r | (r << 16)
  }

  // The subtract-and-mask test.
  predicate AnyZero32(x: bv32) { (x - RepeatedOne32()) & !x & (RepeatedOne32() << 7) != 0 }

  lemma ZeroByte32(b0: bv8, b1: bv8, b2: bv8, b3: bv8)
    ensures AnyZero32(Pack32(b0, b1, b2, b3)) <==>
            b0 == 0 || b1 == 0 || b2 == 0 || b3 == 0
  {
  }

  lemma RepeatedBytes32(c: bv8)
    ensures RepeatedC32(c) == Pack32(c, c, c, c)
  {
  }

  function Xor32(x: bv32, y: bv32): bv32 { x ^ y }

  lemma XorBytes32(b0: bv8, b1: bv8, b2: bv8, b3: bv8,
                 c0: bv8, c1: bv8, c2: bv8, c3: bv8)
    ensures Xor32(Pack32(b0, b1, b2, b3), Pack32(c0, c1, c2, c3))
         == Pack32(Flip(b0, c0), Flip(b1, c1), Flip(b2, c2), Flip(b3, c3))
  {
  }

  // The test for byte c on a word.
  predicate AnyByte32(x: bv32, c: bv8) { AnyZero32(Xor32(x, RepeatedC32(c))) }

  lemma FlipBytes32(b0: bv8, b1: bv8, b2: bv8, b3: bv8, c: bv8)
    ensures AnyByte32(Pack32(b0, b1, b2, b3), c)
        <==> AnyZero32(Pack32(Flip(b0, c), Flip(b1, c), Flip(b2, c), Flip(b3, c)))
  {
    hide Pack32, RepeatedC32, AnyZero32, Flip, Xor32;
    RepeatedBytes32(c);
    XorBytes32(b0, b1, b2, b3, c, c, c, c);
  }

  lemma FindByte32(b0: bv8, b1: bv8, b2: bv8, b3: bv8, c: bv8)
    ensures AnyByte32(Pack32(b0, b1, b2, b3), c) <==>
            b0 == c || b1 == c || b2 == c || b3 == c
  {
    hide Pack32, RepeatedC32, AnyZero32, AnyByte32, Flip;
    FlipBytes32(b0, b1, b2, b3, c);
    ZeroByte32(Flip(b0, c), Flip(b1, c), Flip(b2, c), Flip(b3, c));
    FlipZero(b0, c);
    FlipZero(b1, c);
    FlipZero(b2, c);
    FlipZero(b3, c);
  }

  // The test on a word says whether one of its bytes is c, in either byte order.
  lemma WordTest32(b: seq<bv8>, bigEndian: bool, c: bv8)
    requires |b| == 4
    ensures AnyByte32(Load32(b, bigEndian), c) <==> c in b
  {
    hide Pack32, AnyByte32;
    if bigEndian { FindByte32(b[3], b[2], b[1], b[0], c); } else { FindByte32(b[0], b[1], b[2], b[3], c); }
  }

  // ------------------------------------------------------------------------------------ the searches

  // Whether one of the bytes of a word is c, by the test on the whole word.
  method TestWord(b: seq<bv8>, bigEndian: bool, c: bv8) returns (found: bool)
    requires |b| == 4 || |b| == 8
    ensures found <==> c in b
  {
    hide Load64, Load32, AnyByte64, AnyByte32;
    if |b| == 8 {
      WordTest64(b, bigEndian, c);
      found := AnyByte64(Load64(b, bigEndian), c);
    } else {
      WordTest32(b, bigEndian, c);
      found := AnyByte32(Load32(b, bigEndian), c);
    }
  }

  function UnsignedChar(cIn: int): bv8 { (cIn % 0x100) as bv8 }

  // c is not among the bytes from i to j - 1.
  ghost predicate Absent(c: bv8, s: seq<bv8>, i: int, j: int)
    requires 0 <= i <= j <= |s|
  {
    forall k :: i <= k < j ==> s[k] != c
  }

  // Reads the word at p, an aligned address, and tests it.
  method TestWordAt(s: seq<bv8>, addr: nat, p: nat, longword: nat, bigEndian: bool, c: bv8) returns (found: bool)
    requires (longword == 4 || longword == 8) && p + longword <= |s| && (addr + p) % longword == 0
    ensures !found ==> Absent(c, s, p, p + longword)
  {
    var word := s[p..p + longword];
    found := TestWord(word, bigEndian, c);
    assert forall k :: p <= k < p + longword ==> s[k] == word[k - p];
  }

  // The first of the n bytes at address addr that is c. Words are read at aligned addresses, and within the n bytes.
  method Memchr(s: seq<bv8>, addr: nat, cIn: int, n0: nat, longword: nat, bigEndian: bool) returns (r: Option<nat>)
    requires n0 <= |s| && (longword == 4 || longword == 8)
    ensures match r
            case Some(i) => i < n0 && s[i] == UnsignedChar(cIn) && Absent(UnsignedChar(cIn), s, 0, i)
            case None => Absent(UnsignedChar(cIn), s, 0, n0)
  {
    hide UnsignedChar;
    var c := UnsignedChar(cIn);
    var charPtr: nat, n: nat := 0, n0;
    while n > 0 && (addr + charPtr) % longword != 0
      invariant charPtr + n == n0 && Absent(c, s, 0, charPtr)
    {
      if s[charPtr] == c {
        return Some(charPtr);
      }
      n, charPtr := n - 1, charPtr + 1;
    }
    while n >= longword
      invariant charPtr + n == n0 && Absent(c, s, 0, charPtr)
      invariant n > 0 ==> (addr + charPtr) % longword == 0
    {
      var found := TestWordAt(s, addr, charPtr, longword, bigEndian, c);
      if found {
        break;
      }
      NextAligned(addr + charPtr, longword);
      n, charPtr := n - longword, charPtr + longword;
    }
    while n > 0
      invariant charPtr + n == n0 && Absent(c, s, 0, charPtr)
    {
      if s[charPtr] == c {
        return Some(charPtr);
      }
      n, charPtr := n - 1, charPtr + 1;
    }
    return None;
  }

  lemma NextAligned(a: nat, longword: nat)
    requires longword == 4 || longword == 8
    ensures (a + longword) % longword == a % longword
    ensures a >= longword ==> (a - longword) % longword == a % longword
  {
  }

  // The last of the n bytes at address addr that is c.
  method Memrchr(s: seq<bv8>, addr: nat, cIn: int, n0: nat, longword: nat, bigEndian: bool) returns (r: Option<nat>)
    requires n0 <= |s| && (longword == 4 || longword == 8)
    ensures match r
            case Some(i) => i < n0 && s[i] == UnsignedChar(cIn) && Absent(UnsignedChar(cIn), s, i + 1, n0)
            case None => Absent(UnsignedChar(cIn), s, 0, n0)
  {
    hide UnsignedChar;
    var c := UnsignedChar(cIn);
    var charPtr: nat, n: nat := n0, n0;
    while n > 0 && (addr + charPtr) % longword != 0
      invariant charPtr == n <= n0 && Absent(c, s, n, n0)
    {
      charPtr := charPtr - 1;
      if s[charPtr] == c {
        return Some(charPtr);
      }
      n := n - 1;
    }
    while n >= longword
      invariant charPtr == n <= n0 && Absent(c, s, n, n0)
      invariant n > 0 ==> (addr + charPtr) % longword == 0
    {
      NextAligned(addr + charPtr, longword);
      charPtr := charPtr - longword;
      var found := TestWordAt(s, addr, charPtr, longword, bigEndian, c);
      if found {
        charPtr := charPtr + longword;
        break;
      }
      n := n - longword;
    }
    while n > 0
      invariant charPtr == n <= n0 && Absent(c, s, n, n0)
    {
      n, charPtr := n - 1, charPtr - 1;
      if s[charPtr] == c {
        return Some(charPtr);
      }
    }
    return None;
  }
}
