// Exclusive or of bytes.

module ByteXor {
  import opened Gf2
  import opened Words

  function XorByte(a: Byte, b: Byte): Byte {
    ByteValueBound(Xor(BitsOf(a, 8), BitsOf(b, 8)));
    ValueOf(Xor(BitsOf(a, 8), BitsOf(b, 8)))
  }

  lemma XorTwice(a: Byte, b: Byte)
    ensures XorByte(XorByte(a, b), b) == a && XorByte(a, 0) == a
  {
    BitsOfXor(a, b);
    BitsOfXor(XorByte(a, b), b);
    BitsOfXor(a, 0);
    BitsOfZero(8);
    assert Xor(Xor(BitsOf(a, 8), BitsOf(b, 8)), BitsOf(b, 8)) == BitsOf(a, 8);
    assert Xor(BitsOf(a, 8), Zeros(8)) == BitsOf(a, 8);
    DoubledEight(0);
    BitsInjective(XorByte(XorByte(a, b), b), a, 8);
    BitsInjective(XorByte(a, 0), a, 8);
  }

  lemma BitsOfXor(a: Byte, b: Byte)
    ensures BitsOf(XorByte(a, b), 8) == Xor(BitsOf(a, 8), BitsOf(b, 8))
  {
    var x := Xor(BitsOf(a, 8), BitsOf(b, 8));
    BitsOfValue(x, 8);
    assert x + Zeros(0) == x;
  }

  lemma XorCommutes(a: Byte, b: Byte)
    ensures XorByte(a, b) == XorByte(b, a)
  {
    assert Xor(BitsOf(a, 8), BitsOf(b, 8)) == Xor(BitsOf(b, 8), BitsOf(a, 8));
  }

  lemma XorAssociates(a: Byte, b: Byte, c: Byte)
    ensures XorByte(XorByte(a, b), c) == XorByte(a, XorByte(b, c))
  {
    BitsOfXor(a, b);
    BitsOfXor(b, c);
    assert Xor(Xor(BitsOf(a, 8), BitsOf(b, 8)), BitsOf(c, 8)) == Xor(BitsOf(a, 8), Xor(BitsOf(b, 8), BitsOf(c, 8)));
  }
}
