// base64_encode, used for the WebSocket handshake (section 4 of RFC 4648).

module Base64 {
  import opened Common
  import opened Words

  function Symbol(k: nat): char
    requires k < 64
  {
    if k < 26 then ('A' as int + k) as char
    else if k < 52 then ('a' as int + (k - 26)) as char
    else if k < 62 then ('0' as int + (k - 52)) as char
    else if k == 62 then '+' else '/'
  }

  /** The 24 bits of three bytes. */
  function Word(x: Byte, y: Byte, z: Byte): nat { 0x1_0000 * x as int + 256 * y as int + z as int }

  /** Six bits of n, after the lowest 6 k. */
  function Six(n: nat, k: nat): (d: nat)
    requires k < 4
    ensures d < 64
  {
    if k == 0 then n % 64 else if k == 1 then n / 64 % 64 else if k == 2 then n / 0x1000 % 64 else n / 0x4_0000 % 64
  }

  /** One group of 24 bits as four symbols. */
  function Quad(n: nat): (q: string)
    ensures |q| == 4
  {
    [Symbol(Six(n, 3)), Symbol(Six(n, 2)), Symbol(Six(n, 1)), Symbol(Six(n, 0))]
  }

  function Encoded(data: seq<Byte>): (s: string)
    ensures data != [] ==> |s| >= 4
    decreases |data|
  {
    if data == [] then ""
    else if |data| == 1 then Quad(Word(data[0], 0, 0))[..2] + "=="
    else if |data| == 2 then Quad(Word(data[0], data[1], 0))[..3] + "="
    else Quad(Word(data[0], data[1], data[2])) + Encoded(data[3..])
  }

  method Encode(data: seq<Byte>) returns (r: string)
    ensures r == Encoded(data)
  {
    assert data[0..] == data && (data == [] ==> Encoded(data) == "");
    hide Encoded;
    r := "";
    var i := 0;
    while i < |data|
      invariant 0 <= i <= |data| + 2
      invariant Encoded(data) == r + if i < |data| then Encoded(data[i..]) else ""
    {
      var q := Group(data, i);
      NextGroup(data, i);
      r := r + q;
      i := i + 3;
    }
  }

  /** The four characters of one turn of the loop. */
  method Group(data: seq<Byte>, i: nat) returns (q: string)
    requires i < |data|
    ensures q == Encoded(data[i..])[..4]
  {
    hide Symbol, Six;
    var n: nat := 0x1_0000 * data[i] as int;
    if i + 1 < |data| { n := n + 256 * data[i + 1] as int; }
    if i + 2 < |data| { n := n + data[i + 2] as int; }
    q := [Symbol(Six(n, 3)), Symbol(Six(n, 2))];
    q := q + if i + 1 < |data| then [Symbol(Six(n, 1))] else ['='];
    q := q + if i + 2 < |data| then [Symbol(Six(n, 0))] else ['='];
    ghost var d := data[i..];
    assert n == Word(d[0], if |d| > 1 then d[1] else 0, if |d| > 2 then d[2] else 0);
    hide Word;
  }

  lemma NextGroup(data: seq<Byte>, i: nat)
    requires i < |data|
    ensures Encoded(data[i..]) == Encoded(data[i..])[..4] + if i + 3 < |data| then Encoded(data[i + 3..]) else ""
  {
    hide Quad;
    if i + 3 <= |data| { assert data[i..][3..] == data[i + 3..]; }
  }

  // ---- The reader --------------------------------------------------------------------------

  function Digit(c: char): (d: Option<nat>)
    ensures d.Some? ==> d.value < 64
  {
    if 'A' <= c <= 'Z' then Some(c as int - 'A' as int)
    else if 'a' <= c <= 'z' then Some(c as int - 'a' as int + 26)
    else if '0' <= c <= '9' then Some(c as int - '0' as int + 52)
    else if c == '+' then Some(62)
    else if c == '/' then Some(63)
    else None
  }

  lemma DigitOfSymbol(k: nat)
    requires k < 64
    ensures Digit(Symbol(k)) == Some(k)
  {}

  // The bytes that six-bit digits a and b, b and c, and c and d, make up.

  function First(a: nat, b: nat): Byte
    requires a < 64 && b < 64
  {
    a * 4 + b / 16
  }

  function Second(b: nat, c: nat): Byte
    requires b < 64 && c < 64
  {
    b % 16 * 16 + c / 4
  }

  function Third(c: nat, d: nat): Byte
    requires c < 64 && d < 64
  {
    c % 4 * 64 + d
  }

  /** A reader that stops at the first group it cannot read. */
  function Decoded(s: string): seq<Byte>
    decreases |s|
  {
    if |s| < 4 then []
    else
      var (a, b, c, d) := (Digit(s[0]), Digit(s[1]), Digit(s[2]), Digit(s[3]));
      if a.None? || b.None? then []
      else
        var first := First(a.value, b.value);
        if c.None? then [first]
        else
          var second := Second(b.value, c.value);
          if d.None? then [first, second]
          else [first, second, Third(c.value, d.value)] + Decoded(s[4..])
  }

  /** Decoding gives every message back, so different messages never share an encoding. */
  lemma {:induction false} DecodeEncoded(data: seq<Byte>)
    ensures Decoded(Encoded(data)) == data
    decreases |data|
  {
    if |data| > 2 {
      DecodeEncoded(data[3..]);
      DecodeWholeGroup(data);
    } else if data != [] {
      DecodeLastGroup(data);
    }
  }

  lemma DecodeWholeGroup(data: seq<Byte>)
    requires |data| > 2
    ensures Decoded(Encoded(data)) == data[..3] + Decoded(Encoded(data[3..]))
  {
    hide Decoded, Symbol, Six, Word, First, Second, Third;
    var n := Word(data[0], data[1], data[2]);
    GroupBytes(data[0], data[1], data[2]);
    DecodeFour(Six(n, 3), Six(n, 2), Six(n, 1), Six(n, 0), Encoded(data[3..]));
  }

  lemma DecodeLastGroup(data: seq<Byte>)
    requires 0 < |data| <= 2
    ensures Decoded(Encoded(data)) == data
  {
    hide Decoded, Symbol, Six, Word, First, Second, Third;
    var y: Byte := if |data| == 2 then data[1] else 0;
    var n := Word(data[0], y, 0);
    GroupBytes(data[0], y, 0);
    DecodeThree(Six(n, 3), Six(n, 2), Six(n, 1));
    DecodeTwo(Six(n, 3), Six(n, 2));
    if |data| == 2 {
      assert Encoded(data) == [Symbol(Six(n, 3)), Symbol(Six(n, 2)), Symbol(Six(n, 1)), '='];
    } else {
      assert Encoded(data) == [Symbol(Six(n, 3)), Symbol(Six(n, 2)), '=', '='];
    }
  }

  lemma DecodeFour(a: nat, b: nat, c: nat, d: nat, rest: string)
    requires a < 64 && b < 64 && c < 64 && d < 64
    ensures Decoded([Symbol(a), Symbol(b), Symbol(c), Symbol(d)] + rest)
         == [First(a, b), Second(b, c), Third(c, d)] + Decoded(rest)
  {
    DigitOfSymbol(a);
    DigitOfSymbol(b);
    DigitOfSymbol(c);
    DigitOfSymbol(d);
    hide Symbol, Digit, First, Second, Third;
    var s := [Symbol(a), Symbol(b), Symbol(c), Symbol(d)] + rest;
    assert s[4..] == rest;
  }

  lemma DecodeThree(a: nat, b: nat, c: nat)
    requires a < 64 && b < 64 && c < 64
    ensures Decoded([Symbol(a), Symbol(b), Symbol(c), '=']) == [First(a, b), Second(b, c)]
  {
    DigitOfSymbol(a);
    DigitOfSymbol(b);
    DigitOfSymbol(c);
    PaddingIsNoDigit();
    hide Symbol, Digit, First, Second, Third;
  }

  lemma DecodeTwo(a: nat, b: nat)
    requires a < 64 && b < 64
    ensures Decoded([Symbol(a), Symbol(b), '=', '=']) == [First(a, b)]
  {
    DigitOfSymbol(a);
    DigitOfSymbol(b);
    PaddingIsNoDigit();
    hide Symbol, Digit, First, Second, Third;
  }

  lemma PaddingIsNoDigit()
    ensures Digit('=') == None
  {}

  lemma GroupBytes(x: Byte, y: Byte, z: Byte)
    ensures
      var n := Word(x, y, z);
      First(Six(n, 3), Six(n, 2)) == x && Second(Six(n, 2), Six(n, 1)) == y && Third(Six(n, 1), Six(n, 0)) == z
  {
    FirstSymbols(x, y, z);
    LastSymbols(x, y, z);
    hide Word, Six;
    Regroup(x, y, z);
  }

  lemma FirstSymbols(x: Byte, y: Byte, z: Byte)
    ensures Six(Word(x, y, z), 3) == x / 4
    ensures Six(Word(x, y, z), 2) == x % 4 * 16 + y / 16
  {
    TopSix(Word(x, y, z), x as int / 4, 0x1_0000 * (x as int % 4) + 256 * y as int + z as int);
    NextSix(Word(x, y, z), 16 * x as int + y as int / 16);
  }

  lemma TopSix(n: nat, q: nat, r: nat)
    requires n == 0x4_0000 * q + r && r < 0x4_0000 && q < 64
    ensures Six(n, 3) == q
  {}

  lemma NextSix(n: nat, q: nat)
    requires 0x1000 * q <= n < 0x1000 * (q + 1)
    ensures Six(n, 2) == q % 64
  {
    SixTwo(n);
    By0x1000(n, q, n - 0x1000 * q);
    hide Six;
  }

  lemma SixTwo(n: nat)
    ensures Six(n, 2) == n / 0x1000 % 64
  {}

  lemma By0x1000(n: nat, q: nat, r: nat)
    requires n == 0x1000 * q + r && r < 0x1000
    ensures n / 0x1000 == q
  {}

  lemma LastSymbols(x: Byte, y: Byte, z: Byte)
    ensures Six(Word(x, y, z), 1) == y % 16 * 4 + z / 64
    ensures Six(Word(x, y, z), 0) == z % 64
  {
    var y1, y0, z1, z0 := y as int / 16, y as int % 16, z as int / 64, z as int % 64;
    LowSixes(Word(x, y, z), 16 * x as int + y1, 4 * y0 + z1, z0);
  }

  lemma LowSixes(n: nat, q: nat, r1: nat, r0: nat)
    requires n == 0x1000 * q + 64 * r1 + r0 && r1 < 64 && r0 < 64
    ensures Six(n, 1) == r1 && Six(n, 0) == r0
  {
    By64(n, 64 * q + r1, r0);
    By64(64 * q + r1, q, r1);
  }

  lemma By64(n: nat, q: nat, r: nat)
    requires n == 64 * q + r && r < 64
    ensures n / 64 == q && n % 64 == r
  {}

  lemma Regroup(x: Byte, y: Byte, z: Byte)
    ensures x / 4 * 4 + (x % 4 * 16 + y / 16) / 16 == x
    ensures (x % 4 * 16 + y / 16) % 16 * 16 + (y % 16 * 4 + z / 64) / 4 == y
    ensures (y % 16 * 4 + z / 64) % 4 * 64 + z % 64 == z
  {}

  /** The alphabet of table 1. */
  lemma Alphabet(k: nat)
    requires k < 64
    ensures Symbol(k) == ("ABCDEFGHIJKLMNOPQRSTUVWXYZ" + "abcdefghijklmnopqrstuvwxyz" + "0123456789" + "+/")[k]
  {
    if k < 26 {
      UpperCase(k);
    } else if k < 52 {
      LowerCase(k);
    } else if k < 62 {
      DigitsAre(k);
    }
  }

  lemma UpperCase(k: nat)
    requires k < 26
    ensures Symbol(k) == "ABCDEFGHIJKLMNOPQRSTUVWXYZ"[k]
  {}

  lemma LowerCase(k: nat)
    requires 26 <= k < 52
    ensures Symbol(k) == "abcdefghijklmnopqrstuvwxyz"[k - 26]
  {}

  lemma DigitsAre(k: nat)
    requires 52 <= k < 62
    ensures Symbol(k) == "0123456789"[k - 52]
  {}

  /** Four characters for every three bytes begun. */
  lemma {:induction false} EncodedLength(data: seq<Byte>)
    ensures |Encoded(data)| == 4 * ((|data| + 2) / 3)
    decreases |data|
  {
    hide Quad, Word;
    if |data| > 2 { EncodedLength(data[3..]); }
  }

  /** How the bits of three, two or one bytes are divided into sixes, high bits first. */
  lemma GroupOfThree(x: Byte, y: Byte, z: Byte, rest: seq<Byte>)
    ensures Encoded([x, y, z] + rest) ==
      [Symbol(x / 4), Symbol(x % 4 * 16 + y / 16), Symbol(y % 16 * 4 + z / 64), Symbol(z % 64)] + Encoded(rest)
  {
    FirstSymbols(x, y, z);
    LastSymbols(x, y, z);
    hide Symbol, Six, Word;
    assert ([x, y, z] + rest)[3..] == rest;
  }

  lemma GroupOfTwo(x: Byte, y: Byte)
    ensures Encoded([x, y]) == [Symbol(x / 4), Symbol(x % 4 * 16 + y / 16), Symbol(y % 16 * 4), '=']
  {
    FirstSymbols(x, y, 0);
    LastSymbols(x, y, 0);
    hide Symbol, Six, Word;
  }

  lemma GroupOfOne(x: Byte)
    ensures Encoded([x]) == [Symbol(x / 4), Symbol(x % 4 * 16), '=', '=']
  {
    FirstSymbols(x, 0, 0);
    hide Symbol, Six, Word;
  }
}
