/** Base 64 encoding with padding, section 4 of RFC 4648. */
module Base64 {
  import opened Prelude

  function Symbol(n: int): char
    requires 0 <= n < 64
  {
    if n < 26 then (n + 'A' as int) as char
    else if n < 52 then (n - 26 + 'a' as int) as char
    else if n < 62 then (n - 52 + '0' as int) as char
    else if n == 62 then '+'
    else '/'
  }

  function SymbolValue(c: char): Option<int>
    ensures SymbolValue(c).Some? ==> 0 <= SymbolValue(c).value < 64
  {
    if 'A' <= c <= 'Z' then Some(c as int - 'A' as int)
    else if 'a' <= c <= 'z' then Some(c as int - 'a' as int + 26)
    else if '0' <= c <= '9' then Some(c as int - '0' as int + 52)
    else if c == '+' then Some(62)
    else if c == '/' then Some(63)
    else None
  }

  lemma SymbolRoundTrip(n: int)
    requires 0 <= n < 64
    ensures SymbolValue(Symbol(n)) == Some(n) && Symbol(n) != '='
  {}

  // The alphabet in order.
  const ALPHABET := "ABCDEFGHIJKLMNOPQRSTUVWXYZ" + "abcdefghijklmnopqrstuvwxyz" + "0123456789+/"

  lemma SymbolIs(n: int)
    requires 0 <= n < 64
    ensures Symbol(n) == ALPHABET[n]
  {
    if n < 26 {
      assert Symbol(n) == "ABCDEFGHIJKLMNOPQRSTUVWXYZ"[n];
    } else if n < 52 {
      assert Symbol(n) == "abcdefghijklmnopqrstuvwxyz"[n - 26];
    } else {
      assert Symbol(n) == "0123456789+/"[n - 52];
    }
  }

  // One group of four characters for one to three bytes.
  function Group(bytes: Bytes): (s: string)
    requires 1 <= |bytes| <= 3
    ensures |s| == 4
  {
    var x := bytes[0];
    var y: Byte := if |bytes| > 1 then bytes[1] else 0;
    var z: Byte := if |bytes| > 2 then bytes[2] else 0;
    [Symbol(x / 4),
     Symbol(x % 4 * 16 + y / 16),
     if |bytes| > 1 then Symbol(y % 16 * 4 + z / 64) else '=',
     if |bytes| > 2 then Symbol(z % 64) else '=']
  }

  function Encode(bytes: Bytes): string {
    if bytes == [] then ""
    else if |bytes| <= 3 then Group(bytes)
    else Group(bytes[..3]) + Encode(bytes[3..])
  }

  function Ungroup(s: string): Option<Bytes>
    requires |s| == 4
  {
    match (SymbolValue(s[0]), SymbolValue(s[1]), SymbolValue(s[2]), SymbolValue(s[3]))
    case (Some(a), Some(b), Some(c), Some(d)) => Some([a * 4 + b / 16, b % 16 * 16 + c / 4, c % 4 * 64 + d])
    case (Some(a), Some(b), Some(c), None) =>
      if s[3] == '=' then Some([a * 4 + b / 16, b % 16 * 16 + c / 4]) else None
    case (Some(a), Some(b), None, None) =>
      if s[2] == '=' && s[3] == '=' then Some([a * 4 + b / 16]) else None
    case _ => None
  }

  // Padding is accepted in the last group only.
  function Decode(s: string): Option<Bytes> {
    if s == "" then Some([])
    else if |s| < 4 || ('=' in s[..4] && |s| > 4) then None
    else
      match (Ungroup(s[..4]), Decode(s[4..]))
      case (Some(first), Some(rest)) => Some(first + rest)
      case _ => None
  }

  // The four six-bit values of three bytes determine them.
  lemma ThreeBytes(x: Byte, y: Byte, z: Byte)
    ensures var a, b, c, d := x / 4, x % 4 * 16 + y / 16, y % 16 * 4 + z / 64, z % 64;
            && 0 <= a < 64 && 0 <= b < 64 && 0 <= c < 64 && 0 <= d < 64
            && a * 4 + b / 16 == x && b % 16 * 16 + c / 4 == y && c % 4 * 64 + d == z
  {
    assert (x % 4 * 16 + y / 16) / 16 == x % 4;
    assert (x % 4 * 16 + y / 16) % 16 == y / 16;
    assert (y % 16 * 4 + z / 64) / 4 == y % 16;
    assert (y % 16 * 4 + z / 64) % 4 == z / 64;
  }

  lemma {:induction false} UngroupSymbols(a: int, b: int, c: int, d: int)
    requires 0 <= a < 64 && 0 <= b < 64 && 0 <= c < 64 && 0 <= d < 64
    ensures Ungroup([Symbol(a), Symbol(b), '=', '=']) == Some([a * 4 + b / 16])
    ensures Ungroup([Symbol(a), Symbol(b), Symbol(c), '=']) == Some([a * 4 + b / 16, b % 16 * 16 + c / 4])
    ensures Ungroup([Symbol(a), Symbol(b), Symbol(c), Symbol(d)])
            == Some([a * 4 + b / 16, b % 16 * 16 + c / 4, c % 4 * 64 + d])
    ensures '=' !in [Symbol(a), Symbol(b), Symbol(c), Symbol(d)]
  {
    SymbolRoundTrip(a);
    SymbolRoundTrip(b);
    SymbolRoundTrip(c);
    SymbolRoundTrip(d);
  }

  lemma {:induction false} OneByte(x: Byte)
    ensures Ungroup(Group([x])) == Some([x])
  {
    ThreeBytes(x, 0, 0);
    UngroupSymbols(x / 4, x % 4 * 16, 0, 0);
  }

  lemma {:induction false} TwoBytes(x: Byte, y: Byte)
    ensures Ungroup(Group([x, y])) == Some([x, y])
  {
    ThreeBytes(x, y, 0);
    RegroupTwo(Group([x, y]), x / 4, x % 4 * 16 + y / 16, y % 16 * 4, x, y);
  }

  lemma {:induction false} RegroupTwo(s: string, a: int, b: int, c: int, x: Byte, y: Byte)
    requires 0 <= a < 64 && 0 <= b < 64 && 0 <= c < 64
    requires s == [Symbol(a), Symbol(b), Symbol(c), '=']
    requires a * 4 + b / 16 == x && b % 16 * 16 + c / 4 == y
    ensures Ungroup(s) == Some([x, y])
  {
    UngroupSymbols(a, b, c, 0);
  }

  lemma {:induction false} FullGroup(x: Byte, y: Byte, z: Byte)
    ensures Ungroup(Group([x, y, z])) == Some([x, y, z])
    ensures '=' !in Group([x, y, z])
  {
    ThreeBytes(x, y, z);
    Regroup(Group([x, y, z]), x / 4, x % 4 * 16 + y / 16, y % 16 * 4 + z / 64, z % 64, x, y, z);
  }

  lemma {:induction false} Regroup(s: string, a: int, b: int, c: int, d: int, x: Byte, y: Byte, z: Byte)
    requires 0 <= a < 64 && 0 <= b < 64 && 0 <= c < 64 && 0 <= d < 64
    requires s == [Symbol(a), Symbol(b), Symbol(c), Symbol(d)]
    requires a * 4 + b / 16 == x && b % 16 * 16 + c / 4 == y && c % 4 * 64 + d == z
    ensures Ungroup(s) == Some([x, y, z]) && '=' !in s
  {
    UngroupSymbols(a, b, c, d);
  }

  lemma {:induction false} GroupRoundTrip(bytes: Bytes)
    requires 1 <= |bytes| <= 3
    ensures Ungroup(Group(bytes)) == Some(bytes)
    ensures |bytes| == 3 ==> '=' !in Group(bytes)
  {
    if |bytes| == 1 {
      OneByte(bytes[0]);
      assert bytes == [bytes[0]];
    } else if |bytes| == 2 {
      TwoBytes(bytes[0], bytes[1]);
      assert bytes == [bytes[0], bytes[1]];
    } else {
      FullGroup(bytes[0], bytes[1], bytes[2]);
      assert bytes == [bytes[0], bytes[1], bytes[2]];
    }
  }

  lemma {:induction false} RoundTrip(bytes: Bytes)
    ensures Decode(Encode(bytes)) == Some(bytes)
  {
    if bytes != [] {
      var first := if |bytes| <= 3 then bytes else bytes[..3];
      var s := Encode(bytes);
      GroupRoundTrip(first);
      RoundTrip(bytes[|first|..]);
      assert s[..4] == Group(first) && s[4..] == Encode(bytes[|first|..]);
      assert bytes == first + bytes[|first|..];
    }
  }

  // What the encoding is: three bytes are one number of 24 bits, and its four digits to the
  // base 64 are written; what is missing from the last three bytes counts as 0 and is marked
  // by padding.
  lemma {:induction false} EncodingLaw(bytes: Bytes) returns (a: int, b: int, c: int, d: int)
    requires bytes != []
    ensures 0 <= a < 64 && 0 <= b < 64 && 0 <= c < 64 && 0 <= d < 64
    ensures var x: int := bytes[0];
            var y: int := if |bytes| > 1 then bytes[1] else 0;
            var z: int := if |bytes| > 2 then bytes[2] else 0;
            262144 * a + 4096 * b + 64 * c + d == 65536 * x + 256 * y + z
    ensures var s := Encode(bytes);
            && |s| >= 4 && s[0] == ALPHABET[a] && s[1] == ALPHABET[b]
            && s[2] == (if |bytes| > 1 then ALPHABET[c] else '=') && s[3] == (if |bytes| > 2 then ALPHABET[d] else '=')
            && s[4..] == if |bytes| <= 3 then "" else Encode(bytes[3..])
  {
    var x: Byte := bytes[0];
    var y: Byte := if |bytes| > 1 then bytes[1] else 0;
    var z: Byte := if |bytes| > 2 then bytes[2] else 0;
    a, b, c, d := x / 4, x % 4 * 16 + y / 16, y % 16 * 4 + z / 64, z % 64;
    ThreeBytes(x, y, z);
    SymbolIs(a);
    SymbolIs(b);
    SymbolIs(c);
    SymbolIs(d);
  }
}
