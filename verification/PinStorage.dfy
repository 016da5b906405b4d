/** PIN hashing of app/domains/registration/service.py.

    PBKDF2 (section 5.2 of RFC 8018) is an arbitrary function of PIN and salt; the salt is
    whatever the random source returned.  What is modelled is the storage round trip through
    `bytes.hex` and `bytes.fromhex`.  A PIN is given by its UTF-8 bytes.
 */
module PinStorage {
  import opened Prelude

  type Kdf = (Bytes, Bytes) -> Bytes

  datatype PinError = SaltNotHex | HashNotAscii

  function HexDigit(n: int): char
    requires 0 <= n < 16
  {
    "0123456789abcdef"[n]
  }

  function Hex(bytes: Bytes): string {
    if bytes == [] then ""
    else [HexDigit(bytes[0] / 16), HexDigit(bytes[0] % 16)] + Hex(bytes[1..])
  }

  function HexValue(c: char): Option<int>
    ensures HexValue(c).Some? ==> 0 <= HexValue(c).value < 16
  {
    if '0' <= c <= '9' then Some(c as int - '0' as int)
    else if 'a' <= c <= 'f' then Some(c as int - 'a' as int + 10)
    else if 'A' <= c <= 'F' then Some(c as int - 'A' as int + 10)
    else None
  }

  predicate IsSpace(c: char) {
    c in {' ', '\t', '\n', '\r', 11 as char, 12 as char}
  }

  // `bytes.fromhex`: pairs of hex digits of either case, with white space between pairs.
  function FromHex(s: string): Option<Bytes> {
    if s == "" then Some([])
    else if IsSpace(s[0]) then FromHex(s[1..])
    else if |s| < 2 then None
    else
      match (HexValue(s[0]), HexValue(s[1]), FromHex(s[2..]))
      case (Some(hi), Some(lo), Some(rest)) => Some([hi * 16 + lo] + rest)
      case _ => None
  }

  function HashPin(kdf: Kdf, pin: Bytes, salt: Bytes): (string, string) {
    (Hex(kdf(pin, salt)), Hex(salt))
  }

  predicate IsAscii(s: string) {
    forall i :: 0 <= i < |s| ==> s[i] as int < 128
  }

  function VerifyPin(kdf: Kdf, pin: Bytes, storedHash: string, storedSalt: string): Result<bool, PinError> {
    match FromHex(storedSalt)
    case None => Err(SaltNotHex)
    case Some(salt) =>
      if IsAscii(storedHash) then Ok(Hex(kdf(pin, salt)) == storedHash) else Err(HashNotAscii)
  }

  lemma HexDigitValue(n: int)
    requires 0 <= n < 16
    ensures HexValue(HexDigit(n)) == Some(n) && !IsSpace(HexDigit(n)) && HexDigit(n) as int < 128
  {}

  lemma {:induction false} HexRoundTrip(bytes: Bytes)
    ensures FromHex(Hex(bytes)) == Some(bytes) && IsAscii(Hex(bytes))
  {
    if bytes != [] {
      var hi, lo := bytes[0] / 16, bytes[0] % 16;
      HexDigitValue(hi);
      HexDigitValue(lo);
      HexRoundTrip(bytes[1..]);
      assert Hex(bytes)[2..] == Hex(bytes[1..]);
      assert [hi * 16 + lo] + bytes[1..] == bytes;
    }
  }

  // Two digits for each byte, the higher half first.
  lemma {:induction false} HexAt(bytes: Bytes, i: nat)
    requires i < |bytes|
    ensures |Hex(bytes)| == 2 * |bytes|
    ensures Hex(bytes)[2 * i] == "0123456789abcdef"[bytes[i] / 16]
    ensures Hex(bytes)[2 * i + 1] == "0123456789abcdef"[bytes[i] % 16]
  {
    HexLength(bytes);
    if i > 0 {
      HexAt(bytes[1..], i - 1);
    }
  }

  lemma {:induction false} HexLength(bytes: Bytes)
    ensures |Hex(bytes)| == 2 * |bytes|
  {
    if bytes != [] {
      HexLength(bytes[1..]);
    }
  }

  lemma HexValueIff(c: char, n: int)
    requires 0 <= n < 16
    ensures HexValue(c) == Some(n) <==> c == "0123456789abcdef"[n] || c == "0123456789ABCDEF"[n]
  {}

  // Digits of either case decode, with white space between the pairs or not; anything else
  // does not.
  lemma {:induction false} FromHexPairs(s: string)
    ensures s != "" && s[0] in " \t\n\r" ==> FromHex(s) == FromHex(s[1..])
    ensures |s| >= 2 && HexValue(s[0]).Some? && HexValue(s[1]).Some? && FromHex(s[2..]).Some? ==>
              FromHex(s) == Some([HexValue(s[0]).value * 16 + HexValue(s[1]).value] + FromHex(s[2..]).value)
    ensures FromHex(s).Some? ==> forall i :: 0 <= i < |s| ==> HexValue(s[i]).Some? || IsSpace(s[i])
  {
    if s != "" && IsSpace(s[0]) {
      FromHexPairs(s[1..]);
      assert forall i :: 1 <= i < |s| ==> s[i] == s[1..][i - 1];
    } else if |s| >= 2 {
      FromHexPairs(s[2..]);
      assert forall i :: 2 <= i < |s| ==> s[i] == s[2..][i - 2];
    }
  }

  // For any key-derivation function and salt: a PIN verifies against the stored pair exactly
  // when it derives the same key as the stored PIN.
  lemma {:induction false} VerifyIff(kdf: Kdf, pin: Bytes, salt: Bytes, attempt: Bytes)
    ensures var (hash, storedSalt) := HashPin(kdf, pin, salt);
            VerifyPin(kdf, attempt, hash, storedSalt) == Ok(kdf(attempt, salt) == kdf(pin, salt))
  {
    HexRoundTrip(salt);
    HexRoundTrip(kdf(pin, salt));
    HexRoundTrip(kdf(attempt, salt));
  }

  // What is no stored pair is an error and not a refusal.
  lemma VerifyErrors(kdf: Kdf, attempt: Bytes, storedHash: string, storedSalt: string)
    ensures VerifyPin(kdf, attempt, storedHash, storedSalt).Err?
            <==> FromHex(storedSalt).None? || exists i :: 0 <= i < |storedHash| && storedHash[i] as int >= 128
  {}
}
