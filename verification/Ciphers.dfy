/** `CryptoManager` of crypto.rs: the cipher its configuration sets up, and its envelopes. */
module Ciphers {
  import opened Base
  import opened Pipeline

  datatype CryptoConfig = CryptoConfig(enabled: bool, algorithm: string, key: Option<string>)

  function HexDigit(c: char): Option<nat> {
    if '0' <= c <= '9' then Some(c as int - '0' as int)
    else if 'a' <= c <= 'f' then Some(c as int - 'a' as int + 10)
    else if 'A' <= c <= 'F' then Some(c as int - 'A' as int + 10)
    else None
  }

  function HexDecode(s: string): (r: Option<Bytes>)
    ensures r.Some? ==> |s| == 2 * |r.value|
  {
    if s == "" then Some([])
    else if |s| == 1 || HexDigit(s[0]).None? || HexDigit(s[1]).None? then None
    else match HexDecode(s[2..])
      case None => None
      case Some(rest) =>
        var b := HexDigit(s[0]).value * 16 + HexDigit(s[1]).value;
        assert b < 256;
        Some([b as byte] + rest)
  }

  /** The configured key: 64 hex characters, 32 raw bytes, or 32 random bytes when there is none. */
  function KeyBytes(config: CryptoConfig, random: Bytes): Result<Bytes> {
    match config.key
    case None => Ok(random)
    case Some(text) =>
      if |text| == 64 then (match HexDecode(text) case Some(k) => Ok(k) case None => Err(Encryption))
      else if |text| == 32 then Ok(seq(32, i requires 0 <= i < 32 => (text[i] as int % 256) as byte))
      else Err(Encryption)
  }

  /** What `CryptoManager::new` sets up. */
  function Configure(config: CryptoConfig, random: Bytes): Result<Crypto> {
    if !config.enabled then Ok(Crypto(false, config.algorithm, None, None))
    else match KeyBytes(config, random)
      case Err(e) => Err(e)
      case Ok(key) =>
        if |key| != 32 then Err(Encryption)
        else match ParseAlgorithm(config.algorithm)
          case Err(_) => Err(Encryption)
          case Ok(AesGcm) => Ok(Crypto(true, config.algorithm, Some(key), None))
          case Ok(ChaCha20Poly1305) => Ok(Crypto(true, config.algorithm, None, Some(key)))
  }

  /** Hexadecimal digits of either case. */
  lemma HexDigits(c: char, v: nat)
    ensures HexDigit(c) == Some(v) <==> v < 16 && (c == "0123456789abcdef"[v] || c == "0123456789ABCDEF"[v])
  {
    if v < 16 {
      SomeHexDigits(v);
    }
    if HexDigit(c).Some? {
      OnlyHexDigits(c);
    }
  }

  lemma SomeHexDigits(v: nat)
    requires v < 16
    ensures HexDigit("0123456789abcdef"[v]) == Some(v) == HexDigit("0123456789ABCDEF"[v])
  {
  }

  lemma OnlyHexDigits(c: char)
    requires HexDigit(c).Some?
    ensures var v := HexDigit(c).value; v < 16 && (c == "0123456789abcdef"[v] || c == "0123456789ABCDEF"[v])
  {
  }

  /** A text that lists the two digits of every byte, high one first. */
  predicate Lists(s: string, bytes: Bytes) {
    && |s| == 2 * |bytes|
    && forall i :: 0 <= i < |bytes| ==>
         HexDigit(s[2 * i]) == Some(bytes[i] as int / 16) && HexDigit(s[2 * i + 1]) == Some(bytes[i] as int % 16)
  }

  lemma ListsOneMore(s: string, bytes: Bytes)
    requires |s| >= 2 && bytes != []
    ensures Lists(s, bytes) <==>
      && HexDigit(s[0]) == Some(bytes[0] as int / 16) && HexDigit(s[1]) == Some(bytes[0] as int % 16)
      && Lists(s[2..], bytes[1..])
  {
    hide HexDigit;
    var s', bytes' := s[2..], bytes[1..];
    assert forall k :: 0 <= k < |s'| ==> s'[k] == s[k + 2];
    if Lists(s, bytes) {
      forall i | 0 <= i < |bytes'|
        ensures HexDigit(s'[2 * i]) == Some(bytes'[i] as int / 16) && HexDigit(s'[2 * i + 1]) == Some(bytes'[i] as int % 16)
      {
        assert bytes'[i] == bytes[i + 1] && s'[2 * i] == s[2 * (i + 1)] && s'[2 * i + 1] == s[2 * (i + 1) + 1];
      }
    }
    if HexDigit(s[0]) == Some(bytes[0] as int / 16) && HexDigit(s[1]) == Some(bytes[0] as int % 16) && Lists(s', bytes') {
      forall i | 1 <= i < |bytes|
        ensures HexDigit(s[2 * i]) == Some(bytes[i] as int / 16) && HexDigit(s[2 * i + 1]) == Some(bytes[i] as int % 16)
      {
        assert bytes[i] == bytes'[i - 1] && s[2 * i] == s'[2 * (i - 1)] && s[2 * i + 1] == s'[2 * (i - 1) + 1];
      }
    }
  }

  /** Decoding gives exactly the bytes a text lists. */
  lemma {:induction false} HexDecodesExactly(s: string, bytes: Bytes)
    ensures HexDecode(s) == Some(bytes) <==> Lists(s, bytes)
    decreases |s|
  {
    hide Lists, HexDigit;
    if |s| >= 2 && bytes != [] {
      HexDecodesExactly(s[2..], bytes[1..]);
      ListsOneMore(s, bytes);
      HexBounds(s[0]);
      HexBounds(s[1]);
      assert bytes == [bytes[0]] + bytes[1..];
    } else {
      ListsNothing(s, bytes);
    }
  }

  lemma HexBounds(c: char)
    ensures HexDigit(c).Some? ==> HexDigit(c).value < 16
  {
  }

  lemma ListsNothing(s: string, bytes: Bytes)
    requires |s| < 2 || bytes == []
    ensures Lists(s, bytes) <==> s == "" && bytes == []
  {
  }

  /** The key a configuration sets up: 64 hexadecimal digits, 32 characters as they are, or random bytes; anything else is refused. */
  lemma ConfiguredKey(config: CryptoConfig, random: Bytes)
    requires |random| == 32 && config.enabled && (config.key.Some? ==> Bytewise(config.key.value))
    ensures var r := Configure(config, random);
            && (r.Err? ==> r.error == Encryption)
            && (r.Ok? <==>
                  && config.algorithm in {"aes-gcm", "chacha20poly1305"}
                  && (config.key.Some? ==>
                        |config.key.value| == 32 || (|config.key.value| == 64 && HexDecode(config.key.value).Some?)))
            && (r.Ok? ==>
                  var key := if config.algorithm == "aes-gcm" then r.value.aesKey else r.value.chachaKey;
                  && key.Some?
                  && (config.key.None? ==> key.value == random)
                  && (config.key.Some? && |config.key.value| == 64 ==> HexDecode(config.key.value) == key)
                  && (config.key.Some? && |config.key.value| == 32 ==>
                        |key.value| == 32 && forall i :: 0 <= i < 32 ==> key.value[i] as int == config.key.value[i] as int))
  {
    hide HexDecode;
  }

  /** With encryption off nothing is asked of the configuration. */
  lemma SwitchedOff(config: CryptoConfig, random: Bytes)
    requires !config.enabled
    ensures Configure(config, random).Ok?
  {
  }

  predicate Bytewise(s: string) {
    forall i :: 0 <= i < |s| ==> s[i] as int < 256
  }

  /** An accepted configuration has a 32-byte key for exactly its own algorithm. */
  lemma ConfigureIsWellFormed(config: CryptoConfig, random: Bytes)
    requires Configure(config, random).Ok?
    ensures var c := Configure(config, random).value;
            && c.WellFormed() && c.enabled == config.enabled && c.algorithm == config.algorithm
            && (c.enabled ==> ParseAlgorithm(c.algorithm).Ok?)
            && forall a :: c.CipherKey(a).Some? <==> c.enabled && ParseAlgorithm(c.algorithm) == Ok(a)
  {
  }

  /** So with an accepted configuration, encryption under the global key only fails if the cipher itself does. */
  lemma GlobalEncryptionSucceeds(p: Primitives, config: CryptoConfig, random: Bytes, nonce: Nonce, data: Bytes)
    requires Configure(config, random).Ok? && config.enabled
    ensures var c := Configure(config, random).value;
            var a := ParseAlgorithm(c.algorithm);
            && a.Ok? && c.CipherKey(a.value).Some?
            && EncryptStage(p, c, map[], None, nonce, data).Ok?
                 == p.seal(a.value, c.CipherKey(a.value).value, nonce, data).Some?
  {
  }

  class CryptoManager {
    const primitives: Primitives
    const config: CryptoConfig
    var aesKey: Option<Bytes>
    var chachaKey: Option<Bytes>

    constructor (p: Primitives, c: CryptoConfig)
      ensures primitives == p && config == c && aesKey == None && chachaKey == None
    {
      primitives, config, aesKey, chachaKey := p, c, None, None;
    }

    function View(): Crypto
      reads this
    {
      Crypto(config.enabled, config.algorithm, aesKey, chachaKey)
    }

    method InitCipher(random: Bytes) returns (r: Result<()>)
      requires config.enabled && aesKey == None && chachaKey == None
      modifies this
      ensures r == match Configure(config, random) case Ok(_) => Ok(()) case Err(e) => Err(e)
      ensures r.Ok? ==> View() == Configure(config, random).value
      ensures r.Err? ==> aesKey == None && chachaKey == None
    {
      var key := KeyBytes(config, random);
      if key.Err? {
        return Err(key.error);
      }
      if |key.value| != 32 {
        return Err(Encryption);
      }
      AlgorithmNamesRoundTrip(config.algorithm);
      if config.algorithm == "aes-gcm" {
        aesKey := Some(key.value);
      } else if config.algorithm == "chacha20poly1305" {
        chachaKey := Some(key.value);
      } else {
        return Err(Encryption);
      }
      r := Ok(());
    }

    method EncryptData(a: Algorithm, nonce: Nonce, data: Bytes) returns (r: Result<Bytes>)
      ensures r == Encrypt(primitives, View(), a, nonce, data)
    {
      if !config.enabled {
        return Ok(data);
      }
      var key := match a case AesGcm => aesKey case ChaCha20Poly1305 => chachaKey;
      if key.None? {
        return Err(Encryption);
      }
      var ciphertext := primitives.seal(a, key.value, nonce, data);
      if ciphertext.None? {
        return Err(Encryption);
      }
      var result: Bytes := nonce;
      result := result + ciphertext.value;
      r := Ok(result);
    }

    method EncryptDataWithKey(a: Algorithm, key: Bytes, nonce: Nonce, data: Bytes) returns (r: Result<Bytes>)
      ensures r == EncryptWithKey(primitives, a, key, nonce, data)
    {
      if |key| != 32 {
        return Err(Encryption);
      }
      var ciphertext := primitives.seal(a, key, nonce, data);
      if ciphertext.None? {
        return Err(Encryption);
      }
      var result: Bytes := nonce;
      result := result + ciphertext.value;
      r := Ok(result);
    }
  }
}
