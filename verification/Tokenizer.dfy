/** The tokenizer: an object key and an encryption key under each token, the latter kept encrypted. */
module Tokenizer {
  import opened Options

  type byte = x: int | 0 <= x < 256
  type Bytes = seq<byte>

  const KEY_SIZE := 32
  const NONCE_SIZE := 12
  const TOKEN_PREFIX := "lunasec-"

  // ----- hexadecimal -----

  const HEX_DIGITS := "0123456789abcdef"

  function HexDigit(d: int): char
    requires 0 <= d < 16
  {
    HEX_DIGITS[d]
  }

  function HexEncode(bytes: Bytes): string {
    if bytes == [] then "" else [HexDigit(bytes[0] / 16), HexDigit(bytes[0] % 16)] + HexEncode(bytes[1..])
  }

  function HexValue(c: char): (r: Option<int>)
    ensures r.Some? ==> 0 <= r.value < 16
  {
    if '0' <= c <= '9' then Some(c as int - '0' as int)
    else if 'a' <= c <= 'f' then Some(c as int - 'a' as int + 10)
    else if 'A' <= c <= 'F' then Some(c as int - 'A' as int + 10)
    else None
  }

  function HexDecode(s: string): (r: Option<Bytes>)
    ensures r.Some? ==> 2 * |r.value| == |s|
  {
    if s == "" then Some([])
    else if |s| == 1 || HexValue(s[0]).None? || HexValue(s[1]).None? then None
    else
      var rest := HexDecode(s[2..]);
      if rest.None? then None else Some([HexValue(s[0]).value * 16 + HexValue(s[1]).value] + rest.value)
  }

  lemma {:induction false} HexRoundTrip(bytes: Bytes)
    ensures HexDecode(HexEncode(bytes)) == Some(bytes) && |HexEncode(bytes)| == 2 * |bytes|
  {
    hide HexDecode, HexDigit;
    if bytes == [] {
      NothingToDecode();
    } else {
      var b, rest := bytes[0], HexEncode(bytes[1..]);
      HexRoundTrip(bytes[1..]);
      DigitValue(b / 16);
      DigitValue(b % 16);
      DecodePair(HexDigit(b / 16), HexDigit(b % 16), rest);
      assert bytes == [b] + bytes[1..];
    }
  }

  /** The digits are those of lower-case hexadecimal. */
  lemma {:induction false} HexIsLowerCase(bytes: Bytes)
    ensures forall i :: 0 <= i < |HexEncode(bytes)| ==>
      '0' <= HexEncode(bytes)[i] <= '9' || 'a' <= HexEncode(bytes)[i] <= 'f'
  {
    hide HexDigit;
    if bytes != [] {
      HexIsLowerCase(bytes[1..]);
      DigitRange(bytes[0] / 16);
      DigitRange(bytes[0] % 16);
    }
  }

  lemma DigitRange(d: int)
    requires 0 <= d < 16
    ensures '0' <= HexDigit(d) <= '9' || 'a' <= HexDigit(d) <= 'f'
  {
  }

  lemma NothingToDecode()
    ensures HexDecode("") == Some([])
  {
  }

  lemma DecodePair(high: char, low: char, s: string)
    requires HexValue(high).Some? && HexValue(low).Some? && HexDecode(s).Some?
    ensures HexDecode([high, low] + s) == Some([HexValue(high).value * 16 + HexValue(low).value] + HexDecode(s).value)
  {
    hide HexValue, HexDecode;
    var text := [high, low] + s;
    assert text[0] == high && text[1] == low && text[2..] == s;
    DecodeStep(text);
  }

  lemma DecodeStep(text: string)
    requires |text| >= 2 && HexValue(text[0]).Some? && HexValue(text[1]).Some? && HexDecode(text[2..]).Some?
    ensures HexDecode(text)
      == Some([HexValue(text[0]).value * 16 + HexValue(text[1]).value] + HexDecode(text[2..]).value)
  {
    hide HexValue;
  }

  lemma DigitValue(d: int)
    requires 0 <= d < 16
    ensures HexValue(HexDigit(d)) == Some(d)
  {
    if d < 10 {
      assert HexDigit(d) == ('0' as int + d) as char;
    } else {
      assert HexDigit(d) == ('a' as int + d - 10) as char;
    }
  }

  // ----- primitives that stay abstract -----

  /** The bytes of a string, SHA3, the byte stream of a seeded generator, and AES-GCM by key, nonce and text. */
  datatype Crypto = Crypto(
    utf8: string -> Bytes, sha3With512: Bytes -> Bytes, sha3With256: Bytes -> Bytes,
    randomByte: (int, nat) -> byte,
    seal: (Bytes, Bytes, Bytes) -> Bytes, open: (Bytes, Bytes, Bytes) -> Option<Bytes>)

  predicate AesKey(key: Bytes) {
    |key| in {16, 24, 32}
  }

  /** SHA3-512 gives 64 bytes, and opening what was sealed under one key and nonce gives the text back. */
  ghost predicate Laws(c: Crypto) {
    && (forall b :: |c.sha3With512(b)| == 64)
    && (forall k, n, p :: AesKey(k) && |n| == NONCE_SIZE ==> c.open(k, n, c.seal(k, n, p)) == Some(p))
  }

  // ----- salts -----

  datatype SaltsAndKey = SaltsAndKey(sp: string, sk: string, kt: string)

  function BigEndian(bytes: Bytes): int {
    if bytes == [] then 0 else BigEndian(bytes[..|bytes| - 1]) * 256 + bytes[|bytes| - 1]
  }

  /** Of the token, the secret and the hash of both only what an unsigned 64-bit integer takes. */
  function SeedBytes(c: Crypto, token: string, secret: string): (bytes: Bytes)
    requires Laws(c)
    ensures |bytes| == 8
  {
    var tokenStr := c.utf8(token + secret);
    (tokenStr + c.sha3With512(tokenStr))[..8]
  }

  function SeedOf(c: Crypto, token: string, secret: string): int
    requires Laws(c)
  {
    var seedInt := BigEndian(SeedBytes(c, token, secret));
    if seedInt < 0x8000_0000_0000_0000 then seedInt else seedInt - 0x1_0000_0000_0000_0000
  }

  function Drawn(c: Crypto, seed: int, from: nat, count: nat): (bytes: Bytes)
    ensures |bytes| == count
  {
    seq<byte>(count, i requires 0 <= i < count => c.randomByte(seed, from + i))
  }

  /** The three values drawn one after another from the generator seeded by the token and the secret. */
  function SaltsOf(c: Crypto, token: string, secret: string): SaltsAndKey
    requires Laws(c)
  {
    var seed := SeedOf(c, token, secret);
    SaltsAndKey(HexEncode(Drawn(c, seed, 0, KEY_SIZE)), HexEncode(Drawn(c, seed, KEY_SIZE, KEY_SIZE)),
      HexEncode(Drawn(c, seed, 2 * KEY_SIZE, KEY_SIZE)))
  }

  // ----- what the salts depend on -----

  function Pow256(n: nat): nat {
    if n == 0 then 1 else 256 * Pow256(n - 1)
  }

  lemma {:induction false} BigEndianRange(bytes: Bytes)
    ensures 0 <= BigEndian(bytes) < Pow256(|bytes|)
  {
    if bytes != [] { BigEndianRange(bytes[..|bytes| - 1]); }
  }

  lemma {:induction false} BigEndianInjective(a: Bytes, b: Bytes)
    requires |a| == |b| && BigEndian(a) == BigEndian(b)
    ensures a == b
  {
    if a != [] {
      var x, y := a[..|a| - 1], b[..|b| - 1];
      assert BigEndian(a) == BigEndian(x) * 256 + a[|a| - 1] && BigEndian(b) == BigEndian(y) * 256 + b[|b| - 1];
      BigEndianInjective(x, y);
      assert a == x + [a[|a| - 1]] && b == y + [b[|b| - 1]];
    }
  }

  lemma Pow256Of8()
    ensures Pow256(8) == 0x1_0000_0000_0000_0000
  {
    assert Pow256(2) == 0x1_0000;
    assert Pow256(4) == 256 * (256 * Pow256(2));
    assert Pow256(6) == 256 * (256 * Pow256(4));
    assert Pow256(8) == 256 * (256 * Pow256(6));
  }

  function Spelt(b: Bytes): int
    requires |b| == 8
  {
    var high := ((b[0] as int * 256 + b[1]) * 256 + b[2]) * 256 + b[3];
    (((high * 256 + b[4]) * 256 + b[5]) * 256 + b[6]) * 256 + b[7]
  }

  /** The seed is the int64 that the eight bytes spell, the first byte being the most significant. */
  lemma SeedIsInt64(c: Crypto, token: string, secret: string)
    requires Laws(c)
    ensures var b, seed := SeedBytes(c, token, secret), SeedOf(c, token, secret);
      && -0x8000_0000_0000_0000 <= seed < 0x8000_0000_0000_0000
      && (seed == Spelt(b) || seed == Spelt(b) - 0x1_0000_0000_0000_0000)
  {
    hide SeedBytes, Laws;
    var b := SeedBytes(c, token, secret);
    BigEndianRange(b);
    Pow256Of8();
    SpeltOut(b);
  }

  lemma SpeltOut(b: Bytes)
    requires |b| == 8
    ensures BigEndian(b) == Spelt(b)
  {
    assert b[..7][..6] == b[..6] && b[..6][..5] == b[..5] && b[..5][..4] == b[..4] && b[..4][..3] == b[..3];
    assert b[..3][..2] == b[..2] && b[..2][..1] == b[..1] && b[..1][..0] == [];
    assert BigEndian(b[..1]) == b[0];
    assert BigEndian(b[..2]) == BigEndian(b[..1]) * 256 + b[1];
    assert BigEndian(b[..3]) == BigEndian(b[..2]) * 256 + b[2];
    assert BigEndian(b[..4]) == BigEndian(b[..3]) * 256 + b[3];
    assert BigEndian(b[..5]) == BigEndian(b[..4]) * 256 + b[4];
    assert BigEndian(b[..6]) == BigEndian(b[..5]) * 256 + b[5];
    assert BigEndian(b[..7]) == BigEndian(b[..6]) * 256 + b[6];
  }

  /** Two tokens seed the generator alike exactly when eight bytes are the same. */
  lemma SameSeedIff(c: Crypto, a: string, b: string, secret: string)
    requires Laws(c)
    ensures SeedOf(c, a, secret) == SeedOf(c, b, secret) <==> SeedBytes(c, a, secret) == SeedBytes(c, b, secret)
    ensures SeedBytes(c, a, secret) == SeedBytes(c, b, secret) ==> SaltsOf(c, a, secret) == SaltsOf(c, b, secret)
  {
    hide BigEndian, SeedBytes, Laws, Drawn, HexEncode;
    var x, y := SeedBytes(c, a, secret), SeedBytes(c, b, secret);
    BigEndianRange(x);
    BigEndianRange(y);
    Pow256Of8();
    if SeedOf(c, a, secret) == SeedOf(c, b, secret) { BigEndianInjective(x, y); }
  }

  /** Strings are encoded character by character, those of the prefix as one byte each. */
  ghost predicate EncodesPrefix(c: Crypto) {
    |c.utf8(TOKEN_PREFIX)| == |TOKEN_PREFIX| && forall s :: c.utf8(TOKEN_PREFIX + s) == c.utf8(TOKEN_PREFIX) + c.utf8(s)
  }

  /** The prefix of every generated token fills the eight bytes: all these tokens have the same salts and the same
      key, whatever the rest of the token and the secret are. */
  lemma GeneratedTokensShareSalts(c: Crypto, a: string, b: string, secret: string, otherSecret: string)
    requires Laws(c) && EncodesPrefix(c)
    ensures SaltsOf(c, "lunasec-" + a, secret) == SaltsOf(c, "lunasec-" + b, otherSecret)
  {
    hide BigEndian, Drawn, HexEncode, Laws;
    PrefixSeeds(c, a, secret);
    PrefixSeeds(c, b, otherSecret);
  }

  lemma PrefixSeeds(c: Crypto, rest: string, secret: string)
    requires Laws(c) && EncodesPrefix(c)
    ensures SeedBytes(c, TOKEN_PREFIX + rest, secret) == c.utf8(TOKEN_PREFIX)
  {
    assert TOKEN_PREFIX + rest + secret == TOKEN_PREFIX + (rest + secret);
    var prefix, hashed := c.utf8(TOKEN_PREFIX), c.sha3With512(c.utf8(TOKEN_PREFIX + (rest + secret)));
    assert (prefix + c.utf8(rest + secret) + hashed)[..8] == prefix;
  }

  class RandomSource {
    const c: Crypto
    const seed: int
    var position: nat

    constructor (c: Crypto, seed: int)
      ensures this.c == c && this.seed == seed && position == 0
    {
      this.c, this.seed, this.position := c, seed, 0;
    }

    method GetRandomStringOfLength(length: nat) returns (s: string)
      modifies this
      ensures s == HexEncode(Drawn(c, seed, old(position), length)) && position == old(position) + length
    {
      s := HexEncode(Drawn(c, seed, position, length));
      position := position + length;
    }
  }

  method GenerateSaltsAndKey(c: Crypto, token: string, secret: string) returns (snk: SaltsAndKey)
    requires Laws(c)
    ensures snk == SaltsOf(c, token, secret)
  {
    var random := new RandomSource(c, SeedOf(c, token, secret));
    var sp := random.GetRandomStringOfLength(KEY_SIZE);
    var sk := random.GetRandomStringOfLength(KEY_SIZE);
    var kt := random.GetRandomStringOfLength(KEY_SIZE);
    snk := SaltsAndKey(sp, sk, kt);
  }

  function GetCompositeHash(c: Crypto, token: string, salt: string): string {
    HexEncode(c.sha3With256(c.utf8(token + salt)))
  }

  // ----- encryption of one key by another -----

  function GetCipher(keyStr: string): Option<Bytes> {
    var key := HexDecode(keyStr);
    if key.Some? && AesKey(key.value) then key else None
  }

  /** The nonce goes in front of what is sealed with it. */
  function Encrypt(c: Crypto, key: string, plaintext: Bytes, nonce: Bytes): Option<Bytes> {
    var cipher := GetCipher(key);
    if cipher.None? then None else Some(nonce + c.seal(cipher.value, nonce, plaintext))
  }

  /** Slicing off the nonce needs that many bytes. */
  function Decrypt(c: Crypto, key: string, encrypted: Bytes): Option<Bytes>
    requires |encrypted| >= NONCE_SIZE
  {
    var cipher := GetCipher(key);
    if cipher.None? then None else c.open(cipher.value, encrypted[..NONCE_SIZE], encrypted[NONCE_SIZE..])
  }

  lemma DecryptUndoesEncrypt(c: Crypto, key: string, plaintext: Bytes, nonce: Bytes)
    requires Laws(c) && |nonce| == 12 && Encrypt(c, key, plaintext, nonce).Some?
    ensures var e := Encrypt(c, key, plaintext, nonce).value;
      && |e| >= 12 && e[..12] == nonce && Decrypt(c, key, e) == Some(plaintext)
      && HexDecode(key).Some? && e[12..] == c.seal(HexDecode(key).value, nonce, plaintext)
  {
    var sealed := c.seal(GetCipher(key).value, nonce, plaintext);
    assert (nonce + sealed)[..NONCE_SIZE] == nonce && (nonce + sealed)[NONCE_SIZE..] == sealed;
  }

  lemma KtIsAKey(c: Crypto, token: string, secret: string)
    requires Laws(c)
    ensures GetCipher(SaltsOf(c, token, secret).kt).Some?
  {
    HexRoundTrip(Drawn(c, SeedOf(c, token, secret), 2 * KEY_SIZE, KEY_SIZE));
  }

  // ----- the service -----

  function KeyLookupHash(c: Crypto, secret: string, token: string): string
    requires Laws(c)
  {
    GetCompositeHash(c, token, SaltsOf(c, token, secret).sk)
  }

  function ObjectKey(c: Crypto, secret: string, token: string): string
    requires Laws(c)
  {
    GetCompositeHash(c, token, SaltsOf(c, token, secret).sp)
  }

  /** The object is named with the first 32 bytes drawn, the kept key looked up with the next 32 and encrypted with
      the last 32; both hashes are of the token followed by its salt. */
  lemma KeysFromDraws(c: Crypto, secret: string, token: string)
    requires Laws(c)
    ensures var snk, seed := SaltsOf(c, token, secret), SeedOf(c, token, secret);
      var sp, sk, kt := HexDecode(snk.sp), HexDecode(snk.sk), HexDecode(snk.kt);
      && sp.Some? && |sp.value| == 32 && (forall i :: 0 <= i < 32 ==> sp.value[i] == c.randomByte(seed, i))
      && sk.Some? && |sk.value| == 32 && (forall i :: 0 <= i < 32 ==> sk.value[i] == c.randomByte(seed, 32 + i))
      && kt.Some? && |kt.value| == 32 && (forall i :: 0 <= i < 32 ==> kt.value[i] == c.randomByte(seed, 64 + i))
      && ObjectKey(c, secret, token) == HexEncode(c.sha3With256(c.utf8(token + snk.sp)))
      && KeyLookupHash(c, secret, token) == HexEncode(c.sha3With256(c.utf8(token + snk.sk)))
  {
    hide HexEncode, HexDecode, SeedOf, Laws;
    var seed := SeedOf(c, token, secret);
    HexRoundTrip(Drawn(c, seed, 0, KEY_SIZE));
    HexRoundTrip(Drawn(c, seed, KEY_SIZE, KEY_SIZE));
    HexRoundTrip(Drawn(c, seed, 2 * KEY_SIZE, KEY_SIZE));
  }

  /** What is kept for a token: its key, encrypted by the key drawn for the token, in hexadecimal. */
  function KeptKey(c: Crypto, secret: string, token: string, kp: Bytes, nonce: Bytes): string
    requires Laws(c)
  {
    var encrypted := Encrypt(c, SaltsOf(c, token, secret).kt, kp, nonce);
    if encrypted.Some? then HexEncode(encrypted.value) else ""
  }

  /** What is kept is the hexadecimal of the nonce and of the key sealed with the last 32 bytes drawn. */
  lemma KeptIsSealed(c: Crypto, secret: string, token: string, kp: Bytes, nonce: Bytes)
    requires Laws(c)
    ensures var kt := HexDecode(SaltsOf(c, token, secret).kt);
      kt.Some? && HexDecode(KeptKey(c, secret, token, kp, nonce)) == Some(nonce + c.seal(kt.value, nonce, kp))
  {
    hide HexDecode, HexEncode, SaltsOf, Laws;
    KtIsAKey(c, token, secret);
    HexRoundTrip(Encrypt(c, SaltsOf(c, token, secret).kt, kp, nonce).value);
  }

  datatype Grant = Grant(objectKey: string, encryptionKey: Bytes)

  class TokenizerService {
    const c: Crypto
    const secret: string
    var kv: map<string, string>
    var tokenizeSuccess: nat
    var tokenizeFailure: nat
    var detokenizeSuccess: nat
    var detokenizeFailure: nat

    constructor (c: Crypto, secret: string)
      requires Laws(c)
      ensures Valid() && this.c == c && this.secret == secret && kv == map[]
    {
      this.c, this.secret, this.kv := c, secret, map[];
      tokenizeSuccess, tokenizeFailure, detokenizeSuccess, detokenizeFailure := 0, 0, 0, 0;
    }

    /** Everything kept decodes to at least a nonce, so taking the nonce off never fails. */
    ghost predicate Valid()
      reads this
    {
      Laws(c) && forall k :: k in kv ==>
        kv[k] != "" && HexDecode(kv[k]).Some? && |HexDecode(kv[k]).value| >= NONCE_SIZE
    }

    /** The token, the key and the nonce are random; the store and the presigning may fail. */
    method TokenizerSet(token: string, kp: Bytes, nonce: Bytes, kvOk: bool, s3Ok: bool) returns (r: Option<Grant>)
      requires Valid() && |kp| == KEY_SIZE && |nonce| == NONCE_SIZE
      modifies this
      ensures Valid()
      ensures kv == After(c, secret, old(kv), Set(token, kp, nonce, kvOk))
      ensures !kvOk ==> kv == old(kv)
      ensures kvOk ==> kv == old(kv)[KeyLookupHash(c, secret, token) := KeptKey(c, secret, token, kp, nonce)]
      ensures r == if kvOk && s3Ok then Some(Grant(ObjectKey(c, secret, token), kp)) else None
      ensures tokenizeSuccess == old(tokenizeSuccess) + (if r.Some? then 1 else 0)
      ensures tokenizeFailure == old(tokenizeFailure) + (if r.Some? then 0 else 1)
    {
      var snk := GenerateSaltsAndKey(c, token, secret);
      KtIsAKey(c, token, secret);
      var encrypted := Encrypt(c, snk.kt, kp, nonce);
      HexRoundTrip(encrypted.value);
      var ciphertextLookupHash := GetCompositeHash(c, token, snk.sp);
      var encryptionKeyLookupHash := GetCompositeHash(c, token, snk.sk);
      var encryptedEncryptionKey := HexEncode(encrypted.value);
      if !kvOk {
        tokenizeFailure := tokenizeFailure + 1;
        return None;
      }
      kv := kv[encryptionKeyLookupHash := encryptedEncryptionKey];
      if !s3Ok {
        tokenizeFailure := tokenizeFailure + 1;
        return None;
      }
      tokenizeSuccess := tokenizeSuccess + 1;
      r := Some(Grant(ciphertextLookupHash, kp));
    }

    method TokenizerGet(token: string, kvOk: bool, s3Ok: bool) returns (r: Option<Grant>)
      requires Valid()
      modifies this
      ensures Valid() && kv == old(kv)
      ensures r == if kvOk && s3Ok then Looked(c, secret, kv, token) else None
      ensures detokenizeSuccess == old(detokenizeSuccess) + (if r.Some? then 1 else 0)
      ensures detokenizeFailure == old(detokenizeFailure) + (if r.Some? then 0 else 1)
    {
      var snk := GenerateSaltsAndKey(c, token, secret);
      var encryptionKeyLookupHash := GetCompositeHash(c, token, snk.sk);
      var found := if kvOk && encryptionKeyLookupHash in kv then kv[encryptionKeyLookupHash] else "";
      if |found| == 0 {
        detokenizeFailure := detokenizeFailure + 1;
        return None;
      }
      var encrypted := HexDecode(found);
      var kp := Decrypt(c, snk.kt, encrypted.value);
      var ciphertextLookupHash := GetCompositeHash(c, token, snk.sp);
      if kp.None? || !s3Ok {
        detokenizeFailure := detokenizeFailure + 1;
        return None;
      }
      detokenizeSuccess := detokenizeSuccess + 1;
      r := Some(Grant(ciphertextLookupHash, kp.value));
    }
  }

  /** What a lookup finds in a store. */
  function Looked(c: Crypto, secret: string, kv: map<string, string>, token: string): Option<Grant>
    requires Laws(c)
  {
    var hash := KeyLookupHash(c, secret, token);
    if hash !in kv || HexDecode(kv[hash]).None? || |HexDecode(kv[hash]).value| < NONCE_SIZE then None
    else
      var kp := Decrypt(c, SaltsOf(c, token, secret).kt, HexDecode(kv[hash]).value);
      if kp.None? then None else Some(Grant(ObjectKey(c, secret, token), kp.value))
  }

  // ----- whole runs -----

  datatype Event = Set(token: string, kp: Bytes, nonce: Bytes, kvOk: bool) | Get(token: string)

  function After(c: Crypto, secret: string, kv: map<string, string>, e: Event): map<string, string>
    requires Laws(c)
  {
    if e.Set? && e.kvOk then kv[KeyLookupHash(c, secret, e.token) := KeptKey(c, secret, e.token, e.kp, e.nonce)] else kv
  }

  function Store(c: Crypto, secret: string, events: seq<Event>): map<string, string>
    requires Laws(c)
  {
    if events == [] then map[] else After(c, secret, Store(c, secret, events[..|events| - 1]), events[|events| - 1])
  }

  /** The event minted the token, and no other event that kept a key has the same lookup hash. */
  ghost predicate MintedApart(c: Crypto, secret: string, events: seq<Event>, i: nat)
    requires Laws(c)
  {
    && i < |events| && events[i].Set? && events[i].kvOk && |events[i].nonce| == NONCE_SIZE
    && forall j :: 0 <= j < |events| && j != i && events[j].Set? && events[j].kvOk ==>
         KeyLookupHash(c, secret, events[j].token) != KeyLookupHash(c, secret, events[i].token)
  }

  lemma {:induction false} KeptSinceMinted(c: Crypto, secret: string, events: seq<Event>, i: nat, n: nat)
    requires Laws(c) && MintedApart(c, secret, events, i) && i < n <= |events|
    ensures var hash := KeyLookupHash(c, secret, events[i].token);
      hash in Store(c, secret, events[..n])
      && Store(c, secret, events[..n])[hash] == KeptKey(c, secret, events[i].token, events[i].kp, events[i].nonce)
  {
    hide KeyLookupHash, KeptKey;
    assert events[..n][..n - 1] == events[..n - 1];
    if i < n - 1 { KeptSinceMinted(c, secret, events, i, n - 1); }
  }

  /** After any sequence of calls a minted token yields the same object key and the same encryption key. */
  lemma MintedTokenYieldsItsKey(c: Crypto, secret: string, events: seq<Event>, i: nat)
    requires Laws(c) && MintedApart(c, secret, events, i)
    ensures Looked(c, secret, Store(c, secret, events), events[i].token)
      == Some(Grant(ObjectKey(c, secret, events[i].token), events[i].kp))
  {
    KeptSinceMinted(c, secret, events, i, |events|);
    assert events[..|events|] == events;
    var e := events[i];
    KtIsAKey(c, e.token, secret);
    var kt := SaltsOf(c, e.token, secret).kt;
    DecryptUndoesEncrypt(c, kt, e.kp, e.nonce);
    HexRoundTrip(Encrypt(c, kt, e.kp, e.nonce).value);
  }

  /** A token under whose lookup hash nothing was ever kept yields nothing. */
  lemma {:induction false} UnknownTokenYieldsNothing(c: Crypto, secret: string, events: seq<Event>, token: string)
    requires Laws(c)
    requires forall j :: 0 <= j < |events| && events[j].Set? && events[j].kvOk ==>
      KeyLookupHash(c, secret, events[j].token) != KeyLookupHash(c, secret, token)
    ensures Looked(c, secret, Store(c, secret, events), token) == None
  {
    if events != [] {
      var init := events[..|events| - 1];
      forall j | 0 <= j < |init| && init[j].Set? && init[j].kvOk
        ensures KeyLookupHash(c, secret, init[j].token) != KeyLookupHash(c, secret, token)
      {
        assert init[j] == events[j];
      }
      UnknownTokenYieldsNothing(c, secret, init, token);
    }
  }
}
