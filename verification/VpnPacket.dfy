/** The encrypted packets of the VPN overlay (net/platform.py). */
module VpnPacket {
  type Bytes = seq<bv8>

  const MAGIC: Bytes := [0x4E, 0x4F, 0x56, 0x41]
  const NONCE_LEN := 16
  const HMAC_LEN := 32
  const BLOCK := 32

  /** The block counter has 32 bits. */
  const MAX_PAYLOAD := BLOCK * 0x1_0000_0000

  /** SHA-256, and HMAC over it as in section 2 of RFC 2104; all that is known of them is their length. */
  datatype Crypto = Crypto(sha: Bytes -> Bytes, hmac: (Bytes, Bytes) -> Bytes)
  {
    ghost predicate Valid() {
      (forall m :: |sha(m)| == BLOCK) && forall k, m :: |hmac(k, m)| == HMAC_LEN
    }
  }

  datatype Outcome = Payload(bytes: Bytes) | Rejected | CounterOverflow

  /** The byte that stands for a number. */
  function Byte(n: nat): (b: bv8)
    requires n < 0x100
    ensures b as nat == n
  {
    if n == 0 then 0 else Byte(n - 1) + 1
  }

  function BigEndian(n: nat): Bytes
    requires n < 0x1_0000_0000
  {
    [Byte(n / 0x100_0000), Byte(n / 0x1_0000 % 0x100), Byte(n / 0x100 % 0x100), Byte(n % 0x100)]
  }

  /** The first n blocks of a key's stream. */
  function Stream(c: Crypto, key: Bytes, n: nat): (stream: Bytes)
    requires n <= 0x1_0000_0000
  {
    if n == 0 then [] else Stream(c, key, n - 1) + c.sha(key + BigEndian(n - 1))
  }

  lemma {:induction false} StreamLength(c: Crypto, key: Bytes, n: nat)
    requires c.Valid() && n <= 0x1_0000_0000
    ensures |Stream(c, key, n)| == BLOCK * n
  {
    if n > 0 {
      StreamLength(c, key, n - 1);
    }
  }

  /* ---------- the cipher byte by byte ---------- */

  /** The number four bytes stand for, the high byte first. */
  function Value(bytes: Bytes): nat
    requires |bytes| == 4
  {
    0x100_0000 * bytes[0] as nat + 0x1_0000 * bytes[1] as nat + 0x100 * bytes[2] as nat + bytes[3] as nat
  }

  /**
   Byte i of a text is enciphered with byte i % 32 of the digest of the stream key, the digest of key and nonce,
   followed by the block number i / 32 in four bytes, high byte first.
   */
  ghost predicate EncipheredAt(c: Crypto, key: Bytes, nonce: Bytes, from: Bytes, to: Bytes, i: nat) {
    && i < |from| && i < |to|
    && (exists be :: |be| == 4 && Value(be) == i / 32 && EncipheredWith(c.sha(c.sha(key + nonce) + be), from, to, i))
  }

  predicate EncipheredWith(digest: Bytes, from: Bytes, to: Bytes, i: nat)
    requires i < |from| && i < |to|
  {
    |digest| == 32 && to[i] == from[i] ^ digest[i % 32]
  }

  ghost predicate Enciphered(c: Crypto, key: Bytes, nonce: Bytes, from: Bytes, to: Bytes) {
    |to| == |from| && forall i: nat | i < |from| :: EncipheredAt(c, key, nonce, from, to, i)
  }

  lemma {:induction false} ValueOfBigEndian(n: nat)
    requires n < 0x1_0000_0000
    ensures |BigEndian(n)| == 4 && Value(BigEndian(n)) == n
  {
    FourDigits(n);
  }

  lemma {:induction false} FourDigits(n: nat)
    ensures n == 0x100_0000 * (n / 0x100_0000) + 0x1_0000 * (n / 0x1_0000 % 0x100) + 0x100 * (n / 0x100 % 0x100)
              + n % 0x100
  {
    assert n / 0x1_0000 == 0x100 * (n / 0x100_0000) + n / 0x1_0000 % 0x100;
    assert n / 0x100 == 0x100 * (n / 0x1_0000) + n / 0x100 % 0x100;
  }

  lemma {:induction false} StreamByte(c: Crypto, key: Bytes, n: nat, block: nat, k: nat)
    requires c.Valid() && block < n <= 0x1_0000_0000 && k < BLOCK
    ensures |Stream(c, key, n)| == BLOCK * n
    ensures Stream(c, key, n)[BLOCK * block + k] == c.sha(key + BigEndian(block))[k]
    decreases n
  {
    StreamLength(c, key, n);
    StreamLength(c, key, n - 1);
    if block < n - 1 {
      StreamByte(c, key, n - 1, block, k);
    }
  }

  lemma {:induction false} MaskEnciphersAt(c: Crypto, key: Bytes, nonce: Bytes, from: Bytes, i: nat)
    requires c.Valid() && i < |from| <= MAX_PAYLOAD
    ensures EncipheredAt(c, key, nonce, from, Xored(from, Mask(c, key, nonce, |from|)), i)
  {
    MaskCovers(c, key, nonce, |from|);
    var block, k := i / BLOCK, i % BLOCK;
    assert i == BLOCK * block + k;
    StreamByte(c, c.sha(key + nonce), Blocks(|from|), block, k);
    ValueOfBigEndian(block);
    var be := BigEndian(block);
    assert |be| == 4 && Value(be) == i / 32;
    assert EncipheredWith(c.sha(c.sha(key + nonce) + be), from, Xored(from, Mask(c, key, nonce, |from|)), i);
  }

  lemma {:induction false} MaskEnciphers(c: Crypto, key: Bytes, nonce: Bytes, from: Bytes)
    requires c.Valid() && |from| <= MAX_PAYLOAD
    ensures Enciphered(c, key, nonce, from, Xored(from, Mask(c, key, nonce, |from|)))
  {
    MaskCovers(c, key, nonce, |from|);
    forall i: nat | i < |from|
      ensures EncipheredAt(c, key, nonce, from, Xored(from, Mask(c, key, nonce, |from|)), i)
    {
      MaskEnciphersAt(c, key, nonce, from, i);
    }
  }

  function Blocks(n: nat): nat {
    (n + BLOCK - 1) / BLOCK
  }

  /** The shorter of the two decides the length, as when zipping. */
  function Xored(a: Bytes, b: Bytes): (x: Bytes)
    ensures |x| == if |a| <= |b| then |a| else |b|
  {
    seq(if |a| <= |b| then |a| else |b|, i requires 0 <= i < |a| && i < |b| => a[i] ^ b[i])
  }

  /** What a text is exclusive-or'ed with. */
  function Mask(c: Crypto, key: Bytes, nonce: Bytes, n: nat): Bytes
    requires n <= MAX_PAYLOAD
  {
    Stream(c, c.sha(key + nonce), Blocks(n))
  }

  lemma {:induction false} XorTwice(a: Bytes, mask: Bytes)
    requires |a| <= |mask|
    ensures Xored(Xored(a, mask), mask) == a
  {
    var x := Xored(a, mask);
    forall i | 0 <= i < |a|
      ensures Xored(x, mask)[i] == a[i]
    {
    }
  }

  lemma {:induction false} MaskCovers(c: Crypto, key: Bytes, nonce: Bytes, n: nat)
    requires c.Valid() && n <= MAX_PAYLOAD
    ensures |Mask(c, key, nonce, n)| >= n
  {
    StreamLength(c, c.sha(key + nonce), Blocks(n));
  }

  /** The one packet a payload is encrypted to under a key and a nonce. */
  function Sealed(c: Crypto, key: Bytes, nonce: Bytes, payload: Bytes): Bytes
    requires |payload| <= MAX_PAYLOAD
  {
    var body := nonce + Xored(payload, Mask(c, key, nonce, |payload|));
    MAGIC + body + c.hmac(key, body)
  }

  method Keystream(c: Crypto, key: Bytes, nonce: Bytes, n: nat) returns (mask: Bytes, ok: bool)
    requires c.Valid()
    ensures ok <==> n <= MAX_PAYLOAD
    ensures ok ==> mask == Mask(c, key, nonce, n)
  {
    var streamKey := c.sha(key + nonce);
    var block := 0;
    mask, ok := [], true;
    while |mask| < n
      invariant block <= 0x1_0000_0000 && |mask| == BLOCK * block && mask == Stream(c, streamKey, block)
      invariant block > 0 ==> BLOCK * (block - 1) < n
    {
      if block >= 0x1_0000_0000 {
        return mask, false;
      }
      mask := mask + c.sha(streamKey + BigEndian(block));
      block := block + 1;
    }
    BlocksCover(n, block);
  }

  lemma {:induction false} BlocksCover(n: nat, block: nat)
    requires n <= BLOCK * block && (block > 0 ==> BLOCK * (block - 1) < n)
    ensures block == Blocks(n)
  {
  }

  method Encrypt(c: Crypto, payload: Bytes, key: Bytes, nonce: Bytes) returns (packet: Bytes, ok: bool)
    requires c.Valid() && |nonce| == NONCE_LEN
    ensures ok <==> |payload| <= 32 * 0x1_0000_0000
    ensures ok ==> packet == Sealed(c, key, nonce, payload)
    ensures ok ==> exists text ::
      && packet == [0x4E, 0x4F, 0x56, 0x41] + nonce + text + c.hmac(key, nonce + text)
      && Enciphered(c, key, nonce, payload, text)
  {
    var mask;
    mask, ok := Keystream(c, key, nonce, |payload|);
    if !ok {
      return [], false;
    }
    var body := nonce + Xored(payload, mask);
    packet := MAGIC + body + c.hmac(key, body);
    MaskEnciphers(c, key, nonce, payload);
    assert packet == MAGIC + nonce + Xored(payload, mask) + c.hmac(key, body);
  }

  /* ---------- what a packet says ---------- */

  function NonceOf(packet: Bytes): Bytes
    requires |packet| >= |MAGIC| + NONCE_LEN + HMAC_LEN
  {
    packet[|MAGIC|..][..NONCE_LEN]
  }

  function TextOf(packet: Bytes): Bytes
    requires |packet| >= |MAGIC| + NONCE_LEN + HMAC_LEN
  {
    var data := packet[|MAGIC|..];
    data[NONCE_LEN..|data| - HMAC_LEN]
  }

  function MacOf(packet: Bytes): Bytes
    requires |packet| >= |MAGIC| + NONCE_LEN + HMAC_LEN
  {
    var data := packet[|MAGIC|..];
    data[|data| - HMAC_LEN..]
  }

  predicate Authentic(c: Crypto, key: Bytes, packet: Bytes) {
    && |packet| >= |MAGIC| + NONCE_LEN + HMAC_LEN && packet[..|MAGIC|] == MAGIC
    && MacOf(packet) == c.hmac(key, NonceOf(packet) + TextOf(packet))
  }

  /** The packet is the encryption of the payload under some nonce. */
  ghost predicate IsSealing(c: Crypto, key: Bytes, payload: Bytes, packet: Bytes) {
    exists nonce :: |nonce| == NONCE_LEN && |payload| <= MAX_PAYLOAD && packet == Sealed(c, key, nonce, payload)
  }

  lemma {:induction false} PartsOf(nonce: Bytes, text: Bytes, mac: Bytes)
    requires |nonce| == NONCE_LEN && |mac| == HMAC_LEN
    ensures var packet := MAGIC + (nonce + text) + mac;
      NonceOf(packet) == nonce && TextOf(packet) == text && MacOf(packet) == mac && packet[..|MAGIC|] == MAGIC
  {
    assert (MAGIC + (nonce + text) + mac)[|MAGIC|..] == nonce + text + mac;
  }

  lemma {:induction false} SealedIsAuthentic(c: Crypto, key: Bytes, nonce: Bytes, payload: Bytes)
    requires c.Valid() && |nonce| == NONCE_LEN && |payload| <= MAX_PAYLOAD
    ensures var packet := Sealed(c, key, nonce, payload);
      && Authentic(c, key, packet) && NonceOf(packet) == nonce && |TextOf(packet)| == |payload|
      && TextOf(packet) == Xored(payload, Mask(c, key, nonce, |payload|))
  {
    MaskCovers(c, key, nonce, |payload|);
    var text := Xored(payload, Mask(c, key, nonce, |payload|));
    PartsOf(nonce, text, c.hmac(key, nonce + text));
  }

  function Opened(c: Crypto, key: Bytes, packet: Bytes): Bytes
    requires Authentic(c, key, packet) && |TextOf(packet)| <= MAX_PAYLOAD
  {
    Xored(TextOf(packet), Mask(c, key, NonceOf(packet), |TextOf(packet)|))
  }

  /** An authentic packet is the encryption, under its own nonce, of what opening it gives. */
  lemma {:induction false} OpenedIsSealed(c: Crypto, key: Bytes, packet: Bytes)
    requires c.Valid() && Authentic(c, key, packet) && |TextOf(packet)| <= MAX_PAYLOAD
    ensures |Opened(c, key, packet)| <= MAX_PAYLOAD
    ensures packet == Sealed(c, key, NonceOf(packet), Opened(c, key, packet))
  {
    var nonce, text := NonceOf(packet), TextOf(packet);
    MaskCovers(c, key, nonce, |text|);
    XorTwice(text, Mask(c, key, nonce, |text|));
    assert |Opened(c, key, packet)| == |text|;
    assert packet[|MAGIC|..] == nonce + text + MacOf(packet);
    assert packet == MAGIC + (nonce + text) + MacOf(packet);
  }

  lemma {:induction false} OpenedIff(c: Crypto, key: Bytes, packet: Bytes, payload: Bytes)
    requires c.Valid()
    ensures IsSealing(c, key, payload, packet)
      <==> Authentic(c, key, packet) && |TextOf(packet)| <= MAX_PAYLOAD && Opened(c, key, packet) == payload
  {
    if nonce :| |nonce| == NONCE_LEN && |payload| <= MAX_PAYLOAD && packet == Sealed(c, key, nonce, payload) {
      SealedIsAuthentic(c, key, nonce, payload);
      MaskCovers(c, key, nonce, |payload|);
      XorTwice(payload, Mask(c, key, nonce, |payload|));
    } else if Authentic(c, key, packet) && |TextOf(packet)| <= MAX_PAYLOAD {
      OpenedIsSealed(c, key, packet);
    }
  }

  /** Decryption and encryption are inverse: what comes out is what some encryption under the key put in. */
  method Decrypt(c: Crypto, packet: Bytes, key: Bytes) returns (outcome: Outcome)
    requires c.Valid()
    ensures forall p :: outcome == Payload(p) <==> IsSealing(c, key, p, packet)
    ensures outcome == Rejected <==> !Authentic(c, key, packet)
    ensures outcome.Payload? ==> exists nonce, text ::
      && |nonce| == 16 && packet == [0x4E, 0x4F, 0x56, 0x41] + nonce + text + c.hmac(key, nonce + text)
      && Enciphered(c, key, nonce, text, outcome.bytes)
  {
    forall p
      ensures IsSealing(c, key, p, packet)
        <==> Authentic(c, key, packet) && |TextOf(packet)| <= MAX_PAYLOAD && Opened(c, key, packet) == p
    {
      OpenedIff(c, key, packet, p);
    }
    if |packet| < |MAGIC| || packet[..|MAGIC|] != MAGIC {
      return Rejected;
    }
    var data := packet[|MAGIC|..];
    if |data| < NONCE_LEN + HMAC_LEN {
      return Rejected;
    }
    var nonce := data[..NONCE_LEN];
    var mac := data[|data| - HMAC_LEN..];
    var ciphertext := data[NONCE_LEN..|data| - HMAC_LEN];
    if mac != c.hmac(key, nonce + ciphertext) {
      return Rejected;
    }
    var mask, ok := Keystream(c, key, nonce, |ciphertext|);
    if !ok {
      return CounterOverflow;
    }
    outcome := Payload(Xored(ciphertext, mask));
    MaskEnciphers(c, key, nonce, ciphertext);
    assert packet == MAGIC + nonce + ciphertext + mac;
  }

  /** The receiver gets the sender's payload, for every key, nonce and payload the counter can number. */
  method SendAndReceive(c: Crypto, payload: Bytes, key: Bytes, nonce: Bytes) returns (outcome: Outcome)
    requires c.Valid() && |nonce| == NONCE_LEN
    ensures outcome == if |payload| <= MAX_PAYLOAD then Payload(payload) else CounterOverflow
  {
    var packet, ok := Encrypt(c, payload, key, nonce);
    if !ok {
      return CounterOverflow;
    }
    outcome := Decrypt(c, packet, key);
    assert IsSealing(c, key, payload, packet);
  }
}
