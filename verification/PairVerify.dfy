/** The pair-verify exchange (src/crypto/ap_crypto.cpp): both sides derive the same stream cipher from
    a shared secret and send each other encrypted signatures over both public keys. */
module PairVerify {
  import opened AesCtr
  import opened BigEndianBytes
  import opened Clamping
  import opened DonnaLadder
  import opened Ed25519
  import opened KeyAgreement
  import opened LittleEndian
  import opened MachineInts
  import Sha512Words
  import opened X25519

  /** "Pair-Verify-AES-Key" and "Pair-Verify-AES-IV" */
  const KEY_TAG: seq<byte> := [0x50, 0x61, 0x69, 0x72, 0x2d, 0x56, 0x65, 0x72, 0x69, 0x66, 0x79, 0x2d,
                                 0x41, 0x45, 0x53, 0x2d, 0x4b, 0x65, 0x79]
  const IV_TAG: seq<byte> := [0x50, 0x61, 0x69, 0x72, 0x2d, 0x56, 0x65, 0x72, 0x69, 0x66, 0x79, 0x2d,
                                0x41, 0x45, 0x53, 0x2d, 0x49, 0x56]

  /** The bytes of a C string. */
  ghost function Text(s: string): (b: seq<byte>)
    ensures |b| == |s|
  {
    seq(|s|, i requires 0 <= i < |s| => (s[i] as int % 0x100) as byte)
  }

  lemma TagsAreText()
    ensures KEY_TAG == Text("Pair-Verify-AES-Key") && IV_TAG == Text("Pair-Verify-AES-IV")
  {
  }

  /** A signature scheme, and a block cipher for every key. */
  datatype Suite = Suite(scheme: Scheme, cipher: seq<byte> -> Cipher)
  {
    ghost predicate Trusted()
    {
      scheme.Trusted() && forall k :: Ciphers(k)
    }

    ghost predicate Ciphers(k: seq<byte>)
    {
      cipher(k).Valid()
    }

    function CipherFor(k: seq<byte>): (c: Cipher)
      requires Trusted()
      ensures c.Valid()
    {
      assert Ciphers(k);
      cipher(k)
    }

    /** The first 16 bytes of the hash of a tag and the secret. */
    ghost function Derived(tag: seq<byte>, secret: seq<byte>): (k: seq<byte>)
      requires Trusted()
      ensures |k| == 16
    {
      Sha512Words.Sha512(tag + secret)[..16]
    }
  }

  /** One hash over two updates, cut to 16 bytes. */
  method Derive(s: Suite, tag: seq<byte>, secret: seq<byte>) returns (k: seq<byte>)
    requires s.Trusted()
    ensures k == s.Derived(tag, secret)
  {
    k := Sha512Words.HashTwo(tag, secret);
    k := k[..16];
  }

  /** `server_key_chain`, whose two random strings are given. */
  method KeyChain(s: Suite, seed: seq<byte>, curvePrivate: seq<byte>)
    returns (edPublic: seq<byte>, edPrivate: seq<byte>, curvePublic: seq<byte>)
    requires s.Trusted() && |seed| == |curvePrivate| == 32
    ensures |edPublic| == 32 && s.scheme.IsKeyPair(seed, edPublic, edPrivate)
    ensures |curvePublic| == 32 && curvePublic == PublicOf(curvePrivate)
  {
    hide Clamped, Ladder, SharedSecret, LE;
    var made := new byte[32];
    Donna(made, curvePrivate, Default);
    curvePublic := made[..];
    IsSharedSecret(curvePublic, curvePrivate, PointBytes(Default));
    var priv;
    edPublic, priv := CreateKeypair(s.scheme, seed);
    edPrivate := priv[..];
  }

  /** `ap_crypto`, as far as pair-verify goes, on either side of the connection. */
  class Party {
    const suite: Suite
    const edPublic: seq<byte>
    const edPrivate: seq<byte>
    const curvePublic: seq<byte>
    const curvePrivate: seq<byte>
    var otherEd: seq<byte>
    var otherCurve: seq<byte>
    var stream: Stream
    ghost const seed: seq<byte>

    /** The keys are a pair, and all of them have their lengths. */
    ghost predicate Keys()
      requires suite.Trusted()
      reads this
    {
      && suite.scheme.IsKeyPair(seed, edPublic, edPrivate)
      && |edPublic| == |curvePublic| == |curvePrivate| == |otherEd| == |otherCurve| == 32
      && curvePublic == PublicOf(curvePrivate)
    }

    ghost predicate Valid()
      reads this, stream, stream.ivec, stream.ecount
    {
      suite.Trusted() && Keys() && stream.Valid()
    }

    /** The key chain and `init_client_public_keys`; the stream is not set up yet. */
    constructor (suite: Suite, ghost seed: seq<byte>, edPublic: seq<byte>, edPrivate: seq<byte>,
        curvePublic: seq<byte>, curvePrivate: seq<byte>, otherEd: seq<byte>, otherCurve: seq<byte>)
      requires suite.Trusted() && suite.scheme.IsKeyPair(seed, edPublic, edPrivate)
      requires |edPublic| == |curvePublic| == |curvePrivate| == |otherEd| == |otherCurve| == 32
      requires curvePublic == PublicOf(curvePrivate)
      ensures Valid() && fresh(stream) && fresh(stream.ivec) && fresh(stream.ecount)
      ensures this.suite == suite && this.seed == seed && this.edPublic == edPublic && this.edPrivate == edPrivate
      ensures this.curvePublic == curvePublic && this.curvePrivate == curvePrivate
      ensures this.otherEd == otherEd && this.otherCurve == otherCurve
    {
      hide Scheme.Trusted, Scheme.IsKeyPair;
      this.suite, this.seed, this.edPublic, this.edPrivate := suite, seed, edPublic, edPrivate;
      this.curvePublic, this.curvePrivate := curvePublic, curvePrivate;
      this.otherEd, this.otherCurve := otherEd, otherCurve;
      var zeros := seq(16, _ => 0 as byte);
      stream := new Stream(suite.CipherFor(zeros), zeros);
    }

    /** `init_pair_verify_aes`: key and initial counter are derived from the shared secret. */
    method InitPairVerifyAes()
      requires Valid()
      modifies `stream
      ensures Valid() && fresh(stream) && fresh(stream.ivec) && fresh(stream.ecount)
      ensures Streams(SharedSecret(curvePrivate, otherCurve), 0)
      ensures var secret := SharedSecret(curvePrivate, otherCurve);
        && stream.cipher == suite.CipherFor(Sha512Words.Sha512(Text("Pair-Verify-AES-Key") + secret)[..16])
        && stream.iv == BE(Sha512Words.Sha512(Text("Pair-Verify-AES-IV") + secret)[..16]) && stream.pos == 0
    {
      hide Scheme.Trusted, Scheme.IsKeyPair, Clamped, Ladder, SharedSecret, Suite.CipherFor, Text, BE;
      hide Sha512Words.Sha512;
      TagsAreText();
      var shared := new byte[32];
      Donna(shared, curvePrivate, Given(otherCurve));
      var secret := shared[..];
      IsSharedSecret(secret, curvePrivate, otherCurve);
      var key := Derive(suite, KEY_TAG, secret);
      var iv := Derive(suite, IV_TAG, secret);
      stream := new Stream(suite.CipherFor(key), iv);
    }

    /** The stream is the one derived from the secret, at this position. */
    ghost predicate Streams(secret: seq<byte>, pos: nat)
      requires suite.Trusted()
      reads this, stream
    {
      && stream.cipher == suite.CipherFor(suite.Derived(KEY_TAG, secret))
      && stream.iv == BE(suite.Derived(IV_TAG, secret)) && stream.pos == pos
    }

    /** `pair_verify_aes_ctr_.xcrypt_buffer`, on a copy. */
    method Xcrypt(d: seq<byte>, ghost secret: seq<byte>, ghost pos: nat) returns (e: seq<byte>)
      requires Valid() && Streams(secret, pos)
      modifies stream`num, stream`pos, stream.ivec, stream.ecount
      ensures Valid() && Streams(secret, pos + |d|)
      ensures e == Xcrypted(stream.cipher, stream.iv, pos, d)
    {
      hide Keys, Suite.Trusted, Suite.Derived, Cipher.Valid, Xcrypted;
      var buffer := ToArray(d);
      stream.Xcrypt(buffer, buffer, |d|);
      e := buffer[..];
      assert buffer[..|d|] == buffer[..] && d[..|d|] == d;
    }

    /** `sign_pair_signature`. */
    method SignPairSignature(ghost secret: seq<byte>, ghost pos: nat) returns (e: seq<byte>, ghost sig: seq<byte>)
      requires Valid() && Streams(secret, pos)
      modifies stream`num, stream`pos, stream.ivec, stream.ecount
      ensures Valid() && Streams(secret, pos + 64)
      ensures suite.scheme.IsSignature(curvePublic + otherCurve, edPublic, edPrivate, sig)
      ensures e == Xcrypted(stream.cipher, stream.iv, pos, sig)
    {
      hide Scheme.Trusted, Scheme.IsSignature, Suite.Derived, Cipher.Valid, Xcrypted, Suite.CipherFor;
      hide Sha512Words.Sha512;
      var signature := new byte[64];
      Sign(suite.scheme, signature, curvePublic + otherCurve, edPublic, edPrivate);
      sig := signature[..];
      e := Xcrypt(signature[..], secret, pos);
    }

    /** `verify_pair_signature`. Only the first 64 bytes are looked at. */
    method VerifyPairSignature(p: seq<byte>, ghost secret: seq<byte>, ghost pos: nat) returns (ok: bool)
      requires Valid() && Streams(secret, pos) && |p| >= 64
      modifies stream`num, stream`pos, stream.ivec, stream.ecount
      ensures Valid() && Streams(secret, pos + |p|)
      ensures ok <==> suite.scheme.Accepts(otherCurve + curvePublic, otherEd, Xcrypted(stream.cipher, stream.iv,
          pos, p)[..64])
    {
      hide Scheme.Trusted, Suite.Derived, Cipher.Valid, Xcrypted, Suite.CipherFor;
      var plain := Xcrypt(p, secret, pos);
      ok := Verify(suite.scheme, plain[..64], otherCurve + curvePublic, otherEd);
    }
  }

  /** What one side encrypts at a position of the stream, the other decrypts at the same position and
      accepts. */
  lemma HonestPeerAccepted(suite: Suite, seed: seq<byte>, pub: seq<byte>, priv: seq<byte>,
                                             m: seq<byte>, sig: seq<byte>, c: Cipher, iv: nat, pos: nat)
    requires suite.Trusted() && c.Valid()
    requires suite.scheme.IsKeyPair(seed, pub, priv) && suite.scheme.IsSignature(m, pub, priv, sig)
    ensures |sig| == 64 && suite.scheme.Accepts(m, pub, Xcrypted(c, iv, pos, Xcrypted(c, iv, pos, sig))[..64])
  {
    hide Scheme.Trusted, Cipher.Valid, Xcrypted, Scheme.Accepts;
    SelfInverse(c, iv, pos, sig);
    assert sig[..64] == sig;
    SignaturesAreAccepted(suite.scheme, seed, m, pub, priv, sig);
  }

  /** Both sides arrive at the same secret. */
  lemma SameSecrets(server: Party, client: Party)
    requires server.Valid() && client.Valid()
    requires server.otherCurve == client.curvePublic && client.otherCurve == server.curvePublic
    ensures SharedSecret(server.curvePrivate, server.otherCurve) == SharedSecret(client.curvePrivate, client.otherCurve)
  {
    hide SharedSecret, Scheme.IsKeyPair;
    SecretsAgree(server.curvePrivate, client.curvePrivate);
  }

  /** The whole exchange between two honest sides that know each other's public keys: they arrive at the
      same secret, the server signs first, and both signatures are accepted. */
  method Exchange(server: Party, client: Party) returns (clientOk: bool, serverOk: bool)
    requires server.Valid() && client.Valid() && server != client && server.suite == client.suite
    requires server.otherEd == client.edPublic && server.otherCurve == client.curvePublic
    requires client.otherEd == server.edPublic && client.otherCurve == server.curvePublic
    modifies server`stream, client`stream
    ensures clientOk && serverOk
  {
    hide Suite.Trusted, Suite.Derived, Suite.CipherFor, Cipher.Valid, Xcrypted, Scheme.IsKeyPair,
        Scheme.IsSignature, Scheme.Accepts, SharedSecret, Text, BE, Sha512Words.Sha512;
    ghost var secret := SharedSecret(server.curvePrivate, server.otherCurve);
    SameSecrets(server, client);
    server.InitPairVerifyAes();
    client.InitPairVerifyAes();
    var first, sig := server.SignPairSignature(secret, 0);
    HonestPeerAccepted(server.suite, server.seed, server.edPublic, server.edPrivate,
                       server.curvePublic + server.otherCurve, sig, server.stream.cipher, server.stream.iv, 0);
    clientOk := client.VerifyPairSignature(first, secret, 0);
    var second, sig2 := client.SignPairSignature(secret, 64);
    HonestPeerAccepted(client.suite, client.seed, client.edPublic, client.edPrivate,
                       client.curvePublic + client.otherCurve, sig2, client.stream.cipher, client.stream.iv, 64);
    serverOk := server.VerifyPairSignature(second, secret, 64);
  }

  /** From the random strings on: two key chains, the exchange of the public keys, and the exchange of
      the signatures. */
  method PairUp(s: Suite, seed1: seq<byte>, curve1: seq<byte>, seed2: seq<byte>, curve2: seq<byte>)
    returns (clientOk: bool, serverOk: bool)
    requires s.Trusted() && |seed1| == |curve1| == |seed2| == |curve2| == 32
    ensures clientOk && serverOk
  {
    hide Suite.Trusted, Scheme.IsKeyPair, SharedSecret;
    var ed1, private1, public1 := KeyChain(s, seed1, curve1);
    var ed2, private2, public2 := KeyChain(s, seed2, curve2);
    var server := new Party(s, seed1, ed1, private1, public1, curve1, ed2, public2);
    var client := new Party(s, seed2, ed2, private2, public2, curve2, ed1, public1);
    clientOk, serverOk := Exchange(server, client);
  }
}
