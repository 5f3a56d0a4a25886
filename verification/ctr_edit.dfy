/** Random-access CTR "edit" oracle and the plaintext-recovery attack on it
    (set4/challenge25.py).

    The block cipher in counter mode (AES-128-CTR, section 6.5 of NIST
    SP 800-38A) is represented by its keystream: a total function giving the
    keystream byte at a position from the key and the initial counter block.
    Everything the oracle and the attacker do is XOR and slicing on top of it. */
module CtrEdit {

  import opened Arithmetic

  type byte = bv8

  /** Key and nonce length of the oracle (`__BLOCKSIZE`). */
  const BlockSize: nat := 16

  type Block = b: seq<byte> | |b| == BlockSize witness seq(BlockSize, _ => 0)

  /** Keystream byte `i` for a key and an initial counter block. */
  type Keystream = (Block, Block, nat) -> byte

  /** The byte the attacker fills its probe with (`'A'`). */
  const ProbeByte: byte := 0x41

  /** Bytewise XOR of `s1` with the prefix of `s2` of the same length
      (`xorstr`); the source indexes `s2` at every position of `s1`. */
  function XorStr(s1: seq<byte>, s2: seq<byte>): (r: seq<byte>)
    requires |s2| >= |s1|
    ensures |r| == |s1|
  {
    seq(|s1|, i requires 0 <= i < |s1| => s1[i] ^ s2[i])
  }

  /** XOR with the same mask twice gives back the input. */
  lemma XorStrInvolution(a: seq<byte>, b: seq<byte>)
    requires |b| >= |a|
    ensures XorStr(XorStr(a, b), b) == a
  {
    var once := XorStr(a, b);
    forall i | 0 <= i < |a|
      ensures XorStr(once, b)[i] == a[i]
    {
      assert once[i] == a[i] ^ b[i];
    }
  }

  /** PKCS#7 padding (section 6.3 of RFC 5652) of `s` to a multiple of
      `length` (`pkcs7_pad`). A zero `length` divides by zero, and `chr(pad)`
      needs `pad <= 255`; any longer block length is fine whenever the pad
      it asks for stays within a byte. */
  function Pkcs7Pad(s: seq<byte>, length: nat): (r: seq<byte>)
    requires 1 <= length && length - |s| % length <= 255
    ensures 1 <= |r| - |s| <= length && |r| - |s| == length - |s| % length
    ensures |r| % length == 0
    ensures r[..|s|] == s
    ensures forall i :: |s| <= i < |r| ==> r[i] == (|r| - |s|) as byte
  {
    PadReachesMultiple(|s|, length);
    var pad := length - |s| % length;
    s + seq(pad, _ => pad as byte)
  }

  /** Adding `c - n % c` to `n` lands on the next multiple of `c`. */
  lemma PadReachesMultiple(n: nat, c: nat)
    requires c > 0
    ensures 1 <= c - n % c <= c
    ensures (n + (c - n % c)) % c == 0
    ensures n + (c - n % c) == (n / c + 1) * c
  {
    DivMod(n, c);
    ModUnique(n + (c - n % c), n / c + 1, 0, c);
  }

  /** The padding is the shortest one that reaches a multiple of `length`:
      any longer length that is a multiple of `length` is at least as long. */
  lemma Pkcs7PadMinimal(s: seq<byte>, length: nat, n: nat)
    requires 1 <= length && length - |s| % length <= 255
    requires |s| < n && n % length == 0
    ensures |Pkcs7Pad(s, length)| <= n
  {
    var q := |s| / length;
    var m := n / length;
    PadReachesMultiple(|s|, length);
    DivMod(|s|, length);
    DivMod(n, length);
    if m <= q {
      MulMonotone(m, q, length);
      assert false;
    }
    MulMonotone(q + 1, m, length);
  }

  /** One session of the edit oracle (`SessionOracle`): key and nonce are
      chosen once at construction and never change. */
  class SessionOracle {
    const key: Block
    const nonce: Block
    /** The CTR keystream of the underlying block cipher. */
    const ks: Keystream

    /** The source draws `key` and `nonce` from `rand_bytes(16)`; here they
        are supplied by the caller. */
    constructor (key: Block, nonce: Block, ks: Keystream)
      ensures this.key == key && this.nonce == nonce && this.ks == ks
    {
      this.key := key;
      this.nonce := nonce;
      this.ks := ks;
    }

    /** The first `n` keystream bytes of this session: a fresh encryptor
        or decryptor starts at counter block `nonce`, position 0. */
    function Keystream(n: nat): (r: seq<byte>)
      ensures |r| == n
      ensures forall i :: 0 <= i < n ==> r[i] == ks(key, nonce, i)
    {
      seq(n, i requires 0 <= i < n => ks(key, nonce, i))
    }

    /** Every stream starts at position 0, so a shorter stream is a prefix
        of a longer one: byte `i` is the same whatever the message length. */
    lemma KeystreamPrefix(n: nat, m: nat)
      requires n <= m
      ensures Keystream(n) == Keystream(m)[..n]
    {
      var short, long := Keystream(n), Keystream(m);
      forall i | 0 <= i < n
        ensures short[i] == long[..n][i]
      {
        assert short[i] == ks(key, nonce, i) == long[i];
      }
    }

    /** `encrypt`: CTR encryption from position 0. */
    function Encrypt(pt: seq<byte>): (ct: seq<byte>)
      ensures |ct| == |pt|
      ensures forall i :: 0 <= i < |pt| ==> ct[i] == pt[i] ^ ks(key, nonce, i)
    {
      XorStr(pt, Keystream(|pt|))
    }

    /** `__decrypt`: CTR decryption, also from position 0. In counter mode
        it XORs the same keystream as encryption does. */
    function Decrypt(ct: seq<byte>): (pt: seq<byte>)
      ensures |pt| == |ct|
      ensures forall i :: 0 <= i < |ct| ==> pt[i] == ct[i] ^ ks(key, nonce, i)
    {
      Encrypt(ct)
    }

    /** `edit`: decrypt `ct`, overwrite the plaintext at `offset` with
        `newtext`, and encrypt again from position 0. The source does not
        check the range; outside it Python slicing changes the length. */
    function Edit(ct: seq<byte>, offset: nat, newtext: seq<byte>): (r: seq<byte>)
      requires offset + |newtext| <= |ct|
      ensures |r| == |ct|
      ensures forall i :: 0 <= i < |ct| && !(offset <= i < offset + |newtext|) ==> r[i] == ct[i]
      ensures forall i :: offset <= i < offset + |newtext| ==> r[i] == newtext[i - offset] ^ ks(key, nonce, i)
    {
      var pt := Decrypt(ct);
      var ptnew := pt[..offset] + newtext + pt[offset + |newtext|..];
      assert forall i :: 0 <= i < |ct| && !(offset <= i < offset + |newtext|) ==> ptnew[i] == pt[i];
      assert forall i :: offset <= i < offset + |newtext| ==> ptnew[i] == newtext[i - offset];
      Encrypt(ptnew)
    }
  }

  /** Decrypting an encryption gives the plaintext back. */
  lemma DecryptEncrypt(o: SessionOracle, p: seq<byte>)
    ensures o.Decrypt(o.Encrypt(p)) == p
  {
    var c := o.Encrypt(p);
    forall i | 0 <= i < |p|
      ensures o.Decrypt(c)[i] == p[i]
    {
      assert c[i] == p[i] ^ o.ks(o.key, o.nonce, i);
    }
  }

  /** Encrypting a decryption gives the ciphertext back. */
  lemma EncryptDecrypt(o: SessionOracle, c: seq<byte>)
    ensures o.Encrypt(o.Decrypt(c)) == c
  {
    var p := o.Decrypt(c);
    forall i | 0 <= i < |c|
      ensures o.Encrypt(p)[i] == c[i]
    {
      assert p[i] == c[i] ^ o.ks(o.key, o.nonce, i);
    }
  }

  /** The keystream depends on the position only, never on the plaintext:
      ciphertext XOR plaintext agrees for any two plaintexts. */
  lemma KeystreamIndependentOfContent(o: SessionOracle, p1: seq<byte>, p2: seq<byte>, i: nat)
    requires i < |p1| && i < |p2|
    ensures o.Encrypt(p1)[i] ^ p1[i] == o.Encrypt(p2)[i] ^ p2[i]
  {
    assert o.Encrypt(p1)[i] == p1[i] ^ o.ks(o.key, o.nonce, i);
    assert o.Encrypt(p2)[i] == p2[i] ^ o.ks(o.key, o.nonce, i);
  }

  /** Editing twice with the same offset and text changes nothing more. */
  lemma EditIdempotent(o: SessionOracle, ct: seq<byte>, offset: nat, newtext: seq<byte>)
    requires offset + |newtext| <= |ct|
    ensures o.Edit(o.Edit(ct, offset, newtext), offset, newtext) == o.Edit(ct, offset, newtext)
  {
    var once := o.Edit(ct, offset, newtext);
    var twice := o.Edit(once, offset, newtext);
    forall i | 0 <= i < |ct|
      ensures twice[i] == once[i]
    {
      if offset <= i < offset + |newtext| {
        assert twice[i] == newtext[i - offset] ^ o.ks(o.key, o.nonce, i);
      }
    }
  }

  /** An edit that covers the whole ciphertext is a fresh encryption of the
      new text, whatever the old ciphertext was. */
  lemma EditWholeIsEncrypt(o: SessionOracle, ct: seq<byte>, newtext: seq<byte>)
    requires |newtext| == |ct|
    ensures o.Edit(ct, 0, newtext) == o.Encrypt(newtext)
  {
    var e := o.Edit(ct, 0, newtext);
    forall i | 0 <= i < |ct|
      ensures e[i] == o.Encrypt(newtext)[i]
    {
      assert e[i] == newtext[i - 0] ^ o.ks(o.key, o.nonce, i);
    }
  }

  /** The attacker (`decrypt(oracle, ct)`): one edit at offset 0 with a probe
      of `len(ct)` bytes 'A', then P = C xor P' xor C'. It sees only `Edit`,
      yet its result is the oracle's own decryption of `ct`. */
  function Recover(oracle: SessionOracle, ct: seq<byte>): (pt: seq<byte>)
    ensures pt == oracle.Decrypt(ct)
  {
    var probe := seq(|ct|, _ => ProbeByte);
    var edited := oracle.Edit(ct, 0, probe);
    EditWholeIsEncrypt(oracle, ct, probe);
    assert forall i :: 0 <= i < |ct| ==> edited[i] ^ probe[i] == oracle.ks(oracle.key, oracle.nonce, i);
    XorStr(XorStr(ct, probe), edited)
  }

  /** Full recovery: the attacker returns every plaintext the oracle
      encrypted, of any length. */
  lemma FullRecovery(o: SessionOracle, p: seq<byte>)
    ensures Recover(o, o.Encrypt(p)) == p
  {
    DecryptEncrypt(o, p);
  }
}
