/** The password envelope of `encrypt_data` / `decrypt_data`:
    "INVISIOVAULT" ‖ salt (16) ‖ IV (16) ‖ AES-CBC(key, IV, PKCS#7(data)),
    with key = PBKDF2-HMAC-SHA256(UTF-8(password), salt, 100000).
    The block cipher and the key derivation are parameters; only the CBC
    chaining, the padding and the layout are spelled out. */
module Envelope {
  import opened Common
  import opened Pkcs7

  /** `ENCRYPTION_HEADER` */
  const Header: seq<byte> := [0x49, 0x4E, 0x56, 0x49, 0x53, 0x49, 0x4F, 0x56, 0x41, 0x55, 0x4C, 0x54]

  /** PBKDF2 iteration count passed to `hashlib.pbkdf2_hmac`. */
  const Iterations: nat := 100000

  /** Bytes of salt and of IV, each drawn with `os.urandom(16)`. */
  const SaltSize: nat := 16

  const InvalidFormat: string := "Invalid data format"
  const WrongPassword: string := "Incorrect password or corrupted data"
  const BadIvLength: string := "Incorrect IV length (it must be 16 bytes long)"

  /** One 16-byte cipher block. */
  type Block = b: seq<byte> | |b| == 16 witness seq(16, _ => 0)

  /** The primitives the envelope is built from: the AES block functions
      under a key, and PBKDF2-HMAC-SHA256 (password, salt, iterations),
      which takes the password text and includes its `password.encode()`;
      the metadata's UTF-8 codec belongs to `Record.Json`. */
  datatype Crypto = Crypto(
    encryptBlock: (seq<byte>, Block) -> Block,
    decryptBlock: (seq<byte>, Block) -> Block,
    pbkdf2: (string, seq<byte>, nat) -> seq<byte>)

  /** What the round trip needs of AES: under every key, decrypting a block
      undoes encrypting it. */
  ghost predicate IsBlockCipher(c: Crypto)
  {
    forall key, b: Block :: c.decryptBlock(key, c.encryptBlock(key, b)) == b
  }

  /** `derive_key(password, salt)` for a given salt. */
  function DeriveKey(c: Crypto, password: string, salt: seq<byte>): seq<byte>
  {
    c.pbkdf2(password, salt, Iterations)
  }

  /** Bitwise exclusive or of the low k bits of a and b. */
  function XorBits(a: nat, b: nat, k: nat): nat
  {
    if k == 0 then 0 else (a % 2 + b % 2) % 2 + 2 * XorBits(a / 2, b / 2, k - 1)
  }

  /** A k-bit xor has at most k bits. */
  lemma {:induction false} XorBitsBound(a: nat, b: nat, k: nat)
    ensures XorBits(a, b, k) < Pow2(k)
  {
    if k > 0 {
      XorBitsBound(a / 2, b / 2, k - 1);
    }
  }

  /** `a ^ b` on two bytes. */
  function Xor(a: byte, b: byte): byte
  {
    XorBitsBound(a, b, 8);
    assert Pow2(8) == 256;
    XorBits(a, b, 8)
  }

  /** Splitting off the lowest bit and k more bits gives the low k + 1 bits. */
  lemma ModDouble(a: nat, p: nat)
    requires p >= 1
    ensures a % 2 + 2 * ((a / 2) % p) == a % (2 * p)
  {
    var q, r := (a / 2) / p, (a / 2) % p;
    assert a == q * (2 * p) + (2 * r + a % 2);
    DivModUnique(a, q, 2 * r + a % 2, 2 * p);
  }

  /** The lowest bit of a k-bit xor, and the xor of the remaining bits. */
  lemma XorBitsLow(a: nat, b: nat, k: nat)
    requires k > 0
    ensures XorBits(a, b, k) % 2 == (a % 2 + b % 2) % 2
    ensures XorBits(a, b, k) / 2 == XorBits(a / 2, b / 2, k - 1)
  {
  }

  /** One step of xoring twice: the lowest bit comes back, the rest is
      the remaining bits xored twice. */
  lemma XorBitsTwiceStep(a: nat, b: nat, k: nat)
    requires k > 0
    ensures XorBits(XorBits(a, b, k), b, k) == a % 2 + 2 * XorBits(XorBits(a / 2, b / 2, k - 1), b / 2, k - 1)
  {
    XorBitsLow(a, b, k);
  }

  /** Xor with the same b twice gives back the low k bits of a. */
  lemma {:induction false} XorBitsTwice(a: nat, b: nat, k: nat)
    ensures XorBits(XorBits(a, b, k), b, k) == a % Pow2(k)
  {
    if k > 0 {
      XorBitsTwiceStep(a, b, k);
      XorBitsTwice(a / 2, b / 2, k - 1);
      ModDouble(a, Pow2(k - 1));
    }
  }

  /** `(a ^ b) ^ b == a` */
  lemma XorTwice(a: byte, b: byte)
    ensures Xor(Xor(a, b), b) == a
  {
    var x := Xor(a, b);
    assert x == XorBits(a, b, 8);
    assert Xor(x, b) == XorBits(x, b, 8);
    XorBitsTwice(a, b, 8);
    assert Pow2(8) == 256;
  }

  /** Byte-wise exclusive or of two blocks. */
  function XorBlock(a: Block, b: Block): Block
  {
    seq(16, i requires 0 <= i < 16 => Xor(a[i], b[i]))
  }

  lemma XorBlockTwice(a: Block, b: Block)
    ensures XorBlock(XorBlock(a, b), b) == a
  {
    forall i | 0 <= i < 16
      ensures XorBlock(XorBlock(a, b), b)[i] == a[i]
    {
      XorTwice(a[i], b[i]);
    }
  }

  /** CBC encryption: each plaintext block is xored with the previous
      ciphertext block (the IV for the first) and enciphered. */
  function CbcEncrypt(c: Crypto, key: seq<byte>, iv: Block, p: seq<byte>): (r: seq<byte>)
    requires |p| % 16 == 0
    ensures |r| == |p|
    decreases |p|
  {
    if |p| == 0 then []
    else
      var block := c.encryptBlock(key, XorBlock(p[..16], iv));
      block + CbcEncrypt(c, key, block, p[16..])
  }

  /** CBC decryption: each ciphertext block is deciphered and xored with
      the previous ciphertext block (the IV for the first). */
  function CbcDecrypt(c: Crypto, key: seq<byte>, iv: Block, ct: seq<byte>): (r: seq<byte>)
    requires |ct| % 16 == 0
    ensures |r| == |ct|
    decreases |ct|
  {
    if |ct| == 0 then []
    else XorBlock(c.decryptBlock(key, ct[..16]), iv) + CbcDecrypt(c, key, ct[..16], ct[16..])
  }

  /** CBC decryption under the same key and IV undoes CBC encryption. */
  lemma {:induction false} CbcRoundTrip(c: Crypto, key: seq<byte>, iv: Block, p: seq<byte>)
    requires IsBlockCipher(c) && |p| % 16 == 0
    ensures CbcDecrypt(c, key, iv, CbcEncrypt(c, key, iv, p)) == p
    decreases |p|
  {
    if |p| > 0 {
      var block := c.encryptBlock(key, XorBlock(p[..16], iv));
      var ct := CbcEncrypt(c, key, iv, p);
      assert ct[..16] == block && ct[16..] == CbcEncrypt(c, key, block, p[16..]);
      XorBlockTwice(p[..16], iv);
      CbcRoundTrip(c, key, block, p[16..]);
      assert p == p[..16] + p[16..];
    }
  }

  /** `encrypt_data(data, password)` with the two `os.urandom(16)` draws
      given as `salt` and `iv`. */
  function Encrypt(c: Crypto, data: seq<byte>, password: string, salt: seq<byte>, iv: Block): (r: seq<byte>)
    requires |salt| == SaltSize
  {
    PadShape(data);
    Header + salt + iv + CbcEncrypt(c, DeriveKey(c, password, salt), iv, Pad(data))
  }

  /** `decrypt_data(blob, password)`: no header is "Invalid data format";
      a blob too short to hold a 16-byte IV makes `AES.new` raise (outside
      the try); a ciphertext that is not whole blocks, or that unpads
      badly, is "Incorrect password or corrupted data". */
  function Decrypt(c: Crypto, blob: seq<byte>, password: string): (r: Result<seq<byte>>)
  {
    if !StartsWith(blob, Header) then Err(InvalidFormat)
    else
      var rest := blob[|Header|..];
      var salt, iv, ct := Slice(rest, 0, 16), Slice(rest, 16, 32), Slice(rest, 32, |rest|);
      var key := DeriveKey(c, password, salt);
      if |iv| != 16 then Err(BadIvLength)
      else if |ct| % 16 != 0 then Err(WrongPassword)
      else
        match Unpad(CbcDecrypt(c, key, iv, ct))
        case None => Err(WrongPassword)
        case Some(data) => Ok(data)
  }

  /** Layout of an envelope: the header, the salt, the IV, then whole
      ciphertext blocks, one more than the data fills. */
  lemma EncryptLayout(c: Crypto, data: seq<byte>, password: string, salt: seq<byte>, iv: Block)
    requires |salt| == SaltSize
    ensures var r := Encrypt(c, data, password, salt, iv);
      StartsWith(r, Header) && r[12..28] == salt && r[28..44] == iv &&
      |r| == 44 + 16 * (|data| / 16 + 1)
  {
    PadShape(data);
    var r := Encrypt(c, data, password, salt, iv);
    assert r[..12] == Header;
  }

  /** Round trip: decrypting an envelope with the password it was made with
      gives the data back. */
  lemma DecryptEncrypt(c: Crypto, data: seq<byte>, password: string, salt: seq<byte>, iv: Block)
    requires IsBlockCipher(c) && |salt| == SaltSize
    ensures Decrypt(c, Encrypt(c, data, password, salt, iv), password) == Ok(data)
  {
    var key := DeriveKey(c, password, salt);
    var p := Pad(data);
    PadShape(data);
    var ct := CbcEncrypt(c, key, iv, p);
    var blob := Encrypt(c, data, password, salt, iv);
    assert blob[..12] == Header;
    var rest := blob[12..];
    assert rest == salt + iv + ct;
    assert Slice(rest, 0, 16) == salt;
    assert Slice(rest, 16, 32) == iv;
    assert Slice(rest, 32, |rest|) == ct;
    CbcRoundTrip(c, key, iv, p);
    UnpadPad(data);
  }

  /** What `decrypt_data` can answer: exactly one of its three errors or
      data; the header check comes first, a blob of fewer than 44 bytes
      fails on the IV, and data comes only from a blob of header, salt, IV
      and at least one whole block, at least one byte shorter than that
      ciphertext. */
  lemma DecryptOutcomes(c: Crypto, blob: seq<byte>, password: string)
    ensures var r := Decrypt(c, blob, password);
      (r.Err? ==> r.message in {InvalidFormat, BadIvLength, WrongPassword}) &&
      (r == Err(InvalidFormat) <==> !StartsWith(blob, Header)) &&
      (r == Err(BadIvLength) <==> StartsWith(blob, Header) && |blob| < 44) &&
      (r.Ok? ==> |blob| >= 60 && (|blob| - 44) % 16 == 0 && |r.value| < |blob| - 44)
  {
    var r := Decrypt(c, blob, password);
    if StartsWith(blob, Header) {
      var rest := blob[12..];
      if |rest| >= 32 {
        var ct := Slice(rest, 32, |rest|);
        assert |ct| == |blob| - 44;
        if r.Ok? {
          assert Unpad(CbcDecrypt(c, DeriveKey(c, password, Slice(rest, 0, 16)), Slice(rest, 16, 32), ct)) == Some(r.value);
        }
      }
    }
  }
}
