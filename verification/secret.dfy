/**
 * The salted AES-CBC wrapper: block padding in the style of PKCS #7
 * (section 6.3 of RFC 5652, generalising the PKCS #5 padding of section
 * 6.1.1 of RFC 8018), and Encrypt / Decrypt around CBC mode (section 6.2
 * of NIST SP 800-38A). MD5 and AES-CBC themselves are parameters.
 */
module Secret {

  newtype byte = x: int | 0 <= x < 256

  type Bytes = seq<byte>

  /** aes.BlockSize. */
  const BlockSize: nat := 16

  datatype Error = InputNotFullBlocks | UnPaddingOutOfRange

  datatype Result<T> = Ok(value: T) | Err(error: Error)

  /**
   * The library code the wrapper calls: md5.Sum, and AES in CBC mode
   * (NewCBCEncrypter / NewCBCDecrypter followed by CryptBlocks) under a
   * key and an initialisation vector.
   */
  datatype Primitives = Primitives(
    md5: Bytes -> Bytes,
    cbcEncrypt: (Bytes, Bytes, Bytes) -> Bytes,
    cbcDecrypt: (Bytes, Bytes, Bytes) -> Bytes)
  {
    /** CryptBlocks fills an output buffer exactly as long as its whole-block input. */
    ghost predicate PreservesLength() {
      forall key, iv, x :: |x| % BlockSize == 0 ==>
        |cbcEncrypt(key, iv, x)| == |x| && |cbcDecrypt(key, iv, x)| == |x|
    }

    /** Decrypting under the same key and IV undoes encrypting. */
    ghost predicate DecryptInvertsEncrypt() {
      forall key, iv, x :: |x| % BlockSize == 0 ==> cbcDecrypt(key, iv, cbcEncrypt(key, iv, x)) == x
    }
  }

  /**
   * pcks5Padding: appends between 1 and `size` bytes, each holding the
   * number of bytes appended (truncated to a byte, as Go's byte() does).
   */
  function Pad(data: Bytes, size: nat): (padded: Bytes)
    requires size > 0
    ensures |padded| % size == 0
    ensures |data| < |padded| <= |data| + size
    ensures padded[..|data|] == data
    ensures size < 256 ==> forall i :: |data| <= i < |padded| ==> padded[i] as int == |padded| - |data|
  {
    var padSize := size - |data| % size;
    var padded := data + seq(padSize, _ => (padSize % 256) as byte);
    PadLength(|data|, size);
    assert padded[..|data|] == data;
    padded
  }

  /** Topping a length up by `size - n % size` reaches the next multiple of `size`. */
  lemma PadLength(n: nat, size: nat)
    requires size > 0
    ensures 0 < size - n % size <= size
    ensures (n + (size - n % size)) % size == 0
  {
    var q := n / size;
    assert n == q * size + n % size;
    assert n + (size - n % size) == (q + 1) * size + 0;
    DivModUnique(n + (size - n % size), size, q + 1, 0);
  }

  /** Quotient and remainder are the only ones that rebuild `n`. */
  lemma DivModUnique(n: int, size: nat, q: int, r: int)
    requires size > 0 && n == q * size + r && 0 <= r < size
    ensures n % size == r && n / size == q
  {
    var q', r' := n / size, n % size;
    assert n == q' * size + r';
    assert (q - q') * size == r' - r;
    if q > q' {
      MulGrows(q - q', size);
    } else if q < q' {
      MulGrows(q' - q, size);
    }
  }

  lemma {:induction false} MulGrows(k: int, size: nat)
    requires k >= 1 && size > 0
    ensures k * size >= size
    decreases k
  {
    if k > 1 {
      MulGrows(k - 1, size);
      assert k * size == (k - 1) * size + size;
    }
  }

  /**
   * pcks5UnPadding: drops as many trailing bytes as the last byte says,
   * and fails when that is more than there are. Only the last byte is
   * read; Go indexes it unchecked, so the input must not be empty.
   */
  function Unpad(data: Bytes): (r: Result<Bytes>)
    requires |data| > 0
    ensures r.Err? <==> data[|data| - 1] as int > |data|
    ensures r.Err? ==> r.error == UnPaddingOutOfRange
    ensures r.Ok? ==> |r.value| + data[|data| - 1] as int == |data| && data[..|r.value|] == r.value
  {
    var length := |data|;
    var unPadSize := data[length - 1] as int;
    if unPadSize > length then Err(UnPaddingOutOfRange) else Ok(data[..length - unPadSize])
  }

  /** Unpadding undoes padding, for any block size a byte can count. */
  lemma UnpadPad(data: Bytes, size: nat)
    requires 0 < size < 256
    ensures Unpad(Pad(data, size)) == Ok(data)
  {
    var padded := Pad(data, size);
    assert padded[|padded| - 1] as int == |padded| - |data|;
  }

  /** The pad bytes before the last are not checked. */
  lemma UnpadIgnoresEarlierPadBytes(data: Bytes, b: byte)
    ensures Unpad(data + [b, 2]) == Ok(data)
  {
    assert (data + [b, 2])[..|data|] == data;
  }

  /** A last byte of 0 strips nothing. */
  lemma UnpadZero(data: Bytes)
    requires |data| > 0 && data[|data| - 1] == 0
    ensures Unpad(data) == Ok(data)
  {
    assert data[..|data|] == data;
  }

  /** The wrapper: its salt is mixed into the IV. */
  datatype Secret = Secret(salt: Bytes) {

    /** The AES key: the MD5 digest of the user's key. */
    function Key(p: Primitives, key: Bytes): Bytes {
      p.md5(key)
    }

    /** The IV: the MD5 digest of the salt followed by the user's key. */
    function IV(p: Primitives, key: Bytes): Bytes {
      p.md5(salt + key)
    }

    /** Encrypt: pads to whole AES blocks, then encrypts in CBC mode. */
    function Encrypt(p: Primitives, key: Bytes, data: Bytes): (out: Bytes)
      requires p.PreservesLength()
      ensures |out| == |Pad(data, BlockSize)|
      ensures |out| % BlockSize == 0 && |data| < |out| <= |data| + BlockSize
    {
      var orig := Pad(data, BlockSize);
      p.cbcEncrypt(Key(p, key), IV(p, key), orig)
    }

    /**
     * Decrypt: rejects input that is not whole blocks before decrypting,
     * then decrypts in CBC mode and unpads. Empty input passes the block
     * check and makes Go's unpadding index out of range, so it is excluded.
     */
    function Decrypt(p: Primitives, key: Bytes, data: Bytes): (r: Result<Bytes>)
      requires p.PreservesLength()
      requires |data| > 0
      ensures r == Err(InputNotFullBlocks) <==> |data| % BlockSize != 0
      ensures |data| % BlockSize == 0 ==> r == Unpad(p.cbcDecrypt(Key(p, key), IV(p, key), data))
      ensures r.Ok? ==> |r.value| <= |data|
    {
      if |data| % BlockSize != 0 then Err(InputNotFullBlocks)
      else
        var out := p.cbcDecrypt(Key(p, key), IV(p, key), data);
        Unpad(out)
    }
  }

  /** Decrypt undoes Encrypt for the same salt and key, given a CBC decryption that inverts encryption. */
  lemma EncryptDecrypt(s: Secret, p: Primitives, key: Bytes, data: Bytes)
    requires p.PreservesLength() && p.DecryptInvertsEncrypt()
    ensures |s.Encrypt(p, key, data)| > 0
    ensures s.Decrypt(p, key, s.Encrypt(p, key, data)) == Ok(data)
  {
    var padded := Pad(data, BlockSize);
    assert p.cbcDecrypt(s.Key(p, key), s.IV(p, key), s.Encrypt(p, key, data)) == padded;
    UnpadPad(data, BlockSize);
  }

  /** A partial block is rejected whatever the cipher would have produced. */
  lemma DecryptChecksBlocksFirst(s: Secret, p: Primitives, q: Primitives, key: Bytes, data: Bytes)
    requires p.PreservesLength() && q.PreservesLength()
    requires |data| > 0 && |data| % BlockSize != 0
    ensures s.Decrypt(p, key, data) == s.Decrypt(q, key, data) == Err(InputNotFullBlocks)
  {
  }

  /** A four-byte plaintext encrypts to one 16-byte block. */
  lemma EncryptFourBytes(s: Secret, p: Primitives, key: Bytes, data: Bytes)
    requires p.PreservesLength() && |data| == 4
    ensures |s.Encrypt(p, key, data)| == 16
  {
  }
}
