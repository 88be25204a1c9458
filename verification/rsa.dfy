/** RSA keys and the block-wise RSA-OAEP codec of domain/rsa.go.  The
    cryptographic block operation, the JSON codec and the random source are
    parameters: the model covers how a message is cut into blocks and how the
    blocks are put back together. */
module Rsa {
  import opened Outcomes

  /** The algorithm and hash names written into every encrypted buffer. */
  const RsaOaepName: string := "rsa_oaep"
  const Sha256Name: string := "sha-256"

  /** rsa.PublicKey: modulus N and public exponent E. */
  datatype PublicKey = PublicKey(n: nat, e: int)

  /** rsa.PrivateKey: its public half and the private exponent D, a pointer
      that may be nil. */
  datatype PrivateKey = PrivateKey(publicKey: PublicKey, d: Option<nat>)

  /** A ciphertext with the names of the algorithm and hash that made it. */
  datatype EncryptedBuffer = EncryptedBuffer(buffer: string, algorithm: string, hash: string)

  /** A hash function, known here by its digest size in octets. */
  datatype Hash = Hash(size: nat)
  const Sha256: Hash := Hash(32)

  /** The rsa_oaep algorithm value: the OAEP label ("cypher") and the hash. */
  datatype RsaOaep = RsaOaep(cypher: string, hash: Hash)

  /** PublicKey.IsZero: a key whose exponent is 0 counts as absent, the
      zero value among them, whatever its modulus. */
  predicate IsZero(k: PublicKey): (z: bool)
    ensures k == PublicKey(0, 0) ==> z
    ensures z <==> k.e == 0
  {
    k.e == 0
  }

  /** Number of significant bits of n. */
  function BitLen(n: nat): nat
  {
    if n == 0 then 0 else 1 + BitLen(n / 2)
  }

  /** rsa.PublicKey.Size: the modulus length in octets, the fewest octets
      that hold all of its bits. */
  function Size(k: PublicKey): (r: nat)
    ensures r == 0 <==> k.n == 0
    ensures BitLen(k.n) <= 8 * r < BitLen(k.n) + 8
  {
    (BitLen(k.n) + 7) / 8
  }

  /** The message cut into consecutive blocks of `step` octets, the last one
      possibly shorter; what the loops of Encrypt and Decrypt walk over. */
  function Chunks(s: string, step: nat): seq<string>
    requires step > 0
    decreases |s|
  {
    if |s| == 0 then []
    else if |s| <= step then [s]
    else [s[..step]] + Chunks(s[step..], step)
  }

  function Concat(parts: seq<string>): string
  {
    if parts == [] then "" else parts[0] + Concat(parts[1..])
  }

  /** The blocks put back together give the message. */
  lemma {:induction false} ChunksConcat(s: string, step: nat)
    requires step > 0
    ensures Concat(Chunks(s, step)) == s
    decreases |s|
  {
    if |s| > step {
      ChunksConcat(s[step..], step);
      assert s == s[..step] + s[step..];
    } else if |s| > 0 {
      assert Concat([s]) == s + Concat([]);
    }
  }

  /** Each block holds 1 to `step` octets, and every block but the last
      exactly `step`. */
  lemma {:induction false} ChunksSizes(s: string, step: nat)
    requires step > 0
    ensures forall i :: 0 <= i < |Chunks(s, step)| ==> 0 < |Chunks(s, step)[i]| <= step
    ensures forall i :: 0 <= i < |Chunks(s, step)| - 1 ==> |Chunks(s, step)[i]| == step
    decreases |s|
  {
    if |s| > step {
      ChunksSizes(s[step..], step);
      var rest := Chunks(s[step..], step);
      assert Chunks(s, step) == [s[..step]] + rest;
    }
  }

  /** Cutting a concatenation of full blocks gives the blocks back. */
  lemma {:induction false} ChunksOfFullBlocks(blocks: seq<string>, step: nat)
    requires step > 0
    requires forall i :: 0 <= i < |blocks| ==> |blocks[i]| == step
    ensures Chunks(Concat(blocks), step) == blocks
  {
    if blocks != [] {
      var s := Concat(blocks);
      var rest := blocks[1..];
      assert s == blocks[0] + Concat(rest);
      if rest == [] {
        assert s == blocks[0];
      } else {
        assert Concat(rest) == rest[0] + Concat(rest[1..]);
        assert |s| > step;
        assert s[..step] == blocks[0];
        assert s[step..] == Concat(rest);
        ChunksOfFullBlocks(rest, step);
      }
    }
  }

  /** A block operation applied to every block in order; the first failing
      block's error is the result. */
  function ApplyBlocks(op: string -> Result<string, string>, blocks: seq<string>): Result<string, string>
  {
    if blocks == [] then Ok("")
    else match op(blocks[0])
      case Err(e) => Err(e)
      case Ok(out) =>
        match ApplyBlocks(op, blocks[1..])
        case Err(e) => Err(e)
        case Ok(rest) => Ok(out + rest)
  }

  /** The output already produced, followed by what the remaining blocks give. */
  function Prepend(done: string, r: Result<string, string>): Result<string, string>
  {
    if r.Ok? then Ok(done + r.value) else r
  }

  /** Rest of the message from `offset` on; empty once the offset has passed
      the end, as the loop index in rsa.go does on its last step. */
  function From(s: string, offset: nat): string
  {
    if offset < |s| then s[offset..] else ""
  }

  /** One loop step: the block at the offset, then the blocks after it. */
  lemma StepBlocks(s: string, offset: nat, step: nat)
    requires step > 0 && offset < |s|
    ensures var end := if offset + step > |s| then |s| else offset + step;
      Chunks(From(s, offset), step) == [s[offset..end]] + Chunks(From(s, offset + step), step)
  {
    var r := s[offset..];
    if |r| > step {
      assert r[..step] == s[offset..offset + step];
      assert r[step..] == s[offset + step..];
    } else {
      assert From(s, offset + step) == "";
      assert s[offset..|s|] == r;
      assert Chunks(r, step) == [r];
    }
  }

  lemma PrependStep(op: string -> Result<string, string>, done: string, out: string, blocks: seq<string>)
    requires |blocks| > 0 && op(blocks[0]) == Ok(out)
    ensures Prepend(done, ApplyBlocks(op, blocks)) == Prepend(done + out, ApplyBlocks(op, blocks[1..]))
  {
    var rest := ApplyBlocks(op, blocks[1..]);
    if rest.Ok? {
      assert done + (out + rest.value) == (done + out) + rest.value;
    }
  }

  lemma PrependNothing(r: Result<string, string>)
    ensures Prepend("", r) == r
  {
    if r.Ok? {
      assert "" + r.value == r.value;
    }
  }

  /** Past the end no block is left, and the output is what was produced. */
  lemma FinishBlocks(op: string -> Result<string, string>, done: string, s: string, offset: nat, step: nat)
    requires step > 0 && offset >= |s|
    ensures Prepend(done, ApplyBlocks(op, Chunks(From(s, offset), step))) == Ok(done)
  {
    assert From(s, offset) == "";
    assert done + "" == done;
  }

  datatype EncryptOutcome =
    | Encrypted(result: EncryptedBuffer)
    | EncryptFailed(message: string)
    /** The block length is negative, and slicing with it panics. */
    | SlicePanic
    /** The block length is 0, the empty first block encrypts, and the loop
        never advances. */
    | EncryptLoopsForever

  /** Length of an OAEP plaintext block for this key and hash. */
  function EncryptStep(r: RsaOaep, k: PublicKey): int
  {
    Size(k) - 2 * r.hash.size - 2
  }

  /** rsa_oaep.Encrypt: marshals the value, encrypts it block by block with
      `EncryptStep` octets per block, and labels the result rsa_oaep/sha-256
      whatever the instance's hash. */
  method Encrypt(r: RsaOaep, k: PublicKey, marshalled: Result<string, string>, encryptBlock: string -> Result<string, string>)
    returns (o: EncryptOutcome)
    ensures marshalled.Err? ==> o == EncryptFailed(marshalled.error)
    ensures marshalled.Ok? && |marshalled.value| > 0 && EncryptStep(r, k) < 0 ==> o == SlicePanic
    ensures marshalled.Ok? && |marshalled.value| > 0 && EncryptStep(r, k) == 0 ==>
      match encryptBlock("")
      case Err(e) => o == EncryptFailed(e)
      case Ok(_) => o == EncryptLoopsForever
    ensures marshalled.Ok? && (|marshalled.value| == 0 || EncryptStep(r, k) > 0) ==>
      var step := if EncryptStep(r, k) > 0 then EncryptStep(r, k) else 1;
      match ApplyBlocks(encryptBlock, Chunks(marshalled.value, step))
      case Ok(cipher) => o == Encrypted(EncryptedBuffer(cipher, RsaOaepName, Sha256Name))
      case Err(e) => o == EncryptFailed(e)
  {
    if marshalled.Err? {
      return EncryptFailed(marshalled.error);
    }
    var bytes := marshalled.value;
    var msgLen := |bytes|;
    var step := EncryptStep(r, k);
    if msgLen > 0 && step < 0 {
      return SlicePanic;
    }
    if msgLen > 0 && step == 0 {
      // The first block is bytes[0:0]; if that one encrypts, the offset never moves.
      var block := encryptBlock(bytes[0..0]);
      if block.Err? {
        return EncryptFailed(block.error);
      }
      return EncryptLoopsForever;
    }
    var stride: nat := if step > 0 then step else 1;
    var encrypted := "";
    var offset: nat := 0;
    assert From(bytes, 0) == bytes;
    PrependNothing(ApplyBlocks(encryptBlock, Chunks(bytes, stride)));
    while offset < msgLen
      invariant Prepend(encrypted, ApplyBlocks(encryptBlock, Chunks(From(bytes, offset), stride)))
        == ApplyBlocks(encryptBlock, Chunks(bytes, stride))
      decreases msgLen - offset
    {
      var end := offset + stride;
      if end > msgLen {
        end := msgLen;
      }
      StepBlocks(bytes, offset, stride);
      var block := encryptBlock(bytes[offset..end]);
      if block.Err? {
        return EncryptFailed(block.error);
      }
      PrependStep(encryptBlock, encrypted, block.value, Chunks(From(bytes, offset), stride));
      encrypted := encrypted + block.value;
      offset := offset + stride;
    }
    FinishBlocks(encryptBlock, encrypted, bytes, offset, stride);
    return Encrypted(EncryptedBuffer(encrypted, RsaOaepName, Sha256Name));
  }

  datatype DecryptOutcome =
    /** The decrypted octets reached the JSON decoder, which answered `verdict`. */
    | Decoded(plain: string, verdict: Option<string>)
    | DecryptFailed(message: string)
    /** The key's modulus is 0 octets long, the empty first block decrypts,
        and the loop never advances. */
    | DecryptLoopsForever

  /** rsa_oaep.Decrypt: cuts the ciphertext into blocks of the modulus size,
      decrypts each, and hands the concatenation to the JSON decoder. The
      buffer's algorithm and hash labels are not consulted. */
  method Decrypt(r: RsaOaep, k: PrivateKey, b: EncryptedBuffer, decryptBlock: string -> Result<string, string>,
                 unmarshal: string -> Option<string>)
    returns (o: DecryptOutcome)
    ensures |b.buffer| > 0 && Size(k.publicKey) == 0 ==>
      match decryptBlock("")
      case Err(e) => o == DecryptFailed(e)
      case Ok(_) => o == DecryptLoopsForever
    ensures |b.buffer| == 0 || Size(k.publicKey) > 0 ==>
      var step := if Size(k.publicKey) > 0 then Size(k.publicKey) else 1;
      match ApplyBlocks(decryptBlock, Chunks(b.buffer, step))
      case Ok(plain) => o == Decoded(plain, unmarshal(plain))
      case Err(e) => o == DecryptFailed(e)
  {
    var msgLen := |b.buffer|;
    var step := Size(k.publicKey);
    if msgLen > 0 && step == 0 {
      // The first block is buffer[0:0]; if that one decrypts, the offset never moves.
      var block := decryptBlock(b.buffer[0..0]);
      if block.Err? {
        return DecryptFailed(block.error);
      }
      return DecryptLoopsForever;
    }
    var stride: nat := if step > 0 then step else 1;
    var decrypted := "";
    var offset: nat := 0;
    assert From(b.buffer, 0) == b.buffer;
    PrependNothing(ApplyBlocks(decryptBlock, Chunks(b.buffer, stride)));
    while offset < msgLen
      invariant Prepend(decrypted, ApplyBlocks(decryptBlock, Chunks(From(b.buffer, offset), stride)))
        == ApplyBlocks(decryptBlock, Chunks(b.buffer, stride))
      decreases msgLen - offset
    {
      var end := offset + stride;
      if end > msgLen {
        end := msgLen;
      }
      StepBlocks(b.buffer, offset, stride);
      var block := decryptBlock(b.buffer[offset..end]);
      if block.Err? {
        return DecryptFailed(block.error);
      }
      PrependStep(decryptBlock, decrypted, block.value, Chunks(From(b.buffer, offset), stride));
      decrypted := decrypted + block.value;
      offset := offset + stride;
    }
    FinishBlocks(decryptBlock, decrypted, b.buffer, offset, stride);
    return Decoded(decrypted, unmarshal(decrypted));
  }

  /** Successful block encryption with every block mapped to one full
      modulus-sized ciphertext block. */
  lemma {:induction false} ApplyFullBlocks(op: string -> Result<string, string>, blocks: seq<string>, width: nat)
    requires forall i :: 0 <= i < |blocks| ==> op(blocks[i]).Ok? && |op(blocks[i]).value| == width
    ensures ApplyBlocks(op, blocks).Ok?
    ensures ApplyBlocks(op, blocks).value == Concat(seq(|blocks|, i requires 0 <= i < |blocks| => op(blocks[i]).value))
  {
    if blocks != [] {
      ApplyFullBlocks(op, blocks[1..], width);
      var outs := seq(|blocks|, i requires 0 <= i < |blocks| => op(blocks[i]).value);
      assert outs[1..] == seq(|blocks| - 1, i requires 0 <= i < |blocks| - 1 => op(blocks[1..][i]).value);
    }
  }

  /** Decrypting what Encrypt produced gives back the marshalled octets, when
      every plaintext block of at most `EncryptStep` octets encrypts to one
      modulus-sized block that the private key decrypts back. */
  lemma {:induction false} BlockRoundTrip(s: string, encStep: nat, decStep: nat,
                                          enc: string -> Result<string, string>, dec: string -> Result<string, string>)
    requires encStep > 0 && decStep > 0
    requires forall c :: 0 < |c| <= encStep ==> enc(c).Ok? && |enc(c).value| == decStep && dec(enc(c).value) == Ok(c)
    ensures ApplyBlocks(enc, Chunks(s, encStep)).Ok?
    ensures ApplyBlocks(dec, Chunks(ApplyBlocks(enc, Chunks(s, encStep)).value, decStep)) == Ok(s)
  {
    var plain := Chunks(s, encStep);
    ChunksSizes(s, encStep);
    ChunksConcat(s, encStep);
    ApplyFullBlocks(enc, plain, decStep);
    var outs := seq(|plain|, i requires 0 <= i < |plain| => enc(plain[i]).value);
    ChunksOfFullBlocks(outs, decStep);
    ApplyFullBlocksInverse(dec, outs, plain);
  }

  lemma {:induction false} ApplyFullBlocksInverse(op: string -> Result<string, string>, blocks: seq<string>, plain: seq<string>)
    requires |blocks| == |plain|
    requires forall i :: 0 <= i < |blocks| ==> op(blocks[i]) == Ok(plain[i])
    ensures ApplyBlocks(op, blocks) == Ok(Concat(plain))
  {
    if blocks != [] {
      ApplyFullBlocksInverse(op, blocks[1..], plain[1..]);
    }
  }
}
